/** Optional values: a record field that the parser may leave unset. */
module Options {

  datatype Option<+T> = None | Some(value: T)
}
