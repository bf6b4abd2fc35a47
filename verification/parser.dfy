/**
 * `parseIrcLine`: one left-to-right pass over a line through four
 * sections in fixed order: optional `@tags`, optional `:prefix`, the
 * mandatory verb, and the parameters. The verb gate is the only way to
 * fail; every other section degrades to whatever its index arithmetic
 * yields.
 */
module IrcLine {
  import opened Options
  import opened JsText
  import opened Scanner
  import opened Tags
  import opened Prefix
  import opened Verb
  import opened Params

  /** The parsed record; `servername` is declared by the source but never set, so it has no field. */
  datatype ParsedLine = ParsedLine(
    tags: Option<seq<Tag>>,
    source: Option<string>,
    user: Option<string>,
    host: Option<string>,
    verb: string,
    params: Option<seq<string>>)

  /** The outcome of a parse: the record, or the single error `InvalidMessage`. */
  datatype Result = Success(parsed: ParsedLine) | InvalidMessage

  /**
   * Tag section: when the line starts with `@`, the raw text up to the
   * first space, and the cursor past the spaces after it. Without a space,
   * `indexOf` gives -1, so the text is `slice(1, -1)` and the cursor
   * restarts at 0. The text never holds a space either way.
   */
  function TagsPhase(line: string): (r: (Option<string>, nat))
    ensures r.1 <= |line|
    ensures r.0.Some? <==> |line| > 0 && line[0] == '@'
    ensures r.0.Some? ==> ' ' !in r.0.value
  {
    if |line| > 0 && line[0] == '@' then
      var tagsEnd := IndexOf(line, ' ', 1);
      (Some(JsSlice(line, 1, tagsEnd)), NonSpacePos(line, tagsEnd + 1))
    else
      (None, 0)
  }

  /**
   * Prefix section: when the cursor is on `:`, the raw text up to the next
   * space, and the cursor past the spaces after it; without a space the
   * cursor restarts at 0.
   */
  function PrefixPhase(line: string, pos: nat): (r: (Option<string>, nat))
    requires pos <= |line|
    ensures r.1 <= |line|
    ensures r.0.Some? <==> pos < |line| && line[pos] == ':'
    ensures r.0.Some? ==> ' ' !in r.0.value
  {
    if pos < |line| && line[pos] == ':' then
      var prefixEnd := IndexOf(line, ' ', pos + 1);
      (Some(JsSlice(line, pos + 1, prefixEnd)), NonSpacePos(line, prefixEnd + 1))
    else
      (None, pos)
  }

  /**
   * Verb: the text from the cursor to the next space, or to the content
   * end when no space follows; the cursor then moves past the space and
   * any spaces after it, which can take it one past the end of the line.
   */
  function VerbPhase(line: string, pos: nat): (r: (string, nat))
    requires pos <= |line|
    ensures ' ' !in r.0
    ensures 1 <= r.1 <= |line| + 1
  {
    var spaceAt := IndexOf(line, ' ', pos);
    var verbEnd := if spaceAt == -1 then FindEol(line, pos) else spaceAt;
    (JsSlice(line, pos, verbEnd), NonSpacePos(line, verbEnd + 1))
  }

  /**
   * Parameters: with no `:` after the cursor, the content up to the line
   * end split on spaces with every trailing empty string dropped; with a
   * `:`, the text before it less one character split on spaces with at
   * most one trailing empty string dropped, followed by everything after
   * the `:` up to the line end. An empty list is left out.
   */
  function ParamsPhase(line: string, pos: nat): (params: Option<seq<string>>)
    ensures params.Some? ==> params.value != []
  {
    var trailParamStart := IndexOf(line, ':', pos);
    var all :=
      if trailParamStart == -1 then PopEmpty(MiddleParams(line, pos))
      else PopEmpty(MiddleBefore(line, pos, trailParamStart)) + [TrailingText(line, trailParamStart)];
    if all == [] then None else Some(all)
  }

  /** Without a `:`: the content up to the line end, split on spaces, trailing empty strings dropped. */
  function MiddleParams(line: string, pos: nat): seq<string>
  {
    TrimTrailingEmpties(Split(JsSlice(line, pos, FindEol(line, pos)), ' '))
  }

  /** With a `:` at `trail`: the text before it less one character, split on spaces. */
  function MiddleBefore(line: string, pos: nat, trail: int): seq<string>
  {
    Split(JsSlice(line, pos, trail - 1), ' ')
  }

  /** The trailing parameter: everything after the `:` at `trail` up to the line end. */
  function TrailingText(line: string, trail: int): string
  {
    JsSlice(line, trail + 1, FindEol(line, 0))
  }

  /** `parseIrcLine`: the four sections in order, failing only on an empty line or a bad verb. */
  function ParseIrcLine(line: string): (r: Result)
    ensures line == [] ==> r == InvalidMessage
    ensures r.Success? ==> ValidVerb(r.parsed.verb)
    ensures r.Success? ==> (r.parsed.tags.Some? <==> line[0] == '@')
    ensures r.Success? && r.parsed.user.Some? ==> r.parsed.host.Some?
    ensures r.Success? && r.parsed.host.Some? ==> r.parsed.source.Some?
    ensures r.Success? && r.parsed.params.Some? ==> r.parsed.params.value != []
  {
    if line == [] then InvalidMessage
    else
      var tags := TagsPhase(line);
      var prefix := PrefixPhase(line, tags.1);
      var verb := VerbPhase(line, prefix.1);
      if !ValidVerb(verb.0) then InvalidMessage
      else Success(Assemble(tags.0, prefix.0, verb.0, ParamsPhase(line, verb.1)))
  }

  /** The record built from the raw sections: tags parsed, prefix split into its parts. */
  function Assemble(tags: Option<string>, prefix: Option<string>, verb: string, params: Option<seq<string>>): (m: ParsedLine)
    ensures m.tags.Some? <==> tags.Some?
    ensures m.source.Some? <==> prefix.Some?
    ensures m.user.Some? ==> m.host.Some?
    ensures m.host.Some? ==> m.source.Some?
  {
    var origin := if prefix.Some? then Some(SplitPrefix(prefix.value)) else None;
    ParsedLine(
      if tags.Some? then Some(ParseTags(tags.value)) else None,
      if origin.Some? then Some(origin.value.source) else None,
      if origin.Some? then origin.value.user else None,
      if origin.Some? then origin.value.host else None,
      verb,
      params)
  }
}
