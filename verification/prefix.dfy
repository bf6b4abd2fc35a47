/**
 * The `:prefix` section: the text between `:` and the next space, split
 * into source, user and host at the first `!` and at the first `@` found
 * from one position before that `!`.
 */
module Prefix {
  import opened Options
  import opened JsText

  /** Where a message comes from: a server name or nickname, with optional user and host. */
  datatype Origin = Origin(source: string, user: Option<string>, host: Option<string>)

  /**
   * Classify a raw prefix. With a `!` and a qualifying `@` it is
   * source!user@host; with only an `@` it is source@host; otherwise the
   * whole prefix is the source, whether it is a dotted server name or a
   * bare nickname.
   */
  function SplitPrefix(prefix: string): (o: Origin)
    ensures o.user.Some? ==> o.host.Some?
    ensures o.host.None? ==> o == Origin(prefix, None, None)
    ensures '@' !in prefix ==> o == Origin(prefix, None, None)
    ensures '!' !in prefix && '@' in prefix ==> o.host.Some? && o.user.None?
  {
    var userPos := IndexOf(prefix, '!', 0);
    var hostPos := IndexOf(prefix, '@', userPos - 1);
    var dotPos := IndexOf(prefix, '.', 0);
    if userPos != -1 && hostPos != -1 then
      Origin(JsSlice(prefix, 0, userPos), Some(JsSlice(prefix, userPos + 1, hostPos)), Some(JsSliceFrom(prefix, hostPos + 1)))
    else if hostPos != -1 then
      Origin(JsSlice(prefix, 0, hostPos), None, Some(JsSliceFrom(prefix, hostPos + 1)))
    else if dotPos != -1 then
      Origin(prefix, None, None)
    else
      Origin(prefix, None, None)
  }

  /**
   * The parts are pieces of the prefix: putting back the separators gives
   * the prefix again, except when the `@` sits right before the `!`, where
   * the user is empty and source and host alone make up the prefix.
   */
  lemma SplitPrefixReassembles(prefix: string)
    ensures var o := SplitPrefix(prefix);
      && (o.host.Some? && o.user.None? ==>
            '!' !in prefix && '@' !in o.source && o.source + ['@'] + o.host.value == prefix)
      && (o.user.Some? ==>
            && '!' !in o.source
            && (|| o.source + ['!'] + o.user.value + ['@'] + o.host.value == prefix
                || (o.user.value == [] && o.source + o.host.value == prefix)))
  {
    var userPos := IndexOf(prefix, '!', 0);
    var hostPos := IndexOf(prefix, '@', userPos - 1);
    if userPos != -1 && hostPos != -1 {
      UserHostPieces(prefix, userPos, hostPos);
    } else if hostPos != -1 {
      var source := prefix[..hostPos];
      var host := prefix[hostPos + 1..];
      assert prefix == source + ['@'] + host;
    }
  }

  /** The pieces the three-way split cuts at a `!` at `u` and an `@` at `h` from `u - 1` on. */
  lemma UserHostPieces(prefix: string, u: nat, h: nat)
    requires u < |prefix| && prefix[u] == '!'
    requires forall k :: 0 <= k < u ==> prefix[k] != '!'
    requires u <= h + 1 && h < |prefix| && prefix[h] == '@'
    ensures var source := JsSlice(prefix, 0, u);
      var user := JsSlice(prefix, u + 1, h);
      var host := JsSliceFrom(prefix, h + 1);
      && '!' !in source
      && (|| source + ['!'] + user + ['@'] + host == prefix
          || (user == [] && source + host == prefix))
  {
    var source := prefix[..u];
    var host := prefix[h + 1..];
    assert '!' !in source;
    if u < h {
      var user := prefix[u + 1..h];
      assert prefix == source + ['!'] + user + ['@'] + host;
    } else {
      assert h + 1 == u;
      assert prefix == source + host;
    }
  }

  /** The prefix as a sender writes it: `source[!user][@host]`. */
  function FormatOrigin(o: Origin): string
  {
    o.source
    + (if o.user.Some? then ['!'] + o.user.value else [])
    + (if o.host.Some? then ['@'] + o.host.value else [])
  }

  /**
   * An origin the parser reads back as written: no separator in the
   * source, no `@` in the user, a user only together with a host, and no
   * `!` in a host that has no user in front of it.
   */
  predicate WellFormedOrigin(o: Origin)
  {
    && '!' !in o.source && '@' !in o.source
    && (o.user.Some? ==> o.host.Some? && '@' !in o.user.value)
    && (o.user.None? && o.host.Some? ==> '!' !in o.host.value)
  }

  /**
   * The first `!` is at `u`, and the first `@` from `u - 1` on is at `h`, after it.
   *
   * Lemmas require it as `... == true`, so that a caller discharges it as one
   * fact it already holds; a plain `requires` would have Dafny check each
   * clause of the body at every call, which costs these proofs dearly.
   */
  predicate SeparatorsAt(prefix: string, u: nat, h: nat)
  {
    && u < h < |prefix| && prefix[u] == '!' && prefix[h] == '@'
    && (forall k :: 0 <= k < u ==> prefix[k] != '!')
    && (forall k :: 0 <= k < h && u <= k + 1 ==> prefix[k] != '@')
  }

  /** The three-way split in terms of the positions of its `!` and `@`. */
  lemma SplitPrefixAt(prefix: string, u: nat, h: nat)
    requires SeparatorsAt(prefix, u, h) == true
    ensures SplitPrefix(prefix) == Origin(prefix[..u], Some(prefix[u + 1..h]), Some(prefix[h + 1..]))
  {
    IndexOfAt(prefix, '!', 0, u);
    if u == 0 {
      IndexOfAt(prefix, '@', 0, h);
    } else {
      IndexOfAt(prefix, '@', u - 1, h);
    }
    SplitFound(prefix, u, h);
  }

  /** The split once both searches have found their separator, `!` at `u` before `@` at `h`. */
  lemma SplitFound(prefix: string, u: nat, h: nat)
    requires u < h < |prefix|
    requires IndexOf(prefix, '!', 0) == u && IndexOf(prefix, '@', u - 1) == h
    ensures SplitPrefix(prefix) == Origin(prefix[..u], Some(prefix[u + 1..h]), Some(prefix[h + 1..]))
  {
  }

  /**
   * The whole prefix is the source, with no user and no host, exactly when
   * no `@` occurs from one position before the first `!` on (from the
   * start, when the `!` is first or there is none). `u` is the position of
   * the first `!`, or -1 without one.
   */
  lemma SplitPrefixSourceOnly(prefix: string, u: int)
    requires u == -1 ==> '!' !in prefix
    requires u != -1 ==> 0 <= u < |prefix| && prefix[u] == '!' && forall k :: 0 <= k < u ==> prefix[k] != '!'
    ensures SplitPrefix(prefix) == Origin(prefix, None, None)
      <==> forall k :: 0 <= k < |prefix| && u - 1 <= k ==> prefix[k] != '@'
  {
    if u == -1 {
      IndexOfNone(prefix, '!', 0);
    } else {
      IndexOfAt(prefix, '!', 0, u);
    }
  }

  /**
   * An `@` right before the first `!`, at `u - 1`: the source is what comes
   * before the `!`, the `@` included, the user is empty and the host is
   * the rest from the `!` on.
   */
  lemma SplitPrefixAdjacent(prefix: string, u: nat)
    requires 1 <= u < |prefix| && prefix[u] == '!' && prefix[u - 1] == '@'
    requires forall k :: 0 <= k < u ==> prefix[k] != '!'
    ensures SplitPrefix(prefix) == Origin(prefix[..u], Some([]), Some(prefix[u..]))
  {
    IndexOfAt(prefix, '!', 0, u);
    IndexOfAt(prefix, '@', u - 1, u - 1);
  }

  /** `source!user@host` splits back into its three parts. */
  lemma SplitFullPrefix(source: string, user: string, host: string)
    requires '!' !in source && '@' !in source && '@' !in user
    ensures SplitPrefix(source + ['!'] + user + ['@'] + host) == Origin(source, Some(user), Some(host))
  {
    FullPrefixChars(source, user, host);
    SplitFullLaid(source + ['!'] + user + ['@'] + host, source, user, host);
  }

  /**
   * `prefix` holds `source`, `!`, `user`, `@` and `host`, character by character.
   *
   * Lemmas require it as `... == true`, so that a caller discharges it as one
   * fact it already holds; a plain `requires` would have Dafny check each
   * clause of the body at every call, which costs these proofs dearly.
   */
  predicate FullPrefixLaid(prefix: string, source: string, user: string, host: string)
  {
    var n := |source|;
    var h := n + 1 + |user|;
    && |prefix| == h + 1 + |host| && prefix[n] == '!' && prefix[h] == '@'
    && (forall k :: 0 <= k < n ==> prefix[k] == source[k])
    && (forall k {:trigger user[k]} :: 0 <= k < |user| ==> prefix[n + 1 + k] == user[k])
    && (forall k {:trigger host[k]} :: 0 <= k < |host| ==> prefix[h + 1 + k] == host[k])
  }

  /** The concatenation side: `source!user@host` as written holds its pieces in place. */
  lemma FullPrefixChars(source: string, user: string, host: string)
    ensures FullPrefixLaid(source + ['!'] + user + ['@'] + host, source, user, host)
  {
  }

  /** A prefix holding `source!user@host` in place, with no separator where the searches would stop early, splits into the three pieces. */
  lemma SplitFullLaid(prefix: string, source: string, user: string, host: string)
    requires FullPrefixLaid(prefix, source, user, host) == true
    requires '!' !in source && '@' !in source && '@' !in user
    ensures SplitPrefix(prefix) == Origin(source, Some(user), Some(host))
  {
    FullPrefixPieces(prefix, source, user, host);
    SplitPrefixAt(prefix, |source|, |source| + 1 + |user|);
  }

  /** Where the searches of the split stop in such a prefix, and the slices they cut. */
  lemma FullPrefixPieces(prefix: string, source: string, user: string, host: string)
    requires FullPrefixLaid(prefix, source, user, host) == true
    requires '!' !in source && '@' !in source && '@' !in user
    ensures var n := |source|; var h := n + 1 + |user|;
      && SeparatorsAt(prefix, n, h)
      && prefix[..n] == source && prefix[n + 1..h] == user && prefix[h + 1..] == host
  {
    var n := |source|;
    var h := n + 1 + |user|;
    assert forall k :: n < k < h ==> prefix[k] == user[k - n - 1];
    assert prefix[..n] == source;
    assert prefix[n + 1..h] == user;
    assert prefix[h + 1..] == host;
  }

  /** `source@host` without any `!` splits back into its two parts. */
  lemma SplitHostPrefix(source: string, host: string)
    requires '!' !in source && '@' !in source && '!' !in host
    ensures SplitPrefix(source + ['@'] + host) == Origin(source, None, Some(host))
  {
    var p := source + ['@'] + host;
    var n := |source|;
    assert forall k :: 0 <= k < n ==> p[k] == source[k];
    assert forall k :: 0 <= k < n ==> p[k] != '@';
    assert '!' !in p;
    assert p[n] == '@';
    IndexOfNone(p, '!', 0);
    IndexOfAt(p, '@', 0, n);
    assert p[..n] == source;
    assert p[n + 1..] == host;
  }

  /** Every well-formed origin survives formatting and splitting unchanged. */
  lemma PrefixRoundTrip(o: Origin)
    requires WellFormedOrigin(o)
    ensures SplitPrefix(FormatOrigin(o)) == o
  {
    match o
    case Origin(source, Some(user), Some(host)) =>
      assert FormatOrigin(o) == source + ['!'] + user + ['@'] + host;
      SplitFullPrefix(source, user, host);
    case Origin(source, None, Some(host)) =>
      assert FormatOrigin(o) == source + ['@'] + host;
      SplitHostPrefix(source, host);
    case Origin(source, None, None) =>
      assert FormatOrigin(o) == source;
      assert '@' !in source;
  }

  /**
   * The `@` search starts one position before the `!`, so an `@` right in
   * front of the `!` is taken as the host separator: the user comes out
   * empty and the host starts with the `!`.
   */
  lemma AtBeforeBang()
    ensures SplitPrefix("a@!b") == Origin("a@", Some(""), Some("!b"))
  {
    var p := "a@!b";
    SplitPrefixAdjacent(p, 2);
  }
}
