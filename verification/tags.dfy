/**
 * The IRCv3 message-tag section: `@key=value;key;key=...` up to the first
 * space, split on `;`, each token split on `=`, and each value unescaped
 * following "Escaping values" of the IRCv3 Message Tags specification.
 *
 * The escape state is shared by the whole section, not reset per tag: a
 * value ending in a lone backslash makes the first character of the next
 * non-empty value count as escaped.
 */
module Tags {
  import opened JsText

  /** A tag's value: `Flag` for a token without `=`, otherwise the unescaped text. */
  datatype TagValue = Flag | Text(text: string)

  datatype Tag = Tag(key: string, value: TagValue)

  /** The `TAGS_UNESCAPE` table: the character after a backslash and what it stands for. */
  const TagsUnescape: map<char, char> :=
    map[':' := ';', 's' := ' ', '\\' := '\\', 'r' := '\r', 'n' := '\n']

  /** An escaped character: its table entry, or the character itself when it has none. */
  function UnescapeChar(c: char): char
  {
    if c in TagsUnescape then TagsUnescape[c] else c
  }

  /** Unescaped text, and whether a backslash is still waiting for its character. */
  datatype Unescaped = Unescaped(text: string, pending: bool)

  /**
   * The per-character map over a value, starting in escape state
   * `escNext`: an escaped character is translated, a backslash starts an
   * escape and produces nothing, any other character is kept.
   */
  function Unescape(v: string, escNext: bool): (r: Unescaped)
    ensures |r.text| <= |v|
    ensures !escNext && '\\' !in v ==> r == Unescaped(v, false)
    ensures |r.text| == |v| ==> '\\' !in v || escNext
    decreases |v|
  {
    if v == [] then Unescaped([], escNext)
    else if escNext then
      var rest := Unescape(v[1..], false);
      Unescaped([UnescapeChar(v[0])] + rest.text, rest.pending)
    else if v[0] == '\\' then
      Unescape(v[1..], true)
    else
      var rest := Unescape(v[1..], false);
      assert v == [v[0]] + v[1..];
      Unescaped([v[0]] + rest.text, rest.pending)
  }

  /**
   * A bare backslash at the end of a value produces nothing and leaves the
   * escape pending for whatever is unescaped next.
   */
  lemma {:induction false} TrailingBackslash(v: string, escNext: bool)
    requires !Unescape(v, escNext).pending
    ensures Unescape(v + ['\\'], escNext) == Unescaped(Unescape(v, escNext).text, true)
    decreases |v|
  {
    if v == [] {
      assert !escNext;
      assert Unescape(['\\'], false) == Unescape([], true);
    } else {
      assert (v + ['\\'])[0] == v[0];
      assert (v + ['\\'])[1..] == v[1..] + ['\\'];
      if escNext {
        TrailingBackslash(v[1..], false);
      } else if v[0] == '\\' {
        TrailingBackslash(v[1..], true);
      } else {
        TrailingBackslash(v[1..], false);
      }
    }
  }

  /**
   * A backslash before a character the table does not list: the character
   * stands for itself, and unescaping goes on after it with no escape pending.
   */
  lemma UnescapeUnknown(c: char, rest: string)
    requires c !in TagsUnescape
    ensures Unescape(['\\', c] + rest, false)
         == Unescaped([c] + Unescape(rest, false).text, Unescape(rest, false).pending)
  {
    assert (['\\', c] + rest)[1..] == [c] + rest;
    assert ([c] + rest)[1..] == rest;
  }

  /** The escaping rule of the IRCv3 Message Tags specification, for one character. */
  function EscapeChar(c: char): string
  {
    if c == ';' then "\\:"
    else if c == ' ' then "\\s"
    else if c == '\\' then "\\\\"
    else if c == '\r' then "\\r"
    else if c == '\n' then "\\n"
    else [c]
  }

  /** A tag value escaped the way a conforming sender writes it. */
  function Escape(s: string): string
  {
    if s == [] then [] else EscapeChar(s[0]) + Escape(s[1..])
  }

  /** Escaped text never holds a separator of the tag section. */
  lemma {:induction false} EscapeAvoids(s: string)
    ensures ';' !in Escape(s) && ' ' !in Escape(s)
    ensures '=' !in s ==> '=' !in Escape(s)
    ensures Escape(s) == [] <==> s == []
    decreases |s|
  {
    if s != [] {
      EscapeAvoids(s[1..]);
      assert Escape(s) == EscapeChar(s[0]) + Escape(s[1..]);
      assert '=' !in s ==> s[0] != '=';
    }
  }

  /** Unescaping undoes one escaped character. */
  lemma UnescapeEscapeChar(c: char, rest: string)
    ensures Unescape(EscapeChar(c) + rest, false)
         == Unescaped([c] + Unescape(rest, false).text, Unescape(rest, false).pending)
  {
    var e := EscapeChar(c) + rest;
    if c == ';' || c == ' ' || c == '\\' || c == '\r' || c == '\n' {
      assert e[0] == '\\';
      assert e[1..][1..] == rest;
      assert Unescape(e, false) == Unescape(e[1..], true);
    } else {
      assert e[0] == c && e[1..] == rest;
    }
  }

  /** Unescaping is a left inverse of escaping, and leaves no escape pending. */
  lemma {:induction false} UnescapeEscape(s: string)
    ensures Unescape(Escape(s), false) == Unescaped(s, false)
    decreases |s|
  {
    if s != [] {
      UnescapeEscape(s[1..]);
      UnescapeEscapeChar(s[0], Escape(s[1..]));
      assert [s[0]] + s[1..] == s;
    }
  }

  /** `key` is the text of `token` before its first `=`, or all of it. */
  predicate KeyOf(key: string, token: string)
  {
    && key <= token
    && '=' !in key
    && (|key| < |token| ==> token[|key|] == '=')
  }

  /**
   * One tag token in escape state `escNext`: `tag.split('=')` keeps the key
   * before the first `=` and the raw value between the first and second
   * `=`; only a non-empty raw value goes through the unescaper.
   */
  function ParseTag(token: string, escNext: bool): (r: (Tag, bool))
    ensures KeyOf(r.0.key, token)
    ensures r.0.value == Flag <==> '=' !in token
  {
    var kv := Split(token, '=');
    var k := kv[0];
    assert kv == [k] + kv[1..];
    if |kv| == 1 then
      (Tag(k, Flag), escNext)
    else
      assert token == k + ['='] + Join(kv[1..], '=');
      var v := kv[1];
      if |v| > 0 then
        var u := Unescape(v, escNext);
        (Tag(k, Text(u.text)), u.pending)
      else
        (Tag(k, Text(v)), escNext)
  }

  /**
   * A token `k=v` followed by nothing or by a further `=...`: the key is
   * `k` and the value is `v` unescaped, or `""` without touching the
   * escape state when `v` is empty.
   */
  lemma ParseTagValue(k: string, v: string, rest: string, escNext: bool)
    requires '=' !in k && '=' !in v
    requires rest == [] || rest[0] == '='
    ensures ParseTag(k + ['='] + v + rest, escNext)
         == if v == [] then (Tag(k, Text([])), escNext)
            else (Tag(k, Text(Unescape(v, escNext).text)), Unescape(v, escNext).pending)
  {
    if rest == [] {
      assert k + ['='] + v + rest == k + ['='] + v;
      SplitPair(k, v, '=');
      ParseTagPieces(k + ['='] + v, k, v, [], escNext);
    } else {
      var r := rest[1..];
      assert k + ['='] + v + rest == k + ['='] + v + ['='] + r;
      KeyValueMore(k, v, r);
      ParseTagPieces(k + ['='] + v + ['='] + r, k, v, Split(r, '='), escNext);
    }
  }

  /** A token `k=v=r` splits into `k`, `v` and the pieces of `r`. */
  lemma KeyValueMore(k: string, v: string, r: string)
    requires '=' !in k && '=' !in v
    ensures Split(k + ['='] + v + ['='] + r, '=') == [k, v] + Split(r, '=')
  {
    var tail := v + ['='] + r;
    assert k + ['='] + v + ['='] + r == k + ['='] + tail;
    SplitAt(k, tail, '=');
    SplitAt(v, r, '=');
  }

  /** `ParseTag` in terms of the first two pieces of the token split on `=`. */
  lemma ParseTagPieces(token: string, k: string, v: string, more: seq<string>, escNext: bool)
    requires Split(token, '=') == [k, v] + more
    ensures ParseTag(token, escNext)
         == if v == [] then (Tag(k, Text([])), escNext)
            else (Tag(k, Text(Unescape(v, escNext).text)), Unescape(v, escNext).pending)
  {
  }

  /** A token without `=` is a flag with that token as its key. */
  lemma ParseTagFlag(k: string, escNext: bool)
    requires '=' !in k
    ensures ParseTag(k, escNext) == (Tag(k, Flag), escNext)
  {
    SplitNone(k, '=');
  }

  /** The tokens of the section, in order, threading the escape state from one to the next. */
  function ParseTagList(tokens: seq<string>, escNext: bool): (tags: seq<Tag>)
    ensures |tags| == |tokens|
    ensures forall i :: 0 <= i < |tags| ==> KeyOf(tags[i].key, tokens[i])
    ensures forall i :: 0 <= i < |tags| ==> (tags[i].value == Flag <==> '=' !in tokens[i])
    decreases |tokens|
  {
    if tokens == [] then []
    else
      var first := ParseTag(tokens[0], escNext);
      [first.0] + ParseTagList(tokens[1..], first.1)
  }

  /** The raw text between `@` and the first space, split on `;`. */
  function ParseTags(raw: string): (tags: seq<Tag>)
    ensures |tags| >= 1
  {
    ParseTagList(Split(raw, ';'), false)
  }

  /** A tag as a conforming sender writes it. */
  function FormatTag(t: Tag): string
  {
    match t.value
    case Flag => t.key
    case Text(s) => t.key + ['='] + Escape(s)
  }

  /** Each tag formatted as its token. */
  function FormatTokens(ts: seq<Tag>): (tokens: seq<string>)
    ensures |tokens| == |ts|
    ensures forall i :: 0 <= i < |ts| ==> tokens[i] == FormatTag(ts[i])
  {
    if ts == [] then [] else [FormatTag(ts[0])] + FormatTokens(ts[1..])
  }

  /** The tag list as the text between `@` and the space. */
  function FormatTags(ts: seq<Tag>): string
  {
    Join(FormatTokens(ts), ';')
  }

  /**
   * A tag the parser reads back as written: a key with no `=`, `;` or
   * space, and a value with no `=` (the escaping covers `;` and space).
   */
  predicate WellFormedTag(t: Tag)
  {
    && '=' !in t.key && ';' !in t.key && ' ' !in t.key
    && (t.value.Text? ==> '=' !in t.value.text)
  }

  /** A well-formed tag token parses back to the tag and leaves no escape pending. */
  lemma ParseFormatTag(t: Tag)
    requires WellFormedTag(t)
    ensures ParseTag(FormatTag(t), false) == (t, false)
  {
    match t.value
    case Flag =>
      ParseTagFlag(t.key, false);
    case Text(s) =>
      EscapeAvoids(s);
      UnescapeEscape(s);
      ParseTagValue(t.key, Escape(s), [], false);
      assert t.key + ['='] + Escape(s) + [] == FormatTag(t);
  }

  /** Formatted tag tokens parse back to the tags, in order. */
  lemma {:induction false} ParseTagListFormat(ts: seq<Tag>)
    requires forall i :: 0 <= i < |ts| ==> WellFormedTag(ts[i])
    ensures ParseTagList(FormatTokens(ts), false) == ts
    decreases |ts|
  {
    if ts != [] {
      var tokens := FormatTokens(ts);
      FormatTokensTail(ts);
      ParseFormatTag(ts[0]);
      ParseTagListFormat(ts[1..]);
      assert ParseTagList(tokens, false) == [ts[0]] + ParseTagList(tokens[1..], false);
      assert [ts[0]] + ts[1..] == ts;
    }
  }

  /** Formatting the tags after the first gives the tokens after the first. */
  lemma FormatTokensTail(ts: seq<Tag>)
    requires ts != []
    ensures FormatTokens(ts)[1..] == FormatTokens(ts[1..])
  {
  }

  /** A non-empty list of well-formed tags survives formatting and parsing unchanged. */
  lemma TagsRoundTrip(ts: seq<Tag>)
    requires |ts| >= 1
    requires forall i :: 0 <= i < |ts| ==> WellFormedTag(ts[i])
    ensures ' ' !in FormatTags(ts)
    ensures ParseTags(FormatTags(ts)) == ts
  {
    var tokens := FormatTokens(ts);
    forall i | 0 <= i < |ts|
      ensures ';' !in tokens[i] && ' ' !in tokens[i]
    {
      if ts[i].value.Text? {
        EscapeAvoids(ts[i].value.text);
      }
    }
    JoinAvoids(tokens, ';', ' ');
    SplitJoin(tokens, ';');
    ParseTagListFormat(ts);
  }

  /**
   * The escape state is shared by the whole section: a value ending in a
   * bare backslash makes the first character of the next tag's value
   * count as escaped.
   */
  lemma EscapeCarriesOver(k1: string, v1: string, k2: string, v2: string)
    requires '=' !in k1 && '=' !in v1 && '=' !in k2 && '=' !in v2
    requires ';' !in k1 && ';' !in v1 && ';' !in k2 && ';' !in v2
    requires !Unescape(v1, false).pending
    requires v2 != []
    ensures ParseTags((k1 + ['='] + (v1 + ['\\'])) + [';'] + (k2 + ['='] + v2))
         == [Tag(k1, Text(Unescape(v1, false).text)),
             Tag(k2, Text([UnescapeChar(v2[0])] + Unescape(v2[1..], false).text))]
  {
    var tok1 := k1 + ['='] + (v1 + ['\\']);
    var tok2 := k2 + ['='] + v2;
    SplitPair(tok1, tok2, ';');
    PendingToken(k1, v1);
    EscapedToken(k2, v2);
    ParseTagListTwo(tok1, tok2, false);
    assert ParseTags(tok1 + [';'] + tok2) == ParseTagList([tok1, tok2], false);
  }

  /** `k=v\\` with nothing pending in `v`: the value is `v` unescaped, and an escape is left pending. */
  lemma PendingToken(k: string, v: string)
    requires '=' !in k && '=' !in v
    requires !Unescape(v, false).pending
    ensures ParseTag(k + ['='] + (v + ['\\']), false) == (Tag(k, Text(Unescape(v, false).text)), true)
  {
    assert k + ['='] + (v + ['\\']) == k + ['='] + (v + ['\\']) + [];
    ParseTagValue(k, v + ['\\'], [], false);
    TrailingBackslash(v, false);
  }

  /** `k=v` read with an escape pending: the first character of `v` is translated. */
  lemma EscapedToken(k: string, v: string)
    requires '=' !in k && '=' !in v && v != []
    ensures ParseTag(k + ['='] + v, true).0 == Tag(k, Text([UnescapeChar(v[0])] + Unescape(v[1..], false).text))
  {
    assert k + ['='] + v == k + ['='] + v + [];
    ParseTagValue(k, v, [], true);
  }

  /** The tag list of two tokens: the second is read in the escape state the first leaves. */
  lemma ParseTagListTwo(tok1: string, tok2: string, escNext: bool)
    ensures ParseTagList([tok1, tok2], escNext)
         == [ParseTag(tok1, escNext).0, ParseTag(tok2, ParseTag(tok1, escNext).1).0]
  {
    assert [tok1, tok2][1..] == [tok2];
    assert [tok2][1..] == [];
  }
}
