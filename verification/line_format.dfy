/**
 * Writing a parsed record back out as a line, the way a conforming sender
 * would: `@tags `, `:prefix `, the verb, then the parameters with the last
 * one always behind a `:`. Every well-formed record survives writing and
 * parsing unchanged.
 */
module LineFormat {
  import opened Options
  import opened JsText
  import opened Scanner
  import opened Tags
  import opened Prefix
  import opened Verb
  import opened IrcLine
  import opened Sections
  import opened Layout

  /** The origin a record carries, when it has a source. */
  function OriginOf(m: ParsedLine): Origin
  {
    Origin(if m.source.Some? then m.source.value else [], m.user, m.host)
  }

  /** ` middle... :last` or nothing. */
  function ParamsSection(params: Option<seq<string>>): string
  {
    if params.Some? && params.value != [] then
      var ps := params.value;
      [' '] + MiddleText(ps[..|ps| - 1]) + ([':'] + ps[|ps| - 1])
    else []
  }

  /** A line written from raw tag text, raw prefix text, a verb and the parameters. */
  function RawLine(tags: Option<string>, prefix: Option<string>, verb: string, params: Option<seq<string>>): string
  {
    Opening('@', tags, 1) + (Opening(':', prefix, 1) + (verb + ParamsSection(params)))
  }

  /** The raw tag text a record is written with. */
  function RawTags(m: ParsedLine): Option<string>
  {
    if m.tags.Some? then Some(FormatTags(m.tags.value)) else None
  }

  /** The raw prefix text a record is written with. */
  function RawPrefix(m: ParsedLine): Option<string>
  {
    if m.source.Some? then Some(FormatOrigin(OriginOf(m))) else None
  }

  /** The line a sender writes for a record. */
  function FormatLine(m: ParsedLine): string
  {
    RawLine(RawTags(m), RawPrefix(m), m.verb, m.params)
  }

  /** Tags the parser reads back: at least one, each well formed. */
  predicate WellFormedTags(tags: Option<seq<Tag>>)
  {
    tags.Some? ==>
      && |tags.value| >= 1
      && forall i :: 0 <= i < |tags.value| ==> WellFormedTag(tags.value[i])
  }

  /**
   * A record the parser can produce from its own formatting: well-formed
   * tags, an origin only with a source and free of spaces, a valid verb,
   * and well-formed parameters.
   */
  predicate WellFormedLine(m: ParsedLine)
  {
    && WellFormedTags(m.tags)
    && (m.source.None? ==> m.user.None? && m.host.None?)
    && (m.source.Some? ==> WellFormedOrigin(OriginOf(m)) && ' ' !in FormatOrigin(OriginOf(m)))
    && ValidVerb(m.verb)
    && WellFormedParams(m.params)
  }

  /** The parameter section opens with one space and then a character that is no space. */
  lemma ParamsSectionGap(params: Option<seq<string>>)
    requires WellFormedParams(params)
    ensures params.Some? ==> NonSpacePos(ParamsSection(params), 0) == 1
    ensures params.None? ==> ParamsSection(params) == []
  {
    if params.Some? {
      var ps := params.value;
      var mid := ps[..|ps| - 1];
      var q := ParamsSection(params);
      if mid != [] {
        assert MiddleParam(mid[0]);
        if |mid| > 1 {
          assert Join(mid, ' ') == mid[0] + [' '] + Join(mid[1..], ' ');
        }
        assert q[1] == mid[0][0];
      } else {
        assert q[1] == ':';
      }
      assert NonSpacePos(q, 1) == 1;
    }
  }

  /** The raw line opens with its tag and prefix sections, and the verb starts after them. */
  lemma RawOpened(tags: Option<string>, prefix: Option<string>, verb: string, params: Option<seq<string>>)
    requires Unspaced(tags) && Unspaced(prefix) && ValidVerb(verb)
    ensures Opened(RawLine(tags, prefix, verb, params), tags, 1, prefix, 1)
  {
    ValidVerbShape(verb);
    var rest := verb + ParamsSection(params);
    assert rest[0] == verb[0];
    OpeningsLaid(tags, 1, prefix, 1, rest);
  }

  /** The raw line holds the verb at the verb position, followed by one space or by nothing. */
  lemma RawVerbThen(tags: Option<string>, prefix: Option<string>, verb: string, params: Option<seq<string>>)
    requires ValidVerb(verb) && WellFormedParams(params)
    ensures var p := VerbStart(tags, 1, prefix, 1);
      VerbThen(RawLine(tags, prefix, verb, params), p, verb, p + |verb| + 1)
  {
    ValidVerbShape(verb);
    var rest := ParamsSection(params);
    ParamsSectionGap(params);
    assert params.Some? ==> rest != [] && rest[0] == ' ';
    VerbAfterOpenings(tags, 1, prefix, 1, verb, rest);
  }

  /** Text written behind a front part and then a `:` can be read off by position. */
  lemma BehindFront(x: string, m: string, last: string)
    ensures var t := |x| + |m|;
      && t < |x + m + ([':'] + last)|
      && (x + m + ([':'] + last))[|x|..t] == m
      && (x + m + ([':'] + last))[t] == ':'
      && (x + m + ([':'] + last))[t + 1..] == last
  {
    var line := x + m + ([':'] + last);
    assert line[|x|..|x| + |m|] == m;
    assert line[|x| + |m| + 1..] == last;
  }

  /** Parameters written behind a front part `x`, with the last one after a `:`, are laid out from the end of `x`. */
  lemma LaidBehind(line: string, x: string, q: nat, params: Option<seq<string>>)
    requires params.Some? && params.value != [] && q == |x| && q >= 1
    requires var ps := params.value;
      line == x + MiddleText(ps[..|ps| - 1]) + ([':'] + ps[|ps| - 1])
    ensures ParamsLaid(line, q, params)
  {
    var ps := params.value;
    BehindFront(x, MiddleText(ps[..|ps| - 1]), ps[|ps| - 1]);
  }

  /** Nothing is laid out at the end of a line. */
  lemma LaidAtEnd(line: string, q: nat, params: Option<seq<string>>)
    requires params.None? && q >= |line|
    ensures ParamsLaid(line, q, params)
  {
  }

  /** The sections of a raw line with parameters, regrouped as everything up to the space after the verb, the middle text, and `:last`. */
  lemma Regroup(a: string, b: string, verb: string, m: string, last: string)
    ensures a + (b + (verb + ([' '] + m + ([':'] + last)))) == (a + b + verb + [' ']) + m + ([':'] + last)
    ensures |a + b + verb + [' ']| == |a| + |b| + |verb| + 1
  {
  }

  /** The raw line holds the parameters, as `ParamsLaid` describes, right after the verb and its space. */
  lemma RawParamsLaid(tags: Option<string>, prefix: Option<string>, verb: string, params: Option<seq<string>>)
    requires WellFormedParams(params)
    ensures ParamsLaid(RawLine(tags, prefix, verb, params), VerbStart(tags, 1, prefix, 1) + |verb| + 1, params) == true
  {
    var a := Opening('@', tags, 1);
    var b := Opening(':', prefix, 1);
    OpeningSize('@', tags, 1);
    OpeningSize(':', prefix, 1);
    var q := VerbStart(tags, 1, prefix, 1) + |verb| + 1;
    if params.Some? {
      var ps := params.value;
      Regroup(a, b, verb, MiddleText(ps[..|ps| - 1]), ps[|ps| - 1]);
      LaidBehind(RawLine(tags, prefix, verb, params), a + b + verb + [' '], q, params);
    } else {
      LaidAtEnd(RawLine(tags, prefix, verb, params), q, params);
    }
  }

  /**
   * A line written from space-free raw tag and prefix text, a valid verb
   * and well-formed parameters parses to exactly those sections.
   */
  lemma ParseRawLine(tags: Option<string>, prefix: Option<string>, verb: string, params: Option<seq<string>>)
    requires Unspaced(tags) && Unspaced(prefix)
    requires ValidVerb(verb) && WellFormedParams(params)
    ensures ParseIrcLine(RawLine(tags, prefix, verb, params)) == Success(Assemble(tags, prefix, verb, params))
  {
    RawOpened(tags, prefix, verb, params);
    RawVerbThen(tags, prefix, verb, params);
    RawParamsLaid(tags, prefix, verb, params);
    ParseLaidOut(RawLine(tags, prefix, verb, params), tags, prefix, verb, params);
  }

  /** Assembling the raw sections of a formatted record gives the record back. */
  lemma AssembleFormatted(m: ParsedLine)
    requires WellFormedLine(m)
    ensures Assemble(RawTags(m), RawPrefix(m), m.verb, m.params) == m
  {
    if m.tags.Some? {
      TagsRoundTrip(m.tags.value);
    }
    if m.source.Some? {
      PrefixRoundTrip(OriginOf(m));
    }
  }

  /** The raw sections of a well-formed record hold no space. */
  lemma RawUnspaced(m: ParsedLine)
    requires WellFormedLine(m)
    ensures Unspaced(RawTags(m)) && Unspaced(RawPrefix(m))
  {
    if m.tags.Some? {
      TagsRoundTrip(m.tags.value);
    }
  }

  /** Every well-formed record survives formatting and parsing unchanged. */
  lemma LineRoundTrip(m: ParsedLine)
    requires WellFormedLine(m)
    ensures ParseIrcLine(FormatLine(m)) == Success(m)
  {
    RawUnspaced(m);
    ParseRawLine(RawTags(m), RawPrefix(m), m.verb, m.params);
    AssembleFormatted(m);
  }
}
