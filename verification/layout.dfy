/**
 * Where the sections of a line sit, position by position, and what
 * `parseIrcLine` makes of a line laid out that way. The parse is stated
 * for any line with the layout; which concrete texts have it is a
 * separate question about concatenation, answered without the parser.
 *
 * The lemmas that combine several layout facts take them as `P(...) ==
 * true`: a caller then discharges each as the single fact it already
 * holds, instead of re-deriving the predicate's body clause by clause.
 */
module Layout {
  import opened Options
  import opened JsText
  import opened Scanner
  import opened Verb
  import opened IrcLine
  import opened Sections

  /** How many characters an opening section takes: lead, text and gap, or nothing. */
  function OpeningLength(text: Option<string>, gap: nat): nat
  {
    if text.Some? then 1 + |text.value| + gap else 0
  }

  /** An opening section is as long as its lead, its text and its gap. */
  lemma OpeningSize(lead: char, text: Option<string>, gap: nat)
    ensures |Opening(lead, text, gap)| == OpeningLength(text, gap)
  {
  }

  /** Where the prefix section starts: after the tag section and its spaces, when there is one. */
  function PrefixStart(tags: Option<string>, g1: nat): nat
  {
    OpeningLength(tags, g1)
  }

  /** Where the verb starts: after both opening sections. */
  function VerbStart(tags: Option<string>, g1: nat, prefix: Option<string>, g2: nat): nat
  {
    PrefixStart(tags, g1) + OpeningLength(prefix, g2)
  }

  /**
   * At `t`, `line` holds `lead`, the section text and a run of `gap`
   * spaces when `text` is present, and a character other than `lead`
   * otherwise.
   *
   * Lemmas require it as `... == true`, so that a caller discharges it as one
   * fact it already holds; a plain `requires` would have Dafny check each
   * clause of the body at every call, which costs these proofs dearly.
   */
  predicate SectionOpened(line: string, t: nat, lead: char, text: Option<string>, gap: nat)
  {
    && t < |line|
    && (text.Some? ==>
          var end := t + 1 + |text.value|;
          && line[t] == lead && Delimited(line, t + 1, end, gap) && line[t + 1..end] == text.value)
    && (text.None? ==> line[t] != lead)
  }

  /**
   * `line` opens with `@tags` and `g1` spaces when `tags` is present and
   * does not start with `@` otherwise; then, likewise, `:prefix` and `g2`
   * spaces; and the verb starts at a character that is no space.
   *
   * Lemmas require it as `... == true`, so that a caller discharges it as one
   * fact it already holds; a plain `requires` would have Dafny check each
   * clause of the body at every call, which costs these proofs dearly.
   */
  predicate Opened(line: string, tags: Option<string>, g1: nat, prefix: Option<string>, g2: nat)
  {
    && SectionOpened(line, 0, '@', tags, g1)
    && SectionOpened(line, PrefixStart(tags, g1), ':', prefix, g2)
    && VerbStart(tags, g1, prefix, g2) < |line|
    && line[VerbStart(tags, g1, prefix, g2)] != ' '
  }

  /** On a line opened with a tag section, the tag phase reads it and stops after its spaces. */
  lemma TagsOpenedPhase(line: string, tags: Option<string>, g1: nat)
    requires SectionOpened(line, 0, '@', tags, g1) == true
    ensures TagsPhase(line) == (tags, PrefixStart(tags, g1))
  {
    if tags.Some? {
      TagsPhaseAt(line, 1 + |tags.value|, g1);
    }
  }

  /** At a prefix section, the prefix phase reads it and stops after its spaces. */
  lemma PrefixOpenedPhase(line: string, t: nat, prefix: Option<string>, g2: nat)
    requires SectionOpened(line, t, ':', prefix, g2) == true
    ensures PrefixPhase(line, t) == (prefix, t + OpeningLength(prefix, g2))
  {
    if prefix.Some? {
      PrefixPhaseAt(line, t, t + 1 + |prefix.value|, g2);
    }
  }

  /** On an opened line the tag and prefix phases read the two sections and stop at the verb. */
  lemma OpenedPhases(line: string, tags: Option<string>, g1: nat, prefix: Option<string>, g2: nat)
    requires Opened(line, tags, g1, prefix, g2) == true
    ensures TagsPhase(line) == (tags, PrefixStart(tags, g1))
    ensures PrefixPhase(line, PrefixStart(tags, g1)) == (prefix, VerbStart(tags, g1, prefix, g2))
  {
    TagsOpenedPhase(line, tags, g1);
    PrefixOpenedPhase(line, PrefixStart(tags, g1), prefix, g2);
  }

  /**
   * From `p`, `v` is written and is followed either by a run of spaces
   * ending at `next`, or by nothing but a terminator, with `next` one past
   * the verb.
   *
   * Lemmas require it as `... == true`, so that a caller discharges it as one
   * fact it already holds; a plain `requires` would have Dafny check each
   * clause of the body at every call, which costs these proofs dearly.
   */
  predicate VerbThen(line: string, p: nat, v: string, next: nat)
  {
    && p + |v| <= |line| && line[p..p + |v|] == v
    && (|| (next > p + |v| && Delimited(line, p, p + |v|, next - p - |v|))
        || (&& next == p + |v| + 1
            && (forall k :: p <= k < p + |v| ==> line[k] != ' ')
            && EolFrom(line, p + |v|)
            && (v != [] ==> !IsEol(v[|v| - 1]))))
  }

  /** The verb phase reads the verb so written and moves the cursor to `next`. */
  lemma VerbThenPhase(line: string, p: nat, v: string, next: nat)
    requires VerbThen(line, p, v, next)
    ensures VerbPhase(line, p) == (v, next)
  {
    if next > p + |v| && Delimited(line, p, p + |v|, next - p - |v|) {
      VerbPhaseAt(line, p, p + |v|, next - p - |v|);
    } else {
      if v != [] {
        LastWritten(line, p, v);
      }
      VerbPhaseLast(line, p, p + |v|);
    }
  }

  /** The last character of text written at `p` sits just before `p + |v|`. */
  lemma LastWritten(line: string, p: nat, v: string)
    requires v != [] && p + |v| <= |line| && line[p..p + |v|] == v
    ensures line[p + |v| - 1] == v[|v| - 1]
  {
    assert line[p..p + |v|][|v| - 1] == line[p + |v| - 1];
  }

  /**
   * Parameters a writer can lay out so that they read back: middle ones as single tokens, a last one the terminator leaves alone.
   *
   * Lemmas require it as `... == true`, so that a caller discharges it as one
   * fact it already holds; a plain `requires` would have Dafny check each
   * clause of the body at every call, which costs these proofs dearly.
   */
  predicate WellFormedParams(params: Option<seq<string>>)
  {
    params.Some? ==>
      && params.value != []
      && MiddleList(params.value[..|params.value| - 1])
      && TrailingParam(params.value[|params.value| - 1])
  }

  /**
   * From `q`, the middle parameters `mid` are written each followed by a
   * space, then `:` and the last one, `last`, up to the end of the line.
   *
   * Lemmas require it as `... == true`, so that a caller discharges it as one
   * fact it already holds; a plain `requires` would have Dafny check each
   * clause of the body at every call, which costs these proofs dearly.
   */
  predicate TrailingLaid(line: string, q: nat, mid: seq<string>, last: string)
  {
    var m := MiddleText(mid);
    var t := q + |m|;
    && q >= 1 && |line| == t + 1 + |last| && line[t] == ':'
    && (forall k {:trigger m[k]} :: 0 <= k < |m| ==> line[q + k] == m[k])
    && (forall k {:trigger last[k]} :: 0 <= k < |last| ==> line[t + 1 + k] == last[k])
  }

  /**
   * From `q`, the parameters are written as the middle ones each followed
   * by a space, then `:` and the last one up to the end of the line; or,
   * with no parameters, only a terminator follows.
   *
   * Lemmas require it as `... == true`, so that a caller discharges it as one
   * fact it already holds; a plain `requires` would have Dafny check each
   * clause of the body at every call, which costs these proofs dearly.
   */
  predicate ParamsLaid(line: string, q: nat, params: Option<seq<string>>)
  {
    if params.Some? && params.value != [] then
      var ps := params.value;
      TrailingLaid(line, q, ps[..|ps| - 1], ps[|ps| - 1])
    else EolFrom(line, q)
  }

  /** Text that `line` holds character by character from `q` on is a slice of it. */
  lemma WrittenAt(line: string, q: nat, m: string)
    requires q + |m| <= |line|
    requires forall k {:trigger m[k]} :: 0 <= k < |m| ==> line[q + k] == m[k]
    ensures line[q..q + |m|] == m
  {
    assert forall k :: 0 <= k < |m| ==> line[q..q + |m|][k] == m[k];
  }

  /** Middle parameters and a last one so written are read back as they are. */
  lemma TrailingLaidPhase(line: string, q: nat, mid: seq<string>, last: string)
    requires MiddleList(mid) && TrailingParam(last)
    requires TrailingLaid(line, q, mid, last) == true
    ensures ParamsPhase(line, q) == Some(mid + [last])
  {
    var m := MiddleText(mid);
    WrittenAt(line, q, m);
    WrittenAt(line, q + |m| + 1, last);
    ParamsTrailingAt(line, q, q + |m|, mid, last);
  }

  /** The parameter phase reads well-formed parameters so written back as they are. */
  lemma ParamsLaidPhase(line: string, q: nat, params: Option<seq<string>>)
    requires WellFormedParams(params) == true && ParamsLaid(line, q, params) == true
    ensures ParamsPhase(line, q) == params
  {
    if params.Some? {
      var ps := params.value;
      TrailingLaidPhase(line, q, ps[..|ps| - 1], ps[|ps| - 1]);
      SplitLast(ps);
    } else {
      ParamsPhaseEmpty(line, q);
    }
  }

  /**
   * An opened line with a word `v` at the verb position: the parse
   * succeeds exactly when `v` passes the verb gate, and then the record
   * holds the two opening sections, the verb `v`, and the parameters
   * `params` that the parameter phase reads from `next`.
   */
  lemma ParseOpened(line: string, tags: Option<string>, g1: nat, prefix: Option<string>, g2: nat, v: string, next: nat, params: Option<seq<string>>)
    requires Opened(line, tags, g1, prefix, g2) == true
    requires VerbThen(line, VerbStart(tags, g1, prefix, g2), v, next) == true
    requires ParamsPhase(line, next) == params
    ensures ParseIrcLine(line).Success? <==> ValidVerb(v)
    ensures ValidVerb(v) ==> ParseIrcLine(line) == Success(Assemble(tags, prefix, v, params))
  {
    OpenedPhases(line, tags, g1, prefix, g2);
    VerbThenPhase(line, VerbStart(tags, g1, prefix, g2), v, next);
  }

  /**
   * The verb gate on an opened line, whatever follows the verb: the parse
   * succeeds exactly when `v` is a valid verb, and the record is then the
   * two opening sections and the verb `v`, with the parameters read after it.
   */
  lemma GateOpened(line: string, tags: Option<string>, g1: nat, prefix: Option<string>, g2: nat, v: string, next: nat)
    requires Opened(line, tags, g1, prefix, g2) == true
    requires VerbThen(line, VerbStart(tags, g1, prefix, g2), v, next) == true
    ensures ParseIrcLine(line).Success? <==> ValidVerb(v)
    ensures ParseIrcLine(line).Success? ==>
      ParseIrcLine(line).parsed == Assemble(tags, prefix, v, ParseIrcLine(line).parsed.params)
  {
    ParseOpened(line, tags, g1, prefix, g2, v, next, ParamsPhase(line, next));
  }

  /** A line laid out from sections with single spaces, a valid verb and well-formed parameters parses to those sections. */
  lemma ParseLaidOut(line: string, tags: Option<string>, prefix: Option<string>, verb: string, params: Option<seq<string>>)
    requires Opened(line, tags, 1, prefix, 1) == true
    requires VerbThen(line, VerbStart(tags, 1, prefix, 1), verb, VerbStart(tags, 1, prefix, 1) + |verb| + 1) == true
    requires ValidVerb(verb) && WellFormedParams(params) == true
    requires ParamsLaid(line, VerbStart(tags, 1, prefix, 1) + |verb| + 1, params) == true
    ensures ParseIrcLine(line) == Success(Assemble(tags, prefix, verb, params))
  {
    var next := VerbStart(tags, 1, prefix, 1) + |verb| + 1;
    ParamsLaidPhase(line, next, params);
    ParseOpened(line, tags, 1, prefix, 1, verb, next, params);
  }

  /**
   * The concatenation side of one opening section: written at `t`, behind
   * text of that length and in front of text that starts with neither a
   * space nor (when the section is absent) its lead, it is opened there.
   */
  lemma SectionLaid(line: string, x: string, t: nat, lead: char, text: Option<string>, gap: nat, rest: string)
    requires t == |x| && line == x + (Opening(lead, text, gap) + rest)
    requires Unspaced(text) && gap >= 1
    requires rest != [] && rest[0] != ' '
    requires text.None? ==> rest[0] != lead
    ensures SectionOpened(line, t, lead, text, gap)
  {
    if text.Some? {
      SectionChars(line, x, lead, text.value, gap, rest);
      SectionFromChars(line, t, lead, text.value, gap);
    } else {
      NoSectionAt(x, lead, gap, rest);
    }
  }

  /**
   * `line` holds `lead`, `text` and `gap` spaces from `t` on, character by character, with more after them.
   *
   * Lemmas require it as `... == true`, so that a caller discharges it as one
   * fact it already holds; a plain `requires` would have Dafny check each
   * clause of the body at every call, which costs these proofs dearly.
   */
  predicate CharsLaid(line: string, t: nat, lead: char, text: string, gap: nat)
  {
    var end := t + 1 + |text|;
    && end + gap < |line| && line[t] == lead
    && (forall k {:trigger text[k]} :: 0 <= k < |text| ==> line[t + 1 + k] == text[k])
    && (forall k :: end <= k < end + gap ==> line[k] == ' ')
  }

  /** A present section written behind `x`, character by character. */
  lemma SectionChars(line: string, x: string, lead: char, text: string, gap: nat, rest: string)
    requires line == x + (Opening(lead, Some(text), gap) + rest)
    requires rest != []
    ensures CharsLaid(line, |x|, lead, text, gap)
    ensures line[|x| + 1 + |text| + gap] == rest[0]
  {
    var end := |x| + 1 + |text|;
    assert forall k :: end <= k < end + gap ==> line[k] == Spaces(gap)[k - end];
  }

  /** A lead, a space-free text and a gap, character by character, make an opened section. */
  lemma SectionFromChars(line: string, t: nat, lead: char, text: string, gap: nat)
    requires ' ' !in text && gap >= 1
    requires CharsLaid(line, t, lead, text, gap) == true
    requires line[t + 1 + |text| + gap] != ' '
    ensures SectionOpened(line, t, lead, Some(text), gap)
  {
    var end := t + 1 + |text|;
    WrittenAt(line, t + 1, text);
    assert forall k :: t + 1 <= k < end ==> line[k] == text[k - t - 1];
  }

  /**
   * A present section written behind `x` with only `rest` after it, which
   * may be empty or start with anything but a space: its lead is at `|x|`
   * and its text is a delimited token, whether or not the line goes on.
   */
  lemma SectionAtTail(line: string, x: string, lead: char, text: string, gap: nat, rest: string)
    requires line == x + (Opening(lead, Some(text), gap) + rest)
    requires ' ' !in text && gap >= 1
    requires rest == [] || rest[0] != ' '
    ensures line[|x|] == lead
    ensures Delimited(line, |x| + 1, |x| + 1 + |text|, gap)
    ensures line[|x| + 1..|x| + 1 + |text|] == text
  {
    if rest != [] {
      SectionChars(line, x, lead, text, gap, rest);
      SectionFromChars(line, |x|, lead, text, gap);
    } else {
      SectionAtEnd(line, x, lead, text, gap);
    }
  }

  /** A present section written last on the line, behind `x`. */
  lemma SectionAtEnd(line: string, x: string, lead: char, text: string, gap: nat)
    requires line == x + Opening(lead, Some(text), gap)
    requires ' ' !in text && gap >= 1
    ensures line[|x|] == lead
    ensures Delimited(line, |x| + 1, |x| + 1 + |text|, gap)
    ensures line[|x| + 1..|x| + 1 + |text|] == text
  {
    var end := |x| + 1 + |text|;
    assert line == (x + [lead] + text) + Spaces(gap);
    assert line[..end] == x + [lead] + text;
    assert line[|x| + 1..end] == line[..end][|x| + 1..];
  }

  /** Where a section is absent, the text after it starts right behind `x`. */
  lemma NoSectionAt(x: string, lead: char, gap: nat, rest: string)
    requires rest != []
    ensures (x + (Opening(lead, None, gap) + rest))[|x|] == rest[0]
  {
  }

  /** Behind an opening section comes the text written after it. */
  lemma BehindOpening(lead: char, text: Option<string>, gap: nat, rest: string)
    requires rest != []
    ensures (Opening(lead, text, gap) + rest)[OpeningLength(text, gap)] == rest[0]
    ensures text.Some? ==> (Opening(lead, text, gap) + rest)[0] == lead
    ensures text.None? ==> (Opening(lead, text, gap) + rest)[0] == rest[0]
  {
  }

  /**
   * The concatenation side: opening sections written in front of text
   * that starts with a non-space (and with neither `@` nor `:` where the
   * phases would take it for a section) lay out as an opened line.
   */
  lemma OpeningsLaid(tags: Option<string>, g1: nat, prefix: Option<string>, g2: nat, rest: string)
    requires Unspaced(tags) && Unspaced(prefix) && g1 >= 1 && g2 >= 1
    requires rest != [] && rest[0] != ' '
    requires tags.None? && prefix.None? ==> rest[0] != '@'
    requires prefix.None? ==> rest[0] != ':'
    ensures Opened(Opening('@', tags, g1) + (Opening(':', prefix, g2) + rest), tags, g1, prefix, g2)
  {
    var a := Opening('@', tags, g1);
    var b := Opening(':', prefix, g2);
    var line := a + (b + rest);
    OpeningSize('@', tags, g1);
    OpeningSize(':', prefix, g2);
    BehindOpening(':', prefix, g2, rest);
    BehindOpening('@', tags, g1, b + rest);
    assert line == [] + (a + (b + rest));
    SectionLaid(line, [], 0, '@', tags, g1, b + rest);
    SectionLaid(line, a, PrefixStart(tags, g1), ':', prefix, g2, rest);
    BehindBoth(a, b, rest);
  }

  /** Behind two pieces of text comes what was written after them. */
  lemma BehindBoth(a: string, b: string, rest: string)
    requires rest != []
    ensures (a + (b + rest))[|a| + |b|] == rest[0]
  {
  }

  /**
   * Where the cursor lands after a verb written at `p` and followed by
   * `rest`: past the run of spaces that starts `rest`, or one past the
   * verb when `rest` does not start with a space.
   */
  function VerbNext(p: nat, v: string, rest: string): nat
  {
    if rest != [] && rest[0] == ' ' then p + |v| + NonSpacePos(rest, 0) else p + |v| + 1
  }

  /**
   * The concatenation side of the verb: a space-free word written at `p`,
   * behind text of that length, then a run of spaces or nothing but a
   * terminator, is laid out as `VerbThen` describes.
   */
  lemma VerbLaid(x: string, p: nat, v: string, rest: string)
    requires p == |x|
    requires ' ' !in v
    requires (rest != [] && rest[0] == ' ') || (EolFrom(rest, 0) && (v != [] ==> !IsEol(v[|v| - 1])))
    ensures VerbThen(x + (v + rest), p, v, VerbNext(p, v, rest))
  {
    var line := x + (v + rest);
    var n := p + |v|;
    assert forall k :: p <= k < n ==> line[k] == v[k - p];
    assert forall k :: n <= k < |line| ==> line[k] == rest[k - n];
    assert line[p..n] == v;
    if rest != [] && rest[0] == ' ' {
      var gap := NonSpacePos(rest, 0);
      assert Delimited(line, p, n, gap);
    }
  }

  /**
   * The concatenation side of the verb behind two opening sections: it
   * starts at the verb position and the cursor lands where `VerbNext` says.
   */
  lemma VerbAfterOpenings(tags: Option<string>, g1: nat, prefix: Option<string>, g2: nat, v: string, rest: string)
    requires ' ' !in v
    requires (rest != [] && rest[0] == ' ') || (EolFrom(rest, 0) && (v != [] ==> !IsEol(v[|v| - 1])))
    ensures var p := VerbStart(tags, g1, prefix, g2);
      VerbThen(Opening('@', tags, g1) + (Opening(':', prefix, g2) + (v + rest)), p, v, VerbNext(p, v, rest))
  {
    var a := Opening('@', tags, g1);
    var b := Opening(':', prefix, g2);
    OpeningSize('@', tags, g1);
    OpeningSize(':', prefix, g2);
    assert a + (b + (v + rest)) == (a + b) + (v + rest);
    VerbLaid(a + b, VerbStart(tags, g1, prefix, g2), v, rest);
  }
}
