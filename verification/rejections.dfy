/**
 * When `parseIrcLine` answers `InvalidMessage`: the verb gate is the only
 * check, so every rejection comes from the text the verb phase reads. A
 * tag or prefix section with no space after it sends the cursor back to
 * the start of the line, where the verb phase then reads the `@` or `:`.
 */
module Rejections {
  import opened Options
  import opened JsText
  import opened Scanner
  import opened Verb
  import opened IrcLine
  import opened Sections
  import opened Layout

  /** A verb read from a cursor on `@` or `:` is empty or starts with that character, so it never passes. */
  lemma CursorResetFails(line: string, pos: nat)
    requires pos < |line| && (line[pos] == '@' || line[pos] == ':')
    ensures !ValidVerb(VerbPhase(line, pos).0)
  {
    var v := VerbPhase(line, pos).0;
    if v != [] {
      assert v[0] == line[pos];
      assert !IsLetter(v[0]) && !IsDigit(v[0]);
    }
  }

  /** A tag section with no space anywhere after it: the line is rejected. */
  lemma UnterminatedTagsFail(line: string)
    requires |line| > 0 && line[0] == '@'
    requires forall k :: 1 <= k < |line| ==> line[k] != ' '
    ensures ParseIrcLine(line) == InvalidMessage
  {
    IndexOfNone(line, ' ', 1);
    assert TagsPhase(line).1 == 0;
    assert PrefixPhase(line, 0).1 == 0;
    CursorResetFails(line, 0);
  }

  /**
   * A prefix section with no space after it, whether or not tags come
   * first: the line is rejected.
   */
  lemma UnterminatedPrefixFail(line: string)
    requires line != []
    requires var p := TagsPhase(line).1;
      && p < |line| && line[p] == ':'
      && forall k :: p < k < |line| ==> line[k] != ' '
    ensures ParseIrcLine(line) == InvalidMessage
  {
    var p := TagsPhase(line).1;
    IndexOfNone(line, ' ', p + 1);
    assert line[0] == '@' || line[0] == ':';
    assert PrefixPhase(line, p).1 == 0;
    CursorResetFails(line, 0);
  }

  /** A line that starts with a space has an empty verb and is rejected. */
  lemma LeadingSpaceFails(line: string)
    requires |line| > 0 && line[0] == ' '
    ensures ParseIrcLine(line) == InvalidMessage
  {
    IndexOfAt(line, ' ', 0, 0);
    assert VerbPhase(line, 0).0 == [];
  }

  /**
   * A line that opens with a bare word, followed by a space or by nothing
   * but a terminator: it is accepted exactly when the word passes the verb
   * gate, and then the word is the verb and there are no tags and no source.
   */
  lemma VerbGate(v: string, rest: string)
    requires v != [] && ' ' !in v && v[0] != '@' && v[0] != ':'
    requires (rest != [] && rest[0] == ' ') || (EolFrom(rest, 0) && !IsEol(v[|v| - 1]))
    ensures var r := ParseIrcLine(v + rest);
      && (r.Success? <==> ValidVerb(v))
      && (r.Success? ==> r.parsed.verb == v && r.parsed.tags.None? && r.parsed.source.None?)
  {
    GateAfterOpenings(None, 1, None, 1, v, rest);
    assert Opening('@', None, 1) + (Opening(':', None, 1) + (v + rest)) == v + rest;
  }

  /**
   * A word behind any opening sections: with a tag section, a prefix
   * section, both or neither in front (each followed by at least one
   * space), and a space or nothing but a terminator after it, the line is
   * accepted exactly when the word passes the verb gate. The record then
   * holds the parsed tags, the split prefix and the word as its verb.
   */
  lemma GateAfterOpenings(tags: Option<string>, g1: nat, prefix: Option<string>, g2: nat, v: string, rest: string)
    requires Unspaced(tags) && Unspaced(prefix) && g1 >= 1 && g2 >= 1
    requires v != [] && ' ' !in v
    requires tags.None? && prefix.None? ==> v[0] != '@'
    requires prefix.None? ==> v[0] != ':'
    requires (rest != [] && rest[0] == ' ') || (EolFrom(rest, 0) && !IsEol(v[|v| - 1]))
    ensures var line := Opening('@', tags, g1) + (Opening(':', prefix, g2) + (v + rest));
      ParseIrcLine(line).Success? <==> ValidVerb(v)
    ensures var line := Opening('@', tags, g1) + (Opening(':', prefix, g2) + (v + rest));
      ParseIrcLine(line).Success? ==>
        ParseIrcLine(line).parsed == Assemble(tags, prefix, v, ParseIrcLine(line).parsed.params)
  {
    assert (v + rest)[0] == v[0];
    OpeningsLaid(tags, g1, prefix, g2, v + rest);
    VerbAfterOpenings(tags, g1, prefix, g2, v, rest);
    var p := VerbStart(tags, g1, prefix, g2);
    GateOpened(Opening('@', tags, g1) + (Opening(':', prefix, g2) + (v + rest)), tags, g1, prefix, g2, v, VerbNext(p, v, rest));
  }

  /** Nothing but a terminator from the cursor on: the verb read there is empty. */
  lemma EmptyVerbAt(line: string, p: nat)
    requires p <= |line| && EolFrom(line, p)
    ensures VerbPhase(line, p).0 == []
  {
    IndexOfNone(line, ' ', p);
    FindEolAt(line, p, p);
  }

  /**
   * Opening sections with nothing but a terminator, or nothing at all,
   * after their spaces: the verb phase reads an empty word and the line is
   * rejected.
   */
  lemma EmptyVerbFails(tags: Option<string>, g1: nat, prefix: Option<string>, g2: nat, rest: string)
    requires Unspaced(tags) && Unspaced(prefix) && g1 >= 1 && g2 >= 1
    requires EolFrom(rest, 0)
    ensures ParseIrcLine(Opening('@', tags, g1) + (Opening(':', prefix, g2) + rest)) == InvalidMessage
  {
    var a := Opening('@', tags, g1);
    var b := Opening(':', prefix, g2);
    var line := a + (b + rest);
    if line != [] {
      OpeningSize('@', tags, g1);
      OpeningSize(':', prefix, g2);
      TailTags(tags, g1, b + rest);
      TailPrefix(a, prefix, g2, rest);
      EolBehind(a, b, rest);
      RejectedAt(line, PrefixStart(tags, g1), VerbStart(tags, g1, prefix, g2));
    }
  }

  /** Text of nothing but terminators keeps that property behind two pieces of text. */
  lemma EolBehind(a: string, b: string, rest: string)
    requires EolFrom(rest, 0)
    ensures EolFrom(a + (b + rest), |a| + |b|)
  {
    var line := a + (b + rest);
    assert forall k :: |a| + |b| <= k < |line| ==> line[k] == rest[k - |a| - |b|];
  }

  /** When the opening phases leave the cursor where only a terminator follows, the line is rejected. */
  lemma RejectedAt(line: string, q: nat, p: nat)
    requires line != [] && TagsPhase(line).1 == q
    requires PrefixPhase(line, q).1 == p && p <= |line| && EolFrom(line, p)
    ensures ParseIrcLine(line) == InvalidMessage
  {
    EmptyVerbAt(line, p);
  }

  /** The tag phase over a tag section followed by text that starts with `:`, a terminator or nothing. */
  lemma TailTags(tags: Option<string>, g1: nat, after: string)
    requires Unspaced(tags) && g1 >= 1
    requires after == [] || after[0] == ':' || IsEol(after[0])
    requires Opening('@', tags, g1) + after != []
    ensures TagsPhase(Opening('@', tags, g1) + after).1 == OpeningLength(tags, g1)
  {
    var line := Opening('@', tags, g1) + after;
    if tags.Some? {
      assert line == [] + (Opening('@', tags, g1) + after);
      SectionAtTail(line, [], '@', tags.value, g1, after);
      TagsPhaseAt(line, 1 + |tags.value|, g1);
    } else {
      assert line == after;
    }
  }

  /** The prefix phase over a prefix section behind `a`, followed by a terminator or nothing. */
  lemma TailPrefix(a: string, prefix: Option<string>, g2: nat, rest: string)
    requires Unspaced(prefix) && g2 >= 1
    requires EolFrom(rest, 0)
    ensures var line := a + (Opening(':', prefix, g2) + rest);
      PrefixPhase(line, |a|).1 == |a| + OpeningLength(prefix, g2)
  {
    var line := a + (Opening(':', prefix, g2) + rest);
    OpeningSize(':', prefix, g2);
    if prefix.Some? {
      SectionAtTail(line, a, ':', prefix.value, g2, rest);
      PrefixPhaseAt(line, |a|, |a| + 1 + |prefix.value|, g2);
    } else if |a| < |line| {
      assert line[|a|] == rest[0];
    }
  }
}
