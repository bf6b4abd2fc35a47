/**
 * What each phase of the parser computes on a line whose sections have a
 * known shape: a section, then one or more spaces, then text that does not
 * start with a space.
 */
module Sections {
  import opened Options
  import opened JsText
  import opened Scanner
  import opened Params
  import opened IrcLine

  /** `post` starts with a run of exactly `gap` spaces, at least one. */
  predicate Gap(post: string, gap: nat)
  {
    && 1 <= gap <= |post|
    && (forall k :: 0 <= k < gap ==> post[k] == ' ')
    && (gap < |post| ==> post[gap] != ' ')
  }

  /**
   * From `start`, a space-free token ends at `end`, and exactly `gap`
   * spaces follow it, at least one.
   *
   * Lemmas require it as `... == true`, so that a caller discharges it as one
   * fact it already holds; a plain `requires` would have Dafny check each
   * clause of the body at every call, which costs these proofs dearly.
   */
  predicate Delimited(line: string, start: nat, end: nat, gap: nat)
  {
    && start <= end && end + gap <= |line| && gap >= 1
    && (forall k :: start <= k < end ==> line[k] != ' ')
    && (forall k :: end <= k < end + gap ==> line[k] == ' ')
    && (end + gap < |line| ==> line[end + gap] != ' ')
  }

  /** The searches of one section, in terms of absolute positions. */
  lemma TokenAt(line: string, start: nat, end: nat, gap: nat)
    requires Delimited(line, start, end, gap) == true
    ensures IndexOf(line, ' ', start) == end
    ensures JsSlice(line, start, end) == line[start..end]
    ensures NonSpacePos(line, end + 1) == end + gap
  {
    IndexOfAt(line, ' ', start, end);
  }

  /** A space-free token and a gap, as positions in the line they make up. */
  lemma TokenDelimited(x: string, body: string, post: string, gap: nat)
    requires ' ' !in body
    requires Gap(post, gap)
    ensures Delimited(x + body + post, |x|, |x| + |body|, gap)
    ensures (x + body + post)[|x|..|x| + |body|] == body
  {
    var line := x + body + post;
    var n := |x| + |body|;
    assert forall k :: |x| <= k < n ==> line[k] == body[k - |x|];
    assert forall k :: n <= k < |line| ==> line[k] == post[k - n];
  }

  /**
   * A space-free token followed by a gap: the space search from the
   * token's start finds the gap, the slice up to it is the token, and
   * skipping spaces lands after the gap.
   */
  lemma Token(x: string, body: string, post: string, gap: nat)
    requires ' ' !in body
    requires Gap(post, gap)
    ensures IndexOf(x + body + post, ' ', |x|) == |x| + |body|
    ensures JsSlice(x + body + post, |x|, |x| + |body|) == body
    ensures NonSpacePos(x + body + post, |x| + |body| + 1) == |x| + |body| + gap
  {
    TokenDelimited(x, body, post, gap);
    TokenAt(x + body + post, |x|, |x| + |body|, gap);
  }

  /** A line opening with `@`, a token and a gap: the token is the raw tag text and the cursor lands after the gap. */
  lemma TagsPhaseAt(line: string, end: nat, gap: nat)
    requires |line| > 0 && line[0] == '@'
    requires Delimited(line, 1, end, gap)
    ensures TagsPhase(line) == (Some(line[1..end]), end + gap)
  {
    TokenAt(line, 1, end, gap);
  }

  /** A cursor on `:` before a token and a gap: the token is the raw prefix and the cursor lands after the gap. */
  lemma PrefixPhaseAt(line: string, pos: nat, end: nat, gap: nat)
    requires pos < |line| && line[pos] == ':'
    requires Delimited(line, pos + 1, end, gap)
    ensures PrefixPhase(line, pos) == (Some(line[pos + 1..end]), end + gap)
  {
    TokenAt(line, pos + 1, end, gap);
  }

  /** A token and a gap at the cursor: the token is the verb and the cursor lands after the gap. */
  lemma VerbPhaseAt(line: string, pos: nat, end: nat, gap: nat)
    requires Delimited(line, pos, end, gap)
    ensures VerbPhase(line, pos) == (line[pos..end], end + gap)
  {
    TokenAt(line, pos, end, gap);
  }

  /**
   * A space-free token from the cursor up to `end`, where only a line
   * terminator (or nothing) follows: the token is the verb and the cursor
   * lands one past its end.
   */
  lemma VerbPhaseLast(line: string, pos: nat, end: nat)
    requires pos <= end <= |line|
    requires forall k :: pos <= k < end ==> line[k] != ' '
    requires EolFrom(line, end)
    requires pos < end ==> !IsEol(line[end - 1])
    ensures VerbPhase(line, pos) == (line[pos..end], end + 1)
  {
    IndexOfNone(line, ' ', pos);
    FindEolAt(line, pos, end);
  }

  /** A verb and a gap: the verb is read whole and the cursor lands after the gap. */
  lemma VerbPhaseSpaced(x: string, v: string, post: string, gap: nat)
    requires ' ' !in v
    requires Gap(post, gap)
    ensures VerbPhase(x + v + post, |x|) == (v, |x| + |v| + gap)
  {
    Token(x, v, post, gap);
  }

  /** `@tags` or `:prefix` behind its lead character and a run of `gap` spaces, or nothing. */
  function Opening(lead: char, text: Option<string>, gap: nat): string
  {
    if text.Some? then [lead] + text.value + Spaces(gap) else []
  }

  /** Raw section text the phases can delimit: no space in it. */
  predicate Unspaced(text: Option<string>)
  {
    text.Some? ==> ' ' !in text.value
  }

  /** Nothing but a terminator from the cursor on: no parameters. */
  lemma ParamsPhaseEmpty(line: string, pos: nat)
    requires EolFrom(line, pos)
    ensures ParamsPhase(line, pos) == None
  {
    assert IndexOf(line, ':', pos) == -1;
    assert JsSlice(line, pos, FindEol(line, pos)) == [];
    SplitNone([], ' ');
  }

  /** The middle parameters as written before the `:`: each followed by one space. */
  function MiddleText(mid: seq<string>): string
  {
    if mid == [] then [] else Join(mid, ' ') + [' ']
  }

  /** A middle parameter the parser reads back as one token. */
  predicate MiddleParam(m: string)
  {
    m != [] && ' ' !in m && ':' !in m
  }

  /** Every one of `mid` is a middle parameter. */
  predicate MiddleList(mid: seq<string>)
  {
    forall i :: 0 <= i < |mid| ==> MiddleParam(mid[i])
  }

  /** A trailing parameter the line end does not cut short. */
  predicate TrailingParam(t: string)
  {
    t == [] || !IsEol(t[|t| - 1])
  }

  /**
   * With the first `:` after the cursor at `t`: the middle pieces before
   * it, one trailing empty piece popped, then the trailing text.
   */
  lemma ParamsPhaseAt(line: string, pos: nat, t: nat)
    requires pos <= t < |line| && line[t] == ':'
    requires forall k :: pos <= k < t ==> line[k] != ':'
    ensures ParamsPhase(line, pos) == Some(PopEmpty(MiddleBefore(line, pos, t)) + [TrailingText(line, t)])
  {
    IndexOfAt(line, ':', pos, t);
  }

  /** The middle parameters written with single spaces split back, with no empty string to pop. */
  lemma MiddleSplit(mid: seq<string>)
    requires MiddleList(mid)
    ensures mid != [] ==> PopEmpty(Split(Join(mid, ' '), ' ')) == mid
    ensures mid == [] ==> PopEmpty(Split([], ' ')) == mid
    ensures ':' !in MiddleText(mid)
  {
    if mid == [] {
      SplitNone([], ' ');
    } else {
      SplitJoin(mid, ' ');
      assert mid[|mid| - 1] != [];
      JoinAvoids(mid, ' ', ':');
    }
  }

  /** The trailing parameter runs from after the `:` at `t` to the end of a line with no terminator. */
  lemma TrailingTextAt(line: string, t: nat, last: string)
    requires t < |line| && line[t] == ':'
    requires line[t + 1..] == last && TrailingParam(last)
    ensures TrailingText(line, t) == last
  {
    if last != [] {
      assert line[|line| - 1] == last[|last| - 1];
    }
    FindEolWholeLine(line, 0);
  }

  /** The middle parameters written from `pos` up to a `:` at `t` split back as written. */
  lemma MiddleBeforeAt(line: string, pos: nat, t: nat, mid: seq<string>)
    requires pos <= t <= |line| && line[pos..t] == MiddleText(mid)
    requires MiddleList(mid)
    requires pos >= 1
    ensures PopEmpty(MiddleBefore(line, pos, t)) == mid
  {
    MiddleSplit(mid);
    if mid != [] {
      SpaceBehind(line, pos, t, Join(mid, ' '));
    }
  }

  /** Text followed by one space, written from `pos` to `t`: the slice that leaves out the last character is the text. */
  lemma SpaceBehind(line: string, pos: nat, t: nat, j: string)
    requires pos <= t <= |line| && line[pos..t] == j + [' ']
    ensures JsSlice(line, pos, t - 1) == j
  {
    assert line[pos..t - 1] == line[pos..t][..|j|];
    assert (j + [' '])[..|j|] == j;
  }

  /**
   * From `pos`, the middle parameters with single spaces, then `:` at `t`
   * and a trailing parameter running to the end of the line.
   *
   * Lemmas require it as `... == true`, so that a caller discharges it as one
   * fact it already holds; a plain `requires` would have Dafny check each
   * clause of the body at every call, which costs these proofs dearly.
   */
  predicate TrailingSlices(line: string, pos: nat, t: nat, mid: seq<string>, last: string)
  {
    && t == pos + |MiddleText(mid)| && t < |line|
    && line[pos..t] == MiddleText(mid) && line[t] == ':' && line[t + 1..] == last
  }

  /**
   * Middle parameters with single spaces from the cursor, then `:` and a
   * trailing parameter running to the end of the line: the parameters
   * come back as written.
   */
  lemma ParamsTrailingAt(line: string, pos: nat, t: nat, mid: seq<string>, last: string)
    requires pos >= 1
    requires MiddleList(mid)
    requires TrailingParam(last)
    requires TrailingSlices(line, pos, t, mid, last) == true
    ensures ParamsPhase(line, pos) == Some(mid + [last])
  {
    TrailingPieces(line, pos, t, mid, last);
    ParamsPhaseAt(line, pos, t);
  }

  /** The searches' view of parameters so written: no `:` before `t`, and both parts read back. */
  lemma TrailingPieces(line: string, pos: nat, t: nat, mid: seq<string>, last: string)
    requires pos >= 1
    requires MiddleList(mid)
    requires TrailingParam(last)
    requires TrailingSlices(line, pos, t, mid, last) == true
    ensures pos <= t < |line| && line[t] == ':'
    ensures forall k :: pos <= k < t ==> line[k] != ':'
    ensures PopEmpty(MiddleBefore(line, pos, t)) == mid
    ensures TrailingText(line, t) == last
  {
    MiddleSplit(mid);
    ColonFreeBefore(line, pos, t, MiddleText(mid));
    TrailingTextAt(line, t, last);
    MiddleBeforeAt(line, pos, t, mid);
  }

  /** Text without a `:` written from `pos` to `t`: no `:` in that stretch of the line. */
  lemma ColonFreeBefore(line: string, pos: nat, t: nat, m: string)
    requires pos <= t <= |line| && line[pos..t] == m && ':' !in m
    ensures forall k :: pos <= k < t ==> line[k] != ':'
  {
    assert forall k :: pos <= k < t ==> line[k] == m[k - pos];
  }
}
