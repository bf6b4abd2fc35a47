/**
 * The two cursor primitives the parser exports: skipping a run of spaces
 * and locating the end of a line's content before its CR/LF terminator.
 */
module Scanner {

  /** A line-terminator character, as matched by the class `[\r\n]`. */
  predicate IsEol(c: char)
  {
    c == '\r' || c == '\n'
  }

  /** `s[i..]` holds nothing but CR and LF characters. */
  predicate EolFrom(s: string, i: nat)
  {
    forall k :: i <= k < |s| ==> IsEol(s[k])
  }

  /**
   * `nonSpacePos`: advance from `p` over a run of spaces. The result is the
   * first position at or after `p` that is past the end or holds a
   * non-space; every position skipped holds a space.
   */
  function NonSpacePos(s: string, p: nat): (q: nat)
    ensures p <= q
    ensures q == p || q <= |s|
    ensures forall i :: p <= i < q ==> s[i] == ' '
    ensures q < |s| ==> s[q] != ' '
    decreases |s| - p
  {
    if p < |s| && s[p] == ' ' then NonSpacePos(s, p + 1) else p
  }

  /**
   * `findEol`: the regular expression `[\r\n]*$` searched from `lastIndex
   * == p`. For `p <= |s|` it is the first `e >= p` whose suffix `s[e..]`
   * holds only CR/LF: either `p` itself or a position right after a
   * character that is not CR/LF, so spaces in front of the terminator stay
   * part of the content. Past the end the search fails and the length is
   * returned.
   */
  function FindEol(s: string, p: nat): (e: nat)
    ensures p <= |s| ==> p <= e <= |s| && EolFrom(s, e)
    ensures p <= |s| && p < e ==> !IsEol(s[e - 1])
    ensures forall i :: p <= i < |s| && !IsEol(s[i]) ==> i < e
    ensures p > |s| ==> e == |s|
    decreases |s| - p
  {
    if p > |s| then |s|
    else if EolFrom(s, p) then p
    else FindEol(s, p + 1)
  }

  /**
   * Searching from any position inside the line ends at the same place as
   * searching from the start, unless the start is already past it: the
   * content end is one fixed boundary of the line.
   */
  lemma FindEolFromStart(s: string, p: nat)
    requires p <= |s|
    ensures FindEol(s, p) == if p <= FindEol(s, 0) then FindEol(s, 0) else p
  {
    var e0 := FindEol(s, 0);
    var e := FindEol(s, p);
    if p <= e0 {
      assert EolFrom(s, e0);
      assert EolFrom(s, e);
    } else {
      assert forall k :: p <= k < |s| ==> IsEol(s[k]) by {
        assert EolFrom(s, e0);
      }
      assert EolFrom(s, p);
    }
  }

  /** No position between `p` and the content end starts a suffix of CR and LF alone. */
  lemma FindEolLeast(s: string, p: nat, j: nat)
    requires p <= j < FindEol(s, p)
    ensures !EolFrom(s, j)
  {
    var e := FindEol(s, p);
    assert p <= |s|;
    assert !IsEol(s[e - 1]);
  }

  /** The content end found from `p` is `e` when `s[e..]` is a terminator and the character before `e` is not. */
  lemma FindEolAt(s: string, p: nat, e: nat)
    requires p <= e <= |s| && EolFrom(s, e)
    requires p < e ==> !IsEol(s[e - 1])
    ensures FindEol(s, p) == e
  {
  }

  /** A line ending in a non-terminator character has all of its text as content. */
  lemma FindEolWholeLine(s: string, p: nat)
    requires p <= |s|
    requires |s| > 0 ==> !IsEol(s[|s| - 1])
    ensures FindEol(s, p) == |s|
  {
  }

  /** A run of `n` spaces. */
  function Spaces(n: nat): (r: string)
    ensures |r| == n
    ensures forall i :: 0 <= i < n ==> r[i] == ' '
  {
    if n == 0 then [] else [' '] + Spaces(n - 1)
  }
}
