/**
 * What the parameter phase yields on any line, stated against the line's
 * text rather than against the searches that compute it: where the
 * trailing parameter comes from, what the middle parameters join back to,
 * and when there are no parameters at all.
 */
module ParamsShape {
  import opened Options
  import opened JsText
  import opened Scanner
  import opened Params
  import opened IrcLine
  import opened Sections

  /** The line's content from `pos` on: up to the CR/LF terminator, empty once `pos` is past it. */
  function ContentFrom(line: string, pos: nat): string
  {
    var e := FindEol(line, 0);
    if pos <= e then line[pos..e] else []
  }

  /** The slice the phase takes without a `:` is the content from the cursor on. */
  lemma ContentSlice(line: string, pos: nat)
    ensures JsSlice(line, pos, FindEol(line, pos)) == ContentFrom(line, pos)
  {
    if pos <= |line| {
      FindEolFromStart(line, pos);
    }
  }

  /** A piece of a split has only characters of the text that was split. */
  lemma PiecesAvoid(s: string, sep: char, c: char)
    requires c !in s
    ensures forall i :: 0 <= i < |Split(s, sep)| ==> c !in Split(s, sep)[i]
  {
    var parts := Split(s, sep);
    forall i | 0 <= i < |parts|
      ensures c !in parts[i]
    {
      if c in parts[i] {
        var j :| 0 <= j < |parts[i]| && parts[i][j] == c;
        PieceIn(parts, sep, i, j);
      }
    }
  }

  /**
   * The split of blank-free text with every trailing empty piece dropped:
   * nothing is left exactly when the text is all spaces; otherwise the
   * last piece is not empty, and joined again the pieces are the text
   * less a run of trailing spaces.
   */
  lemma TrimmedPieces(content: string, c: char)
    ensures var ps := TrimTrailingEmpties(Split(content, ' '));
      && (ps == [] <==> forall k :: 0 <= k < |content| ==> content[k] == ' ')
      && Unseparated(ps, ' ')
      && (c !in content ==> forall i :: 0 <= i < |ps| ==> c !in ps[i])
      && PaddedBy(content, Join(ps, ' '))
  {
    var parts := Split(content, ' ');
    TrimmedJoinPadded(parts);
    TrimmedKeepsPieces(content, c);
    TrimmedBlank(content);
  }

  /** The trimmed pieces are pieces of the split, so they hold no space and only characters of the text. */
  lemma TrimmedKeepsPieces(content: string, c: char)
    ensures var ps := TrimTrailingEmpties(Split(content, ' '));
      && Unseparated(ps, ' ')
      && (c !in content ==> forall i :: 0 <= i < |ps| ==> c !in ps[i])
  {
    var parts := Split(content, ' ');
    var ps := TrimTrailingEmpties(parts);
    assert forall i :: 0 <= i < |ps| ==> ps[i] == parts[i];
    if c !in content {
      PiecesAvoid(content, ' ', c);
    }
  }

  /** Nothing is left after trimming exactly when the text is all spaces. */
  lemma TrimmedBlank(content: string)
    ensures TrimTrailingEmpties(Split(content, ' ')) == [] <==> forall k :: 0 <= k < |content| ==> content[k] == ' '
  {
    var parts := Split(content, ' ');
    var ps := TrimTrailingEmpties(parts);
    TrimmedJoinPadded(parts);
    TrimmedKeepsPieces(content, ' ');
    if ps != [] {
      JoinEndsWith(ps, ' ');
      var j := Join(ps, ' ');
      assert content[|j| - 1] == j[|j| - 1];
    }
  }

  /**
   * Without a `:` after the cursor: there are no parameters exactly when
   * the content is blank; otherwise the parameters hold no space and no
   * `:`, the last one is not empty, and joined with single spaces they are
   * the content less a run of trailing spaces.
   */
  lemma ParamsWithoutTrailing(line: string, pos: nat)
    requires forall k :: pos <= k < |line| ==> line[k] != ':'
    ensures var content := ContentFrom(line, pos);
      var r := ParamsPhase(line, pos);
      && (r == None <==> forall k :: 0 <= k < |content| ==> content[k] == ' ')
      && (r.Some? ==>
            && r.value[|r.value| - 1] != []
            && Unseparated(r.value, ' ')
            && (forall i :: 0 <= i < |r.value| ==> ':' !in r.value[i])
            && PaddedBy(content, Join(r.value, ' ')))
  {
    ParamsWithoutColon(line, pos);
    TrimmedPieces(ContentFrom(line, pos), ':');
  }

  /** Without a `:` after the cursor, the parameters are the trimmed split of the content, which has no `:` either. */
  lemma ParamsWithoutColon(line: string, pos: nat)
    requires forall k :: pos <= k < |line| ==> line[k] != ':'
    ensures var ps := TrimTrailingEmpties(Split(ContentFrom(line, pos), ' '));
      && ':' !in ContentFrom(line, pos)
      && ParamsPhase(line, pos) == if ps == [] then None else Some(ps)
  {
    var content := ContentFrom(line, pos);
    IndexOfNone(line, ':', pos);
    ContentSlice(line, pos);
    var ps := TrimTrailingEmpties(Split(content, ' '));
    assert MiddleParams(line, pos) == ps;
    assert PopEmpty(ps) == ps;
  }

  /**
   * The split of the text before a trailing parameter with at most one
   * trailing empty piece dropped: joined again the pieces give the text,
   * perhaps less one trailing space.
   */
  lemma PoppedPieces(before: string, c: char)
    ensures var mid := PopEmpty(Split(before, ' '));
      && Unseparated(mid, ' ')
      && (c !in before ==> forall i :: 0 <= i < |mid| ==> c !in mid[i])
      && (Join(mid, ' ') == before || Join(mid, ' ') + [' '] == before)
  {
    var parts := Split(before, ' ');
    PopKeepsPieces(parts);
    if c !in before {
      PiecesAvoid(before, ' ', c);
    }
    PoppedJoin(parts);
  }

  /** Dropping a trailing empty piece keeps every other piece as it was. */
  lemma PopKeepsPieces(parts: seq<string>)
    ensures var mid := PopEmpty(parts);
      forall i :: 0 <= i < |mid| ==> mid[i] == parts[i]
  {
  }

  /** Dropping one trailing empty piece shortens the join by at most its separator. */
  lemma PoppedJoin(parts: seq<string>)
    requires |parts| >= 1
    ensures var j := Join(PopEmpty(parts), ' ');
      j == Join(parts, ' ') || j + [' '] == Join(parts, ' ')
  {
    var n := |parts| - 1;
    if parts[n] != [] {
      assert PopEmpty(parts) == parts;
    } else if n == 0 {
      PopOnlyEmpty(parts);
    } else {
      assert PopEmpty(parts) == parts[..n];
      JoinDropEmpty(parts);
    }
  }

  /** A single empty piece pops to nothing, and joins to nothing as well. */
  lemma PopOnlyEmpty(parts: seq<string>)
    requires |parts| == 1 && parts[0] == []
    ensures PopEmpty(parts) == [] && Join(parts, ' ') == []
  {
  }

  /** A trailing empty piece adds only its separator to the join. */
  lemma JoinDropEmpty(parts: seq<string>)
    requires |parts| >= 2 && parts[|parts| - 1] == []
    ensures Join(parts[..|parts| - 1], ' ') + [' '] == Join(parts, ' ')
  {
    var n := |parts| - 1;
    SplitLast(parts);
    JoinSnoc(parts[..n], parts[n], ' ');
  }

  /**
   * With a `:` at `t`, the first one from the cursor on: the last
   * parameter is everything after it up to the line's terminator, whatever
   * it holds, and the parameters before it hold no space and no `:` and,
   * joined with single spaces, give the text from the cursor to the
   * character before the `:`, perhaps less one trailing space.
   */
  lemma ParamsWithTrailing(line: string, pos: nat, t: nat)
    requires 1 <= pos <= t < |line| && line[t] == ':'
    requires forall k :: pos <= k < t ==> line[k] != ':'
    ensures var r := ParamsPhase(line, pos);
      && t < FindEol(line, 0)
      && r.Some?
      && r.value[|r.value| - 1] == line[t + 1..FindEol(line, 0)]
      && var mid := r.value[..|r.value| - 1];
      && var before := if pos < t then line[pos..t - 1] else [];
      && Unseparated(mid, ' ')
      && (forall i :: 0 <= i < |mid| ==> ':' !in mid[i])
      && (Join(mid, ' ') == before || Join(mid, ' ') + [' '] == before)
  {
    var before := if pos < t then line[pos..t - 1] else [];
    var mid := PopEmpty(Split(before, ' '));
    var last := line[t + 1..FindEol(line, 0)];
    TrailingAfterColon(line, t);
    ParamsAfterColon(line, pos, t);
    SnocParts(mid, last);
    BeforeColonFree(line, pos, t);
    PoppedPieces(before, ':');
  }

  /** The list with one more element: the front and the last element taken apart again. */
  lemma SnocParts(mid: seq<string>, last: string)
    ensures var ps := mid + [last];
      |ps| == |mid| + 1 && ps[|ps| - 1] == last && ps[..|ps| - 1] == mid
  {
    assert (mid + [last])[..|mid|] == mid;
  }

  /** The text before the first `:` from the cursor has no `:`. */
  lemma BeforeColonFree(line: string, pos: nat, t: nat)
    requires 1 <= pos <= t < |line|
    requires forall k :: pos <= k < t ==> line[k] != ':'
    ensures ':' !in (if pos < t then line[pos..t - 1] else [])
  {
  }

  /** The parameter list with a `:`, in terms of the text before it and the content after it. */
  lemma ParamsAfterColon(line: string, pos: nat, t: nat)
    requires 1 <= pos <= t < |line| && line[t] == ':'
    requires forall k :: pos <= k < t ==> line[k] != ':'
    ensures ParamsPhase(line, pos)
         == Some(PopEmpty(Split(if pos < t then line[pos..t - 1] else [], ' ')) + [line[t + 1..FindEol(line, 0)]])
  {
    var before := if pos < t then line[pos..t - 1] else [];
    var mid := PopEmpty(Split(before, ' '));
    var last := line[t + 1..FindEol(line, 0)];
    TrailingAfterColon(line, t);
    assert PopEmpty(MiddleBefore(line, pos, t)) == mid;
    ParamsPhaseAt(line, pos, t);
  }

  /** The trailing parameter after a `:` at `t` is the rest of the line's content. */
  lemma TrailingAfterColon(line: string, t: nat)
    requires t < |line| && line[t] == ':'
    ensures t < FindEol(line, 0)
    ensures TrailingText(line, t) == line[t + 1..FindEol(line, 0)]
  {
    assert !IsEol(line[t]);
  }

  /**
   * Space-free pieces, the last not empty, are fixed by their joined text
   * even with spaces padded after it.
   */
  lemma JoinDetermined(ps: seq<string>, mid: seq<string>, n: nat)
    requires ps != [] && ps[|ps| - 1] != [] && Unseparated(ps, ' ')
    requires mid != [] && mid[|mid| - 1] != [] && Unseparated(mid, ' ')
    requires PaddedBy(Join(mid, ' ') + Spaces(n), Join(ps, ' '))
    ensures ps == mid
  {
    var j := Join(mid, ' ');
    var b := Join(ps, ' ');
    var content := j + Spaces(n);
    JoinEndsWith(mid, ' ');
    JoinEndsWith(ps, ' ');
    assert j[|j| - 1] != ' ';
    assert b[|b| - 1] != ' ';
    assert content[|b| - 1] == b[|b| - 1];
    assert content[|j| - 1] == j[|j| - 1];
    assert forall k :: |j| <= k < |content| ==> content[k] == ' ';
    assert |b| == |j|;
    assert b == content[..|b|] == j;
    SplitJoin(ps, ' ');
    SplitJoin(mid, ' ');
  }

  /** Text placed after a cursor and before a terminator is the content from the cursor on. */
  lemma ContentBetween(x: string, body: string, eol: string)
    requires body != [] && !IsEol(body[|body| - 1])
    requires EolFrom(eol, 0)
    ensures var line := x + body + eol;
      && ContentFrom(line, |x|) == body
      && (':' !in body ==> forall k :: |x| <= k < |line| ==> line[k] != ':')
  {
    var line := x + body + eol;
    var e := |x| + |body|;
    assert forall k :: e <= k < |line| ==> line[k] == eol[k - e];
    assert line[e - 1] == body[|body| - 1];
    FindEolAt(line, 0, e);
    assert line[|x|..e] == body;
    if ':' !in body {
      assert forall k :: |x| <= k < e ==> line[k] == body[k - |x|];
    }
  }

  /** Parameters joined with single spaces and padded with spaces: the text ends in the padding or the last parameter. */
  lemma PaddedParamsText(mid: seq<string>, n: nat)
    requires mid != [] && MiddleList(mid)
    requires TrailingParam(mid[|mid| - 1])
    ensures var body := Join(mid, ' ') + Spaces(n);
      && body != [] && !IsEol(body[|body| - 1]) && ':' !in body
      && |Join(mid, ' ')| >= 1 && body[|Join(mid, ' ')| - 1] != ' '
  {
    var j := Join(mid, ' ');
    var body := j + Spaces(n);
    JoinAvoids(mid, ' ', ':');
    JoinEndsWith(mid, ' ');
    assert body[|j| - 1] == j[|j| - 1];
    if n > 0 {
      assert body[|body| - 1] == ' ';
    }
  }

  /**
   * Parameters without a trailing one, written with single spaces and
   * followed by any spaces and a terminator: they come back as written.
   */
  lemma ParamsMiddleOnly(x: string, mid: seq<string>, n: nat, eol: string)
    requires mid != [] && MiddleList(mid)
    requires TrailingParam(mid[|mid| - 1])
    requires EolFrom(eol, 0)
    ensures ParamsPhase(x + (Join(mid, ' ') + Spaces(n)) + eol, |x|) == Some(mid)
  {
    var body := Join(mid, ' ') + Spaces(n);
    PaddedParamsText(mid, n);
    ContentBetween(x, body, eol);
    MiddleOnlyAt(x + body + eol, |x|, mid, n);
  }

  /** The parameter list of a line whose content from the cursor is parameters padded with spaces. */
  lemma MiddleOnlyAt(line: string, pos: nat, mid: seq<string>, n: nat)
    requires mid != [] && MiddleList(mid)
    requires forall k :: pos <= k < |line| ==> line[k] != ':'
    requires ContentFrom(line, pos) == Join(mid, ' ') + Spaces(n)
    requires |Join(mid, ' ')| >= 1 && ContentFrom(line, pos)[|Join(mid, ' ')| - 1] != ' '
    ensures ParamsPhase(line, pos) == Some(mid)
  {
    ParamsWithoutTrailing(line, pos);
    var r := ParamsPhase(line, pos);
    assert r.Some?;
    assert forall i :: 0 <= i < |mid| ==> ' ' !in mid[i];
    JoinDetermined(r.value, mid, n);
  }
}
