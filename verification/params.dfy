/**
 * Building the parameter list: the middle parameters are the split of
 * the text after the verb on single spaces, with empty strings removed
 * only at the end of the list.
 */
module Params {
  import opened JsText

  /** The `while (last === '') pop()` loop: drop every trailing empty string. */
  function TrimTrailingEmpties(ps: seq<string>): (r: seq<string>)
    ensures |r| <= |ps| && r == ps[..|r|]
    ensures r == [] || r[|r| - 1] != []
    ensures forall i :: |r| <= i < |ps| ==> ps[i] == []
    decreases |ps|
  {
    if ps != [] && ps[|ps| - 1] == [] then
      TrimTrailingEmpties(ps[..|ps| - 1])
    else ps
  }

  /** The single `if (last === '') pop()`: drop at most one trailing empty string. */
  function PopEmpty(ps: seq<string>): (r: seq<string>)
    ensures r == ps || (ps != [] && ps[|ps| - 1] == [] && r == ps[..|ps| - 1])
    ensures ps != [] && ps[|ps| - 1] == [] ==> |r| == |ps| - 1
  {
    if ps != [] && ps[|ps| - 1] == [] then ps[..|ps| - 1] else ps
  }

  /** `text` is `body` followed by nothing but spaces. */
  predicate PaddedBy(text: string, body: string)
  {
    && body <= text
    && forall k :: |body| <= k < |text| ==> text[k] == ' '
  }

  /**
   * Dropping trailing empty pieces of a split on spaces loses only
   * spaces: what is left joins to the text minus a run of trailing spaces.
   */
  lemma {:induction false} TrimmedJoinPadded(ps: seq<string>)
    requires |ps| >= 1
    ensures PaddedBy(Join(ps, ' '), Join(TrimTrailingEmpties(ps), ' '))
    decreases |ps|
  {
    var r := TrimTrailingEmpties(ps);
    if ps[|ps| - 1] == [] {
      var init := ps[..|ps| - 1];
      assert r == TrimTrailingEmpties(init);
      if |init| == 0 {
        assert ps == [[]];
        assert r == [];
      } else {
        assert init + [[]] == ps;
        TrimmedJoinPadded(init);
        JoinSnoc(init, [], ' ');
        var joined := Join(init, ' ');
        var body := Join(r, ' ');
        assert Join(ps, ' ') == joined + [' '];
        assert body <= joined;
        assert forall k :: |body| <= k < |joined| + 1 ==> (joined + [' '])[k] == ' ';
      }
    } else {
      assert r == ps;
    }
  }
}
