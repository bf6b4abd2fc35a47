/**
 * The parser on lines from the repository's own test suite, derived from
 * the general lemmas about each phase. Where the suite expects something
 * the code does not produce, the lemma states what the code produces.
 */
module Samples {
  import opened Options
  import opened JsText
  import opened Scanner
  import opened Tags
  import opened IrcLine
  import opened Sections
  import opened ParamsShape
  import opened Rejections

  /** `findEol` on a line without a terminator is the line's length, wherever the search starts. */
  lemma FindEolPlainSamples()
    ensures FindEol("1234567", 0) == 7 && FindEol("1234567", 2) == 7
  {
    FindEolWholeLine("1234567", 0);
    FindEolWholeLine("1234567", 2);
  }

  /** `findEol` stops before a single CR or LF at the end, and before a CR LF or LF CR pair. */
  lemma FindEolTerminatorSamples()
    ensures FindEol("1234567\r", 2) == 7 && FindEol("1234567\n", 2) == 7
    ensures FindEol("1234567\r\n", 2) == 7 && FindEol("1234567\n\r", 2) == 7
  {
    FindEolAt("1234567\r", 2, 7);
    FindEolAt("1234567\n", 2, 7);
    FindEolAt("1234567\r\n", 2, 7);
    FindEolAt("1234567\n\r", 2, 7);
  }

  /** `nonSpacePos` skips the spaces in front of the next word. */
  lemma NonSpaceSample()
    ensures NonSpacePos("123   xy", 4) == 6
  {
  }

  /**
   * `@x;y=;z=abc`: a key without `=` is a flag, where the suite expects an
   * empty text; a key with `=` and nothing after it has the empty text.
   */
  lemma FlagTagSample()
    ensures ParseTags("x;y=;z=abc") == [Tag("x", Flag), Tag("y", Text("")), Tag("z", Text("abc"))]
  {
    var ts := [Tag("x", Flag), Tag("y", Text("")), Tag("z", Text("abc"))];
    FlagTagTokens();
    assert FormatTags(ts) == Join(["x", "y=", "z=abc"], ';');
    FlagTagText();
    TagsRoundTrip(ts);
  }

  /** The three tags of the sample, each formatted as its token. */
  lemma FlagTagTokens()
    ensures FormatTokens([Tag("x", Flag), Tag("y", Text("")), Tag("z", Text("abc"))]) == ["x", "y=", "z=abc"]
  {
    var ts := [Tag("x", Flag), Tag("y", Text("")), Tag("z", Text("abc"))];
    assert Escape("abc") == "abc";
    assert FormatTag(ts[0]) == "x" && FormatTag(ts[1]) == "y=" && FormatTag(ts[2]) == "z=abc";
  }

  /** The sample's tokens joined with `;`. */
  lemma FlagTagText()
    ensures Join(["x", "y=", "z=abc"], ';') == "x;y=;z=abc"
  {
    var ps := ["x", "y=", "z=abc"];
    assert ps[1..] == ["y=", "z=abc"] && ps[1..][1..] == ["z=abc"];
  }


  /** Lines the suite expects to be rejected: a tag section with no space after it, and nothing but spaces. */
  lemma RejectedSamples()
    ensures ParseIrcLine("@just-tag") == InvalidMessage
    ensures ParseIrcLine("      ") == InvalidMessage
  {
    UnterminatedTagsFail("@just-tag");
    LeadingSpaceFails("      ");
  }

  /** `JOIN #kesor6 \r\n`: the verb phase reads `JOIN` and moves past the space. */
  lemma JoinVerbSample()
    ensures VerbPhase("JOIN #kesor6 \r\n", 0) == ("JOIN", 5)
  {
    JoinVerbText();
    VerbPhaseSpaced([], "JOIN", " #kesor6 \r\n", 1);
  }

  /** The sample line as the verb, one space and the rest. */
  lemma JoinVerbText()
    ensures "JOIN #kesor6 \r\n" == [] + "JOIN" + " #kesor6 \r\n"
    ensures ' ' !in "JOIN" && Gap(" #kesor6 \r\n", 1)
  {
  }

  /**
   * `JOIN #kesor6 \r\n`: the space before the terminator is content, but
   * the empty parameter it leaves is dropped.
   */
  lemma JoinParamsSample()
    ensures ParamsPhase("JOIN #kesor6 \r\n", 5) == Some(["#kesor6"])
  {
    JoinParamsText();
    ParamsMiddleOnly("JOIN ", ["#kesor6"], 1, "\r\n");
  }

  /** The sample line as the verb, the one parameter, one space and the terminator. */
  lemma JoinParamsText()
    ensures "JOIN #kesor6 \r\n" == "JOIN " + (Join(["#kesor6"], ' ') + Spaces(1)) + "\r\n"
    ensures MiddleList(["#kesor6"]) && TrailingParam("#kesor6") && EolFrom("\r\n", 0)
  {
    assert Join(["#kesor6"], ' ') == "#kesor6";
    assert Spaces(1) == " ";
  }

  /** Two spaces between parameters leave an empty parameter between them, which is kept. */
  lemma InteriorEmptySample()
    ensures ParamsPhase("a  b", 0) == Some(["a", "", "b"])
  {
    var line := "a  b";
    var ps := ["a", "", "b"];
    IndexOfNone(line, ':', 0);
    FindEolWholeLine(line, 0);
    assert JsSlice(line, 0, FindEol(line, 0)) == line;
    assert Join(ps, ' ') == line;
    SplitJoin(ps, ' ');
  }

}
