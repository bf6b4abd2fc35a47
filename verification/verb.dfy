/** The verb gate `RE_CMD_VALIDATION`: `^(\d{3}|[A-Za-z]+)$`. */
module Verb {

  predicate IsDigit(c: char)
  {
    '0' <= c <= '9'
  }

  predicate IsLetter(c: char)
  {
    ('A' <= c <= 'Z') || ('a' <= c <= 'z')
  }

  /** A numeric reply of exactly three ASCII digits, or a command of one or more ASCII letters. */
  predicate ValidVerb(v: string)
  {
    || (|v| == 3 && forall i :: 0 <= i < 3 ==> IsDigit(v[i]))
    || (|v| >= 1 && forall i :: 0 <= i < |v| ==> IsLetter(v[i]))
  }

  /**
   * A valid verb is non-empty and holds none of the characters that
   * delimit sections of a line.
   */
  lemma ValidVerbShape(v: string)
    requires ValidVerb(v)
    ensures v != []
    ensures forall i :: 0 <= i < |v| ==> v[i] !in {' ', ':', '@', '\r', '\n'}
  {
  }

  /** The gate on the verbs the tests use. */
  lemma VerbExamples()
    ensures ValidVerb("123") && ValidVerb("CAP") && ValidVerb("PING")
    ensures !ValidVerb("") && !ValidVerb("1") && !ValidVerb("12") && !ValidVerb("1234")
    ensures !ValidVerb("      ") && !ValidVerb("@just-tag") && !ValidVerb("12a")
  {
    assert !IsLetter("1"[0]) && !IsLetter("12"[0]) && !IsLetter("1234"[0]);
    assert !IsLetter("      "[0]) && !IsDigit("      "[0]);
    assert !IsLetter("@just-tag"[0]) && !IsLetter("12a"[0]) && !IsDigit("12a"[2]);
  }
}
