/** The derived parsers of include/parsec/parsers.hpp: single digits, digit runs,
    decimal numbers, letters and white space, built from `satisfy`, `many1` and map. */
module Parsers {
  import opened ParseTypes
  import opened Primitives
  import opened Combinators
  import opened Repetition

  /** The character classes of the C library in the "C" locale. */
  predicate IsDigit(c: char) {
    '0' <= c <= '9'
  }

  predicate IsAlpha(c: char) {
    'a' <= c <= 'z' || 'A' <= c <= 'Z'
  }

  predicate IsSpace(c: char) {
    c == ' ' || c == '\t' || c == '\n' || c == '\r' || c == '\U{000B}' || c == '\U{000C}'
  }

  function DigitP(): Parser<char> {
    Satisfy(IsDigit, "Failed to parse digit")
  }

  /** One digit, consumed; otherwise a failure labelled "Failed to parse digit". */
  lemma DigitPRun(s: string)
    ensures CharClass(DigitP(), IsDigit)
    ensures DigitP().run(s).Failure? ==>
              DigitP().run(s).error ==
                ParserError("Failed to parse digit", if |s| == 0 then "Empty input!" else Unexpected(s[0]))
  {
    SatisfyClass(IsDigit, "Failed to parse digit");
    SatisfyRun(IsDigit, "Failed to parse digit", s);
  }

  /** The list of characters as a string; both are sequences of characters here. */
  function AsString(digits: seq<char>): string {
    digits
  }

  /** `many1(digitP())` with the list of characters turned into a string. */
  function DigitsP(): Parser<string> {
    SatisfyClass(IsDigit, "Failed to parse digit");
    Map(AsString, Many1(DigitP()))
  }

  /** `digitsP` fails exactly when the input does not start with a digit; otherwise it
      yields the whole leading run of digits and the remainder does not start with one. */
  lemma DigitsPRun(s: string)
    ensures DigitsP().run(s).Failure? <==> !(|s| > 0 && IsDigit(s[0]))
    ensures DigitsP().run(s).Failure? ==>
              DigitP().run(s).Failure? && DigitsP().run(s).error == DigitP().run(s).error
    ensures DigitsP().run(s).Success? ==>
              var (digits, rest) := DigitsP().run(s).value;
              && |digits| > 0
              && (forall i :: 0 <= i < |digits| ==> IsDigit(digits[i]))
              && digits + rest == s
              && (rest == [] || !IsDigit(rest[0]))
  {
    if |s| > 0 && IsDigit(s[0]) {
      DigitsPShape(s);
    } else {
      DigitsPFailure(s);
    }
  }

  lemma DigitsPShape(s: string)
    requires |s| > 0 && IsDigit(s[0])
    ensures DigitsP().run(s).Success?
    ensures var (digits, rest) := DigitsP().run(s).value;
            && |digits| > 0
            && (forall i :: 0 <= i < |digits| ==> IsDigit(digits[i]))
            && digits + rest == s
            && (rest == [] || !IsDigit(rest[0]))
  {
    DigitsPValue(s);
    var digits := LeadingRun(IsDigit, s);
    assert digits + s[|digits|..] == s;
  }

  lemma DigitsPFailure(s: string)
    requires !(|s| > 0 && IsDigit(s[0]))
    ensures DigitP().run(s).Failure? && DigitsP().run(s) == Failure(DigitP().run(s).error)
  {
    SatisfyRun(IsDigit, "Failed to parse digit", s);
    SatisfyClass(IsDigit, "Failed to parse digit");
    Many1Run(DigitP(), s);
    MapRun(AsString, Many1(DigitP()), s);
  }

  /** On success, the digit string is exactly the longest leading run of digits. */
  lemma DigitsPValue(s: string)
    requires |s| > 0 && IsDigit(s[0])
    ensures DigitsP().run(s) == Success((LeadingRun(IsDigit, s), s[|LeadingRun(IsDigit, s)|..]))
  {
    SatisfyClass(IsDigit, "Failed to parse digit");
    Many1Run(DigitP(), s);
    MapRun(AsString, Many1(DigitP()), s);
    ManyCharClass(DigitP(), IsDigit, s[1..]);
    assert s[1..][|LeadingRun(IsDigit, s[1..])|..] == s[|LeadingRun(IsDigit, s)|..];
  }

  function Pow10(n: nat): (r: nat)
    ensures r >= 1
  {
    if n == 0 then 1 else 10 * Pow10(n - 1)
  }

  /** The number a string of decimal digits denotes, as `std::stoi` reads it. */
  function DecimalValue(digits: string): (r: int)
    ensures (forall i :: 0 <= i < |digits| ==> IsDigit(digits[i])) ==> 0 <= r < Pow10(|digits|)
  {
    if digits == [] then 0
    else DecimalValue(digits[..|digits| - 1]) * 10 + (digits[|digits| - 1] as int - '0' as int)
  }

  /** Leading zeros do not change the value. */
  lemma {:induction false} DecimalValueLeadingZero(digits: string)
    ensures DecimalValue("0" + digits) == DecimalValue(digits)
    decreases |digits|
  {
    if digits != [] {
      var init := digits[..|digits| - 1];
      assert ("0" + digits)[..|digits|] == "0" + init;
      DecimalValueLeadingZero(init);
    }
  }

  function DecimalP(): Parser<int> {
    Map(DecimalValue, DigitsP())
  }

  /** `decimalP` fails exactly when `digitsP` does and otherwise yields the value of the
      leading run of digits, which has no more digits than the run. */
  lemma DecimalPRun(s: string)
    ensures DecimalP().run(s).Failure? <==> !(|s| > 0 && IsDigit(s[0]))
    ensures DecimalP().run(s).Success? ==>
              var digits := LeadingRun(IsDigit, s);
              && DecimalP().run(s) == Success((DecimalValue(digits), s[|digits|..]))
              && 0 <= DecimalP().run(s).value.0 < Pow10(|digits|)
  {
    MapRun(DecimalValue, DigitsP(), s);
    DigitsPRun(s);
    if |s| > 0 && IsDigit(s[0]) {
      DigitsPValue(s);
    }
  }

  function LetterP(): Parser<char> {
    Satisfy(IsAlpha, "Failed to match letter")
  }

  lemma LetterPRun(s: string)
    ensures CharClass(LetterP(), IsAlpha)
    ensures LetterP().run(s).Failure? ==> LetterP().run(s).error.parserLabel == "Failed to match letter"
  {
    SatisfyClass(IsAlpha, "Failed to match letter");
    SatisfyRun(IsAlpha, "Failed to match letter", s);
  }

  function SpaceP(): Parser<char> {
    Satisfy(IsSpace, "Failed to match space")
  }

  lemma SpacePRun(s: string)
    ensures CharClass(SpaceP(), IsSpace)
    ensures SpaceP().run(s).Failure? ==> SpaceP().run(s).error.parserLabel == "Failed to match space"
  {
    SatisfyClass(IsSpace, "Failed to match space");
    SatisfyRun(IsSpace, "Failed to match space", s);
  }
}
