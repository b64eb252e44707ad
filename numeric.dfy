/** The digit parsers of include/parsec/numeric.hpp: a digit as `anyOf` the ten digit
    characters and a digit run as `many1` of that. */
module Numeric {
  import opened ParseTypes
  import opened Primitives
  import opened Combinators
  import opened Repetition
  import Parsers

  const Digits: string := "0123456789"

  lemma DigitsAreDigits(c: char)
    ensures c in Digits <==> Parsers.IsDigit(c)
  {
    if Parsers.IsDigit(c) {
      assert Digits[c as int - '0' as int] == c;
    }
  }

  function DigitP(): Parser<char> {
    AnyOf(Digits)
  }

  /** `digitP` consumes one character exactly when it is one of '0'..'9', and fails on
      empty input and on any other head character. Its label is "any of: 0123456789";
      a failure carries the diagnostic of the last alternative, `charP('9')`. */
  lemma DigitPRun(s: string)
    ensures CharClass(DigitP(), Parsers.IsDigit)
    ensures DigitP().name == "any of: " + Digits
    ensures DigitP().run(s).Failure? ==>
              DigitP().run(s).error ==
                ParserError(CharLabel('9'), if |s| == 0 then "Empty input!" else Unexpected(s[0]))
  {
    DigitPClass();
    AnyOfRun(Digits, s);
    CharPRun(Digits[|Digits| - 1], s);
  }

  lemma DigitPClass()
    ensures CharClass(DigitP(), Parsers.IsDigit)
  {
    AnyOfClass(Digits);
    forall c ensures c in Digits <==> Parsers.IsDigit(c) {
      DigitsAreDigits(c);
    }
    ClassChange(DigitP(), c => c in Digits, Parsers.IsDigit);
  }

  function DigitsP(): Parser<seq<char>> {
    DigitPClass();
    CharClassWellBehaved(DigitP(), Parsers.IsDigit);
    Many1(DigitP())
  }

  /** `digitsP` fails exactly when the input does not start with a digit; otherwise it
      yields the longest leading run of digits, in order, and leaves the rest. */
  lemma DigitsPRun(s: string)
    ensures DigitsP().run(s).Failure? <==> !(|s| > 0 && Parsers.IsDigit(s[0]))
    ensures DigitsP().run(s).Success? ==>
              var digits := LeadingRun(Parsers.IsDigit, s);
              DigitsP().run(s) == Success((digits, s[|digits|..]))
  {
    if |s| > 0 && Parsers.IsDigit(s[0]) {
      DigitsPValue(s);
    } else {
      DigitsPFailure(s);
    }
  }

  /** Without a leading digit, `digitsP` fails with the diagnostic of `digitP`. */
  lemma DigitsPFailure(s: string)
    requires !(|s| > 0 && Parsers.IsDigit(s[0]))
    ensures DigitP().run(s).Failure? && DigitsP().run(s) == Failure(DigitP().run(s).error)
  {
    DigitPClass();
    CharClassWellBehaved(DigitP(), Parsers.IsDigit);
    Many1Run(DigitP(), s);
  }

  lemma DigitsPValue(s: string)
    requires |s| > 0 && Parsers.IsDigit(s[0])
    ensures DigitsP().run(s) == Success((LeadingRun(Parsers.IsDigit, s), s[|LeadingRun(Parsers.IsDigit, s)|..]))
  {
    DigitPClass();
    CharClassWellBehaved(DigitP(), Parsers.IsDigit);
    Many1Run(DigitP(), s);
    ManyCharClass(DigitP(), Parsers.IsDigit, s[1..]);
    assert s[1..][|LeadingRun(Parsers.IsDigit, s[1..])|..] == s[|LeadingRun(Parsers.IsDigit, s)|..];
  }
}
