/** The primitive parsers of include/parsec/parsec.hpp: `pure`, `satisfy`, `charP`
    and `stringP`, with the substring search `stringP` is written with. */
module Primitives {
  import opened ParseTypes

  /** Succeeds with `v` and consumes nothing. */
  function Pure<T>(v: T): Parser<T> {
    Parser(Unknown, s => Success((v, s)))
  }

  lemma PureRun<T>(v: T, s: string)
    ensures Pure(v).name == Unknown
    ensures Pure(v).run(s) == Success((v, s))
    ensures Suffixing(Pure(v))
  {
  }

  /** The diagnostic for a head character the predicate rejects. */
  function Unexpected(c: char): string {
    "Unexpected '" + [c] + "'"
  }

  /** Consumes one character that `pred` accepts. The parser itself is built without a
      label, so only its diagnostics carry `errLabel`. */
  function Satisfy(pred: char -> bool, errLabel: string): Parser<char> {
    Parser(Unknown, s =>
      if |s| == 0 then Failure(ParserError(errLabel, "Empty input!"))
      else if pred(s[0]) then Success((s[0], s[1..]))
      else Failure(ParserError(errLabel, Unexpected(s[0]))))
  }

  /** `p` reads exactly one character, succeeding on it exactly when `pred` holds. */
  ghost predicate CharClass(p: Parser<char>, pred: char -> bool) {
    forall s ::
      && (p.run(s).Success? <==> |s| > 0 && pred(s[0]))
      && (p.run(s).Success? ==> p.run(s).value == (s[0], s[1..]))
  }

  lemma SatisfyRun(pred: char -> bool, errLabel: string, s: string)
    ensures Satisfy(pred, errLabel).name == Unknown
    ensures |s| == 0 ==> Satisfy(pred, errLabel).run(s) == Failure(ParserError(errLabel, "Empty input!"))
    ensures |s| > 0 && pred(s[0]) ==> Satisfy(pred, errLabel).run(s) == Success((s[0], s[1..]))
    ensures |s| > 0 && !pred(s[0]) ==>
              Satisfy(pred, errLabel).run(s) == Failure(ParserError(errLabel, Unexpected(s[0])))
  {
  }

  /** A one-character class parser consumes exactly one character and keeps a suffix. */
  lemma CharClassWellBehaved(p: Parser<char>, pred: char -> bool)
    requires CharClass(p, pred)
    ensures Consumes(p) && Suffixing(p)
  {
    forall s | p.run(s).Success? ensures |p.run(s).value.1| < |s| && IsSuffix(p.run(s).value.1, s) {
      SuffixOfDrop(s, 1);
    }
  }

  /** Two predicates that agree on every character describe the same class. */
  lemma ClassChange(p: Parser<char>, pred1: char -> bool, pred2: char -> bool)
    requires CharClass(p, pred1)
    requires forall c :: pred1(c) <==> pred2(c)
    ensures CharClass(p, pred2)
  {
  }

  lemma SatisfyClass(pred: char -> bool, errLabel: string)
    ensures CharClass(Satisfy(pred, errLabel), pred)
    ensures Consumes(Satisfy(pred, errLabel)) && Suffixing(Satisfy(pred, errLabel))
  {
    CharClassWellBehaved(Satisfy(pred, errLabel), pred);
  }

  /** The diagnostic label of `CharP(c)`. */
  function CharLabel(c: char): string {
    "character '" + [c] + "'"
  }

  /** Matches the single character `c`. */
  function CharP(c: char): Parser<char> {
    Satisfy(x => c == x, CharLabel(c))
  }

  lemma CharPRun(c: char, s: string)
    ensures CharP(c).name == Unknown
    ensures CharP(c).run(s).Success? <==> |s| > 0 && s[0] == c
    ensures CharP(c).run(s).Success? ==> CharP(c).run(s).value == (c, s[1..])
    ensures CharP(c).run(s).Failure? ==>
              CharP(c).run(s).error ==
                ParserError(CharLabel(c), if |s| == 0 then "Empty input!" else Unexpected(s[0]))
  {
  }

  lemma CharPClass(c: char)
    ensures CharClass(CharP(c), x => x == c)
    ensures Consumes(CharP(c)) && Suffixing(CharP(c))
  {
    CharClassWellBehaved(CharP(c), x => x == c);
  }

  /** `needle` occurs in `hay` starting at index `i`. */
  predicate OccursAt(hay: string, needle: string, i: nat) {
    i + |needle| <= |hay| && hay[i..i + |needle|] == needle
  }

  /** The first index at or after `from` where `needle` occurs in `hay`, as the
      string search of the C++ library returns it; None is its "npos". */
  function FindFrom(hay: string, needle: string, from: nat): (r: Option<nat>)
    decreases |hay| - from
    ensures r.Some? ==> from <= r.value && OccursAt(hay, needle, r.value)
    ensures r.Some? ==> forall j :: from <= j < r.value ==> !OccursAt(hay, needle, j)
    ensures r.None? ==> forall j :: from <= j ==> !OccursAt(hay, needle, j)
  {
    if from + |needle| > |hay| then None
    else if OccursAt(hay, needle, from) then Some(from)
    else FindFrom(hay, needle, from + 1)
  }

  function Find(hay: string, needle: string): Option<nat> {
    FindFrom(hay, needle, 0)
  }

  /** The search finds `needle` at index 0 exactly when `needle` is a prefix. */
  lemma FindAtZero(hay: string, needle: string)
    ensures Find(hay, needle) == Some(0) <==> needle <= hay
  {
    if needle <= hay {
      assert OccursAt(hay, needle, 0);
    }
  }

  function StringLabel(lit: string): string {
    "string \"" + lit + "\""
  }

  /** Matches `lit`; written, as in the source, as "the first occurrence of `lit` in
      the input is at index 0". */
  function StringP(lit: string): Parser<string> {
    var lbl := StringLabel(lit);
    Parser(lbl, input =>
      if Find(input, lit) == Some(0) then Success((lit, input[|lit|..]))
      else Failure(ParserError(lbl, "Failed to parse string")))
  }

  /** `StringP(lit)` is a prefix match: it succeeds exactly when `lit` starts the input. */
  lemma StringPRun(lit: string, s: string)
    ensures StringP(lit).name == StringLabel(lit)
    ensures StringP(lit).run(s) ==
              if lit <= s then Success((lit, s[|lit|..]))
              else Failure(ParserError(StringLabel(lit), "Failed to parse string"))
  {
    FindAtZero(s, lit);
  }

  /** An occurrence of `lit` further into the input is never matched. */
  lemma StringPNoLaterMatch(lit: string, s: string, k: nat)
    requires 0 < k && OccursAt(s, lit, k) && !OccursAt(s, lit, 0)
    ensures StringP(lit).run(s).Failure?
  {
    StringPRun(lit, s);
  }

  lemma StringPSuffixing(lit: string)
    ensures Suffixing(StringP(lit))
  {
    forall s | StringP(lit).run(s).Success? ensures IsSuffix(StringP(lit).run(s).value.1, s) {
      StringPRun(lit, s);
      SuffixOfDrop(s, |lit|);
    }
  }
}
