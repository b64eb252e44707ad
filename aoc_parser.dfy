/** The older engine in parsec.hpp (namespace aoc::parser): an unlabelled parser, an
    error that is only a message, a `charP` without an empty-input check, and `anyOf`
    and `choice` written as loops that report a fixed message when nothing matches. */
module AocParser {
  import ParseTypes

  datatype ParserError = ParserError(msg: string)

  datatype ParseResult<+T> = Success(value: T) | Failure(err: ParserError)
  {
    /** `error()`: the error of a failure, nothing for a success. */
    function Error(): (r: ParseTypes.Option<ParserError>)
      ensures r.Some? <==> this.Failure?
      ensures this.Failure? ==> r == ParseTypes.Some(this.err)
    {
      if Success? then ParseTypes.None else ParseTypes.Some(err)
    }
  }

  type Outcome<T> = ParseResult<(T, string)>

  /** A parser is only its parse function. */
  datatype Parser<T> = Parser(run: string -> Outcome<T>)

  /** Every success leaves a suffix of the input. */
  ghost predicate Suffixing<T>(p: Parser<T>) {
    forall s :: p.run(s).Success? ==> ParseTypes.IsSuffix(p.run(s).value.1, s)
  }

  function Pure<T>(v: T): Parser<T> {
    Parser(s => Success((v, s)))
  }

  /** `pure(v)` succeeds with `v` and leaves the input unchanged. */
  lemma PureRun<T>(v: T, s: string)
    ensures Pure(v).run(s).Success?
    ensures Pure(v).run(s).value == (v, s)
    ensures Suffixing(Pure(v))
  {
  }

  /** `input[0]` on a `std::string`: the terminating '\0' when the string is empty. */
  function Head(s: string): (c: char)
    ensures |s| > 0 ==> c == s[0]
    ensures |s| == 0 ==> c == '\0'
  {
    if |s| == 0 then '\0' else s[0]
  }

  function CharError(c: char): ParserError {
    ParserError("Failed to match character: " + [c])
  }

  /** Compares the head of the input with `c` without checking for empty input. */
  function CharP(c: char): Parser<char>
    requires c != '\0'
  {
    Parser(s => if Head(s) == c then Success((Head(s), s[1..])) else Failure(CharError(c)))
  }

  /** Since `c` is not the terminator, an empty input never matches: `charP(c)` succeeds
      exactly when `c` starts the input, consuming it, and otherwise fails with
      "Failed to match character: c". */
  lemma CharPRun(c: char, s: string)
    requires c != '\0'
    ensures CharP(c).run(s).Success? <==> |s| > 0 && s[0] == c
    ensures CharP(c).run(s).Success? ==> CharP(c).run(s).value == (c, s[1..])
    ensures CharP(c).run(s).Failure? ==> CharP(c).run(s).err == CharError(c)
    ensures Suffixing(CharP(c))
  {
    forall t | CharP(c).run(t).Success? ensures ParseTypes.IsSuffix(CharP(c).run(t).value.1, t) {
      ParseTypes.SuffixOfDrop(t, 1);
    }
  }

  /** `p.map(f)`. */
  function Map<T, U>(p: Parser<T>, f: T -> U): Parser<U> {
    Parser(s =>
      var result := p.run(s);
      if result.Failure? then Failure(result.err)
      else Success((f(result.value.0), result.value.1)))
  }

  lemma MapRun<T, U>(p: Parser<T>, f: T -> U, s: string)
    ensures Map(p, f).run(s).Success? <==> p.run(s).Success?
    ensures p.run(s).Failure? ==> Map(p, f).run(s) == Failure(p.run(s).err)
    ensures p.run(s).Success? ==>
              Map(p, f).run(s) == Success((f(p.run(s).value.0), p.run(s).value.1))
  {
  }

  /** Mapping the identity changes nothing. */
  lemma MapIdentity<T>(p: Parser<T>, s: string)
    ensures Map(p, x => x).run(s) == p.run(s)
  {
    MapRun(p, x => x, s);
  }

  /** Mapping twice is mapping the composition. */
  lemma MapCompose<T, U, V>(p: Parser<T>, f: T -> U, g: U -> V, s: string)
    ensures Map(Map(p, f), g).run(s) == Map(p, x => g(f(x))).run(s)
  {
    MapRun(p, f, s);
    MapRun(Map(p, f), g, s);
    MapRun(p, x => g(f(x)), s);
  }

  /** Map keeps the remainder, so it keeps a suffix when the parser does. */
  lemma MapSuffixing<T, U>(p: Parser<T>, f: T -> U)
    requires Suffixing(p)
    ensures Suffixing(Map(p, f))
  {
    forall s | Map(p, f).run(s).Success? ensures ParseTypes.IsSuffix(Map(p, f).run(s).value.1, s) {
      MapRun(p, f, s);
    }
  }

  /** `fP.ap(p)`, also written `fP * p`. */
  function Ap<T, U>(fP: Parser<T -> U>, p: Parser<T>): Parser<U> {
    Parser(s =>
      var result1 := fP.run(s);
      if result1.Failure? then Failure(result1.err)
      else
        var result2 := p.run(result1.value.1);
        if result2.Failure? then Failure(result2.err)
        else Success((result1.value.0(result2.value.0), result2.value.1)))
  }

  /** `ap` runs the function parser first and `p` on its remainder; the first failure
      is the result, and `p` is not consulted when the function parser fails. */
  lemma ApRun<T, U>(fP: Parser<T -> U>, p: Parser<T>, s: string)
    ensures fP.run(s).Failure? ==> Ap(fP, p).run(s) == Failure(fP.run(s).err)
    ensures fP.run(s).Success? ==>
              var (f, mid) := fP.run(s).value;
              Ap(fP, p).run(s) ==
                if p.run(mid).Failure? then Failure(p.run(mid).err)
                else Success((f(p.run(mid).value.0), p.run(mid).value.1))
  {
  }

  /** `pure(f) * p` is `p.map(f)`. */
  lemma ApPure<T, U>(f: T -> U, p: Parser<T>, s: string)
    ensures Ap(Pure(f), p).run(s) == Map(p, f).run(s)
  {
    MapRun(p, f, s);
  }

  /** `ap` keeps a suffix when both its parsers do. */
  lemma ApSuffixing<T, U>(fP: Parser<T -> U>, p: Parser<T>)
    requires Suffixing(fP) && Suffixing(p)
    ensures Suffixing(Ap(fP, p))
  {
    forall s | Ap(fP, p).run(s).Success? ensures ParseTypes.IsSuffix(Ap(fP, p).run(s).value.1, s) {
      var mid := fP.run(s).value.1;
      ParseTypes.SuffixTrans(Ap(fP, p).run(s).value.1, mid, s);
    }
  }

  /** `p1 >> p2`. */
  function Then<T, U>(p1: Parser<T>, p2: Parser<U>): Parser<U> {
    Parser(s =>
      var result := p1.run(s);
      if result.Failure? then Failure(result.err) else p2.run(result.value.1))
  }

  lemma ThenRun<T, U>(p1: Parser<T>, p2: Parser<U>, s: string)
    ensures p1.run(s).Failure? ==> Then(p1, p2).run(s) == Failure(p1.run(s).err)
    ensures p1.run(s).Success? ==> Then(p1, p2).run(s) == p2.run(p1.run(s).value.1)
  {
  }

  /** `>>` keeps a suffix when both sides do. */
  lemma ThenSuffixing<T, U>(p1: Parser<T>, p2: Parser<U>)
    requires Suffixing(p1) && Suffixing(p2)
    ensures Suffixing(Then(p1, p2))
  {
    forall s | Then(p1, p2).run(s).Success?
      ensures ParseTypes.IsSuffix(Then(p1, p2).run(s).value.1, s)
    {
      var mid := p1.run(s).value.1;
      ParseTypes.SuffixTrans(Then(p1, p2).run(s).value.1, mid, s);
    }
  }

  /** `p1 | p2`. */
  function Or<T>(p1: Parser<T>, p2: Parser<T>): Parser<T> {
    Parser(s => var result := p1.run(s); if result.Success? then result else p2.run(s))
  }

  lemma OrRun<T>(p1: Parser<T>, p2: Parser<T>, s: string)
    ensures p1.run(s).Success? ==> Or(p1, p2).run(s) == p1.run(s)
    ensures p1.run(s).Failure? ==> Or(p1, p2).run(s) == p2.run(s)
  {
  }

  /** Alternation groups either way. */
  lemma OrAssociative<T>(p1: Parser<T>, p2: Parser<T>, p3: Parser<T>, s: string)
    ensures Or(Or(p1, p2), p3).run(s) == Or(p1, Or(p2, p3)).run(s)
  {
  }

  /** Alternation keeps a suffix when both alternatives do. */
  lemma OrSuffixing<T>(p1: Parser<T>, p2: Parser<T>)
    requires Suffixing(p1) && Suffixing(p2)
    ensures Suffixing(Or(p1, p2))
  {
    forall s | Or(p1, p2).run(s).Success? ensures ParseTypes.IsSuffix(Or(p1, p2).run(s).value.1, s) {
      OrRun(p1, p2, s);
    }
  }

  /** All parsers ran in turn from `s`, yielding `vs` and leaving `r`. */
  ghost predicate Threads<T>(ps: seq<Parser<T>>, s: string, vs: seq<T>, r: string)
    decreases |ps|
  {
    && |vs| == |ps|
    && if ps == [] then r == s
       else
         && ps[0].run(s).Success?
         && ps[0].run(s).value.0 == vs[0]
         && Threads(ps[1..], ps[0].run(s).value.1, vs[1..], r)
  }

  /** Prepends the values already collected to an outcome. */
  function Prepend<T>(xs: seq<T>, o: Outcome<seq<T>>): (r: Outcome<seq<T>>)
    ensures r.Success? <==> o.Success?
    ensures r.Success? ==> r.value.0 == xs + o.value.0 && r.value.1 == o.value.1
    ensures r.Failure? ==> r == o
  {
    if o.Failure? then o else Success((xs + o.value.0, o.value.1))
  }

  /** Reference meaning of `sequence`. */
  function SequenceRun<T>(ps: seq<Parser<T>>, s: string): Outcome<seq<T>>
    decreases |ps|
  {
    if ps == [] then Success(([], s))
    else
      var first := ps[0].run(s);
      if first.Failure? then Failure(first.err)
      else Prepend([first.value.0], SequenceRun(ps[1..], first.value.1))
  }

  function Sequence<T>(ps: seq<Parser<T>>): Parser<seq<T>> {
    Parser(s => SequenceRun(ps, s))
  }

  /** The loop inside `sequence`'s parse function. */
  method SequenceLoop<T>(ps: seq<Parser<T>>, input: string) returns (r: Outcome<seq<T>>)
    ensures r == Sequence(ps).run(input)
  {
    assert Sequence(ps).run(input) == SequenceRun(ps, input);
    var results: seq<T> := [];
    var remaining := input;
    assert ps[0..] == ps;
    assert Prepend([], SequenceRun(ps, input)) == SequenceRun(ps, input) by {
      if SequenceRun(ps, input).Success? {
        assert [] + SequenceRun(ps, input).value.0 == SequenceRun(ps, input).value.0;
      }
    }
    for i := 0 to |ps|
      invariant |results| == i
      invariant SequenceRun(ps, input) == Prepend(results, SequenceRun(ps[i..], remaining))
    {
      var result := ps[i].run(remaining);
      assert ps[i..][0] == ps[i] && ps[i..][1..] == ps[i + 1..];
      if result.Failure? {
        assert SequenceRun(ps[i..], remaining) == Failure(result.err);
        return Failure(result.err);
      }
      var next := SequenceRun(ps[i + 1..], result.value.1);
      assert Prepend(results, Prepend([result.value.0], next)) ==
             Prepend(results + [result.value.0], next) by {
        if next.Success? {
          assert results + ([result.value.0] + next.value.0) == (results + [result.value.0]) + next.value.0;
        }
      }
      results := results + [result.value.0];
      remaining := result.value.1;
    }
    assert ps[|ps|..] == [];
    assert results + [] == results;
    r := Success((results, remaining));
  }

  /** Success of `sequence` means exactly that every parser ran in turn; the value list
      then holds one value per parser, in order. */
  lemma {:induction false} SequenceSuccess<T>(ps: seq<Parser<T>>, s: string, vs: seq<T>, r: string)
    ensures Sequence(ps).run(s) == Success((vs, r)) <==> Threads(ps, s, vs, r)
    decreases |ps|
  {
    if ps != [] {
      var first := ps[0].run(s);
      if first.Success? {
        var rest := SequenceRun(ps[1..], first.value.1);
        if |vs| > 0 {
          SequenceSuccess(ps[1..], first.value.1, vs[1..], r);
          if rest.Success? {
            assert [first.value.0] + rest.value.0 == vs <==> first.value.0 == vs[0] && rest.value.0 == vs[1..];
          }
        }
      }
    }
  }

  /** A failure of `sequence` is the failure of the first parser that fails, run on the
      remainder the parsers before it left. */
  lemma {:induction false} SequenceFailure<T>(ps: seq<Parser<T>>, s: string)
    requires Sequence(ps).run(s).Failure?
    ensures exists i, vs, mid :: 0 <= i < |ps| && Threads(ps[..i], s, vs, mid) &&
              ps[i].run(mid) == Failure(Sequence(ps).run(s).err)
    decreases |ps|
  {
    var first := ps[0].run(s);
    var e := SequenceRun(ps, s).err;
    if first.Failure? {
      assert Threads(ps[..0], s, [], s);
    } else {
      var (v, mid0) := first.value;
      SequenceFailure(ps[1..], mid0);
      var i, vs, mid :| 0 <= i < |ps[1..]| && Threads(ps[1..][..i], mid0, vs, mid) &&
                        ps[1..][i].run(mid) == Failure(e);
      assert ps[..i + 1][1..] == ps[1..][..i];
      assert ([v] + vs)[1..] == vs;
      assert Threads(ps[..i + 1], s, [v] + vs, mid);
    }
  }

  /** `sequence` keeps a suffix when each of its parsers does. */
  lemma {:induction false} SequenceSuffixing<T>(ps: seq<Parser<T>>)
    requires forall i :: 0 <= i < |ps| ==> Suffixing(ps[i])
    ensures Suffixing(Sequence(ps))
    decreases |ps|
  {
    forall s | Sequence(ps).run(s).Success? ensures ParseTypes.IsSuffix(Sequence(ps).run(s).value.1, s) {
      if ps != [] {
        var mid := ps[0].run(s).value.1;
        assert Suffixing(ps[0]);
        SequenceSuffixing(ps[1..]);
        assert Sequence(ps).run(s).value.1 == Sequence(ps[1..]).run(mid).value.1;
        ParseTypes.SuffixTrans(Sequence(ps).run(s).value.1, mid, s);
      }
    }
  }

  const NoCharacterMatched := ParserError("Failed to match any characters")

  /** Reference meaning of `anyOf`: `charP` of each character in list order, the first
      success winning. */
  function AnyOfRun(chars: seq<char>, s: string): Outcome<char>
    requires '\0' !in chars
  {
    if chars == [] then Failure(NoCharacterMatched)
    else
      var result := CharP(chars[0]).run(s);
      if result.Success? then result else AnyOfRun(chars[1..], s)
  }

  function AnyOf(chars: seq<char>): Parser<char>
    requires '\0' !in chars
  {
    Parser(s => AnyOfRun(chars, s))
  }

  /** The loop inside `anyOf`'s parse function. */
  method AnyOfLoop(chars: seq<char>, input: string) returns (r: Outcome<char>)
    requires '\0' !in chars
    ensures r == AnyOf(chars).run(input)
  {
    for i := 0 to |chars|
      invariant AnyOfRun(chars, input) == AnyOfRun(chars[i..], input)
    {
      assert chars[i..][0] == chars[i] && chars[i..][1..] == chars[i + 1..];
      var result := CharP(chars[i]).run(input);
      if result.Success? {
        return result;
      }
    }
    assert chars[|chars|..] == [];
    r := Failure(NoCharacterMatched);
  }

  /** `anyOf(chars)` consumes the head character exactly when it is one of `chars`,
      and otherwise, empty input included, fails with "Failed to match any characters". */
  lemma {:induction false} AnyOfSpec(chars: seq<char>, s: string)
    requires '\0' !in chars
    ensures AnyOf(chars).run(s).Success? <==> |s| > 0 && s[0] in chars
    ensures AnyOf(chars).run(s).Success? ==> AnyOf(chars).run(s).value == (s[0], s[1..])
    ensures AnyOf(chars).run(s).Failure? ==> AnyOf(chars).run(s).err == NoCharacterMatched
    decreases |chars|
  {
    if chars != [] {
      CharPRun(chars[0], s);
      AnyOfSpec(chars[1..], s);
      assert forall c :: c in chars <==> c == chars[0] || c in chars[1..];
    }
  }

  /** `anyOf` keeps a suffix: it consumes exactly the head character or nothing. */
  lemma AnyOfSuffixing(chars: seq<char>)
    requires '\0' !in chars
    ensures Suffixing(AnyOf(chars))
  {
    forall s | AnyOf(chars).run(s).Success? ensures ParseTypes.IsSuffix(AnyOf(chars).run(s).value.1, s) {
      AnyOfSpec(chars, s);
      ParseTypes.SuffixOfDrop(s, 1);
    }
  }

  const NoParserMatched := ParserError("Failed to match any parsers in choice")

  /** Reference meaning of `choice`: each parser on the same input in list order, the
      first success winning. */
  function ChoiceRun<T>(ps: seq<Parser<T>>, s: string): Outcome<T> {
    if ps == [] then Failure(NoParserMatched)
    else
      var result := ps[0].run(s);
      if result.Success? then result else ChoiceRun(ps[1..], s)
  }

  function Choice<T>(ps: seq<Parser<T>>): Parser<T> {
    Parser(s => ChoiceRun(ps, s))
  }

  /** The loop inside `choice`'s parse function. */
  method ChoiceLoop<T>(ps: seq<Parser<T>>, input: string) returns (r: Outcome<T>)
    ensures r == Choice(ps).run(input)
  {
    for i := 0 to |ps|
      invariant ChoiceRun(ps, input) == ChoiceRun(ps[i..], input)
    {
      assert ps[i..][0] == ps[i] && ps[i..][1..] == ps[i + 1..];
      var result := ps[i].run(input);
      if result.Success? {
        return result;
      }
    }
    assert ps[|ps|..] == [];
    r := Failure(NoParserMatched);
  }

  /** `choice(ps)` yields the outcome of the first parser that succeeds on the input,
      and fails with "Failed to match any parsers in choice" when none does. */
  lemma {:induction false} ChoiceSpec<T>(ps: seq<Parser<T>>, s: string)
    ensures Choice(ps).run(s).Success? <==> exists i :: 0 <= i < |ps| && ps[i].run(s).Success?
    ensures Choice(ps).run(s).Success? ==>
              exists i :: 0 <= i < |ps| && Choice(ps).run(s) == ps[i].run(s) &&
                forall j :: 0 <= j < i ==> ps[j].run(s).Failure?
    ensures Choice(ps).run(s).Failure? ==> Choice(ps).run(s).err == NoParserMatched
    decreases |ps|
  {
    if ps != [] {
      ChoiceSpec(ps[1..], s);
      if ps[0].run(s).Failure? {
        if ChoiceRun(ps[1..], s).Success? {
          var i :| 0 <= i < |ps[1..]| && ChoiceRun(ps[1..], s) == ps[1..][i].run(s) &&
                   forall j :: 0 <= j < i ==> ps[1..][j].run(s).Failure?;
          assert forall j :: 0 < j <= i ==> ps[j] == ps[1..][j - 1];
          assert Choice(ps).run(s) == ps[i + 1].run(s);
        }
        assert forall i :: 0 < i < |ps| ==> ps[i] == ps[1..][i - 1];
      }
    }
  }

  /** `choice` keeps a suffix when each of its parsers does. */
  lemma ChoiceSuffixing<T>(ps: seq<Parser<T>>)
    requires forall i :: 0 <= i < |ps| ==> Suffixing(ps[i])
    ensures Suffixing(Choice(ps))
  {
    forall s | Choice(ps).run(s).Success? ensures ParseTypes.IsSuffix(Choice(ps).run(s).value.1, s) {
      ChoiceSpec(ps, s);
      var i :| 0 <= i < |ps| && Choice(ps).run(s) == ps[i].run(s) &&
               forall j :: 0 <= j < i ==> ps[j].run(s).Failure?;
      assert Suffixing(ps[i]);
    }
  }

  /** `choice` with one more parser in front is `|` with that parser. */
  lemma ChoiceCons<T>(p: Parser<T>, ps: seq<Parser<T>>, s: string)
    ensures Choice([p] + ps).run(s) == Or(p, Choice(ps)).run(s)
  {
    assert ([p] + ps)[1..] == ps;
  }
}
