/** The combinator algebra of include/parsec/parsec.hpp: bind, map, ap, the
    sequencing operators, alternation, `choice`, `anyOf` and `sequence`. */
module Combinators {
  import opened ParseTypes
  import opened Primitives

  /** Monadic bind: runs `p`; a failure comes back unchanged and `f` is not called;
      otherwise the parser `f` builds from the value runs on the remainder. */
  function Bind<T, U>(p: Parser<T>, f: T -> Parser<U>): Parser<U> {
    Parser(Unknown, s =>
      var result := p.run(s);
      if result.Failure? then Failure(result.error) else f(result.value.0).run(result.value.1))
  }

  lemma BindRun<T, U>(p: Parser<T>, f: T -> Parser<U>, s: string)
    ensures Bind(p, f).name == Unknown
    ensures p.run(s).Failure? ==> Bind(p, f).run(s) == Failure(p.run(s).error)
    ensures p.run(s).Success? ==> Bind(p, f).run(s) == f(p.run(s).value.0).run(p.run(s).value.1)
  {
  }

  /** Left identity: binding a pure value is calling the continuation on it. */
  lemma BindLeftIdentity<T, U>(x: T, f: T -> Parser<U>, s: string)
    ensures Bind(Pure(x), f).run(s) == f(x).run(s)
  {
  }

  /** Right identity: binding into `Pure` changes no outcome (only the label). */
  lemma BindRightIdentity<T>(p: Parser<T>, s: string)
    ensures Bind(p, x => Pure(x)).run(s) == p.run(s)
  {
  }

  lemma BindAssociative<T, U, V>(p: Parser<T>, f: T -> Parser<U>, g: U -> Parser<V>, s: string)
    ensures Bind(Bind(p, f), g).run(s) == Bind(p, x => Bind(f(x), g)).run(s)
  {
    if p.run(s).Success? {
      var (x, mid) := p.run(s).value;
      assert Bind(p, x => Bind(f(x), g)).run(s) == Bind(f(x), g).run(mid);
    }
  }

  /** Bind keeps the suffix invariant when both its parts keep it. */
  lemma BindSuffixing<T, U>(p: Parser<T>, f: T -> Parser<U>)
    requires Suffixing(p)
    requires forall x :: Suffixing(f(x))
    ensures Suffixing(Bind(p, f))
  {
    forall s | Bind(p, f).run(s).Success? ensures IsSuffix(Bind(p, f).run(s).value.1, s) {
      var (x, mid) := p.run(s).value;
      assert Suffixing(f(x));
      SuffixTrans(f(x).run(mid).value.1, mid, s);
    }
  }

  /** Functor map, written in the source as a bind into `pure`. The operators `%`
      and `&` are this function with its arguments in either order. */
  function Map<T, U>(f: T -> U, p: Parser<T>): Parser<U> {
    Bind(p, v => Pure(f(v)))
  }

  lemma MapRun<T, U>(f: T -> U, p: Parser<T>, s: string)
    ensures Map(f, p).name == Unknown
    ensures Map(f, p).run(s) ==
              if p.run(s).Failure? then Failure(p.run(s).error)
              else Success((f(p.run(s).value.0), p.run(s).value.1))
  {
  }

  lemma MapIdentity<T>(p: Parser<T>, s: string)
    ensures Map(x => x, p).run(s) == p.run(s)
  {
    MapRun(x => x, p, s);
  }

  lemma MapCompose<T, U, V>(f: T -> U, g: U -> V, p: Parser<T>, s: string)
    ensures Map(g, Map(f, p)).run(s) == Map(x => g(f(x)), p).run(s)
  {
    MapRun(f, p, s);
    MapRun(g, Map(f, p), s);
    MapRun(x => g(f(x)), p, s);
  }

  lemma MapKeeps<T, U>(f: T -> U, p: Parser<T>)
    ensures Suffixing(p) ==> Suffixing(Map(f, p))
    ensures Consumes(p) ==> Consumes(Map(f, p))
  {
    forall s ensures Map(f, p).run(s).Success? ==> Map(f, p).run(s).value.1 == p.run(s).value.1 {
      MapRun(f, p, s);
    }
  }

  /** Applicative apply (operator `*`): runs the function parser, then `p` on its
      remainder, and applies the function to `p`'s value. */
  function Ap<T, U>(fP: Parser<T -> U>, p: Parser<T>): Parser<U> {
    Bind(fP, (f: T -> U) => Bind(p, (x: T) => Pure(f(x))))
  }

  lemma ApRun<T, U>(fP: Parser<T -> U>, p: Parser<T>, s: string)
    ensures fP.run(s).Failure? ==> Ap(fP, p).run(s) == Failure(fP.run(s).error)
    ensures fP.run(s).Success? ==>
              var (f, mid) := fP.run(s).value;
              Ap(fP, p).run(s) ==
                if p.run(mid).Failure? then Failure(p.run(mid).error)
                else Success((f(p.run(mid).value.0), p.run(mid).value.1))
  {
  }

  /** `pure(f) * p` is `map(f, p)`. */
  lemma ApPure<T, U>(f: T -> U, p: Parser<T>, s: string)
    ensures Ap(Pure(f), p).run(s) == Map(f, p).run(s)
  {
  }

  /** `ap` keeps a suffix when both its parsers do. */
  lemma ApSuffixing<T, U>(fP: Parser<T -> U>, p: Parser<T>)
    requires Suffixing(fP) && Suffixing(p)
    ensures Suffixing(Ap(fP, p))
  {
    forall s | Ap(fP, p).run(s).Success? ensures IsSuffix(Ap(fP, p).run(s).value.1, s) {
      ApRun(fP, p, s);
      var mid := fP.run(s).value.1;
      SuffixTrans(Ap(fP, p).run(s).value.1, mid, s);
    }
  }

  /** Operator `>>` (and `>`, which is defined as `>>`): runs `p1`, drops its value and
      runs `p2` on the remainder. */
  function Then<T, U>(p1: Parser<T>, p2: Parser<U>): Parser<U> {
    WithLabel(Bind(p1, _ => p2), p1.name + " and then " + p2.name)
  }

  lemma ThenRun<T, U>(p1: Parser<T>, p2: Parser<U>, s: string)
    ensures Then(p1, p2).name == p1.name + " and then " + p2.name
    ensures Then(p1, p2).run(s) ==
              if p1.run(s).Failure? then Failure(p1.run(s).error) else p2.run(p1.run(s).value.1)
  {
  }

  /** A sequence keeps a suffix when both parts do, and consumes when one part consumes
      and the other keeps a suffix. */
  lemma ThenKeeps<T, U>(p1: Parser<T>, p2: Parser<U>)
    ensures Suffixing(p1) && Suffixing(p2) ==> Suffixing(Then(p1, p2))
    ensures (Consumes(p1) && Suffixing(p2)) || (Suffixing(p1) && Consumes(p2)) ==> Consumes(Then(p1, p2))
  {
    forall s | Then(p1, p2).run(s).Success?
      ensures var (mid, r) := (p1.run(s).value.1, Then(p1, p2).run(s).value.1);
        p1.run(s).Success? && p2.run(mid).Success? && r == p2.run(mid).value.1
    {
      ThenRun(p1, p2, s);
    }
    if Suffixing(p1) && Suffixing(p2) {
      forall s | Then(p1, p2).run(s).Success? ensures IsSuffix(Then(p1, p2).run(s).value.1, s) {
        SuffixTrans(Then(p1, p2).run(s).value.1, p1.run(s).value.1, s);
      }
    }
  }

  /** Operator `<`: runs `p1` then `p2`, keeping `p1`'s value and `p2`'s remainder. */
  function KeepLeft<T, U>(p1: Parser<T>, p2: Parser<U>): Parser<T> {
    Bind(p1, v => Map(_ => v, p2))
  }

  lemma KeepLeftRun<T, U>(p1: Parser<T>, p2: Parser<U>, s: string)
    ensures KeepLeft(p1, p2).name == Unknown
    ensures p1.run(s).Failure? ==> KeepLeft(p1, p2).run(s) == Failure(p1.run(s).error)
    ensures p1.run(s).Success? ==>
              var (v, mid) := p1.run(s).value;
              KeepLeft(p1, p2).run(s) ==
                if p2.run(mid).Failure? then Failure(p2.run(mid).error) else Success((v, p2.run(mid).value.1))
  {
    if p1.run(s).Success? {
      var (v, mid) := p1.run(s).value;
      assert KeepLeft(p1, p2).run(s) == Map(_ => v, p2).run(mid);
      MapRun(_ => v, p2, mid);
    }
  }

  /** `<` keeps a suffix when both its parsers do. */
  lemma KeepLeftSuffixing<T, U>(p1: Parser<T>, p2: Parser<U>)
    requires Suffixing(p1) && Suffixing(p2)
    ensures Suffixing(KeepLeft(p1, p2))
  {
    forall s | KeepLeft(p1, p2).run(s).Success? ensures IsSuffix(KeepLeft(p1, p2).run(s).value.1, s) {
      KeepLeftRun(p1, p2, s);
      var mid := p1.run(s).value.1;
      SuffixTrans(KeepLeft(p1, p2).run(s).value.1, mid, s);
    }
  }

  /** Operator `|`: `p1`'s outcome when it succeeds, otherwise `p2` run on the same,
      unadvanced input. */
  function Or<T>(p1: Parser<T>, p2: Parser<T>): Parser<T> {
    Parser(p1.name + " or " + p2.name, s =>
      var result := p1.run(s);
      if result.Success? then result else p2.run(s))
  }

  lemma OrRun<T>(p1: Parser<T>, p2: Parser<T>, s: string)
    ensures Or(p1, p2).name == p1.name + " or " + p2.name
    ensures Or(p1, p2).run(s) == if p1.run(s).Success? then p1.run(s) else p2.run(s)
  {
  }

  lemma OrKeeps<T>(p1: Parser<T>, p2: Parser<T>)
    ensures Suffixing(p1) && Suffixing(p2) ==> Suffixing(Or(p1, p2))
    ensures Consumes(p1) && Consumes(p2) ==> Consumes(Or(p1, p2))
  {
    forall s ensures Or(p1, p2).run(s) == p1.run(s) || Or(p1, p2).run(s) == p2.run(s) {
      OrRun(p1, p2, s);
    }
  }

  /** `choice(p1, ..., pn)`: the left fold `((p1 | p2) | ...) | pn`. With no parsers the
      source does not compile. */
  function Choice<T>(ps: seq<Parser<T>>): Parser<T>
    requires |ps| > 0
  {
    if |ps| == 1 then ps[0] else Or(Choice(ps[..|ps| - 1]), ps[|ps| - 1])
  }

  /** The first alternative that succeeds gives the outcome; when all fail, the last
      alternative's failure is what comes back. */
  lemma {:induction false} ChoiceRun<T>(ps: seq<Parser<T>>, s: string)
    requires |ps| > 0
    ensures Choice(ps).run(s).Success? <==> exists i :: 0 <= i < |ps| && ps[i].run(s).Success?
    ensures Choice(ps).run(s).Success? ==>
              exists i :: 0 <= i < |ps| && Choice(ps).run(s) == ps[i].run(s) &&
                forall j :: 0 <= j < i ==> ps[j].run(s).Failure?
    ensures Choice(ps).run(s).Failure? ==> Choice(ps).run(s) == ps[|ps| - 1].run(s)
  {
    if |ps| > 1 {
      var init := ps[..|ps| - 1];
      ChoiceRun(init, s);
      OrRun(Choice(init), ps[|ps| - 1], s);
      if Choice(init).run(s).Success? {
        var i :| 0 <= i < |init| && Choice(init).run(s) == init[i].run(s) &&
                 forall j :: 0 <= j < i ==> init[j].run(s).Failure?;
        assert ps[i] == init[i];
      } else {
        assert forall j :: 0 <= j < |init| ==> init[j] == ps[j];
      }
    }
  }

  lemma {:induction false} ChoiceKeeps<T>(ps: seq<Parser<T>>)
    requires |ps| > 0
    ensures (forall i :: 0 <= i < |ps| ==> Suffixing(ps[i])) ==> Suffixing(Choice(ps))
    ensures (forall i :: 0 <= i < |ps| ==> Consumes(ps[i])) ==> Consumes(Choice(ps))
  {
    if |ps| > 1 {
      var init := ps[..|ps| - 1];
      assert forall i :: 0 <= i < |init| ==> init[i] == ps[i];
      ChoiceKeeps(init);
      OrKeeps(Choice(init), ps[|ps| - 1]);
    }
  }

  /** `anyOf(c1, ..., cn)`: the choice of `charP(ci)`, relabelled "any of: c1...cn". */
  function AnyOf(cs: string): Parser<char>
    requires |cs| > 0
  {
    WithLabel(Choice(seq(|cs|, i requires 0 <= i < |cs| => CharP(cs[i]))), "any of: " + cs)
  }

  /** `AnyOf(cs)` consumes one character exactly when it is among `cs`; when none matches,
      the diagnostic is that of the LAST character's parser. */
  lemma AnyOfRun(cs: string, s: string)
    requires |cs| > 0
    ensures AnyOf(cs).name == "any of: " + cs
    ensures AnyOf(cs).run(s).Success? <==> |s| > 0 && s[0] in cs
    ensures AnyOf(cs).run(s).Success? ==> AnyOf(cs).run(s).value == (s[0], s[1..])
    ensures AnyOf(cs).run(s).Failure? ==> AnyOf(cs).run(s) == CharP(cs[|cs| - 1]).run(s)
  {
    var ps := seq(|cs|, i requires 0 <= i < |cs| => CharP(cs[i]));
    ChoiceRun(ps, s);
    forall i | 0 <= i < |cs| ensures ps[i].run(s).Success? <==> |s| > 0 && s[0] == cs[i] {
      CharPRun(cs[i], s);
    }
    if |s| > 0 && s[0] in cs {
      var i :| 0 <= i < |cs| && cs[i] == s[0];
      assert ps[i].run(s).Success?;
    }
    if Choice(ps).run(s).Success? {
      var i :| 0 <= i < |ps| && Choice(ps).run(s) == ps[i].run(s);
      CharPRun(cs[i], s);
    }
  }

  lemma AnyOfClass(cs: string)
    requires |cs| > 0
    ensures CharClass(AnyOf(cs), c => c in cs)
    ensures Consumes(AnyOf(cs)) && Suffixing(AnyOf(cs))
  {
    forall s ensures (AnyOf(cs).run(s).Success? <==> |s| > 0 && s[0] in cs)
                     && (AnyOf(cs).run(s).Success? ==> AnyOf(cs).run(s).value == (s[0], s[1..])) {
      AnyOfRun(cs, s);
    }
    CharClassWellBehaved(AnyOf(cs), c => c in cs);
  }

  /** `vs` and `r` are what running `ps` in order on a threaded remainder gives, starting at `s`. */
  ghost predicate Threads<T>(ps: seq<Parser<T>>, s: string, vs: seq<T>, r: string)
    decreases |ps|
  {
    && |vs| == |ps|
    && if ps == [] then r == s
       else
         && ps[0].run(s).Success?
         && ps[0].run(s).value.0 == vs[0]
         && Threads(ps[1..], ps[0].run(s).value.1, vs[1..], r)
  }

  /** Prepends the values already collected to an outcome. */
  function Prepend<T>(xs: seq<T>, o: Outcome<seq<T>>): Outcome<seq<T>> {
    if o.Failure? then o else Success((xs + o.value.0, o.value.1))
  }

  lemma PrependNothing<T>(o: Outcome<seq<T>>)
    ensures Prepend([], o) == o
  {
    if o.Success? {
      assert [] + o.value.0 == o.value.0;
    }
  }

  lemma PrependTwice<T>(xs: seq<T>, ys: seq<T>, o: Outcome<seq<T>>)
    ensures Prepend(xs, Prepend(ys, o)) == Prepend(xs + ys, o)
  {
    if o.Success? {
      assert xs + (ys + o.value.0) == (xs + ys) + o.value.0;
    }
  }

  /** Reference meaning of `sequence`: each parser in turn on the previous one's
      remainder, stopping at the first failure. */
  function SequenceRun<T>(ps: seq<Parser<T>>, s: string): Outcome<seq<T>>
    decreases |ps|
  {
    if ps == [] then Success(([], s))
    else
      var first := ps[0].run(s);
      if first.Failure? then Failure(first.error)
      else Prepend([first.value.0], SequenceRun(ps[1..], first.value.1))
  }

  function Sequence<T>(ps: seq<Parser<T>>): Parser<seq<T>> {
    Parser(Unknown, s => SequenceRun(ps, s))
  }

  /** The loop inside `sequence`'s parse function. */
  method SequenceLoop<T>(ps: seq<Parser<T>>, input: string) returns (r: Outcome<seq<T>>)
    ensures r == Sequence(ps).run(input)
  {
    assert Sequence(ps).run(input) == SequenceRun(ps, input);
    var results: seq<T> := [];
    var remaining := input;
    assert ps[0..] == ps;
    PrependNothing(SequenceRun(ps, input));
    for i := 0 to |ps|
      invariant |results| == i
      invariant SequenceRun(ps, input) == Prepend(results, SequenceRun(ps[i..], remaining))
    {
      var result := ps[i].run(remaining);
      assert ps[i..][0] == ps[i] && ps[i..][1..] == ps[i + 1..];
      if result.Failure? {
        assert SequenceRun(ps[i..], remaining) == Failure(result.error);
        return Failure(result.error);
      }
      PrependTwice(results, [result.value.0], SequenceRun(ps[i + 1..], result.value.1));
      results := results + [result.value.0];
      remaining := result.value.1;
    }
    assert ps[|ps|..] == [];
    assert results + [] == results;
    r := Success((results, remaining));
  }

  /** Success of `sequence` means exactly that every parser ran in turn. */
  lemma {:induction false} SequenceSuccess<T>(ps: seq<Parser<T>>, s: string, vs: seq<T>, r: string)
    ensures Sequence(ps).run(s) == Success((vs, r)) <==> Threads(ps, s, vs, r)
    decreases |ps|
  {
    if ps != [] {
      var first := ps[0].run(s);
      if first.Success? {
        var rest := SequenceRun(ps[1..], first.value.1);
        if |vs| > 0 {
          SequenceSuccess(ps[1..], first.value.1, vs[1..], r);
          if rest.Success? {
            assert [first.value.0] + rest.value.0 == vs <==> first.value.0 == vs[0] && rest.value.0 == vs[1..];
          }
        }
      }
    }
  }

  /** A failure of `sequence` is the failure of some parser `ps[i]` after all parsers
      before it have succeeded. */
  lemma {:induction false} SequenceFailure<T>(ps: seq<Parser<T>>, s: string)
    requires Sequence(ps).run(s).Failure?
    ensures exists i, vs, mid :: 0 <= i < |ps| && Threads(ps[..i], s, vs, mid) &&
              ps[i].run(mid) == Failure(Sequence(ps).run(s).error)
    decreases |ps|
  {
    var first := ps[0].run(s);
    var e := SequenceRun(ps, s).error;
    if first.Failure? {
      assert Threads(ps[..0], s, [], s);
    } else {
      var (v, mid0) := first.value;
      SequenceFailure(ps[1..], mid0);
      var i, vs, mid :| 0 <= i < |ps[1..]| && Threads(ps[1..][..i], mid0, vs, mid) &&
                        ps[1..][i].run(mid) == Failure(e);
      assert ps[..i + 1][1..] == ps[1..][..i];
      assert ([v] + vs)[1..] == vs;
      assert Threads(ps[..i + 1], s, [v] + vs, mid);
    }
  }

  lemma {:induction false} SequenceSuffixing<T>(ps: seq<Parser<T>>)
    requires forall i :: 0 <= i < |ps| ==> Suffixing(ps[i])
    ensures Suffixing(Sequence(ps))
    decreases |ps|
  {
    forall s | Sequence(ps).run(s).Success? ensures IsSuffix(Sequence(ps).run(s).value.1, s) {
      if ps != [] {
        var mid := ps[0].run(s).value.1;
        assert Suffixing(ps[0]);
        SequenceSuffixing(ps[1..]);
        assert Sequence(ps).run(s).value.1 == Sequence(ps[1..]).run(mid).value.1;
        SuffixTrans(Sequence(ps).run(s).value.1, mid, s);
      }
    }
  }
}
