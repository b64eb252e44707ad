/** Repetition in include/parsec/parsec.hpp: `many`, `many1`, `option`, `sepBy1`,
    `sepBy`, `takeWhile` and `skipWhile`. */
module Repetition {
  import opened ParseTypes
  import opened Primitives
  import opened Combinators

  /** `n` copies of `p`, the parsers `many` runs when it collects `n` values. */
  function Repeat<T>(p: Parser<T>, n: nat): seq<Parser<T>> {
    seq(n, _ => p)
  }

  /** Reference meaning of `many`: run `p` until it fails, collecting values in order.
      The loop only ends if `p` consumes input on every success. */
  function ManyRun<T>(p: Parser<T>, s: string): (r: (seq<T>, string))
    requires Consumes(p)
    ensures |r.1| <= |s|
    ensures p.run(r.1).Failure?
    decreases |s|
  {
    var result := p.run(s);
    if result.Failure? then ([], s)
    else
      var more := ManyRun(p, result.value.1);
      ([result.value.0] + more.0, more.1)
  }

  /** `many(p)`: never fails. */
  function Many<T>(p: Parser<T>): Parser<seq<T>>
    requires Consumes(p)
  {
    Parser("many of " + p.name, s => Success(ManyRun(p, s)))
  }

  /** The `while (1)` loop inside `many`'s parse function. */
  method ManyLoop<T>(p: Parser<T>, input: string) returns (r: Outcome<seq<T>>)
    requires Consumes(p)
    ensures r == Many(p).run(input)
  {
    assert Many(p).run(input) == Success(ManyRun(p, input));
    var remaining := input;
    var xs: seq<T> := [];
    assert [] + ManyRun(p, input).0 == ManyRun(p, input).0;
    while true
      invariant ManyRun(p, input) == (xs + ManyRun(p, remaining).0, ManyRun(p, remaining).1)
      decreases |remaining|
    {
      var result := p.run(remaining);
      if result.Failure? {
        assert xs + [] == xs;
        return Success((xs, remaining));
      }
      var more := ManyRun(p, result.value.1);
      assert xs + ([result.value.0] + more.0) == (xs + [result.value.0]) + more.0;
      xs := xs + [result.value.0];
      remaining := result.value.1;
    }
  }

  lemma ManyName<T>(p: Parser<T>, s: string)
    requires Consumes(p)
    ensures Many(p).name == "many of " + p.name
    ensures Many(p).run(s) == Success(ManyRun(p, s))
  {
  }

  /** `many` is exact: it yields `vs` and stops at `r` precisely when `p` succeeds |vs|
      times in a row from `s` with values `vs`, ending at `r`, and then fails at `r`. */
  lemma {:induction false} ManyExact<T>(p: Parser<T>, s: string, vs: seq<T>, r: string)
    requires Consumes(p)
    ensures ManyRun(p, s) == (vs, r) <==> Threads(Repeat(p, |vs|), s, vs, r) && p.run(r).Failure?
    decreases |s|
  {
    var result := p.run(s);
    if vs != [] {
      var ps := Repeat(p, |vs|);
      assert ps[0] == p && ps[1..] == Repeat(p, |vs| - 1);
      if result.Success? {
        var mid := result.value.1;
        ManyExact(p, mid, vs[1..], r);
        var more := ManyRun(p, mid);
        assert [result.value.0] + more.0 == vs <==> result.value.0 == vs[0] && more.0 == vs[1..];
      }
    }
  }

  lemma {:induction false} ManySuffixing<T>(p: Parser<T>, s: string)
    requires Consumes(p) && Suffixing(p)
    ensures IsSuffix(ManyRun(p, s).1, s)
    decreases |s|
  {
    var result := p.run(s);
    if result.Success? {
      ManySuffixing(p, result.value.1);
      SuffixTrans(ManyRun(p, s).1, result.value.1, s);
    }
  }

  /** `many(p)` keeps a suffix when `p` does. */
  lemma ManyKeeps<T>(p: Parser<T>)
    requires Consumes(p) && Suffixing(p)
    ensures Suffixing(Many(p))
  {
    forall s | Many(p).run(s).Success? ensures IsSuffix(Many(p).run(s).value.1, s) {
      ManySuffixing(p, s);
    }
  }

  /** `many1(p)`: one `p`, then `many(p)` on its remainder, the first value prepended. */
  function Many1<T>(p: Parser<T>): Parser<seq<T>>
    requires Consumes(p)
  {
    Bind(p, x => Map(xs => [x] + xs, Many(p)))
  }

  /** `many1` fails exactly when the first `p` fails, with that failure. */
  lemma Many1Run<T>(p: Parser<T>, s: string)
    requires Consumes(p)
    ensures Many1(p).name == Unknown
    ensures Many1(p).run(s).Failure? <==> p.run(s).Failure?
    ensures p.run(s).Failure? ==> Many1(p).run(s) == Failure(p.run(s).error)
    ensures p.run(s).Success? ==>
              var (x, mid) := p.run(s).value;
              Many1(p).run(s) == Success(([x] + ManyRun(p, mid).0, ManyRun(p, mid).1))
  {
    if p.run(s).Success? {
      var (x, mid) := p.run(s).value;
      assert Many1(p).run(s) == Map(xs => [x] + xs, Many(p)).run(mid);
      MapRun(xs => [x] + xs, Many(p), mid);
    }
  }

  /** `many1(p)` keeps a suffix when `p` does. */
  lemma Many1Suffixing<T>(p: Parser<T>)
    requires Consumes(p) && Suffixing(p)
    ensures Suffixing(Many1(p))
  {
    forall s | Many1(p).run(s).Success? ensures IsSuffix(Many1(p).run(s).value.1, s) {
      Many1Run(p, s);
      var mid := p.run(s).value.1;
      ManySuffixing(p, mid);
      SuffixTrans(ManyRun(p, mid).1, mid, s);
    }
  }

  /** `many1(p)` succeeds on `s` with `vs` exactly when `many(p)` does and `vs` is not empty. */
  lemma Many1IsNonEmptyMany<T>(p: Parser<T>, s: string)
    requires Consumes(p)
    ensures Many1(p).run(s).Success? ==> Many1(p).run(s) == Many(p).run(s) && |Many(p).run(s).value.0| > 0
    ensures Many1(p).run(s).Failure? ==> ManyRun(p, s) == ([], s)
  {
    Many1Run(p, s);
  }

  /** `option(def, p)`: `p | pure(def)`, relabelled "Optional <label>". */
  function OptionP<T>(def: T, p: Parser<T>): Parser<T> {
    WithLabel(Or(p, Pure(def)), "Optional " + p.name)
  }

  /** `option` never fails: `p`'s success, or `def` with the input untouched. */
  lemma OptionRun<T>(def: T, p: Parser<T>, s: string)
    ensures OptionP(def, p).name == "Optional " + p.name
    ensures OptionP(def, p).run(s) == if p.run(s).Success? then p.run(s) else Success((def, s))
  {
  }

  /** `option` keeps a suffix when `p` does. */
  lemma OptionSuffixing<T>(def: T, p: Parser<T>)
    requires Suffixing(p)
    ensures Suffixing(OptionP(def, p))
  {
    forall s | OptionP(def, p).run(s).Success? ensures IsSuffix(OptionP(def, p).run(s).value.1, s) {
      OptionRun(def, p, s);
    }
  }

  /** `sepBy1(p, sep)`: one `p`, then `many(sep >> p)`. Repetition must consume input on
      every step, so the `sep >> p` step is required to consume. */
  function SepBy1<T, S>(p: Parser<T>, sep: Parser<S>): Parser<seq<T>>
    requires Consumes(Then(sep, p))
  {
    WithLabel(Bind(p, x => Map(xs => [x] + xs, Many(Then(sep, p)))),
              p.name + " separated by " + sep.name)
  }

  /** `sepBy1` fails exactly when the first `p` fails; on success it collects that value and
      then the values of `sep >> p` in order, and stops before a `sep` that is not followed
      by a `p`. */
  lemma SepBy1Run<T, S>(p: Parser<T>, sep: Parser<S>, s: string)
    requires Consumes(Then(sep, p))
    ensures SepBy1(p, sep).name == p.name + " separated by " + sep.name
    ensures SepBy1(p, sep).run(s).Failure? <==> p.run(s).Failure?
    ensures p.run(s).Failure? ==> SepBy1(p, sep).run(s) == Failure(p.run(s).error)
    ensures p.run(s).Success? ==>
              var (x, mid) := p.run(s).value;
              var (xs, r) := ManyRun(Then(sep, p), mid);
              SepBy1(p, sep).run(s) == Success(([x] + xs, r)) && Then(sep, p).run(r).Failure?
  {
    if p.run(s).Success? {
      var (x, mid) := p.run(s).value;
      assert SepBy1(p, sep).run(s) == Map(xs => [x] + xs, Many(Then(sep, p))).run(mid);
      MapRun(xs => [x] + xs, Many(Then(sep, p)), mid);
    }
  }

  /** A trailing separator with no item after it stays unconsumed. */
  lemma SepBy1TrailingSeparator<T, S>(p: Parser<T>, sep: Parser<S>, s: string)
    requires Consumes(Then(sep, p))
    requires SepBy1(p, sep).run(s).Success?
    requires sep.run(SepBy1(p, sep).run(s).value.1).Success?
    ensures p.run(sep.run(SepBy1(p, sep).run(s).value.1).value.1).Failure?
  {
    var r := SepBy1(p, sep).run(s).value.1;
    SepBy1Run(p, sep, s);
    ThenRun(sep, p, r);
  }

  /** `sepBy1` keeps a suffix when `p` and `sep` do. */
  lemma SepBy1Suffixing<T, S>(p: Parser<T>, sep: Parser<S>)
    requires Consumes(Then(sep, p))
    requires Suffixing(p) && Suffixing(sep)
    ensures Suffixing(SepBy1(p, sep))
  {
    ThenKeeps(sep, p);
    forall s | SepBy1(p, sep).run(s).Success? ensures IsSuffix(SepBy1(p, sep).run(s).value.1, s) {
      SepBy1Run(p, sep, s);
      var mid := p.run(s).value.1;
      ManySuffixing(Then(sep, p), mid);
      SuffixTrans(ManyRun(Then(sep, p), mid).1, mid, s);
    }
  }

  /** `sepBy(p, sep)`: `sepBy1(p, sep) | pure([])`. */
  function SepBy<T, S>(p: Parser<T>, sep: Parser<S>): Parser<seq<T>>
    requires Consumes(Then(sep, p))
  {
    Or(SepBy1(p, sep), Pure([]))
  }

  /** `sepBy` never fails; when no first item parses it yields nothing and consumes nothing. */
  lemma SepByRun<T, S>(p: Parser<T>, sep: Parser<S>, s: string)
    requires Consumes(Then(sep, p))
    ensures SepBy(p, sep).run(s).Success?
    ensures p.run(s).Failure? ==> SepBy(p, sep).run(s) == Success(([], s))
    ensures p.run(s).Success? ==> SepBy(p, sep).run(s) == SepBy1(p, sep).run(s)
  {
    SepBy1Run(p, sep, s);
  }

  /** `sepBy` keeps a suffix when `p` and `sep` do. */
  lemma SepBySuffixing<T, S>(p: Parser<T>, sep: Parser<S>)
    requires Consumes(Then(sep, p))
    requires Suffixing(p) && Suffixing(sep)
    ensures Suffixing(SepBy(p, sep))
  {
    SepBy1Suffixing(p, sep);
    forall s | SepBy(p, sep).run(s).Success? ensures IsSuffix(SepBy(p, sep).run(s).value.1, s) {
      SepByRun(p, sep, s);
      SepBy1Run(p, sep, s);
    }
  }

  /** The longest prefix of `s` whose characters all satisfy `pred`. */
  function LeadingRun(pred: char -> bool, s: string): (r: string)
    ensures r <= s
    ensures forall i :: 0 <= i < |r| ==> pred(r[i])
    ensures |r| < |s| ==> !pred(s[|r|])
  {
    if |s| > 0 && pred(s[0]) then [s[0]] + LeadingRun(pred, s[1..]) else []
  }

  /** Repeating a one-character class parser reads exactly the longest leading run of
      that class and leaves the rest. */
  lemma {:induction false} ManyCharClass(p: Parser<char>, pred: char -> bool, s: string)
    requires CharClass(p, pred)
    ensures Consumes(p)
    ensures ManyRun(p, s) == (LeadingRun(pred, s), s[|LeadingRun(pred, s)|..])
    decreases |s|
  {
    CharClassWellBehaved(p, pred);
    if |s| > 0 && pred(s[0]) {
      ManyCharClass(p, pred, s[1..]);
      assert s[1..][|LeadingRun(pred, s[1..])|..] == s[|LeadingRun(pred, s)|..];
    }
  }

  /** The parse function of `takeWhile(pred)`, loop as written: the predicate is tested
      on `input[i]` before `i` is compared with the length, and the remainder starts one
      character after the run. Its callers must supply a character that stops the run:
      without one the loop reads past the end and the remainder is out of range. */
  method TakeWhile(pred: char -> bool, input: string) returns (r: Outcome<seq<char>>)
    requires exists k :: 0 <= k < |input| && !pred(input[k])
    ensures var run := LeadingRun(pred, input);
            |run| < |input| && r == Success((run, input[|run| + 1..]))
  {
    ghost var run := LeadingRun(pred, input);
    assert forall j :: 0 <= j < |run| ==> input[j] == run[j];
    assert |run| < |input|;
    var i := 0;
    var result: seq<char> := [];
    while pred(input[i]) && i < |input|
      invariant i <= |run|
      invariant result == input[..i]
    {
      result := result + [input[i]];
      i := i + 1;
    }
    assert i == |run|;
    assert result == run;
    r := Success((result, input[i + 1..]));
  }

  /** As written, `takeWhile` drops the character that stops the run: on "12a" with
      the digit predicate the remainder is empty, not "a". */
  lemma TakeWhileDropsStopChar()
    ensures LeadingRun(c => '0' <= c <= '9', "12a") == "12"
    ensures "12a"[|"12"| + 1..] == ""
  {
    var isDigit := c => '0' <= c <= '9';
    assert LeadingRun(isDigit, "a") == [];
    assert "12a"[1..] == "2a" && "2a"[1..] == "a";
  }

  /** `takeWhile` as evidently intended: the longest run that satisfies `pred`, with the
      remainder starting at the first character that does not. It is total. */
  function TakeWhileCorrected(pred: char -> bool): Parser<seq<char>> {
    Parser("takeWhile", s => var run := LeadingRun(pred, s); Success((run, s[|run|..])))
  }

  /** The corrected parser never fails, drops nothing, and stops exactly where `pred` fails. */
  lemma TakeWhileCorrectedRun(pred: char -> bool, s: string)
    ensures TakeWhileCorrected(pred).run(s).Success?
    ensures var (run, rest) := TakeWhileCorrected(pred).run(s).value;
            && run + rest == s
            && (forall i :: 0 <= i < |run| ==> pred(run[i]))
            && (|rest| > 0 ==> !pred(rest[0]))
  {
    var run := LeadingRun(pred, s);
    assert run + s[|run|..] == s;
  }

  /** `skipWhile(pred)`: `takeWhile(pred) >> pure(nullopt)`; the value carries nothing
      (modelled as the unit value) and the remainder is `takeWhile`'s. */
  method SkipWhile(pred: char -> bool, input: string) returns (r: Outcome<()>)
    requires exists k :: 0 <= k < |input| && !pred(input[k])
    ensures var run := LeadingRun(pred, input);
            |run| < |input| && r == Success(((), input[|run| + 1..]))
  {
    var taken := TakeWhile(pred, input);
    r := Success(((), taken.value.1));
  }
}
