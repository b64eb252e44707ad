/** Shared values of the parser engine in include/parsec/parsec.hpp: the failure
    diagnostic, the two-variant result, the parser record and its entry points,
    and the "remainder is a suffix of the input" invariant every parser keeps. */
module ParseTypes {

  datatype Option<+T> = None | Some(value: T)

  /** A failure diagnostic: the label of the parser that failed and why it failed. */
  datatype ParserError = ParserError(parserLabel: string, msg: string) {
    /** The "label: message" text that a caller shows: the label, then ": ", then the
        message, with nothing left out. */
    function Show(): (r: string)
      ensures |r| == |parserLabel| + 2 + |msg|
      ensures r[..|parserLabel|] == parserLabel
      ensures r[|parserLabel|..|parserLabel| + 2] == ": "
      ensures r[|parserLabel| + 2..] == msg
    {
      parserLabel + ": " + msg
    }
  }

  /** Either a value or the diagnostic of a failed parse. */
  datatype ParseResult<+T> = Success(value: T) | Failure(error: ParserError) {
    /** The value, or nothing: the diagnostic is dropped. */
    function AsOpt(): (r: Option<T>)
      ensures r.Some? <==> this.Success?
      ensures r.Some? ==> r.value == this.value
    {
      if Success? then Some(value) else None
    }
  }

  /** What running a parser gives: a value paired with the unconsumed rest of the input. */
  type Outcome<T> = ParseResult<(T, string)>

  /** A parser is a display label (`name`) plus a function from the remaining input to an outcome. */
  datatype Parser<T> = Parser(name: string, run: string -> Outcome<T>)

  /** The label of a parser built from its function alone. */
  const Unknown: string := "unknown"

  /** Replaces the label, keeping the parse function. */
  function WithLabel<T>(p: Parser<T>, newName: string): (r: Parser<T>)
    ensures r.name == newName
    ensures forall s :: r.run(s) == p.run(s)
  {
    Parser(newName, p.run)
  }

  /** Runs a parser on the whole input and returns its full outcome. */
  function Run<T>(p: Parser<T>, input: string): Outcome<T> {
    p.run(input)
  }

  /** Runs a parser and keeps only the value: both the remainder and the diagnostic are dropped. */
  function RunOptional<T>(p: Parser<T>, input: string): (r: Option<T>)
    ensures r.Some? <==> Run(p, input).Success?
    ensures r.Some? ==> r.value == Run(p, input).value.0
  {
    var result := Run(p, input).AsOpt();
    if result.Some? then Some(result.value.0) else None
  }

  /** Runs a parser and returns the value; a failure's diagnostic is what the source
      throws, and is returned here as a Failure carrying that same diagnostic. */
  function RunThrowing<T>(p: Parser<T>, input: string): (r: ParseResult<T>)
    ensures r.Success? <==> Run(p, input).Success?
    ensures r.Success? ==> r.value == Run(p, input).value.0
    ensures r.Failure? ==> r.error == Run(p, input).error
  {
    var result := Run(p, input);
    if result.Failure? then Failure(result.error) else Success(result.value.0)
  }

  /** The three entry points agree: the optional value is the thrown-or-returned value
      with the diagnostic dropped. */
  lemma EntryPointsAgree<T>(p: Parser<T>, input: string)
    ensures RunOptional(p, input) == RunThrowing(p, input).AsOpt()
    ensures RunOptional(p, input).Some? ==> Run(p, input).value.0 == RunOptional(p, input).value
  {
  }

  /** `r` is a suffix of `s`: the cursor only ever moves forward. */
  predicate IsSuffix(r: string, s: string) {
    |r| <= |s| && s[|s| - |r|..] == r
  }

  /** Every successful run leaves a suffix of its input as the remainder. */
  ghost predicate Suffixing<T>(p: Parser<T>) {
    forall s :: p.run(s).Success? ==> IsSuffix(p.run(s).value.1, s)
  }

  /** Every successful run consumes at least one character. */
  ghost predicate Consumes<T>(p: Parser<T>) {
    forall s :: p.run(s).Success? ==> |p.run(s).value.1| < |s|
  }

  lemma SuffixTrans(a: string, b: string, c: string)
    requires IsSuffix(a, b) && IsSuffix(b, c)
    ensures IsSuffix(a, c)
  {
    assert c[|c| - |a|..] == c[|c| - |b|..][|b| - |a|..];
  }

  lemma SuffixOfDrop(s: string, k: nat)
    requires k <= |s|
    ensures IsSuffix(s[k..], s)
  {
  }
}
