# parsec — a Dafny model of a C++ parser-combinator library

This project models the parser-combinator library `parsec`:

- the engine in `include/parsec/parsec.hpp`:
  - the failure diagnostic (label and message);
  - the two-variant parse result;
  - the labelled parser with its entry points `run`, `runOptional` and `runThrowing`;
  - the primitives `pure`, `satisfy`, `charP` and `stringP`;
  - the combinators `bind`/`>>=`, `map`/`%`/`&`, `ap`/`*`, `>>`, `<`, `>`, `|`, `choice`, `anyOf`, `sequence`, `many`, `many1`, `option`, `sepBy1`, `sepBy`, `takeWhile` and `skipWhile`;
- the older engine in the root `parsec.hpp` (namespace `aoc::parser`);
- the derived parsers of `include/parsec/parsers.hpp`;
- the derived parsers of `include/parsec/numeric.hpp`.

A parser is a value: a display label plus a total Dafny function from the remaining
input to an outcome. The outcome is either a value paired with the unconsumed rest of
the input, or a diagnostic. Each library parser is a Dafny function that builds such
a value. Its behaviour is stated by lemmas about `run`.

The loops of the library are modelled twice:

- once as a recursive reference function, used inside the parser value;
- once as a method with the source's own loop, proved to return exactly what the reference function gives.

This is done for the loops of `many`, `sequence` and the old engine's `anyOf` and
`choice`. `takeWhile`'s loop reads outside the input, so it exists only as a method
with a precondition.

Two invariants thread through the proofs:

- `Suffixing`: every success leaves a suffix of the input, so the cursor never moves back.
- `Consumes`: every success shortens the input. `many` needs it to terminate.

Modules:

- `ParseTypes`: results, parsers, entry points and the invariants.
- `Primitives`: `pure`, `satisfy`, `charP`, `stringP`.
- `Combinators`: bind, map, ap, `>>`, `<`, `|`, `choice`, `anyOf`, `sequence`.
- `Repetition`: `many`, `many1`, `option`, `sepBy1`, `sepBy`, `takeWhile`, `skipWhile`.
- `Parsers`: `include/parsec/parsers.hpp`.
- `Numeric`: `include/parsec/numeric.hpp`.
- `AocParser`: the root `parsec.hpp`.

Alternation does not relabel a failure. Only the combined parser's own label is
"L or R"; a failure of the alternation is `p2`'s failure, unchanged
(`Combinators.OrRun`). A failing `choice` therefore reports the last alternative's
diagnostic (`Combinators.ChoiceRun`).

## Model

| member | source | states |
|---|---|---|
| ParseTypes.WithLabel | include/parsec/parsec.hpp:144-149 | relabelling sets the label and leaves the outcome on every input unchanged |
| ParseTypes.ParserError.Show | include/parsec/parsec.hpp:31-35 | the shown text is the label, then ": ", then the message, with nothing else |
| ParseTypes.ParseResult.AsOpt | include/parsec/parsec.hpp:85-89 | a value exactly for a success, and it is the success's value |
| ParseTypes.RunOptional | include/parsec/parsec.hpp:157-162 | a value comes back exactly when the run succeeds, and it is the parsed value |
| ParseTypes.RunThrowing | include/parsec/parsec.hpp:164-168 | on success the parsed value; on failure the run's own diagnostic is what is raised |
| ParseTypes.EntryPointsAgree | include/parsec/parsec.hpp:151-168 | `runOptional` is `runThrowing` with the diagnostic dropped, and both agree with `run` |
| Primitives.PureRun | include/parsec/parsec.hpp:185-192 | `pure(v)` succeeds with `v`, consumes nothing and is labelled "unknown" |
| Primitives.SatisfyRun | include/parsec/parsec.hpp:294-306 | empty input fails with (label, "Empty input!"); an accepted head is consumed and returned; a rejected head fails with (label, "Unexpected 'c'"); the parser's own label is "unknown" |
| Primitives.SatisfyClass | include/parsec/parsec.hpp:294-306 | `satisfy(pred)` succeeds exactly on a head satisfying `pred`, consuming one character and keeping a suffix |
| Primitives.CharPRun | include/parsec/parsec.hpp:311-319 | `charP(c)` succeeds exactly when `c` starts the input; its failure label is "character 'c'" but the parser's label is "unknown" |
| Primitives.CharPClass | include/parsec/parsec.hpp:311-319 | `charP(c)` is the one-character class `{c}`; it consumes input and keeps a suffix |
| Primitives.FindFrom | include/parsec/parsec.hpp:331 | the substring search returns the first index at or after the start where the needle occurs, or nothing when there is none |
| Primitives.FindAtZero | include/parsec/parsec.hpp:331-332 | the search returns 0 exactly when the needle is a prefix of the input |
| Primitives.StringPRun | include/parsec/parsec.hpp:324-335 | `stringP(lit)` succeeds exactly when `lit` is a prefix, yielding `lit` and the rest; otherwise it fails with ("string \"lit\"", "Failed to parse string") |
| Primitives.StringPNoLaterMatch | include/parsec/parsec.hpp:331-333 | an occurrence of `lit` later in the input, but not at its start, is a failure |
| Primitives.StringPSuffixing | include/parsec/parsec.hpp:324-335 | `stringP` keeps a suffix of the input |
| Combinators.BindRun | include/parsec/parsec.hpp:218-230 | bind returns `p`'s failure unchanged; on success it runs the continuation's parser on the remainder; it is labelled "unknown" |
| Combinators.BindLeftIdentity | include/parsec/parsec.hpp:218-230 | binding `pure(x)` to `f` gives the outcomes of `f(x)` |
| Combinators.BindRightIdentity | include/parsec/parsec.hpp:218-230 | binding `p` to `pure` gives the outcomes of `p` |
| Combinators.BindAssociative | include/parsec/parsec.hpp:218-230 | nested binds give the same outcome in either grouping |
| Combinators.BindSuffixing | include/parsec/parsec.hpp:218-230 | bind keeps the suffix invariant when `p` and every continuation keep it |
| Combinators.MapRun | include/parsec/parsec.hpp:243-250 | map succeeds exactly when `p` does, applies `f` to the value, keeps `p`'s remainder and propagates `p`'s failure |
| Combinators.MapIdentity | include/parsec/parsec.hpp:243-250 | mapping the identity leaves every outcome unchanged |
| Combinators.MapCompose | include/parsec/parsec.hpp:243-250 | mapping `f` then `g` is mapping their composition |
| Combinators.MapKeeps | include/parsec/parsec.hpp:243-250 | map preserves the suffix and consumption invariants |
| Combinators.ApRun | include/parsec/parsec.hpp:197-206 | `ap` runs the function parser, then `p` on its remainder, yielding `f(x)` with `p`'s remainder; the first failure propagates unchanged |
| Combinators.ApPure | include/parsec/parsec.hpp:197-206 | `pure(f) * p` is `map(f, p)` |
| Combinators.ApSuffixing | include/parsec/parsec.hpp:197-206 | `ap` keeps a suffix when both its parsers do |
| Combinators.ThenRun | include/parsec/parsec.hpp:472-481 | `p1 >> p2` propagates `p1`'s failure and is otherwise `p2` on `p1`'s remainder; its label is "L and then R" |
| Combinators.ThenKeeps | include/parsec/parsec.hpp:472-481 | `>>` preserves the suffix invariant, and consumes when one side consumes and the other keeps a suffix |
| Combinators.KeepLeftRun | include/parsec/parsec.hpp:488-497 | `p1 < p2` yields `p1`'s value with `p2`'s remainder; either failure propagates unchanged |
| Combinators.KeepLeftSuffixing | include/parsec/parsec.hpp:488-497 | `<` keeps a suffix when both its parsers do |
| Combinators.OrRun | include/parsec/parsec.hpp:509-518 | the alternation of `p1` and `p2` is `p1`'s outcome when it succeeds and otherwise `p2` on the original input; its label is "L or R" |
| Combinators.OrKeeps | include/parsec/parsec.hpp:509-518 | alternation preserves the suffix and consumption invariants |
| Combinators.ChoiceRun | include/parsec/parsec.hpp:340-345 | `choice` succeeds exactly when some alternative does, with the first success; when all fail, the last alternative's failure comes back |
| Combinators.ChoiceKeeps | include/parsec/parsec.hpp:340-345 | `choice` keeps the suffix and consumption invariants when all its alternatives keep them |
| Combinators.AnyOfRun | include/parsec/parsec.hpp:350-356 | `anyOf(cs)` consumes the head exactly when it is in `cs`; it is labelled "any of: cs"; a failure is the last character's `charP` failure |
| Combinators.AnyOfClass | include/parsec/parsec.hpp:350-356 | `anyOf(cs)` is the one-character class of `cs`, consuming and keeping a suffix |
| Combinators.SequenceLoop | include/parsec/parsec.hpp:269-289 | the source's loop returns exactly the reference outcome of `sequence` |
| Combinators.SequenceSuccess | include/parsec/parsec.hpp:269-289 | `sequence` yields `vs` and `r` exactly when the parsers ran in order on the threaded remainder, with one value per parser |
| Combinators.SequenceFailure | include/parsec/parsec.hpp:278-281 | a failure of `sequence` is the failure of the first parser that fails, after all earlier ones succeeded |
| Combinators.SequenceSuffixing | include/parsec/parsec.hpp:269-289 | `sequence` keeps a suffix when each of its parsers does |
| Repetition.ManyRun | include/parsec/parsec.hpp:364-375 | repetition stops at a remainder no longer than the input, where `p` fails |
| Repetition.ManyLoop | include/parsec/parsec.hpp:364-375 | the source's `while` loop returns exactly the reference outcome of `many`, and terminates when `p` consumes |
| Repetition.ManyName | include/parsec/parsec.hpp:358-376 | `many(p)` is labelled "many of <label>" and never fails |
| Repetition.ManyExact | include/parsec/parsec.hpp:358-376 | `many` yields `vs` and stops at `r` exactly when `p` succeeds with `vs` in order and then fails at `r` |
| Repetition.ManySuffixing | include/parsec/parsec.hpp:358-376 | `many` keeps a suffix of the input |
| Repetition.ManyKeeps | include/parsec/parsec.hpp:358-376 | the parser `many(p)` keeps a suffix when `p` does |
| Repetition.Many1Run | include/parsec/parsec.hpp:378-388 | `many1` fails exactly when the first `p` fails, and otherwise prepends that value to `many` on the remainder |
| Repetition.Many1IsNonEmptyMany | include/parsec/parsec.hpp:378-388 | `many1` succeeds as `many` with a non-empty list, and fails only where `many` collects nothing |
| Repetition.Many1Suffixing | include/parsec/parsec.hpp:378-388 | `many1(p)` keeps a suffix when `p` does |
| Repetition.OptionRun | include/parsec/parsec.hpp:394-400 | `option` never fails: it yields `p`'s success, or the default with the input untouched; labelled "Optional <label>" |
| Repetition.OptionSuffixing | include/parsec/parsec.hpp:394-400 | `option` keeps a suffix when `p` does |
| Repetition.SepBy1Run | include/parsec/parsec.hpp:406-418 | `sepBy1` fails exactly when the first `p` fails; otherwise it collects that value, then `sep >> p` values in order, up to a point where `sep >> p` fails |
| Repetition.SepBy1TrailingSeparator | include/parsec/parsec.hpp:406-418 | a trailing separator not followed by an item is left unconsumed |
| Repetition.SepBy1Suffixing | include/parsec/parsec.hpp:406-418 | `sepBy1` keeps a suffix when `p` and `sep` do |
| Repetition.SepByRun | include/parsec/parsec.hpp:424-429 | `sepBy` never fails; with no first item it yields nothing and consumes nothing |
| Repetition.SepBySuffixing | include/parsec/parsec.hpp:424-429 | `sepBy` keeps a suffix when `p` and `sep` do |
| Repetition.LeadingRun | include/parsec/parsec.hpp:446-447 | the longest prefix whose characters satisfy the predicate |
| Repetition.ManyCharClass | include/parsec/parsec.hpp:358-376 | repeating a one-character class reads exactly the longest leading run of that class |
| Repetition.TakeWhile | include/parsec/parsec.hpp:435-451 | as written: the value is the longest leading run, and the remainder starts one character after the character that stops it |
| Repetition.TakeWhileDropsStopChar | include/parsec/parsec.hpp:446-449 | with the digit predicate on "12a", the run is "12" and the remainder as written is "", not "a" |
| Repetition.TakeWhileCorrectedRun | include/parsec/parsec.hpp:435-451 | corrected `takeWhile` never fails; run and remainder concatenate to the input; the remainder starts where the predicate fails |
| Repetition.SkipWhile | include/parsec/parsec.hpp:461-466 | `skipWhile` succeeds with no value and `takeWhile`'s remainder |
| Parsers.DigitPRun | include/parsec/parsers.hpp:13-17 | `digitP` consumes exactly one digit; it fails on empty input or a non-digit, with label "Failed to parse digit" |
| Parsers.DigitsPRun | include/parsec/parsers.hpp:22-28 | `digitsP` fails exactly when the head is not a digit, with `digitP`'s diagnostic; on success it yields non-empty digits, and digits + rest is the input, with rest empty or starting with a non-digit |
| Parsers.DigitsPShape | include/parsec/parsers.hpp:22-28 | with a leading digit, `digitsP` succeeds with a non-empty digit run that is maximal |
| Parsers.DigitsPFailure | include/parsec/parsers.hpp:22-28 | without a leading digit, `digitsP` fails with `digitP`'s diagnostic |
| Parsers.DigitsPValue | include/parsec/parsers.hpp:22-28 | with a leading digit, `digitsP` yields exactly the longest leading digit run and the rest |
| Parsers.DecimalValue | include/parsec/parsers.hpp:36-38 | the value of a digit string lies in [0, 10^length) |
| Parsers.DecimalValueLeadingZero | include/parsec/parsers.hpp:36-38 | a leading zero does not change the value |
| Parsers.DecimalPRun | include/parsec/parsers.hpp:33-39 | `decimalP` fails exactly when `digitsP` does, and otherwise yields the value of the leading digit run, with the rest |
| Parsers.LetterPRun | include/parsec/parsers.hpp:44-48 | `letterP` consumes exactly one ASCII letter and otherwise fails with label "Failed to match letter" |
| Parsers.SpacePRun | include/parsec/parsers.hpp:53-57 | `spaceP` consumes exactly one white-space character and otherwise fails with label "Failed to match space" |
| Numeric.DigitsAreDigits | include/parsec/numeric.hpp:13 | the ten listed characters are exactly the decimal digits |
| Numeric.DigitPClass | include/parsec/numeric.hpp:11-15 | `digitP` succeeds exactly on a head digit, consuming one character |
| Numeric.DigitPRun | include/parsec/numeric.hpp:11-15 | `digitP` is the digit class; it is labelled "any of: 0123456789"; its failure, on empty input or a non-digit head, carries `charP('9')`'s diagnostic |
| Numeric.DigitsPRun | include/parsec/numeric.hpp:17-21 | `digitsP` fails exactly when the head is not a digit; on success it yields the longest leading digit run, in order, and the rest |
| Numeric.DigitsPFailure | include/parsec/numeric.hpp:17-21 | without a leading digit, `digitsP` fails with `digitP`'s diagnostic |
| Numeric.DigitsPValue | include/parsec/numeric.hpp:17-21 | with a leading digit, `digitsP` yields the longest leading digit run and the rest |
| AocParser.ParseResult.Error | parsec.hpp:60-65 | `error()` holds an error exactly for a failure, and then it is the failure's error |
| AocParser.Head | parsec.hpp:195 | `input[0]` is the first character, or the terminating '\0' of an empty string |
| AocParser.PureRun | parsec.hpp:179-189 | `pure(v)` succeeds with `v` and leaves the input unchanged |
| AocParser.CharPRun | parsec.hpp:191-199 | `charP(c)` succeeds exactly when `c` starts the input, consuming it; otherwise it fails with "Failed to match character: c", on empty input too |
| AocParser.MapRun | parsec.hpp:136-150 | map succeeds exactly when the parser does, applies `f` and keeps the remainder; failures propagate |
| AocParser.MapIdentity | parsec.hpp:136-150 | mapping the identity leaves every outcome unchanged |
| AocParser.MapCompose | parsec.hpp:136-150 | mapping twice is mapping the composition |
| AocParser.MapSuffixing | parsec.hpp:136-150 | map keeps a suffix when the parser does |
| AocParser.ApRun | parsec.hpp:110-134 | `ap` propagates the function parser's failure without using `p`; otherwise it yields `fn(value)` with `p`'s remainder, or `p`'s failure |
| AocParser.ApPure | parsec.hpp:263-268 | `pure(f) * p` is `p.map(f)` |
| AocParser.ApSuffixing | parsec.hpp:110-134 | `ap` keeps a suffix when both its parsers do |
| AocParser.ThenRun | parsec.hpp:237-247 | `>>` propagates `p1`'s failure, and is otherwise `p2` on `p1`'s remainder |
| AocParser.ThenSuffixing | parsec.hpp:237-247 | `>>` keeps a suffix when both sides do |
| AocParser.OrRun | parsec.hpp:252-261 | the alternation is `p1`'s success, or otherwise `p2` on the original input |
| AocParser.OrAssociative | parsec.hpp:252-261 | alternation gives the same outcome in either grouping |
| AocParser.OrSuffixing | parsec.hpp:252-261 | alternation keeps a suffix when both alternatives do |
| AocParser.SequenceLoop | parsec.hpp:156-177 | the source's loop returns exactly the reference outcome of `sequence` |
| AocParser.SequenceSuccess | parsec.hpp:156-177 | `sequence` yields `vs` and `r` exactly when the parsers ran in order on the threaded remainder, one value each |
| AocParser.SequenceFailure | parsec.hpp:166-169 | a failure of `sequence` is the first failing parser's failure, after all earlier ones succeeded |
| AocParser.SequenceSuffixing | parsec.hpp:156-177 | `sequence` keeps a suffix when each of its parsers does |
| AocParser.AnyOfLoop | parsec.hpp:201-216 | the source's loop with early return gives exactly the reference outcome of `anyOf` |
| AocParser.AnyOfSpec | parsec.hpp:201-216 | `anyOf(chars)` consumes the head exactly when it is in `chars`, and otherwise fails with "Failed to match any characters" |
| AocParser.AnyOfSuffixing | parsec.hpp:201-216 | `anyOf` keeps a suffix of the input |
| AocParser.ChoiceLoop | parsec.hpp:218-232 | the source's loop with early return gives exactly the reference outcome of `choice` |
| AocParser.ChoiceSpec | parsec.hpp:218-232 | `choice` succeeds exactly when some parser does, with the first success; when none does, it fails with "Failed to match any parsers in choice" |
| AocParser.ChoiceSuffixing | parsec.hpp:218-232 | `choice` keeps a suffix when each of its parsers does |
| AocParser.ChoiceCons | parsec.hpp:218-232 | `choice` with a parser in front is the alternation of that parser and `choice` of the rest |

## Left out

- `Parsers.DecimalP`: `std::stoi` throws out_of_range above 2147483647. The model's integers are unbounded, so a digit run of any length yields its value.
- `Repetition.TakeWhile`: when every character satisfies the predicate, the source reads past the end and `substr` throws out of range inside a `noexcept` function, which ends the program. The model requires a character that stops the run. For the same reason `takeWhile` and `skipWhile` are methods over one input rather than parser values.
- `Repetition.SkipWhile`: the `nullopt` value is modelled as the unit value `()`, and the parser's label "takeWhile and then unknown" is not modelled.
- `Repetition.Many`: the loop never ends when `p` succeeds without consuming. The model requires `Consumes(p)`. `Many1`, `SepBy1` and `SepBy` require the same of their repeated parser (`p`, respectively `sep >> p`).
- `AocParser.CharP`: `charP('\0')` on empty input makes `substr(1)` throw inside a `noexcept` parse function, so the model requires `c != '\0'`. `AocParser.AnyOf` likewise requires that '\0' is not in `chars`.
- `withLabel` updates the label of a temporary parser in place and returns it. Every call site uses the result at once, so it is modelled as a function returning the relabelled value (`ParseTypes.WithLabel`).
- `>` is defined as `>>`, and `>>=` as `bind`. `%` and `&` are `map`, and `*` is `ap`. Each operator is modelled by the function it calls.
- `choice` and `anyOf` with no arguments do not compile, so `Combinators.Choice` and `Combinators.AnyOf` require a non-empty list.
- In the old engine, `map` and `ap` capture `this`, which dangles when the parser is a temporary. The model gives them value semantics.
- `AocParser.AnyOf` and `AocParser.Choice`: the old engine's `anyOf` and `choice` capture a `std::initializer_list` by copy. The copy does not own its elements, whose array ends with the full expression that built the parser, so every later run reads a dead array. The model gives both value semantics and does not capture this lifetime error.
- `ParseResult::value()` and `asError()` throwing on the wrong variant are not modelled; the model reads the variant's field where it is known to exist.
- `isdigit`, `isalpha` and `isspace` are modelled as their ASCII meaning in the "C" locale. Other locales are not modelled.
- `std::function` type erasure, template deduction, `string_view` lifetimes, `constexpr`/`noexcept`, and `std::list` versus `std::vector` (both are sequences here) are not modelled.
- `include/parsec/numeric.hpp` does not compile against `include/parsec/parsers.hpp` and the variadic `anyOf`. Each file's intended meaning is modelled separately, with `digitP` as the variadic `anyOf` of the ten digits.
- `examples/json.cpp`, `examples/person_parser.cpp`, `include/parsec/adapter.hpp` and `include/parsec/curry.hpp` are not part of this model.

## Findings

| source | as written | input that shows it | evidently intended | confidence | as-written member | corrected member |
|---|---|---|---|---|---|---|
| include/parsec/parsec.hpp:446-449 | the loop tests `predicate(input[i])` before `i < input.length()`, and the remainder is `input.substr(i + 1)` | the digit predicate on "12a" leaves "" instead of "a"; on "12" the loop reads `input[2]` past the end and `substr(3)` throws | test the bound first, and return `input.substr(i)` | not executed | Repetition.TakeWhile | Repetition.TakeWhileCorrectedRun |
