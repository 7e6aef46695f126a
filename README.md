# PEG interpreter of `Parser` (phiox/stream), modelled in Dafny

The repository's one piece of real logic is class `Parser` in
`src/Parser.php`: a parsing-expression-grammar (PEG) interpreter. It keeps a
start rule name and a table of named rules, each an operator tree with an
optional action. It evaluates a tree over a byte string at an explicit
offset. The result of an evaluation is either a match (length, value, start
offset) or a no-match (start offset). Grammar defects, an unknown rule name
or an operator tag without a handler, throw exceptions instead.

The project has five modules:

- `ParserTypes` (`parser_types.dfy`) holds the data model:
  - operator trees `Op`: Literal, CharacterClass, Identifier, Sequence, Choice, Repeat with `min` and an optional `max`, Any, Not, And, and `Undefined` for a tag with no handler;
  - match values `Value`: string, list or null;
  - the outcome of one attempt, `Result`: `Match`, `NoMatch`, `Raised(Error)` for a thrown exception, and `Unfinished` for an evaluation that does not finish;
  - the rule registry, a map from name to `Definition(rule, action)`.
- `ParserSpec` (`parser_spec.dfy`) is the evaluator as functions:
  - one per handler, with offsets passed as values;
  - `EvalParse` is what `parse` returns: a value, null, an exception, or nothing.
- `ParserImpl` (`parser_impl.dfy`) is class `Parser` in the source's own form:
  - `definitions` is a field that the constructor and `AddDefinition` write;
  - `ParseSequence`, `ParseChoice` and `ParseRepeat` are loops with the source's `$offset`, `$matches`, `$matchLen` and counter;
  - every handler method is proved equal to the function of `ParserSpec` that specifies it.
- `ParserLemmas` (`parser_lemmas.dfy`) proves what the handlers promise:
  - terminals against the `substr` formulation;
  - offsets and bounds;
  - the laws of Sequence, Choice and Repeat;
  - that defects raise while input mismatches never do;
  - that without actions a match's value stands for the bytes it consumed;
  - actions and the top-level null;
  - that more fuel never changes a finished result.
- `ParserFindings` (`parser_findings.dfy`) holds the defect in `parseIdentifier`: the handler as written, and the counterexample against the corrected handler that the rest of the model uses.

Termination. A rule may refer to itself through Identifier, so the source
can recurse without bound. The model therefore gives the evaluator a `fuel`
parameter. Each rule resolution spends one unit. Resolution nested deeper
than the fuel gives `Unfinished`, and `FuelMonotone` proves that more fuel
never changes a finished result. A Repeat without upper bound over a child
that matches the empty string loops forever in the source; the model gives
`Unfinished` there too. Every other loop terminates: each Repeat iteration
consumes input or uses up `max`.

Repeat with `max` below `min`. A reader might expect that fewer than
`min` iterations always fail. The code instead tests `$i <= $min` only
after a failed iteration. When the loop stops at `++$i <= $max`, it matches with the
iterations taken, even when there are fewer than `min`. The model follows
the code (`MaxBelowMinExample`, `RepeatCount`).

Choice. The source returns the first alternative that matches, and an
exception of an alternative propagates. The model's `EvalChoice` returns
the first alternative that is not a `NoMatch`, which is the same thing with
exceptions written as `Raised`.

## Model

| member | source | states |
|---|---|---|
| ParserImpl.Parser.constructor | src/Parser.php:29-36 | the registry holds exactly the given rules, copied one by one, and the start rule is the given name |
| ParserImpl.Parser.AddDefinition | src/Parser.php:43-46 | the rule and its optional action are stored under the id, replacing any earlier entry; nothing else changes |
| ParserImpl.Parser.Parse | src/Parser.php:60-69 | the answer is `EvalParse` of the start rule over the input at offset 0 |
| ParserImpl.Parser.ParseDefinition | src/Parser.php:80-99 | the result is `EvalDefinition`: unknown names raise, a match of the rule's tree goes through the action |
| ParserImpl.Parser.ParseOperator | src/Parser.php:110-119 | dispatch to the handler of the operator's tag, or raise for a tag without one; equals `EvalOp` |
| ParserImpl.Parser.ParseSequence | src/Parser.php:218-238 | the loop over the items computes `EvalSequence` (invariant: result = accumulated prefix + rest of the sequence from the current offset) |
| ParserImpl.Parser.ParseChoice | src/Parser.php:249-262 | the loop over the alternatives computes `EvalChoice` (invariant: the choice equals the choice over the untried alternatives) |
| ParserImpl.Parser.ParseRepeat | src/Parser.php:161-188 | the loop with counter, accumulated values and length computes `EvalRepeat`, ending on failure, on a match past the end, or after `max` iterations |
| ParserSpec.NotOf | src/Parser.php:290-299 | Not matches with length 0, null, at the offset exactly when the child fails, and fails exactly when the child matches |
| ParserSpec.AndOf | src/Parser.php:310-319 | And matches with length 0, null, at the offset exactly when the child matches, and fails exactly when the child fails |
| ParserSpec.WithAction | src/Parser.php:88-95 | a non-match passes through unchanged; a match keeps length and offset and carries the action's value, or its own without action |
| ParserLemmas.LiteralMatches | src/Parser.php:129-136 | a literal matches iff the input slice at the offset equals the text, iff `substr` of that length does; then Match(\|text\|, text, offset), else NoMatch(offset) |
| ParserLemmas.CharacterClassMatches | src/Parser.php:198-207 | a class matches iff a byte remains at the offset and belongs to it; the match has length 1 and the one-byte `substr` as value |
| ParserLemmas.AnyMatches | src/Parser.php:272-279 | Any matches iff `strlen - offset >= 1`, with length 1 and the one-byte `substr` as value; otherwise NoMatch(offset) |
| ParserLemmas.InBounds | src/Parser.php:176 | every Match and NoMatch reports its start offset, and a Match from an offset inside the input ends inside it, so the guard `$offset > $inputLen` never fires |
| ParserLemmas.DefinitionInBounds | src/Parser.php:80-99 | the same bound for a rule resolution |
| ParserLemmas.SequenceInBounds | src/Parser.php:218-238 | the same bound for a sequence |
| ParserLemmas.ChoiceInBounds | src/Parser.php:249-262 | the same bound for a choice |
| ParserLemmas.RepeatInBounds | src/Parser.php:161-188 | the same bound for a repetition |
| ParserLemmas.LookaheadConsumesNothing | src/Parser.php:290-319 | Not and And consume nothing: Match(0, null, offset) iff the child fails (Not) or matches (And), NoMatch(offset) otherwise, exceptions passed on |
| ParserLemmas.AndIsNotNot | src/Parser.php:290-319 | And of a child is Not of Not of it, on every input |
| ParserLemmas.SequenceConcat | src/Parser.php:218-238 | a sequence split in two: the second part runs from where the first stopped, lengths add up and value lists concatenate; a failure of either part fails the whole at the start |
| ParserLemmas.SequencePair | src/Parser.php:218-238 | two items: length is the sum, value is the list of both values in order, start is the original offset |
| ParserLemmas.ChoiceFirstDecides | src/Parser.php:253-258 | when every earlier alternative fails, the first one that does not fail is the result; later ones are never considered |
| ParserLemmas.ChoiceFailsIff | src/Parser.php:249-262 | a choice is NoMatch(offset) iff every alternative fails at the offset |
| ParserLemmas.ChoiceConcat | src/Parser.php:249-262 | appending alternatives matters only when all earlier ones fail |
| ParserLemmas.RepeatIsSequence | src/Parser.php:161-188 | a matching repetition with k values equals the sequence of k copies of its child: summed length, list of values in order |
| ParserLemmas.RepeatOutcome | src/Parser.php:172-187 | conversely, when k iterations match, the next one fails and `max` allows more than k, the repetition is NoMatch at the start if k is below `min`, and otherwise the match of the k iterations (summed length, list of values) |
| ParserLemmas.RepeatStopsAtMax | src/Parser.php:172-187 | when k iterations match, a repetition with `max` equal to k is exactly their match, whatever `min` is: the loop exits at `++$i <= $max` and the `$i <= $min` test is never reached |
| ParserLemmas.RepeatPassesOn | src/Parser.php:172-175 | when k iterations match, `max` allows more, and the next iteration raises or does not finish, that outcome is the outcome of the whole repetition |
| ParserLemmas.RepeatCount | src/Parser.php:172-181 | a matching repetition takes at most `max` iterations and at least `min`, unless `max` stopped it first |
| ParserLemmas.RepeatGreedy | src/Parser.php:172-182 | unless `max` iterations were taken, one more iteration does not match where the repetition ends |
| ParserLemmas.RepeatNoMatch | src/Parser.php:176-179 | a repetition fails only when `min` is positive and, after k < min (and k < max) matching iterations, the next one fails; with `min` 0 it never fails |
| ParserLemmas.NumberExample | src/Parser.php:161-188 | `Repeat([0-9], 1, INF)` on "123abc" matches 3 bytes with the list "1", "2", "3" |
| ParserLemmas.MaxBelowMinExample | src/Parser.php:172-187 | `Repeat(Any, 3, 1)` on "ab" matches "a": the loop stops at `max` before `min` is reached |
| ParserLemmas.ValueIsConsumed | src/Parser.php:51-54 | without actions, every match's value stands for exactly the bytes it consumed: its flattening (string itself, null empty, list concatenated) is the input slice from the offset of the match's length |
| ParserLemmas.DefinitionValueIsConsumed | src/Parser.php:80-99 | the same for a rule resolution |
| ParserLemmas.SequenceValueIsConsumed | src/Parser.php:218-238 | the same for a sequence: the item values, flattened in order, are the bytes the sequence consumed |
| ParserLemmas.ChoiceValueIsConsumed | src/Parser.php:249-262 | the same for a choice |
| ParserLemmas.RepeatValueIsConsumed | src/Parser.php:161-188 | the same for a repetition: the iteration values, flattened in order, are the bytes it consumed |
| ParserLemmas.ParseReturnsConsumed | src/Parser.php:48-69 | without actions, when the start rule matches, `parse` returns a value that flattens to the consumed prefix of the input |
| ParserLemmas.DefectsRaise | src/Parser.php:82-118 | an unregistered rule name raises whatever the input, offset or fuel; so does an operator tag without handler |
| ParserLemmas.NeverRaises | src/Parser.php:110-119 | in a grammar whose names are all registered and whose tags all have handlers, no evaluation raises: mismatches give NoMatch |
| ParserLemmas.DefinitionNeverRaises | src/Parser.php:80-99 | the same for a registered rule |
| ParserLemmas.SequenceNeverRaises | src/Parser.php:218-238 | the same for a sequence of closed items |
| ParserLemmas.ChoiceNeverRaises | src/Parser.php:249-262 | the same for a choice of closed alternatives |
| ParserLemmas.RepeatNeverRaises | src/Parser.php:161-188 | the same for a repetition of a closed child |
| ParserLemmas.FuelMonotone | src/Parser.php:80-99 | a finished result is the same with any larger fuel: the depth bound only cuts evaluations short |
| ParserLemmas.DefinitionFuelMonotone | src/Parser.php:80-99 | the same for a rule resolution |
| ParserLemmas.SequenceFuelMonotone | src/Parser.php:218-238 | the same for a sequence |
| ParserLemmas.ChoiceFuelMonotone | src/Parser.php:249-262 | the same for a choice |
| ParserLemmas.RepeatFuelMonotone | src/Parser.php:161-188 | the same for a repetition |
| ParserLemmas.RuleAppliesAction | src/Parser.php:88-95 | a rule's action applies only to a match of its tree, keeping length and start offset; any other result of the tree is returned unchanged |
| ParserLemmas.ParseNull | src/Parser.php:60-69 | `parse` returns null iff the start rule does not match or matches with a null value, and otherwise the match's value |
| ParserFindings.AsWrittenIgnoresPosition | src/Parser.php:147-150 | as written, an identifier's outcome is the same for every input and offset |
| ParserFindings.IdentifierCounterexample | src/Parser.php:147-150 | with rule `A <- .` as start rule, the identifier `A` on the empty input gives the value "A" as written, but NoMatch(0) as intended |
| ParserFindings.IdentifierIsRule | src/Parser.php:147-150 | the corrected identifier is `parseDefinition` of the name at the offset: it starts there, stays inside the input, passes on every non-match of the rule's tree (failure, exception, unfinished), and otherwise matches with the tree's length and the action's value of the tree's value |

## Left out

- Fuel: rule resolution is bounded by a `fuel` parameter, and resolution nested deeper gives `Unfinished`. The source recurses without bound, until the PHP stack runs out.
- Repeat without `max` over a child that matches the empty string is `Unfinished`. The source loops forever there.
- CharacterClass: the PCRE bracket syntax that `preg_match` compiles is abstracted as a set of bytes. Escapes, ranges and negation are not parsed.
- Exceptions: the message wording is not modelled. `new Exception('Invalid rule: …', $e)` at src/Parser.php:97 passes an exception where PHP's `Exception` expects an integer code, so it throws a type error instead of a wrapped exception. The model keeps only that something is raised: `Raised` carries the innermost defect. Exceptions thrown by actions are not modelled either.
- Operator tags: `parseOperator` looks up the method `'parse' . $tag` with `method_exists`, and PHP method names are case-insensitive. So `literal` or `ANY` reach the Literal and Any handlers. The tag `""` reaches `parse`, `Definition` reaches `parseDefinition`, and `Operator` reaches `parseOperator`, which recurses without end. The model has only the nine handler tags, spelled exactly. `Undefined` stands for a tag that names no method of the class; case variants and the tags `""`, `Definition` and `Operator` are not modelled.
- Actions are total functions from `Value` to `Value`. PHP values other than strings, lists and null are not represented.
- Offsets: offsets are natural numbers, so negative offsets passed to the public `parseDefinition` are not modelled. For an offset past the end of the input the terminals behave as if no byte remains. PHP 8's `substr` would return "" there, so an empty literal would still match.
- Missing operand elements are not modelled: `$operator[2] ?? 0` and `$operator[3] ?? INF` become an explicit `min` and an optional `max`. Non-integer bounds are not modelled either.
- `isset` on a rule stored as null: a registered rule is always a value.
- The rule shape: `parseDefinition` calls `->rule()` and `->call()`, but `addDefinition` stores a plain array `[$rule, $action]`. The model takes the evident pair: a rule and an optional action, where no action keeps the raw value.
- `TokenInterface::match`, `noMatch`, `isMatch`, `newOffset`, `length`, `value` and `offset` are not defined in the repository. `Result` defines them directly, with new offset = start + length.
- The stream classes, wrappers, decorators, interfaces and token constants of the repository are not part of this model. They are I/O forwarding, declarations or constants.

## Findings

| source | as written | input that shows it | evidently intended | confidence | as-written member | corrected member |
|---|---|---|---|---|---|---|
| src/Parser.php:149 | `parseIdentifier` calls `parse($operator[1], $input, $offset)`, but `parse` takes only the input. The start rule then runs over the rule's name as text, input and offset are dropped, and a value or null comes back instead of a match result. Every caller then calls `->isMatch()` on that string or null (lines 91, 176, 228, 256, 294, 314), so in PHP the evaluation ends in an Error; the as-written member models the handler's own return and only at the outer call | rules `{A: Any}`, start rule `A`, identifier `A` on the empty input at offset 0: as written the value "A" (`IdentifierCounterexample`), intended NoMatch(0) | evaluate the named rule at the offset, `parseDefinition($operator[1], $input, $offset)` | not executed | ParserFindings.IdentifierAsWritten | ParserFindings.IdentifierIsRule |
