# A model of pgparser's expression machinery

pgparser carries CockroachDB's SQL syntax tree together with the code that works on it. This
project models the parts of it that have to be exactly right, and proves what they promise:

- **The normalizer and the evaluator** (`Expr`, `EvalLaws`, `Normalizer*`, `Rotation`,
  `Arithmetic`, `Comparison`): expressions over NULL, BOOL, INT and rows, three-valued logic,
  64-bit arithmetic with overflow, and the rewriting that is to leave every result unchanged.
- **IN lists and index keys** (`Values`, `Tuples`, `SharedTuples`, `Successors`,
  `SqlNeighbours`): the order of datums, sorting and compacting a tuple whose slots are shared
  with another one, binary search, and the neighbours of a tuple or array.
- **LIKE** (`LikeSpec`, `Escapes`, `LikeRegex`, `LikeFast`, `CustomPattern`, `CustomEscape`,
  `CustomBytes`, `MetaText`, `MetaReading`, `MetaPattern`, `LikeMatch`): section 8.5 of ISO/IEC 9075-2 against the fast path and against
  the regular expression that is written for all other patterns, with the default and with
  custom escape characters.
- **Array and tuple text** (`ArrayText`, `ArrayParser`, `TupleText`): section 8.15.6 of the
  PostgreSQL manual, printer and parser.
- **Overload filtering** (`Overloads`) and **parentheses in pretty-printing** (`Pretty`).

Code that rewrites trees or computes a value is modelled by functions, code that works through
loops, buffers, arrays or fields by methods and classes that are proved against such
functions. `dafny verify dfyconfig.toml` checks everything.

## Where the code departs from its promise

Each of these is stated as a concrete input and as the exact condition for the promise.

- Normalizing `-(a - b)` to `b - a` evaluates `b` even if `a` is NULL, so that a NULL can
  become an error: `NegationCounterexample`, `NegationExact`. It never becomes another
  result: `NormalizeNeverDisagrees`.
- A quantified comparison with NULL on the left becomes NULL even if its list is empty:
  `QuantifierCounterexample`, `QuantifierExact`.
- Normalizing fails with the error of a constant that evaluation never gets to, although the
  comment at ast/normalize.go:724-726 says that errors are not propagated for that very
  reason: `SkippedFailure`, `NormalizeFailsExactly`.
- `DTuple.Next` skips tuples when a NULL stands behind the element it advances
  (`NextCounterexample`, `NextContract`), and `DTuple.Prev` skips some whenever it borrows
  (`PrevCounterexample`, `PrevContract`). The weaker contract that the comments at
  ast/datum.go:105-111 and ast/datum.go:125-131 fall back on holds for `Next` of tuples of BOOL
  and INT (`FlatNextReaches`), but not for tuples in tuples (`NestedNextSkips`,
  `NextReachesExactly`), and for `Prev` not even for the former (`FlatPrevSkips`,
  `PrevReachesExactly`).
- One of the LIKE closures uses up its own pattern: `UsedUp`, `ReusableExactly`. The closures
  also take some strings that begin or end with U+FFFD for invalid ones:
  `ReplacementIsRejected`; `MatchLike` says exactly which.
- With a regular expression metacharacter as custom escape character, an escaped letter is
  taken for a character class (`EscapedLetter`), an escaped backslash can be an error
  (`MetacharacterFails`), and an escape that ends a pattern can go unnoticed
  (`UndetectedEscape`). `MetaIsRightExactly` says which patterns come out right, and
  `RightExactly` for which escape characters all do.
- With U+FFFD as custom escape character, an escaped escape that is read from a byte that is
  not UTF-8 is counted as one byte and written as three, past the end of the buffer if it is
  the last: `RuneErrorOverruns`. `PassesAgree` says for which patterns the passes agree, and
  `PassesAgreeExactly` for which escape characters they always do; on valid UTF-8 they do
  for U+FFFD too (`PreparedOnBytes`).
- An array element is quoted for ASCII space only but trimmed of all Unicode space:
  `SpaceIsLost`, and `RoundTrip` in `ArrayText` says which arrays survive.
- An overload attempt that fails with an error is not undone, although the comment at
  ast/overload.go:789-792 says that failed attempts are: `ErrorLosesCandidate`,
  `AttemptKeeps`.
- `a * (b // c)` and `a * (b % c)` are printed without their parentheses:
  `DivisionIsNotSound`, `SoundIffReassociates`. Sums and products of 64-bit integers that
  lose theirs can overflow when they are read again, or no longer overflow
  (`CheckedIsSoundExactly`), but never get another value: `CheckedKeepsExactly`.

The comment at ast/normalize.go:639 describes BETWEEN SYMMETRIC with an OR where the code
builds an AND; the model follows the code.

## Model

| member | source | states |
|---|---|---|
| Arithmetic.MulChecked | ast/eval.go:1163-1178 | multiplication succeeds exactly when the true product fits in 64 bits, and then returns it; the product wraps and is divided back as the machine does it |
| Arithmetic.AddChecked | utils/arith/arith.go:15-24 | addition succeeds exactly when the true sum fits, and then returns it |
| Arithmetic.SubChecked | utils/arith/arith.go:46-55 | the same for subtraction |
| Arithmetic.NegateChecked | ast/eval.go:112-124 | the same for unary minus |
| Values.CompareTuples | ast/datum.go:3198-3224 | the comparison loop computes the lexicographic order in which a proper prefix sorts first |
| Values.CompareSign | ast/datum.go:94-96 | the order is antisymmetric, and only identical datums are equal in it |
| Values.CompareTrans | ast/datum.go:94-96 | the order is transitive, also through equality |
| Comparison.CompareRows | ast/eval.go:2560-2606 | the one-pass row comparison with its postponed NULL is the three-valued row comparison of the standard, for =, <, <= and IS NOT DISTINCT FROM |
| Comparison.FoldMeansSql | ast/eval.go:4153-4191 | every operator folded to one of five, with operands swapped and result negated as the fold says, means what the standard defines for it element by element, rows and NULLs included |
| Comparison.SqlMirror | ast/normalize.go:793-808 | the inverted operator on swapped operands gives the same truth value |
| Comparison.SqlComplement | ast/eval.go:4153-4191 | the negated operator gives the three-valued negation, for every pair of operands |
| Comparison.EvalQuantified | ast/eval.go:2688-2731 | the loop with its early exit computes the three-valued OR (ANY) or AND (ALL) of the element comparisons |
| Comparison.QuantifierDuality | ast/eval.go:2688-2731 | op ALL is the negation of the negated op ANY, for lists of any length |
| Tuples.SortedUniqueIsCanonical | ast/datum.go:3429-3452 | a normalized list is strictly ascending and has the values of the original |
| Tuples.CanonicalIsUnique | ast/datum.go:3429-3452 | there is only one strictly ascending list of given values |
| Tuples.InNormalizedList | ast/normalize.go:465-493 | sorting and removing duplicates never changes the three-valued answer of IN |
| SharedTuples.Tuple.Normalize | ast/datum.go:3429-3452 | sorting and compacting in place leaves the canonical list in the slice, says what is left behind it in the shared slots, and touches nothing else |
| SharedTuples.Tuple.MakeUnique | ast/datum.go:3443-3452 | the compaction loop keeps one of each run and leaves the rest of the slots as it was |
| SharedTuples.CompactedBoundary | ast/datum.go:3413-3426 | a binary search over a compacted slice that is no longer sorted still finds exactly its values |
| SharedTuples.SearchSorted | ast/datum.go:3413-3426 | halving ends at a boundary, and reports the target exactly if it is an element |
| SharedTuples.EvalTupleIn | ast/eval.go:2608-2672 | binary search or scan, arg IN tuple has the three-valued answer of the element-wise definition, NULLs and rows with NULLs included |
| SharedTuples.NormalizeCopy | ast/normalize.go:468-471 | a normalized shallow copy is canonical, while the original, whose slots were rearranged, keeps its values, its invariant and every answer of IN, and copies normalized before keep their contents |
| Successors.NextTuple | ast/datum.go:3258-3283 | the carry loop advances the last element that is not a maximum and resets the ones behind it |
| Successors.PrevTuple | ast/datum.go:3227-3255 | the borrow loop steps the last element back that is not a minimum and maximizes the ones behind it |
| Successors.NextContract | ast/datum.go:118-121 | for every a that is not a maximum: x > a iff x >= a.Next() for every x of the type, exactly when no NULL is reset; in particular for every a without NULLs |
| Successors.NextCounterexample | ast/datum.go:3258-3283 | (1, 5) lies between (1, NULL) and its Next |
| Successors.PrevContract | ast/datum.go:98-101 | for every b that is not a minimum: x < b iff x <= b.Prev() for every x of the type, exactly when nothing is borrowed; for b without NULLs it always holds for every x without NULLs |
| Successors.PrevCounterexample | ast/datum.go:3227-3255 | (1, NULL) lies between (1, FALSE) and its Prev |
| Successors.NextArrayIsExact | ast/datum.go:3658-3663 | an array with a NULL appended is its exact successor among arrays of every length |
| SqlNeighbours.NextReachesExactly | ast/datum.go:125-132 | what SQL puts above a tuple is not below its Next as a key, exactly if Next skips nothing in the element it advances and resets no nested tuple with a NULL that a comparison can get to |
| SqlNeighbours.FlatNextReaches | ast/datum.go:125-132 | so for tuples of BOOL and INT it never is, NULLs included |
| SqlNeighbours.NestedNextSkips | ast/datum.go:3258-3283 | a nested tuple for which it is |
| SqlNeighbours.PrevReachesExactly | ast/datum.go:105-112 | what SQL puts below a tuple is not above its Prev as a key, exactly if Prev neither borrows in the element that steps back nor resets a NULL or a nested tuple that a comparison can get to |
| SqlNeighbours.FlatPrevReaches | ast/datum.go:105-112 | the same for tuples of BOOL and INT: exactly if it resets no NULL that a comparison can get past |
| SqlNeighbours.FlatPrevSkips | ast/datum.go:3227-3255 | a pair for which it is |
| EvalLaws.TypeSound | ast/eval.go:3293-3849 | a well-typed expression has NULL or a value of its type as result |
| Normalizer.ConstHasNoColumns | ast/normalize.go:886-921 | the test that looks at two levels of a tree only never takes an expression with a column for constant |
| Normalizer.SimplifyCoalesce | ast/normalize.go:28-60 | the loop drops leading NULL constants and stops at a constant that is not NULL |
| NormalizerSound.SimplifyCoalesceSound | ast/normalize.go:28-60 | a rewritten COALESCE has the result of the original wherever that has one |
| NormalizerSound.SimplifyIfSound | ast/normalize.go:62-78 | the same for IF with a constant condition |
| NormalizerSound.SimplifyNegSound | ast/normalize.go:80-114 | the same for -0, -(a - b) and -(-a), unless the swap uncovers a failing operand |
| NormalizerSound.SimplifyArithSound | ast/normalize.go:116-165 | the same for neutral elements of +, -, * and // |
| NormalizerSound.SimplifyAndSound | ast/normalize.go:167-216 | the same for AND with a constant operand, in three-valued logic |
| NormalizerSound.SimplifyOrSound | ast/normalize.go:518-567 | the same for OR |
| NormalizerSound.SimplifyInSound | ast/normalize.go:465-493 | the same for IN and NOT IN over a constant list, with the special cases for no and for only NULL elements |
| NormalizerSound.SimplifyRowSound | ast/normalize.go:646-664 | the same for rows of constants |
| NormalizerSound.FoldConstSound | ast/normalize.go:720-755 | folding a constant node keeps its result and leaves its errors for execution |
| NormalizerSound.RotateSound | ast/normalize.go:239-464 | rotating a comparison through any number of sums and differences keeps its result wherever it has one |
| Normalizer.RotateOnceShrinks | ast/normalize.go:239-464 | every turn of the rotation that continues leaves smaller operands, so the loop ends |
| Rotation.RotateComparison | ast/normalize.go:239-464 | the loop computes the rotation |
| Rotation.ChainIsSolved | ast/normalize.go:239-464 | a column in a chain of + and - with integer constants ends up alone on the left exactly when no moved constant overflows, and is then compared with the solution of the equation |
| Rotation.SolutionSolves | ast/normalize.go:239-464 | that solution, put in for the column, gives the constant |
| Rotation.ChainOnTheRight | ast/normalize.go:239-275 | a constant on the left is handled by mirroring the comparison |
| NormalizerTheorems.SimplifyBetweenSound | ast/normalize.go:588-644 | BETWEEN in all four forms is expanded to its meaning in section 8.3 of ISO/IEC 9075-2, NULL operands included |
| NormalizerTheorems.BetweenByBounds | ast/normalize.go:603-643 | the standard's negated and symmetric forms are the disjunctions and conjunctions of bounds that the code builds, errors included |
| NormalizerTheorems.SymmetricBounds | ast/normalize.go:632-641 | SYMMETRIC is not affected by swapping the bounds: the same answer, or an error both times |
| NormalizerTypes.NormalizeKeepsTypes | ast/normalize.go:666-685 | the normal form is well typed and has the type of the original, or is an untyped NULL |
| NormalizerTheorems.NormalizeSound | ast/normalize.go:666-685 | wherever an expression has a result on a row its normal form has the same, unless a swapped subtraction or an empty quantified list interferes there |
| NormalizerTheorems.NormalizePreservesOrdinary | ast/normalize.go:666-685 | without that exception on every row, for expressions without unary minus and without ANY and ALL |
| NormalizerTheorems.NormalizeNeverDisagrees | ast/normalize.go:666-685 | where both have a result it is the same, whatever was swapped |
| NormalizerTheorems.NegationExact | ast/normalize.go:94-104 | a negation keeps its result on a row exactly when it is not a swap that uncovers a failing operand behind a NULL |
| NormalizerTheorems.NegationCounterexample | ast/normalize.go:94-104 | -(a - 1 // b) on a row with NULL and 0 |
| NormalizerTheorems.QuantifierExact | ast/normalize.go:503-512 | a quantified comparison keeps its result on a row exactly when it does not compare NULL with an empty list |
| NormalizerTheorems.QuantifierCounterexample | ast/normalize.go:503-512 | (a IN (NULL)) = ANY () |
| NormalizerFailures.ConstSucceeds | ast/normalize.go:720-755 | of constants only arithmetic fails to evaluate |
| NormalizerFailures.NormalizeFailsExactly | ast/normalize.go:676-685 | a well-typed expression has no normal form exactly if a COALESCE in it gets to a constant that fails, or a row of constants holds one |
| NormalizerFailures.SkippedFailure | ast/normalize.go:720-735 | IF(a, COALESCE(1 // 0, 2), 3) with a FALSE is 3 and has no normal form |
| NormalizerFailures.NormalizeSucceeds | ast/normalize.go:676-685 | in particular it has one if its lists hold columns, literals and casts of literals |
| LikeSpec.MatchesIsPartition | ast/eval.go:2793-2827 | the recursive matcher decides the definition of section 8.5 of ISO/IEC 9075-2: some partition of the string fits the pattern |
| Escapes.UnescapePattern | ast/eval.go:4386-4424 | with the buffer it allocates, unescaping gives the left-to-right unescaped text and fails exactly for a token that escapes nothing, for a one-character token and for the doubled backslash |
| Escapes.UnescapeLength | ast/eval.go:4391-4400 | the counted buffer size is exactly the size of the result |
| Escapes.ReplaceUnescaped | ast/eval.go:4434-4503 | for any target, replacement and token, exactly the occurrences after an even run of tokens are replaced, and nothing is cut off by the buffer |
| Escapes.HasUnescapedSuffix | ast/eval.go:4196-4208 | the suffix is there and an even run of tokens is before it |
| LikeRegex.ReplaceWildcards | ast/eval.go:4744-4776 | in the quoted pattern exactly the % and _ that are wildcards are replaced by their meaning, for every escape character, metacharacters included |
| LikeRegex.UnescapeImage | ast/eval.go:4796-4809 | removing the doubled backslashes leaves the regular expression of the pattern's units, and fails exactly for a dangling escape |
| LikeRegex.RegexReads | ast/eval.go:4734-4812 | that regular expression reads as the tokens of the LIKE pattern |
| LikeRegex.LikePattern | ast/eval.go:4734-4812 | for the default escape character, quoting, replacing and unescaping give an expression for exactly the LIKE pattern, or the error exactly when the pattern ends in an escape |
| LikeFast.LikeFunc.Call | ast/eval.go:4216-4358 | one call of a closure answers whether the tokens of its pattern match, or reports U+FFFD at an end it decodes, and says what is left of its pattern |
| LikeFast.TestIsMatch | ast/eval.go:4262-4358 | the substring, prefix, suffix and equality tests decide the patterns they stand for |
| LikeFast.FastIsShape | ast/eval.go:4212-4364 | for any escape character, the closure chosen for a pattern stands for exactly its tokens |
| LikeFast.OptimizedLikeFunc | ast/eval.go:4212-4364 | which patterns get which closure with which text, which get an error and which get neither |
| LikeFast.ConsumedDenies | ast/eval.go:4336-4344 | an equality closure that has been used denies everything it accepted before |
| LikeFast.ReusableExactly | ast/eval.go:4319-4358 | a closure can be called again, without slicing out of range and with the same answers, exactly if the call before did not get to an equality test |
| LikeFast.UsedUp | ast/eval.go:4336-4344 | a_ answers wrongly on the second call and cannot be called a third time |
| LikeMatch.LikeEmpty | ast/eval.go:2798-2808 | the empty string matches exactly the patterns of nothing but the wildcard % |
| LikeMatch.MatchLike | ast/eval.go:2793-2827 | for a non-empty string an error exactly if the pattern ends in an escape or its closure decodes U+FFFD at an end, and otherwise the answer of the standard, by whichever path; the empty string is answered by itself |
| LikeMatch.ReplacementIsRejected | ast/eval.go:4229-4242 | U+FFFD matches _ but is an error |
| LikeMatch.MatchLikeEscape | ast/eval.go:2735-2777 | the same for the backslash, for every custom escape character that is no metacharacter, and for a metacharacter wherever the fast path answers or the conversion is right |
| CustomPattern.FreeBackslashes | ast/eval.go:4778-4781 | the escape is taken off exactly the escaped backslashes, also next to escaped escape characters |
| CustomPattern.CustomImage | ast/eval.go:4505-4645 | the other escapes become doubled backslashes, and the conversion fails exactly for a dangling escape |
| CustomPattern.OrdinaryIsRight | ast/eval.go:4749-4809 | the whole conversion for a custom escape character gives an expression for exactly the LIKE pattern, or the error exactly when the pattern ends in an escape |
| MetaText.FreedText | ast/eval.go:4778-4781 | with a metacharacter as escape character, which backslashes lose the escape character before them, escaped or not |
| MetaReading.SoundExactly | ast/eval.go:4505-4645 | of the patterns that do not end in an escape, exactly the sound ones read as their tokens; the others fail or read as something else |
| MetaPattern.AlignedDetected | ast/eval.go:4505-4645 | of the patterns that end in an escape, exactly those are an error in which the rewriting is not off by one quoted escape character there |
| MetaPattern.MetaIsRightExactly | ast/eval.go:4749-4809 | so for every metacharacter and every pattern, exactly when the whole conversion is right |
| MetaPattern.RightExactly | ast/eval.go:4749-4809 | it is right about every pattern exactly if the escape character is no metacharacter |
| MetaPattern.EscapedLetter | ast/eval.go:4505-4645 | an escaped w becomes a character class, for any metacharacter |
| MetaPattern.MetacharacterFails | ast/eval.go:4778-4788 | an escaped backslash at the end is an error, for any metacharacter |
| MetaPattern.UndetectedEscape | ast/eval.go:4778-4788 | a pattern that ends in an escape and is no error, for any metacharacter |
| CustomBytes.PreparedOnBytes | ast/eval.go:4535-4645 | on the UTF-8 encoding of such a pattern the passes over bytes write the encoding of that conversion, for U+FFFD too |
| CustomEscape.LengthPass | ast/eval.go:4649-4728 | for all bytes and every escape character, what the length pass counts, whether anything changes, and where it fails |
| CustomEscape.ReplaceCustomEscape | ast/eval.go:4535-4645 | for all bytes and every escape character, what the writing pass leaves in a buffer of that size, or that it writes outside of it; no assertion is reached |
| CustomEscape.PassesAgree | ast/eval.go:4535-4728 | the buffer is filled with the rewriting and nothing is written outside of it, exactly if no escaped escape is read from fewer bytes than it is written in |
| CustomEscape.PassesAgreeExactly | ast/eval.go:4535-4728 | that is so for every pattern exactly if the escape character is not U+FFFD |
| CustomEscape.DecodeEncoded | ast/eval.go:4535-4645 | a rune that decodes without error was read from its own encoding, so both passes advance alike |
| CustomEscape.RuneErrorOverruns | ast/eval.go:4546-4563 | for two invalid bytes with U+FFFD as escape character one byte is counted, and writing it leaves the buffer |
| ArrayText.ParsePrinted | ast/parse_array.go:170-214 | what parsing makes of the printed text of any array of strings and NULLs |
| ArrayText.RoundTrip | ast/pgwire_encode.go:79-179 | an array comes back from its text exactly if every unquoted element is free of Unicode space at its ends and the array is not too long |
| ArrayText.SpaceIsLost | ast/parse_array.go:105-111 | an element with a no-break space loses it |
| ArrayParser.FormatArray | ast/pgwire_encode.go:79-179 | the printing loops write the text |
| ArrayParser.ParseState.GobbleString | ast/parse_array.go:46-70 | the scanning loop returns the text up to the terminator without its backslashes, and consumes exactly that |
| ArrayParser.ParseState.ParseElement | ast/parse_array.go:113-145 | one element is read and appended, or the right error reported and nothing appended |
| ArrayParser.ParseArray | ast/parse_array.go:170-214 | the parser with its moving input computes the parse, errors included |
| TupleText.FormatTuple | ast/pgwire_encode.go:20-77 | the printing loops write the text |
| TupleText.RoundTrip | ast/pgwire_encode.go:20-77 | a reader that knows the number of fields gets every tuple of strings and NULLs back |
| TupleText.PrintIsInjective | ast/pgwire_encode.go:20-77 | tuples of one length with the same text are the same |
| TupleText.ArityIsNotPrinted | ast/pgwire_encode.go:20-57 | no field and one NULL have the same text |
| Overloads.Candidates.Filter | ast/overload.go:811-824 | the swapping loop permutes the slice, touches nothing behind it and keeps exactly what passes |
| Overloads.Candidates.TryFilters | ast/overload.go:789-810 | an attempt that does not narrow to one candidate is undone; one that does is kept, also when it fails |
| Overloads.Candidates.Resolve | ast/overload.go:497-776 | after any sequence of filters, checks and attempts the slice holds the overloads that pass the applied tests; without a failed attempt these are the committed ones |
| Overloads.OnlyCommittedStay | ast/overload.go:497-776 | attempts that neither settle nor fail leave no trace |
| Overloads.AttemptKeeps | ast/overload.go:789-810 | an attempt keeps the candidates exactly if it is undone or there was only one |
| Overloads.ErrorLosesCandidate | ast/overload.go:796-804 | two candidates, one of which is lost to an error |
| Pretty.ReadText | ast/expr.go:1151-1161 | the reader that climbs the precedence table gives every tree of the grammar back from its tokens |
| Pretty.FlattenIsNested | ast/pretty.go:309-323 | a flattened chain of one operator prints the tokens of the nested expression |
| Pretty.ReadDoc | ast/pretty.go:412-467 | reading what is printed gives the tree in which right-hand chains are regrouped to the left |
| Pretty.UnsimplifiedIsExact | ast/pretty.go:412-415 | without simplification that is the tree itself |
| Pretty.SoundIffReassociates | ast/expr.go:1163-1174 | for any meaning of the operators, every expression keeps its value exactly if each operator called fully associative regroups with every operator of its priority |
| Pretty.RingIsSound | ast/expr.go:1163-1174 | unbounded integers with +, - and * do |
| Pretty.CheckedIsSoundExactly | ast/expr.go:1163-1174 | 64-bit integers with overflow errors do exactly for operators without + and * |
| Pretty.CheckedKeepsExactly | ast/expr.go:1163-1174 | a 64-bit expression over +, - and * keeps its value or error exactly if regrouping neither causes nor avoids an overflow, and never gets another value |
| Pretty.DivisionIsNotSound | ast/expr.go:1163-1174 | with // or % beside * they do not |

## Left out

- Floats, decimals, strings as values of the evaluator, dates, JSON, collations and the rest of the datums: they rest on library code or floating point.
- Rotating `/` and rewriting JSON `->` in comparisons: neither keeps results, and the first rounds.
- Placeholders, subqueries, function calls, CASE, arrays as expressions and columns that are absent from a row.
- The types of a tuple's elements: a row has one type here, so that an IN list that loses duplicates keeps its type.
- Comparing datums of different types: the original panics, and here an arbitrary order stands in for what type checking excludes.
- RangeCond: evaluating it is an assertion error in the original, so its meaning is taken from section 8.3 of ISO/IEC 9075-2; the two copies of the tested operand are the same expression.
- The walk over a tree is a recursion over the children; visitors with their fields are not modelled, nor is the sharing of subtrees in the pure rewritings.
- SharedTuples.SortPrefix: sorts by insertion where the original calls a library sort; the order leaves no choice of result.
- LIKE works on strings of characters: invalid UTF-8 is represented only in CustomEscape, which works on bytes.
- Case-insensitive LIKE, SIMILAR TO, `ESCAPE ''`, the regular expression cache and Go's regular expression engine, which is represented by the meaning of the part of its syntax that the conversion uses on purpose.
- LikeMatch.MatchLikeEscape: takes a metacharacter as escape character only where MetaPattern.MetaIsRightExactly says that the conversion is right or the fast path answers; what Go matches with the other regular expressions is not modelled.
- Escapes.UnescapePattern: takes tokens of one repeated character, the only ones passed to it.
- Array text: int2vector and oidvector, elements other than strings, and the bit packing of the quoting sets.
- Overloads.Candidates.Resolve: takes the tests and the verdicts of checkReturn as given; type checking of arguments, and the limit of 255 overloads, are not modelled.
- Pretty-printing: line breaking and alignment, unary operators, casts, AND, OR and comparisons; // and % appear only where an example needs them, on non-negative integers.
