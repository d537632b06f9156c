# Verified core of sandals

A Dafny model of the parts of sandals that compute rather than call the system, with proofs of
what they promise: the Kafel policy compiler, the jstr JSON parser and the response escaper that
pairs with it, the syscall database packer and unpacker, and the supervisor's output accounting.
`dafny verify dfyconfig.toml` checks all of it.

## What is proved

**The policy compiler** (`kafel/src`). A policy is a list of filters with used policies in place;
`Policy.Decision` is the action of the first filter that matches, or the default. The compiler
simplifies conditions, flattens and sorts the rules, normalises them into ranges and emits classic
BPF backwards. `CompilePolicy` is the whole of it, on arrays that are updated in place, and its
contract is the end-to-end statement: every program halts at a return on every input, and it
returns the policy's decision, or KILL on a foreign architecture, wherever `IsCovered` holds. Both
are about policies that compile at all (`IsCompilable`): no list of conditions on any number is
closed twice, or the generator stops on an entry without a condition. That is exact, by
`Closing.NormalizeMakesRulesIff`, and `Limits.ListIsClosedTwice` has a policy that does not.
`IsCovered` names what else the code as written depends on. What it asks of rules, conditions and
arguments, it asks of the number at hand only:

- every rule on the number is taken in: a list is closed when it is placed, so on any number but
  the lowest a rule after a conditional first one is lost (`IsTakenWhole`; exact for the lists of
  a number, by `Exactness.NormalizeIsExactIff`; `Limits.SecondConditionIsLost` has a policy that
  is decided wrongly). The project's manual promises that the first matching rule counts; the
  model follows the code;
- the filters on the number are compiled faithfully (`PolicyIsFaithful`). Two constants are
  compared soundly on their low 32 bits (exact for a comparison, by
  `Expression.SimplifyComparisonExactly`). In a 64-bit comparison the high words of 4-byte
  arguments do not turn the verdict (exact for a comparison and its arguments, by
  `Wide.ComparedRightIff`; zero high words suffice, by `Wide.FittingArgsTell`). And a right operand
  that loading a mask of two variables overwrites in X is not missed (exact for a comparison, by
  `Overwriting.ReadsRightIff`; `Limits.MaskedEqualityGoesWrong` has one that is);
- the search is entered (`IsEnteredProperly`). It is if the policy decides anything but KILL by
  default or on some input, or has no condition left (`Entering.PoliciesAreEntered`);
  `Limits.UnusedCodeIsEntered` has a policy that is not;
- no jump loses its false target while its true target is resolved again. When a jump does is
  exact, by `Resolving.JumpForksIff`; none does in a program of at most 256 instructions, and
  `Sizes.SmallPoliciesAreShort` tells such policies from their rules. `FarTargets.FarTargetIsLost`
  has a policy that is decided wrongly.

Each compiler step is a function with lemmas about it and a method that does it in place and is
proved to compute that function.

**The JSON parser** (`jstr`). `Jstr` is the goto machine as functions, one for each label;
`JsonParser.Parser` walks buffer and token array in place and computes the same. The grammar is
given separately, as syntax trees with their exact text (`JsonTree`) and as a decoder of string
bodies (`JsonText.Decode`), after sections 2, 6 and 7 of RFC 8259 and section 4 of RFC 3629. One
rule is relaxed, as in the code: after a minus sign the integer part of a number may be missing. A
text is accepted exactly when it is of the grammar and there is one token more than it has values;
the tokens then encode its value. Suspending and resuming changes nothing. Walking over the tokens
(`src/jshelper.c`) visits exactly the items and members, and the path shown with an error leads to
the value it is about.

**The response** (`src/response.c`, `src/fail.c`). What is escaped decodes to itself exactly when
it is NUL-free, well-formed UTF-8, and a failure report is read back by the parser. A report is
sent whole or not at all; when an append that ends in an escape can be cut silently is stated
exactly.

**The syscall database** (`kafel/src/syscalls/syscalldb_generator.c`, `kafel/src/syscalldb.inl`).
For every family of lists, looking a name up for an architecture finds it exactly when it is in
that architecture's list, and gives back its number, argument names and sizes, through the merge,
the compressed and the extended form, the shared name pool and the rank by bit count. An entry has
16 bits for the offset of its definition, and the table has empty slots with all of them set.
Looking a name up depends on 16 bits being enough for its own definition; looking a number up, on
its definition being told from empty slots and all others. `SyscallTable.OffsetIsFoundIff` and
`SyscallTable.TableIsRightIff` say exactly when that is so, and `SyscallTable.NamesTell` tells it
from the number of names. Pointer sizes are written from the lists as declared, so they are right
exactly if declared in the order of the flags, as in the source (`SyscallTable.SizesAreRightIff`).

**The supervisor** (`src/supervisor.c`). Over whole runs, each sink has the prefix of its source
that its limit allows, the response reports the output limit exactly when some source gave more,
and files are not copied before the end. A message of the spawner goes out whole if the response
buffer has room for it, and is reported as too big otherwise. The cgroup counter matcher finds the
first entry of its key. What it answers on any file in any split into chunks is stated exactly; a
file with one entry is read right if and only if no chunk ends between the key and its number or
the counter is zero, and `Counters.BoundaryMisses` shows a counter that is missed.

## Modelling choices

Words are naturals with explicit bounds, and bitwise operations are defined bit by bit. Pointers
into a buffer or an array are indices. Lists that the source links are sequences. Masks inside the
database generator are sets of architectures and are written out as words. A token's value is an
offset where the source keeps an address. Results of `read`, `splice`, `recvfrom`, `recvmsg`,
`write` and `poll` are parameters, and contracts hold for all of them. Sorting promises order and
the same rules, which `Sorting.SortIsUnique` shows to have one outcome. `stale` in the generator's
state is a history flag that the code does not have.

## Model

| member | source | states |
|---|---|---|
| `Policy.ActionToBpfInjective` | kafel/src/codegen.c:73-113 | different actions have different return values, so a return identifies its action |
| `Expression.EliminateNegationHolds` | kafel/src/expression.c:72-99 | pushing negations inwards keeps the truth value on all arguments, flipped if asked for |
| `Expression.EliminateNegationRemoves` | kafel/src/expression.c:72-99 | no negation is left and the typing stays |
| `Expression.SortOperandsHolds` | kafel/src/expression.c:101-121 | putting operands in order, and turning the comparison with them, keeps the truth value |
| `Expression.SortOperandsSorts` | kafel/src/expression.c:101-121 | afterwards constants stand on the right of every mask |
| `Expression.FoldIsExact` | kafel/src/expression.c:131-142 | folding on low words is right if and only if the low words decide |
| `Expression.PrecomputeHolds` | kafel/src/expression.c:144-231 | folding ends in a constant or the normal form and keeps the truth value if all folds are sound |
| `Expression.SimplifyReachesNormalForm` | kafel/src/expression.c:233-237 | no negation, no truth constant below the root, no comparison of constants is left, so the cases the generator takes to be impossible are |
| `Expression.SimplifyKeepsMeaning` | kafel/src/expression.c:233-237 | simplification keeps the truth value on all arguments if all folds are sound |
| `Expression.SimplifyComparisonExactly` | kafel/src/expression.c:131-142 | for a comparison it does so if and only if its fold is sound |
| `Expression.FoldingOn32BitsCanBeWrong` | kafel/src/expression.c:172-172 | 2^32 == 0 is folded to true |
| `Wide.CompiledMeaning` | kafel/src/codegen.c:361-380 | comparing word by word means the same wherever the high words of every 64-bit comparison tell |
| `Wide.ComparedRightIff` | kafel/src/codegen.c:361-374 | on given arguments a comparison is decided as meant if and only if it is 32 bits wide or its high words lead to the same verdict with and without what 4-byte variables carry there |
| `Wide.NarrowAgainstConstant` | kafel/src/codegen.c:361-374 | exactly which arguments of a 4-byte variable are compared right with a 64-bit constant, for each operator |
| `Wide.DirtyNarrowArgumentMisleads` | kafel/src/codegen.c:361-374 | a 4-byte argument with a high word compares wrongly with a 64-bit constant |
| `Wide.CompareByWords` | kafel/src/codegen.c:457-477 | 64-bit order and equality by high words, then low words |
| `Wide.FittingArgsTell` | kafel/src/expression.c:233-237 | if 4-byte arguments that meet 64-bit operands fit, the high words tell in whatever the condition is simplified to |
| `Flattening.FilterKeepsMatch` | kafel/src/range_rules.c:121-157 | on any number one filter becomes the rules that match when it does, if it is faithful or on another number |
| `Flattening.AddPolicyRulesKeepsMatch` | kafel/src/range_rules.c:121-157 | the first matching rule carries the action of the first matching filter, with used policies in place, if the filters on the number are faithful |
| `Flattening.PrescribedDecides` | kafel/src/range_rules.c:121-157 | what the rules say on a number is the first matching one, else the default |
| `Sorting.SortIsUnique` | kafel/src/range_rules.c:159-173 | rules of distinct priorities have one sorted order, whatever the algorithm |
| `Sorting.OrderIsSorted` | kafel/src/range_rules.c:159-173 | whatever puts numbered rules in order and keeps them arrives at that order |
| `Sorting.SortedKeepsSequence` | kafel/src/range_rules.c:159-173 | sorting leaves the rules on each number in the order they were added |
| `Coverage.CountIsExact` | kafel/src/range_rules.c:186-266 | the first pass leaves ordered disjoint ranges with closed lists and counts exactly the head, interior and tail gaps |
| `Coverage.CountKeepsMeaning` | kafel/src/range_rules.c:248-263 | stretching the outer ranges changes no number's decision |
| `Coverage.StepsAreExact` | kafel/src/range_rules.c:186-266 | after each rule a number has exactly its conditions of the source so far, if those are taken in, whatever becomes of others |
| `Coverage.AddMissingShape` | kafel/src/range_rules.c:268-317 | the second pass adds exactly the counted gaps; first numbers start at 0 and increase |
| `Coverage.AddMissingLookup` | kafel/src/range_rules.c:268-317 | for every number, the rule with the greatest first number not above it says what the ranges said |
| `Coverage.NormalizeKeepsLists` | kafel/src/range_rules.c:319-333 | a number keeps exactly its source rules, in order, closed by the default, if all of them are taken in |
| `Coverage.UnnamedTakesDefault` | kafel/src/range_rules.c:319-333 | a number that no rule names takes the default |
| `Exactness.NormalizeIsExactIff` | kafel/src/range_rules.c:200-213 | normalisation is exact on a number if and only if every rule on it is taken in |
| `Closing.NormalizeMakesRules` | kafel/src/range_rules.c:319-333 | the final rules start at 0, increase, and have lists closed once, if no list is closed twice |
| `Closing.NormalizeMakesRulesIff` | kafel/src/range_rules.c:200-213 | the generator accepts the final rules if and only if no list is closed twice |
| `RangeRules.FindRuleSplits` | kafel/src/codegen.c:535-548 | linear search splits at any rule, as the jump tree does |
| `Bpf.ExecExtends` | kafel/src/codegen.c:134-152 | appended code changes nothing about older locations |
| `Bpf.RunReversed` | kafel/src/codegen.c:550-557 | the reversed buffer runs on the machine as the buffer does backwards |
| `Bpf.ClosedCodeReturns` | kafel/src/codegen.c:550-595 | code whose jumps stay inside and go forward ends at a return from every location, with any A and X |
| `Resolving.PurgeMakesRoom` | kafel/src/codegen.c:154-203 | after a purge fewer than 255 entries remain, so the cache never overflows |
| `Resolving.ResolveLocationReaches` | kafel/src/codegen.c:205-223 | the offset is in range and leads to the location or to a return of the action; the cache stays distinct and truthful |
| `Resolving.AddJumpForks` | kafel/src/codegen.c:225-238 | a jump leads to its two targets unless its false offset went stale |
| `Resolving.ResolveAgainNear` | kafel/src/codegen.c:233-237 | within 256 instructions the second resolution of the true target adds nothing |
| `Resolving.JumpForksIff` | kafel/src/codegen.c:225-238 | a jump leads to its two targets if and only if its true target is not a location more than 255 back, and not at 255 with a false target that needs an instruction |
| `Comparing.GenerateLoadOutcome` | kafel/src/codegen.c:333-359 | the load leaves the operand's word in A, and in X what a two-variable mask leaves there |
| `Comparing.PlanCompareGoal` | kafel/src/codegen.c:397-439 | operand swap, constant folding and the bit test go where the comparison with the operand seen goes |
| `Comparing.Cmp32Decides` | kafel/src/codegen.c:397-455 | from any A and X, for any operands, the code takes the true target exactly when the left word compares so with the word that X then holds |
| `Comparing.HighWordsDecide` | kafel/src/codegen.c:457-467 | with a load shared between two jumps, the high words decide or leave it to the low words |
| `Generating.InequalityDecides` | kafel/src/codegen.c:457-467 | an inequality of both words is decided |
| `Generating.EqualityDecides` | kafel/src/codegen.c:469-477 | an equality of both words is decided |
| `Generating.ExprRests` | kafel/src/codegen.c:479-509 | generating any expression keeps the generator's invariant and ends at a target or a new location |
| `Generating.ExprDecides` | kafel/src/codegen.c:479-509 | from the location returned, with any A and X, the run continues at the true target exactly when the expression holds as the code sees its operands |
| `Overwriting.ReadsRightIff` | kafel/src/codegen.c:333-359 | a comparison is decided as meant on all arguments if and only if its right operand survives in X or the verdict does not depend on it, which is told from the operator and the operands |
| `Overwriting.CodeMeaning` | kafel/src/codegen.c:333-359 | so are expressions of such comparisons |
| `Compiling.MappingsDecide` | kafel/src/codegen.c:511-533 | the code of a list returns the action of its first condition that holds |
| `Compiling.RulesDecide` | kafel/src/codegen.c:535-548 | the jump tree reaches the rule that linear search finds, with equal branches collapsed |
| `Compiling.ProgramIsClosed` | kafel/src/codegen.c:559-595 | every jump of a finished program stays inside and the oldest instruction is a return |
| `Compiling.ProgramHalts` | kafel/src/codegen.c:559-595 | every finished program reaches a return on every input |
| `Compiling.CheckArchDecides` | kafel/src/codegen.c:582-588 | the check in front returns KILL on a foreign architecture |
| `Compiling.ProgramDecides` | kafel/src/codegen.c:559-595 | the finished program returns the decision of the rule in whose range the number lies |
| `Compiling.DecisionKeepsSearch` | kafel/src/codegen.c:574-588 | rules that decide anything but KILL on some input are not collapsed into it |
| `EndToEnd.FinalRulesDecide` | kafel/src/codegen.c:571-573 | searching the final rules gives the policy's decision |
| `EndToEnd.SomeNumberIsUnnamed` | kafel/src/codegen.c:579-581 | fewer than 2^32 rules leave some number unnamed |
| `EndToEnd.CompiledPolicyHalts` | kafel/src/codegen.c:559-595 | a compiled policy is never empty and halts on every input |
| `EndToEnd.ShortProgramsAreNotStale` | kafel/src/codegen.c:225-238 | no offset is stale in a program of at most 256 instructions |
| `EndToEnd.CompiledPolicyDecides` | kafel/src/codegen.c:559-595 | for every policy and input: KILL on a foreign architecture, else the first matching filter's action, else the default; provisos on rules and conditions concern the number of the input only |
| `EndToEnd.DecisionGivesEntry` | kafel/src/codegen.c:574-588 | a policy that decides anything but KILL on some input is entered properly |
| `Entering.PoliciesAreEntered` | kafel/src/codegen.c:574-588 | so is one with another default and one without conditions |
| `Sizes.ProgramIsShort` | kafel/src/codegen.c:559-595 | a bound on the length of a program from the comparisons in its rules and their number |
| `Sizes.SmallPoliciesAreShort` | kafel/src/codegen.c:559-595 | the same bound for a policy, before it is sorted and normalised; within 256 nothing goes stale |
| `PolicyCompiler.CompilePolicy` | kafel/src/codegen.c:559-595 | the compiler in place: always a halting program, and the policy's answer wherever it is covered |
| `PolicyCompiler.SmallPoliciesAnswer` | kafel/src/codegen.c:559-595 | a small policy that decides anything but KILL somewhere, or has no condition, is answered right with provisos on the rules, conditions and arguments of the number only |
| `PolicyCompiler.GenerateIgnoresLast` | kafel/src/codegen.c:535-548 | the generator never reads the last number of a range |
| `Limits.MaskedEqualityGoesWrong` | kafel/src/codegen.c:352-355 | the code generated for a two-variable mask compared with a variable decides wrongly on concrete arguments |
| `Limits.SecondConditionIsLost` | kafel/src/range_rules.c:200-213 | a policy whose program kills what its second condition on a number allows, with everything else in order |
| `Limits.ListIsClosedTwice` | kafel/src/range_rules.c:200-213 | a policy for which the generator is handed a list with an entry without a condition before the last |
| `Limits.UnusedCodeIsEntered` | kafel/src/codegen.c:586-588 | a policy whose search collapses to the default KILL compiles to a program that does not decide by it |
| `FarTargets.FarTargetIsLost` | kafel/src/codegen.c:225-238 | a policy with one condition of 130 comparisons whose program kills what it allows, because a jump lost its false target; everything else is in order |
| `CodeGenerator.Generator.AddInstruction` | kafel/src/codegen.c:134-152 | appends and returns the new location |
| `CodeGenerator.Generator.PurgeLocationCache` | kafel/src/codegen.c:154-167 | compacts the cache in place to the entries in reach, in order |
| `CodeGenerator.Generator.ResolveAction` | kafel/src/codegen.c:169-203 | basic table, cache and purge in place compute `Codegen.ResolveAction`; writes stay inside the arrays |
| `CodeGenerator.Generator.ResolveLocation` | kafel/src/codegen.c:205-223 | in place, computes `Codegen.ResolveLocation` |
| `CodeGenerator.Generator.AddJump` | kafel/src/codegen.c:225-238 | in place, computes `Codegen.AddJump` |
| `CodeGenerator.Generator.AddJumpK` | kafel/src/codegen.c:240-271 | in place, computes `Codegen.AddJumpK`, with its shortcuts for jumps that cannot fail or succeed |
| `CodeGenerator.Generator.GenerateLoad` | kafel/src/codegen.c:333-359 | in place, computes `Codegen.GenerateLoad` |
| `CodeGenerator.Generator.GenerateCmp32` | kafel/src/codegen.c:397-455 | in place, computes `Codegen.GenerateCmp32` |
| `CodeGenerator.Generator.GenerateInequality` | kafel/src/codegen.c:457-467 | in place, computes `Codegen.GenerateInequality` |
| `CodeGenerator.Generator.GenerateEquality` | kafel/src/codegen.c:469-477 | in place, computes `Codegen.GenerateEquality` |
| `CodeGenerator.Generator.GenerateExpr` | kafel/src/codegen.c:479-509 | in place, computes `Codegen.GenerateExpr` |
| `CodeGenerator.Generator.GenerateAction` | kafel/src/codegen.c:511-533 | the backward loop over a list computes `Codegen.GenerateAction` |
| `CodeGenerator.Generator.GenerateRules` | kafel/src/codegen.c:535-548 | in place, computes `Codegen.GenerateRules` |
| `CodeGenerator.Generator.ReverseInstructionBuffer` | kafel/src/codegen.c:550-557 | swapping from both ends reverses the buffer |
| `CodeGenerator.GenerateProgram` | kafel/src/codegen.c:574-592 | from rules to the finished program, in place |
| `RangeRuleTable.Table.AddPolicyRules` | kafel/src/range_rules.c:121-157 | the growing table holds the flattened policy |
| `RangeRuleTable.Table.SortRangeRules` | kafel/src/range_rules.c:170-173 | in place, no two rules are left out of order by number and priority, and the rules are the same |
| `RangeRuleTable.Table.NormalizeRulesCountMissing` | kafel/src/range_rules.c:186-266 | two indices moving over the table compute `Normalizing.CountMissing` |
| `RangeRuleTable.Table.AddMissingRules` | kafel/src/range_rules.c:268-317 | filling from the back uses up the count, stays inside the table and gives exactly the completed ranges, but for one last number: if nothing is missing below the first range, the lowest gap is written over the range it is measured against and ends before it begins |
| `RangeRuleTable.Table.NormalizeRules` | kafel/src/range_rules.c:319-333 | in place, computes `Normalizing.Normalize` but for that last number |
| `Utf8.ScanAcceptsWellFormed` | jstr/jstr.c:92-107 | the marker-bit test accepts exactly the multi-byte characters of section 4 of RFC 3629 |
| `Utf8.EncodeIsWellFormed` | jstr/jstr.c:153-162 | every scalar value is written as one well-formed character |
| `JsonText.DecodedIsCText` | jstr/jstr.c:81-166 | what a string decodes to is NUL-free, well-formed UTF-8 |
| `InPlace.DecodeInPlaceLands` | jstr/jstr.c:81-166 | decoding in place fails on the same bodies as decoding, else leaves the decoded bytes and a NUL where the body began and touches nothing behind the closing quote, also through runs of unpaired surrogates and the junk fourth byte |
| `Recognizing.NumberIsScanned` | jstr/jstr.c:50-67 | every number followed by a delimiter is scanned to its end |
| `Recognizing.NumberIsFound` | jstr/jstr.c:50-67 | whatever is scanned as a number is one |
| `Recognizing.HashTells` | jstr/jstr.c:168-182 | the 5-bit hash in 32 bits tells a word of up to five letters from every word of any length |
| `Recognizing.KeywordIsFound` | jstr/jstr.c:168-182 | the hash of a run of letters is a keyword's if and only if it is that keyword |
| `Recognizing.DecodeIsLocal` | jstr/jstr.c:81-166 | decoding a body does not depend on what follows its closing quote |
| `Jstr.Open` | jstr/jstr.c:38-49 | pushing a container keeps the chain of open containers inside the token array |
| `Jstr.Closed` | jstr/jstr.c:212-220 | popping a container gives back the context it was opened in |
| `Accepting.ValueRuns` | jstr/jstr.c:27-79 | a value of the grammar is read to its end, the context is the same again, and what was written encodes it |
| `Accepting.TextIsAccepted` | jstr/jstr.c:12-221 | every JSON text is accepted with one token more than it has values; the length is returned and the tokens encode the value in preorder with subtree sizes |
| `Refusing.TokenIsRead` | jstr/jstr.c:27-79 | a parse that succeeds has read a value of the grammar |
| `Refusing.AcceptedIsText` | jstr/jstr.c:12-221 | whatever is accepted is a JSON text with fewer values than tokens |
| `Refusing.TextIsDecided` | jstr/jstr.c:12-221 | a JSON text is accepted if and only if there is one token more than values, and otherwise waits |
| `Refusing.OthersAreRefused` | jstr/jstr.c:12-221 | any other text is never accepted, and is refused once there are more tokens than characters |
| `Refusing.ReadingIsUnique` | jstr/jstr.c:12-221 | two readings of a text end at the same place and have as many values |
| `Resuming.ValueContinues` | jstr/jstr.c:20-33 | a parse that waits has touched nothing from its position on; going on with more tokens gives the outcome of having had them |
| `Resuming.Calls` | jstr/jstr.c:20-33 | any number of calls with growing arrays ends as one call with the last array |
| `TextScanner.NumberEnd` | jstr/jstr.c:50-67 | the loops compute `Scanning.ScanNumber` |
| `TextScanner.WordEnd` | jstr/jstr.c:168-179 | the loop finds the end of the word and its 32-bit hash |
| `TextScanner.CopyChar` | jstr/jstr.c:92-107 | copies a multi-byte character down byte by byte while checking it |
| `TextScanner.ReadUnit` | jstr/jstr.c:126-136 | the loop with its marker reads four hex digits or refuses |
| `TextScanner.DecodeUnits` | jstr/jstr.c:126-162 | a run of escapes, all but the last high surrogates, in place |
| `TextScanner.DecodeString` | jstr/jstr.c:81-166 | the write cursor follows the read cursor and computes `Scanning.DecodeInPlace` |
| `JsonParser.StepValue` | jstr/jstr.c:27-79 | one pass through the value switch keeps the outcome; token writes stay inside the array |
| `JsonParser.StepString` | jstr/jstr.c:81-166 | one string keeps the outcome; the token write stays inside the array |
| `JsonParser.StepKey` | jstr/jstr.c:184-187 | one key keeps the outcome |
| `JsonParser.StepCommit` | jstr/jstr.c:189-210 | one commit writes its terminator and keeps the outcome |
| `JsonParser.StepPop` | jstr/jstr.c:212-220 | closing a container in the token array keeps the outcome |
| `JsonParser.Parser.constructor` | jstr/jstr.h:40-44 | a parser starts at the beginning |
| `JsonParser.Parser.Parse` | jstr/jstr.c:12-221 | the loop over labels computes the machine's outcome from where the last call stopped, on text and tokens in place |
| `JsonParser.ParseRequest` | src/request.c:182-190 | doubling the token array until it suffices takes a request if and only if all of it is one JSON text, and the tokens encode it |
| `Walking.VisitItems` | src/jshelper.h:5-7 | the loop over an array visits all its items, in order, each where its tokens are, and nothing else |
| `Walking.VisitMembers` | src/jshelper.h:9-12 | the loop over an object visits all its members with their keys, and nothing else |
| `Walking.PathLeadsIff` | src/jshelper.c:66-99 | going into the child around a token is the only way that leads there, and leads there if any does |
| `Walking.FindPath` | src/jshelper.c:66-99 | the path shown with an error is found for every value inside and leads to it; for a key or a token elsewhere there is none |
| `Escaping.EscapeRoundTrip` | src/response.c:16-40 | jstr decodes the escaped text to the text, whatever follows the closing quote |
| `Escaping.EscapeIsReversible` | src/response.c:16-40 | escaping and decoding gives a text back if and only if it is NUL-free, well-formed UTF-8 |
| `Response.Fill` | src/response.c:16-40 | what is escaped into a given room is a prefix of the whole, all of it if room is left, and spills at most five bytes |
| `Response.CutIsSilentIff` | src/response.c:16-40 | the size does not show that an escape was cut if and only if a proper beginning of the text fills the room to the byte |
| `Response.Buffer.AppendRaw` | src/response.c:9-14 | after a nonempty raw append the buffer holds all that was appended, or its size is above the capacity |
| `Response.Buffer.AppendEsc` | src/response.c:16-40 | in place, writing into at most eight overflow bytes; below the capacity everything is there |
| `Response.Buffer.Send` | src/response.c:48-65 | all of it is sent if and only if it fits |
| `Response.Fail` | src/fail.c:18-39 | a failure is reported whole, or as too big |
| `Response.FailureReadsBack` | src/fail.c:18-39 | the report is a JSON text that jstr accepts, and its strings decode to the status and the description |
| `Counters.MatchIsNonzero` | src/supervisor.c:99-123 | on an unsplit file the machine answers whether the first entry of the key starts with a nonzero digit |
| `Counters.ChunksMatch` | src/supervisor.c:86-126 | in chunks it answers the same if none ends between a matched key and its number |
| `Counters.ChunksAnswer` | src/supervisor.c:86-126 | on any file in any split the machine answers for the whole file, or for what follows the last chunk end behind a matched key |
| `Counters.CounterIsReadIff` | src/supervisor.c:86-126 | any file is read right if and only if its chunks split well or what follows the last bad end says the same |
| `Counters.SingleEntryIsReadIff` | src/supervisor.c:86-126 | with at most one entry of the key, if and only if they split well or the counter is zero |
| `Counters.BoundaryForgets` | src/supervisor.c:104-121 | a chunk that starts right behind a matched key makes the machine forget the match |
| `Counters.BoundaryMisses` | src/supervisor.c:104-121 | a split on which a nonzero counter is missed |
| `Counters.ScanChunk` | src/supervisor.c:99-123 | the labels over one chunk compute the machine's place or answer |
| `Counters.CounterNonzero` | src/supervisor.c:86-126 | the loop over chunks computes the machine's answer |
| `Supervisor.HeaderReadsBack` | src/supervisor.c:305-317 | the four bytes before a packet give its length and stream back |
| `Supervisor.TakesMore` | src/supervisor.c:210-225 | taking bytes keeps the sink at the prefix its quota allows, or closes it |
| `Supervisor.Pipes.SinkPush` | src/supervisor.c:230-242 | through partial and interrupted writes exactly what the limit allows is written |
| `Supervisor.Pipes.StreamsOver` | src/supervisor.c:283-324 | packets of the two streams are framed and pushed, others dropped |
| `Supervisor.Pipes.SpliceOver` | src/supervisor.c:259-281 | splicing moves at most the limit; without splice, or at limit 0, it reads |
| `Supervisor.Pipes.TakeTurn` | src/supervisor.c:200-226 | one turn keeps conservation, and runs over exactly when more than the limit was taken |
| `Supervisor.Pipes.DoPipes` | src/supervisor.c:196-228 | all polled pipes are served and no other is touched; the report changes exactly if one ran over; at exit all are closed or drained |
| `Supervisor.Pipes.HandOver` | src/supervisor.c:181-189 | all pipes are opened and the files taken out of the poll |
| `Supervisor.Pipes.Finish` | src/supervisor.c:425-429 | the final drain takes the files in, ends, and reports an overrun if there ever was one |
| `Supervisor.TextIsWhole` | src/supervisor.c:152-194 | what is reported of the spawner is all it said, if the response buffer has room for that, and more than the buffer holds otherwise |
| `Supervisor.Pipes.Send` | src/response.c:48-53 | a text that has run over the buffer goes out as too big |
| `Supervisor.Pipes.Supervise` | src/supervisor.c:351-431 | over every run: conservation, files untouched while it lasts, and at the end the output limit reported exactly if some source gave too much, else the report of the first round that ends the run, or that it is too big |
| `Supervisor.CollectSinks` | src/pipes.c:64-113 | the files come last |
| `Masks.FlagTests` | kafel/src/syscalldb.inl:69-69 | a flag is in a mask if and only if its architecture is selected |
| `Masks.RankIsCount` | kafel/src/syscalldb.inl:34-36 | the bits of a mask up to a flag count the architectures up to it |
| `Masks.MaskTells` | kafel/src/syscalls/syscalldb_generator.c:307-308 | equal masks are of equal sets |
| `SyscallDb.InfoReadsBack` | kafel/src/syscalldb.h:66-72 | the fields of a word are read back |
| `SyscallDb.NrAtIsNumbersAt` | kafel/src/syscalldb.h:108-110 | the numbers are found behind the arguments in both forms |
| `SyscallDb.Unpack` | kafel/src/syscalldb.inl:54-84 | unpacking a definition for one architecture fills in the number, names and sizes of its syscall |
| `Packing.CompareTrans` | kafel/src/syscalls/syscalldb_generator.c:105-116 | names are totally ordered as by strcmp |
| `SyscallGenerator.Generator.Intern` | kafel/src/syscalls/syscalldb_generator.c:176-185 | the pool grows at its end only, and the name is at the place returned |
| `SyscallGenerator.Generator.BeginSyscall` | kafel/src/syscalls/syscalldb_generator.c:190-209 | the least name at the cursors and exactly the architectures that have it |
| `SyscallGenerator.Generator.CompleteSyscall` | kafel/src/syscalls/syscalldb_generator.c:214-221 | the numbers of these architectures in order, and their cursors moved on |
| `SyscallGenerator.Generator.GetArgName` | kafel/src/syscalls/syscalldb_generator.c:223-242 | the architectures that share the first name, or none has one |
| `SyscallGenerator.Generator.IsPointerSized` | kafel/src/syscalls/syscalldb_generator.c:244-251 | whether all have the size of their pointers |
| `SyscallGenerator.Generator.GetArgType` | kafel/src/syscalls/syscalldb_generator.c:253-269 | the architectures that share the first size |
| `SyscallGenerator.Generator.DoArg` | kafel/src/syscalls/syscalldb_generator.c:271-302 | every architecture with the argument has exactly one item for it, with its name and size; it fails only on a size that cannot be coded |
| `SyscallGenerator.Generator.CompressArgs` | kafel/src/syscalls/syscalldb_generator.c:304-315 | masks are dropped in place if and only if all are the definition's |
| `SyscallGenerator.WrittenIsLaidOut` | kafel/src/syscalldb.h:94-113 | a definition written behind the others has its layout |
| `SyscallGenerator.StepKeeps` | kafel/src/syscalls/syscalldb_generator.c:385-397 | storing a syscall keeps order, layout and everything stored before |
| `SyscallGenerator.Generator.StoreSyscall` | kafel/src/syscalls/syscalldb_generator.c:385-397 | one turn of the merge keeps all of it |
| `SyscallGenerator.Generate` | kafel/src/syscalls/syscalldb_generator.c:380-405 | the finished words hold all syscalls of all lists and no others; with sizes that can be coded it fails if and only if the names do not fit |
| `SyscallTable.SizeIsFound` | kafel/src/syscalls/syscalldb_generator.c:317-324 | each flag has the size at its place among the lists as declared |
| `SyscallTable.SizesAreRightIff` | kafel/src/syscalls/syscalldb_generator.c:317-324 | the table has every architecture's own size if and only if the sizes were declared in the order of the flags, as they are if the lists were |
| `SyscallTable.TableIsRightIff` | kafel/src/syscalldb.h:74-77 | 16 bits keep the offset of every definition if and only if the last starts at 0xFFFF or below, and tell all of them from each other and from empty slots if and only if it starts below |
| `SyscallTable.OffsetIsFoundIff` | kafel/src/syscalldb.inl:44-48 | in every order of the table, with empty slots anywhere, the scan for a definition's offset stops at its own entry, if and only if the offset is below 0xFFFF and no other is the same in 16 bits |
| `SyscallTable.NamesTell` | kafel/src/syscalls/syscalldb_generator.c:380-397 | from the number of names, before packing: few enough start below a bound, too many do not |
| `SyscallLookup.Lookup` | kafel/src/syscall.c:72-81 | a name is found for an architecture if and only if it is in its list, with that list's number, argument names and sizes, if 16 bits hold its offset and its pointer size was declared at its place |
| `SyscallLookup.NextIsEnd` | kafel/src/syscalldb.h:112-113 | the next definition starts where this one ends |
| `SyscallLookup.ReverseLookup` | kafel/src/syscalldb.inl:40-52 | a number gives the name of the first syscall of the architecture that has it, and nothing if none has, if the offsets of definitions with the number are told in 16 bits |

## Left out

- Namespaces, mounts, cgroups, networking, user maps, spawning: system calls.
- The lexer and parser of policies; the model starts at policies whose filters name one syscall number and a typed condition, with leaf operands in masks.
- The perfect hash of the syscall table; its slots may be in any order, and looking a name up is a search of them.
- The sorting of syscall lists by name and of architectures by flag, and its refusal of duplicates; the database starts from sorted lists.
- In-place rewriting of expression nodes and linked lists, allocation, freeing and capacity growth: expressions and lists are values.
- `prog->len` in 16 bits: programs are taken to be short enough to be loaded.
- Error texts, printing, the disassembler and the syscall tables themselves.
- `src/request.c` keys, `strtod`, and the room for the text of an error message.
- RangeRuleTable.Table.AddMissingRules: does not state the priority of a gap, which is not written and never read.
- RangeRuleTable.Table.SortRangeRules: sorts by insertion where the source calls a library sort.
- Supervisor.Pipes.Supervise: timers and poll are inputs.
