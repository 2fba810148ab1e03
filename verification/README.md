# Verified models of the alcy compiler front end

Dafny models of six components of the alcy compiler, each with proofs of what it is for. One
`dafny verify dfyconfig.toml` checks everything.

| component | files |
|---|---|
| compile-time evaluator | `Machine`, `Operators`, `Lang`, `Tables`, `Patterns`, `Matching`, `Tuples`, `Semantics`, `Steps`, `Runs`, `Equations`, `Answers`, `Names`, `Control`, `ScopeShape`, `Purity`, `Recorded`, `Guards`, `Places`, `BigStep`, `Evaluator` |
| shape matching and spelling of type tables | `Shapes`, `Spelling` |
| module tree and import resolution | `Graphs`, `Modules`, `UsePaths`, `Forest`, `Staged`, `Imports`, `Resolution`, `UseOutcomes`, `Resolver`, `Facades` |
| format strings and integer literals | `Fmt`, `Literals` |
| the suite's dependency check | `Suite` |
| the browser's compiler client | `Client` |

## How the evaluator is modelled

`Steps.Resume` is the meaning of the checked syntax without recursion: what a construct asks
for next once the answers of its parts are known, and which steps spend a unit of the branch
quota. It has two readings. `Runs.Run` follows it under a quota, as the evaluator does, and
is total: the measure is the quota left, then the size of the syntax. A derivation
(`Runs.Deriv`) is a finite tree with a cost and no quota. `BigStep.RunRefinesBigStep` proves
that the two agree in both directions. `Equations` states what a run of each construct is in
terms of runs of its parts, which is the form a reader expects of a big-step rule. The class
`CompEvaluator` in `Evaluator.dfy` is the source's form: it pushes and pops frames, writes
through places, spends its quota, moves its instantiation register and call depth, and keeps
the first failure. Every method of it is proved equal to `Run`, so everything proved of `Run`
is proved of it.

The table of steps and the readings of tables are themselves fixed from outside: `Answers`,
`Names` and `Control` say what every operator, literal, name, aggregate, branch, loop and call
answers from the runs of its parts and the checker's tables, and `Matching` what every pattern
answers, without the functions the evaluator is defined by. `Operators.Operates` does so for the
operators on integers, `Shapes.RowsAlike` for the walk over types, `Spelling.Says` for spelling,
`UsePaths.Arrives` and `UseOutcomes.OutcomeSays` for a `use`, and `Fmt.Formatted` for format strings.

The tables the checker leaves behind (types of expressions, call targets, variants, const
items, splices) are the immutable `Lang.Package`. What the source stores in ASTs and arenas is
stored in datatypes. Integers are unbounded in the model; the 64-bit words, widths, masks and
wrap-around of the source are written out. Parser and checker output is an input.

## Where the code differs from what is promised of it

Each has a lemma that shows inputs on which it does, and a lemma that says exactly when the
code meets the promise.

- `ret` inside a loop. docs/spec/comp.md ends an evaluation at `ret`; the `Loop` and `While`
  cases drop the flow their loop answers. `BigStep.ReturnLostInLoop`,
  `BigStep.LoopAsSpecifiedExactly`. `Run` reproduces the drop.
- Inside an anonymous tuple pattern every element is matched under the tuple's own type, where
  a declaration uses the element's. A variant is then never found, a name is bound at the
  wrong type (so `a + b` over `(200u8, 100u8)` answers 300), a struct pattern fails, and a
  literal is compared at 64 bits. `Tuples.VariantNeverMatches`, `Tuples.NamesInTuple`,
  `Patterns.NegativeLiteralInTuple`; exactly when, for every pattern:
  `Tuples.MatchesAsTypedExactly`, and `Tuples.AlternativesMatchExactly` with alternatives.
- docs/spec/control.md distributes an or-pattern into one arm per alternative, and a false
  guard falls through to the next arm. The evaluator keeps one arm and commits to the first
  alternative that matches, so `(a, _) | (_, a) if a > 5` finds nothing in `(1, 10)`.
  `Guards.GuardLeavesAlternative`; exactly when the two agree, whatever the guard:
  `Guards.GuardsDistributeExactly`, and for whole matches `Guards.MatchDistributes`.
- A refusal is not always recorded: a dereference, a declared pattern that misses and a callee
  without a body refuse in silence. `RecordedFailures.SilentRefusals`,
  `RecordedFailures.BodilessRefuses`; syntax for which every refusal is recorded:
  `RecordedFailures.RunSaysWhy`.
- A facade's public item can hand a private declaration of the facade on to every module:
  `fn hidden` with `pub use self::hidden as shown`, where the same path in a `use` is refused.
  `Facades.PrivateFunctionReaches`, `Facades.SameUseRefused`. Which items do so, and to which
  modules: `Facades.ExposedReaches` and its converse `Facades.MeantIsExposed`; exactly, on items
  where each `use` names a declaration of the module it reaches, `Facades.PrivacyExactly`, and
  on the finished tables of any tree, `Facades.MeansPubExactly` and
  `Facades.LeaksExactlyOnSurface`.
- A place is held by pointer while its index is evaluated; an index that assigns can replace
  what is pointed at. The model looks the place up again. `Purity.IndexReplacesWhatIsHeld`
  shows the two apart; `Purity.IndexPlaceIsHeld` shows them equal whenever the index writes no
  assignment of its own, by way of `Purity.QuietLeavesScope`.
- `shapes_match` compares closures and type parameters by tag alone, though the table gives
  them a payload. `Shapes.SignaturesLookAlike`, `Shapes.AlikeIsSameExactly`; what a spelling
  then keeps, `Spelling.PathReadsFullyExactly`.
- `parse_numeric_value` takes the last three digits of a hexadecimal literal for a suffix when
  they read `f32` or `f64`; `classify_suffix` does not. `Literals.HexDigitsLost`,
  `Literals.ParseReadsExactly`.
- A precision is accumulated in 32 bits, so `{:.4294967296}` is accepted as zero.
  `Fmt.HugePrecisionAccepted`, `Fmt.PrecisionAcceptedExactly`.
- A module path's segment with a colon in it is indexed under the part after the colon and
  never found again. `Forests.ColonRefused`, `Forests.Forest.Attach`.
- An error or an unreadable message from a worker that has been replaced rejects its
  successor's requests.
  `Client.StaleErrorRejects`, `Client.ErrorRejectsItsOwnExactly`.

Two things to know when reading the models beside the source:

- An assignment writes the first binding of a name in a frame and a read takes the last. The
  two agree exactly when the name occurs once in its frame (`Places.AssignThenReadExactly`),
  and it always does: the renaming pass (src/parser/desugar.h:21-23) refuses a name declared
  twice in one scope before anything is evaluated. `Places.RepeatedNameLosesWrite` shows that
  the assignment laws rest on that pass.
- The walk and the spelling read a signature off nodes tagged `Function`, with an accessor that
  src/ir/type.h:211-214 gives to `Func` nodes only: the arm is written for the other tag. The
  model reads the signature where the walk does.

## Model

| member | source | states |
|---|---|---|
| `Machine.EncodeRoundTrip` | src/comp/comp_value.cc:33-54 | a pattern cut to a width decodes to the integer it was made from exactly when that integer is in the type's range |
| `Machine.SignExtendIsValue` | src/comp/comp_value.cc:39-54 | sign extension of a pattern in width is the integer the pattern means |
| `Machine.PatternArithmetic` | src/analyzer/comp_evaluator.cc:1864-1890 | adding, subtracting and multiplying words modulo 2^64 and then masking is the same arithmetic on the meant values, modulo the width |
| `Machine.AddTestExact` | src/comp/comp_value.cc:66-80 | the overflow test of addition answers true exactly when the true sum is outside the type's range |
| `Machine.SubTestExact` | src/comp/comp_value.cc:82-92 | the same for subtraction |
| `Machine.MulTestExact` | src/comp/comp_value.cc:94-108 | the same for multiplication |
| `Machine.WrappingAgrees` | src/analyzer/comp_evaluator.cc:1075-1100 | whenever the checked operator succeeds, its answer is the wrapping intrinsic's |
| `Machine.DivModRecombine` | src/analyzer/comp_evaluator.cc:1921-1944 | quotient times divisor plus remainder is congruent to the dividend modulo the width for every nonzero divisor, the minimum over minus one included |
| `Machine.CastCongruent` | src/analyzer/comp_evaluator.cc:1413-1446 | a cast keeps the value modulo the target's width |
| `Machine.CastExact` | src/analyzer/comp_evaluator.cc:1413-1446 | a cast keeps the value itself exactly when the target's range holds it |
| `Machine.CastThroughWider` | src/analyzer/comp_evaluator.cc:1413-1446 | a cast through a wider type on the way changes nothing |
| `Machine.FloorShift` | src/analyzer/comp_evaluator.cc:1964-1970 | a right shift is the floor of the quotient by the power of two, for negative values too |
| `Machine.QuotientTruncates` | src/analyzer/comp_evaluator.cc:1921-1944 | division cuts toward zero: the remainder is smaller than the divisor and has the sign of the dividend |
| `Machine.TruncatedOnce` | src/analyzer/comp_evaluator.cc:1921-1944 | only one quotient and remainder do |
| `Machine.BitwiseBits` | src/analyzer/comp_evaluator.cc:1945-1950 | bit by bit, `&` is set where both operands are, "or" where either is, `^` where they differ |
| `Semantics.UnaryMeans` | src/analyzer/comp_evaluator.cc:1376-1404 | unary minus answers the encoding of the negated value, bit-not the encoding of minus the value minus one |
| `Operators.PowBySquaring` | src/analyzer/comp_evaluator.cc:1891-1920 | the loop answers the encoding of the mathematical power, and Overflow exactly when the power is outside the range; a negative exponent is refused |
| `Operators.SquareWalk` | src/analyzer/comp_evaluator.cc:1900-1918 | the loop over the exponent's bits answers its goal exactly, whatever that goal is |
| `Operators.TakeBit` | src/analyzer/comp_evaluator.cc:1904-1909 | multiplying the result by the base keeps the invariant, and a refusal there means the goal is out of range |
| `Operators.SquareBase` | src/analyzer/comp_evaluator.cc:1911-1916 | squaring the base keeps the invariant, and a refused square means the goal is out of range: no representable answer is refused |
| `Operators.RefusedSquare` | src/analyzer/comp_evaluator.cc:1911-1916 | a square outside the range keeps every later product outside it |
| `Operators.NoSquareAtTheEdge` | src/analyzer/comp_evaluator.cc:1911-1916 | no square equals half a width's modulus, the one magnitude only the negative side can hold |
| `Operators.Divide` | src/analyzer/comp_evaluator.cc:1921-1944 | division and remainder truncate, refuse zero, and wrap the minimum over minus one |
| `Operators.Shift` | src/analyzer/comp_evaluator.cc:1954-1971 | a left shift multiplies modulo the width, a right shift takes the floor, the count is taken modulo the width |
| `Operators.CheckedArithmetic` | src/analyzer/comp_evaluator.cc:1873-1890 | the three checked operators succeed exactly in range and then equal the wrapping forms |
| `Operators.IntBinary` | src/analyzer/comp_evaluator.cc:1864-1975 | every operator over the integers its operands mean: sums, differences, products and powers in range or Overflow, division cut toward zero, `&`, "or" and `^` bit by bit within the width, shifts by the count modulo the width, everything else refused |
| `Operators.ApplyMeans` | src/analyzer/comp_evaluator.cc:1864-1975 | the same of `Machine.Apply`, the table the lemmas reason with |
| `Operators.BitwiseMeans` | src/analyzer/comp_evaluator.cc:1945-1953 | the bits of the answer, each decided by the operands' bits at its place, and none beyond the width |
| `Patterns.FirstAlternativeWins` | src/analyzer/comp_evaluator.cc:517-530 | an or-pattern matches with some bindings exactly when its first alternative not refused does |
| `Matching.MatchLiterals` | src/analyzer/comp_evaluator.cc:402-430 | a literal pattern matches the value it writes; an integer is written at the value's type, sign applied first |
| `Matching.MatchTuples` | src/analyzer/comp_evaluator.cc:431-450 | a tuple pattern tries its elements in order at the tuple's own type; all must match, the first that does not decides |
| `Matching.MatchVariants` | src/analyzer/comp_evaluator.cc:451-488 | a variant pattern matches by the last name of its path and its payloads at their declared types; the wrong variant or count misses, a broken table fails |
| `Matching.MatchStructs` | src/analyzer/comp_evaluator.cc:489-513 | a struct pattern reads each named member where the type declares it and at the type it declares; an unknown member fails |
| `Matching.MatchAlternatives` | src/analyzer/comp_evaluator.cc:517-530 | an alternative is tried only when those before it have missed |
| `Matching.BindTuples` | src/analyzer/comp_evaluator.cc:335-359 | a declared tuple pattern binds its elements at their own types, what was bound before a failure staying bound |
| `Matching.BindStructs` | src/analyzer/comp_evaluator.cc:360-380 | a declared struct pattern binds its members in the order they are written |
| `Matching.BindByMatching` | src/analyzer/comp_evaluator.cc:335-386 | variants, references and alternatives bind exactly what they match |
| `Tuples.BlindAgrees` | src/analyzer/comp_evaluator.cc:391-532 | a pattern that cannot tell two types apart gives one answer at both, for every value |
| `Tuples.MatchesAsTypedExactly` | src/analyzer/comp_evaluator.cc:431-450 | for every pattern some value matches: the evaluator answers every value as the types of the tuples' elements call for if and only if no tuple in it holds a name, a variant, a struct with members or a literal that the two types keep differently |
| `Tuples.AlternativesMatchExactly` | src/analyzer/comp_evaluator.cc:431-450 | the same for patterns with alternatives, over their distributed forms (docs/spec/control.md:44-45), and then for the pattern itself |
| `Tuples.VariantNeverMatches` | src/analyzer/comp_evaluator.cc:441-469 | no value matches a tuple pattern that has a variant among its elements |
| `Tuples.VariantInTuple` | src/analyzer/comp_evaluator.cc:454-469 | by the element's type the variant matches; by the tuple's it does not |
| `Tuples.NamesInTuple` | src/analyzer/comp_evaluator.cc:441-450 | names inside a tuple have the tuple's type, and 200 plus 100 does not overflow a u8 |
| `Patterns.NegativeLiteralInTuple` | src/analyzer/comp_evaluator.cc:414-450 | minus one matches an i8 alone and not in a tuple |
| `Patterns.MatchBindsWhatIsWritten` | src/analyzer/comp_evaluator.cc:391-532 | a match binds the names its pattern writes, from left to right, one alternative chosen at each or-pattern, and no others |
| `Patterns.BindAgreesWithMatch` | src/analyzer/comp_evaluator.cc:321-389 | outside literals and anonymous tuples a declaration binds exactly when a match would, and binds the same |
| `Patterns.MatchPattern` | src/analyzer/comp_evaluator.cc:391-532 | a match that fails rather than misses records a program or an internal failure |
| `Patterns.BindPattern` | src/analyzer/comp_evaluator.cc:321-389 | a binding that succeeds records no failure |
| `Steps.StepGuarantees` | src/analyzer/comp_evaluator.cc:1331-1770 | every step asks for a smaller task or spends a unit first, never for a fourth answer, and never refuses for want of quota |
| `Runs.Run` | src/analyzer/comp_evaluator.cc:1331-1770 | evaluation is total and never returns more quota than it was given |
| `Runs.DerivationRuns` | src/analyzer/comp_evaluator.cc:1331-1862 | a derivation whose cost the quota covers is what the run does, and its cost is what the run spends |
| `Runs.RunDerives` | src/analyzer/comp_evaluator.cc:1331-1862 | a run that does not exhaust its quota has a derivation of its answer, scope and cost |
| `Runs.NeverBudget` | src/analyzer/comp_evaluator.cc:170-176 | no derivation ends in an exhausted quota |
| `BigStep.RunRefinesBigStep` | src/analyzer/comp_evaluator.cc:582-669 | a run answers so at such a cost if and only if the answer is derivable at that cost and the quota covers it |
| `BigStep.BudgetExactly` | src/analyzer/comp_evaluator.cc:170-176 | the quota is exhausted if and only if nothing derivable is cheap enough |
| `BigStep.MoreQuotaSameAnswer` | src/analyzer/comp_evaluator.cc:170-176 | an outcome other than Budget is the same, at the same price, under any larger quota |
| `BigStep.OneAnswer` | src/analyzer/comp_evaluator.h:55-62 | evaluation is deterministic: one answer and one cost |
| `BigStep.CallLeavesCallerAlone` | src/analyzer/comp_evaluator.cc:937-1037 | after a call the caller's scope is what evaluating the arguments left |
| `BigStep.MethodLeavesCallerAlone` | src/analyzer/comp_evaluator.cc:1232-1309 | after a method call the caller's scope is what the receiver and the arguments left |
| `BigStep.LoopAsSpecifiedExactly` | src/analyzer/comp_evaluator.cc:1645-1666 | a loop answers as the language specification says exactly when it did not end by `ret`; a body without `ret` never does |
| `BigStep.ReturnLostInLoop` | src/analyzer/comp_evaluator.cc:1645-1666 | `loop { ret 7 }` answers an empty value |
| `Equations.RunBlock` | src/analyzer/comp_evaluator.cc:582-669 | a block runs its statements in a frame of its own and drops the frame whatever happens |
| `Equations.RunNextStmt` | src/analyzer/comp_evaluator.cc:588-602 | a statement that does not end in a value ends the block with its flow |
| `Equations.RunTail` | src/analyzer/comp_evaluator.cc:603-669 | the trailing expression gives the block's value, or its flow when it is a jump |
| `Equations.RunDecl` | src/analyzer/comp_evaluator.cc:762-779 | a declaration binds its pattern in the innermost frame, after its value |
| `Equations.RunReassign` | src/analyzer/comp_evaluator.cc:780-815 | an assignment evaluates the value, then the place, then writes |
| `Equations.RunExprStmt` | src/analyzer/comp_evaluator.cc:816-862 | an expression statement drops its value and keeps its flow |
| `Equations.RunFieldPlace` | src/analyzer/comp_evaluator.cc:698-730 | a field place is the base's place one step further down |
| `Equations.RunIndexPlace` | src/analyzer/comp_evaluator.cc:731-757 | an index place evaluates the index after the base and refuses one out of bounds |
| `Equations.RunOperands` | src/analyzer/comp_evaluator.cc:1700-1743 | operands are evaluated left to right, each in the scope the one before it left |
| `Equations.RunStrict` | src/analyzer/comp_evaluator.cc:1376-1504 | a strict construct evaluates its operands and then computes; a logical operator stops at an operand that decides it |
| `Equations.RunConst` | src/analyzer/comp_evaluator.cc:1311-1329 | a const item costs a unit and runs its initializer in an empty scope |
| `Equations.RunJump` | src/analyzer/comp_evaluator.cc:1667-1697 | break, continue and ret leave in statement position, ret with its value; anywhere else they are refused before anything is evaluated |
| `Equations.RunReturn` | src/analyzer/comp_evaluator.cc:1678-1697 | `ret e` in statement position leaves with the value of `e`, or ends as `e` does |
| `Equations.RunBlockExpr` | src/analyzer/comp_evaluator.cc:1627-1644 | a block expression is its block, with a jump kept or refused by position |
| `Equations.RunIf` | src/analyzer/comp_evaluator.cc:1505-1570 | a condition chooses the branch, and a pattern condition's bindings are visible in it alone |
| `Equations.RunMatch` | src/analyzer/comp_evaluator.cc:1571-1626 | a match evaluates its subject once and tries its arms in order |
| `Equations.RunArmPassed` | src/analyzer/comp_evaluator.cc:1580-1608 | an arm whose pattern misses or whose guard is false hands over to the next, its frame gone |
| `Equations.RunArmMatched` | src/analyzer/comp_evaluator.cc:1580-1626 | the first arm that matches runs its body with its bindings |
| `Equations.RunLoopTurn` | src/analyzer/comp_evaluator.cc:866-932 | a turn costs a unit; break ends the loop, continue and a value go round again, ret leaves |
| `Equations.RunWhileTurn` | src/analyzer/comp_evaluator.cc:878-932 | a while loop tests before every turn, its bindings visible in the body |
| `Equations.RunFnCall` | src/analyzer/comp_evaluator.cc:937-1037 | a call pays, evaluates its arguments in the caller's scope, and runs the body in a fresh one, one level deeper |
| `Equations.RunMethodCall` | src/analyzer/comp_evaluator.cc:1232-1309 | a method call does the same with its receiver first |
| `Answers.RunAnd` | src/analyzer/comp_evaluator.cc:1782-1805 | `&&`: the right operand runs exactly when the left is true, and then it is the answer; anything but booleans is refused |
| `Answers.RunOr` | src/analyzer/comp_evaluator.cc:1782-1805 | "or": the right operand runs exactly when the left is false, and then it is the answer |
| `Answers.RunCompared` | src/analyzer/comp_evaluator.cc:1831-1861 | the four comparisons order the integers meant at the left operand's type |
| `Answers.RunEqual` | src/analyzer/comp_evaluator.cc:1810-1829 | equality of integers by the bits their types keep, at one type of what they mean, of booleans and of strings |
| `Answers.RunIncomparable` | src/analyzer/comp_evaluator.cc:1808-1836 | operands of two kinds, or of a kind without the operator, are refused |
| `Answers.RunArithmetic` | src/analyzer/comp_evaluator.cc:1831-1861 | every other operator is `Machine.Apply` on the operands cut to the left one's type |
| `Answers.RunUnary` | src/analyzer/comp_evaluator.cc:1376-1404 | minus, bit-not and not, each over the value its operand means and refusing what is not of its kind |
| `Answers.RunCast` | src/analyzer/comp_evaluator.cc:1413-1446 | to a bool whether anything is set, from a bool one or zero, between integers the value modulo the target |
| `Answers.RunQuestion` | src/analyzer/comp_evaluator.cc:1484-1504 | `?` takes the first payload of the first variant and refuses everything else |
| `Answers.RunRepeat` | src/analyzer/comp_evaluator.cc:1712-1742 | `[x; n]` has as many elements as its array type says, or as are written |
| `Answers.RunNthField` | src/analyzer/comp_evaluator.cc:1450-1471 | `x.i` is a tuple's field at position `i` |
| `Answers.RunTupleField` | src/analyzer/comp_evaluator.cc:1450-1471 | a field name of decimal digits is a position read in 32 bits; any other name of a tuple's field is refused |
| `Answers.RunStructField` | src/analyzer/comp_evaluator.cc:1472-1481 | a struct's field is the one where its type, or the declaration a copy came from, declares the name |
| `Answers.RunIndexed` | src/analyzer/comp_evaluator.cc:1744-1765 | an index takes the element at that position, and is out of bounds from the length on |
| `Answers.RunElements` | src/analyzer/comp_evaluator.cc:1700-1742 | a tuple and an array hold their elements' values in order, each evaluated where the one before left off |
| `Answers.RunStruct` | src/analyzer/comp_evaluator.cc:534-580 | every field of a struct literal is the last value given for it, else the base's, else empty |
| `Answers.RunUnknownField` | src/analyzer/comp_evaluator.cc:550-558 | an unknown field is refused when its turn comes, its value not evaluated |
| `NamesAndIntrinsics.RunLiteral` | src/analyzer/comp_evaluator.cc:289-319 | a literal is itself at the type the checker gave its site; a negative integer wraps at 64 bits |
| `NamesAndIntrinsics.LookupIs` | src/comp/comp_value.cc:192-208 | a read takes the last binding of the name in the innermost frame that has one |
| `NamesAndIntrinsics.PlaceIs` | src/analyzer/comp_evaluator.cc:682-697 | an assignment takes the first binding of the name in the innermost frame that has one |
| `NamesAndIntrinsics.RunBound` | src/analyzer/comp_evaluator.cc:1342-1350 | a single name is a binding before it is anything else |
| `NamesAndIntrinsics.RunSpliced` | src/analyzer/comp_evaluator.cc:1351-1357 | an unbound name is a spliced value parameter where there is one |
| `NamesAndIntrinsics.RunConstItem` | src/analyzer/comp_evaluator.cc:1311-1329 | then a const item: a unit, one level deeper of at most 64, an empty frame, the caller's scope kept |
| `NamesAndIntrinsics.RunUnitVariant` | src/analyzer/comp_evaluator.cc:1362-1374 | then a variant without payload; anything else is refused |
| `NamesAndIntrinsics.RunUncallable` | src/analyzer/comp_evaluator.cc:1174-1195 | a callee that is no path, the printing and panicking functions, and a callee without target are refused unevaluated |
| `NamesAndIntrinsics.RunConstructor` | src/analyzer/comp_evaluator.cc:1196-1217 | a call of a variant holds its arguments in order, as many as its payload has |
| `NamesAndIntrinsics.RunWrapping` | src/analyzer/comp_evaluator.cc:1075-1100 | the wrapping intrinsics encode the operation on the values meant at the type they return |
| `NamesAndIntrinsics.RunStrByte` | src/analyzer/comp_evaluator.cc:1121-1155 | the byte at a position in bounds; the position is read only when there is a string |
| `NamesAndIntrinsics.RunStrSlice` | src/analyzer/comp_evaluator.cc:1121-1172 | the slice between two positions in order and in bounds |
| `NamesAndIntrinsics.RunNamedPlace` | src/analyzer/comp_evaluator.cc:676-697 | a single bound name is a place, and no other path is |
| `NamesAndIntrinsics.RunFieldOfPlace` | src/analyzer/comp_evaluator.cc:698-730 | a field of a place is one step further, at the type the aggregate behind any references declares |
| `NamesAndIntrinsics.RunIndexOfPlace` | src/analyzer/comp_evaluator.cc:731-757 | an element of a place is one step further, at the array's element type, and out of bounds from the length on |
| `NamesAndIntrinsics.RunAssigned` | src/analyzer/comp_evaluator.cc:780-815 | an assignment writes the value, a compound one what the operator makes of it and the integer that is there |
| `Control.RunBraces` | src/analyzer/comp_evaluator.cc:1627-1644 | a block's value takes the construct's type, and a jump leaves it from statement position only |
| `Control.RunIfTest` | src/analyzer/comp_evaluator.cc:1505-1570 | a true condition runs the first block, a false one the second or nothing, and no other value decides |
| `Control.RunIfBinds` | src/analyzer/comp_evaluator.cc:1505-1570 | a matched pattern's bindings are a frame of their own around the first block, gone after it |
| `Control.RunInFrame` | src/analyzer/comp_evaluator.cc:582-669 | a block's statements run in one new, empty frame |
| `Control.RunDeclared` | src/analyzer/comp_evaluator.cc:762-779 | a declaration adds its bindings at the end of the innermost frame, those made before a failure too |
| `Control.RunLoopAgain` | src/analyzer/comp_evaluator.cc:866-932 | a turn costs a unit; after a value or `continue` the loop runs over again as it stands, after `break` or `ret` it is an empty value |
| `Control.RunWhileTest` | src/analyzer/comp_evaluator.cc:878-932 | the same behind a condition that is tested before every turn |
| `Control.RunWhileBinds` | src/analyzer/comp_evaluator.cc:878-932 | the same behind a pattern whose bindings are a frame around each turn |
| `Control.RunCall` | src/analyzer/comp_evaluator.cc:937-1037 | the wrong arity is refused; otherwise a unit, at most 64 levels, the bound arguments from left to right in the caller's scope, and the body where the function was declared, seeing its parameters only, its value typed as the function returns |
| `Control.RunInvoked` | src/analyzer/comp_evaluator.cc:1232-1309 | a method pays and evaluates its receiver before it is looked up, and binds each value before it evaluates the next argument |
| `ScopeShape.RunKeepsShape` | src/analyzer/comp_evaluator.cc:582-669 | every evaluation, successful or not, leaves frames, names, their order and their types as found, blocks' own declarations aside |
| `ScopeShape.FramesCounted` | src/analyzer/comp_evaluator.cc:582-669 | the number of frames is the same after any expression |
| `ScopeShape.RunKind` | src/analyzer/comp_evaluator.cc:1667-1697 | each task answers its own kind of outcome: no jump leaves a value position, and a return implies a `ret` in the syntax |
| `ScopeShape.StepKeeps` | src/analyzer/comp_evaluator.cc:1331-1770 | each single step keeps the scope's shape |
| `Purity.QuietLeavesScope` | src/analyzer/comp_evaluator.cc:1331-1862 | an expression with no assignment in its own syntax leaves the whole scope, values included, exactly as found, whatever its outcome and whatever it calls |
| `Purity.RunStill` | src/analyzer/comp_evaluator.cc:582-862 | the same for every task: statements only add bindings to the innermost frame |
| `Purity.PlaceReadable` | src/analyzer/comp_evaluator.cc:671-760 | a place that is found can be read |
| `Purity.IndexPlaceIsHeld` | src/analyzer/comp_evaluator.cc:731-757 | with an index that assigns nothing the place found is the element of the array held before the index was evaluated |
| `Purity.IndexReplacesWhatIsHeld` | src/analyzer/comp_evaluator.cc:731-757 | `x.0[{ x = y; 0 }]`: what is held is replaced while the index is evaluated |
| `RecordedFailures.MissesExactly` | src/analyzer/comp_evaluator.cc:391-532 | whether some value misses a pattern is read off the pattern, in every package |
| `RecordedFailures.FirmBinds` | src/analyzer/comp_evaluator.cc:321-389 | a declared pattern with nothing that can miss below a reference or an or-pattern binds or records why not |
| `RecordedFailures.RunSaysWhy` | src/analyzer/comp_evaluator.cc:1331-1862 | without dereferences, with firm declared patterns and with a body for every callee, no run ends in a refusal that is not recorded |
| `RecordedFailures.SilentRefusals` | src/analyzer/comp_evaluator.cc:762-779 | a dereference (line 1411), and a declared reference pattern that misses, refuse and record nothing |
| `RecordedFailures.BodilessRefuses` | src/analyzer/comp_evaluator.cc:937-1037 | so does a call of a function without a body |
| `Guards.FormsAreChoices` | docs/spec/control.md:42-45 | the forms of a pattern are its choices of one alternative at each or-pattern |
| `Guards.FormsMatch` | src/analyzer/comp_evaluator.cc:391-532 | a pattern answers as the first of its forms, left alternatives first, that does not miss, unless a form is refused |
| `Guards.GuardsDistributeExactly` | src/analyzer/comp_evaluator.cc:1580-1626 | an arm does on a value what its distributed arms do, for every guard, body, following arms, scope and quota, if and only if the forms answer as the pattern does and every form after the first to match misses |
| `Guards.UnguardedDistributesExactly` | src/analyzer/comp_evaluator.cc:1580-1626 | without a guard, if and only if the forms answer as the pattern does |
| `Guards.AgreesHere` | src/analyzer/comp_evaluator.cc:1580-1608 | one run of an arm is the run of its distributed arms unless the guard is false on the first form and a later form does not miss |
| `Guards.MatchDistributes` | src/analyzer/comp_evaluator.cc:1571-1626 | a match whose arms are so on what its subject answers is the match over the distributed arms |
| `Guards.GuardLeavesAlternative` | docs/spec/control.md:37-45 | `(a, _)` or `(_, a)`, with the guard `a > 5`, on `(1, 10)`: no arm is left, where the distributed arms answer 10 |
| `Places.WriteKeepsAggregates` | src/analyzer/comp_evaluator.cc:671-760 | the aggregates a write passes through keep their kind, variant and number of fields |
| `Places.WriteThenRead` | src/analyzer/comp_evaluator.cc:671-760 | reading at or below a written place reads what was written |
| `Places.WriteElsewhere` | src/analyzer/comp_evaluator.cc:671-760 | a place that parts ways with the written one reads as before |
| `Places.WriteBack` | src/analyzer/comp_evaluator.cc:671-760 | writing back what was read changes nothing |
| `Places.WriteTwice` | src/analyzer/comp_evaluator.cc:671-760 | the last of two writes is the one that counts |
| `Places.PlaceLens` | src/analyzer/comp_evaluator.cc:780-815 | the lens laws for whole scopes: the place reads the assigned value, diverging places and other bindings are untouched, and every aggregate on the way keeps its kind, variant and number of fields |
| `Places.CompoundIsReadApplyWrite` | src/analyzer/comp_evaluator.cc:786-812 | compound assignment is reading, applying the operator and assigning the result |
| `Places.SameBinding` | src/analyzer/comp_evaluator.cc:682-688 | assignment and lookup find one frame, and one binding in it exactly when the name occurs once there |
| `Places.AssignThenReadExactly` | src/comp/comp_value.cc:192-208 | every assigned value is read back if and only if the name occurs once in its frame |
| `Places.RepeatedNameLosesWrite` | src/parser/desugar.h:21-23 | in a frame the renaming pass would have refused, with a name twice, the write goes to one binding and the read to the other |
| `Evaluators.CompScope.Resize` | src/analyzer/comp_evaluator.cc:517-530 | cutting the innermost frame back to a mark drops what was bound since |
| `Evaluators.CompEvaluator.FailAs` | src/analyzer/comp_evaluator.cc:128-137 | the first failure recorded is never overwritten |
| `Evaluators.CompEvaluator.Spend` | src/analyzer/comp_evaluator.cc:170-176 | a unit is spent, or Budget is recorded when none is left |
| `Evaluators.CompEvaluator.MatchPatternIn` | src/analyzer/comp_evaluator.cc:391-532 | a match that misses or fails leaves the innermost frame as found; one that succeeds appends exactly its bindings, in order |
| `Evaluators.CompEvaluator.MatchAlternatives` | src/analyzer/comp_evaluator.cc:517-530 | each alternative starts from the mark the pattern began at |
| `Evaluators.CompEvaluator.MatchElements` | src/analyzer/comp_evaluator.cc:441-450 | elements match left to right and roll back together |
| `Evaluators.CompEvaluator.MatchMembersIn` | src/analyzer/comp_evaluator.cc:478-513 | named members match in the order written and roll back together |
| `Evaluators.CompEvaluator.BindPatternIn` | src/analyzer/comp_evaluator.cc:321-389 | a declaration's pattern appends its bindings left to right |
| `Evaluators.CompEvaluator.EvalPlace` | src/analyzer/comp_evaluator.cc:671-760 | the place found, the scope, the quota and the failure are those of the run, which is the place the source holds whenever the index assigns nothing |
| `Evaluators.CompEvaluator.EvalOperands` | src/analyzer/comp_evaluator.cc:1700-1743 | the operands' loop is the run of the operands |
| `Evaluators.CompEvaluator.EvalStrict` | src/analyzer/comp_evaluator.cc:1376-1504 | the strict constructs in place are their runs |
| `Evaluators.CompEvaluator.EvalBlock` | src/analyzer/comp_evaluator.cc:582-669 | pushing, running and popping in place is the run of the block |
| `Evaluators.CompEvaluator.EvalStmt` | src/analyzer/comp_evaluator.cc:762-862 | the statement in place is the run of the statement |
| `Evaluators.CompEvaluator.Assign` | src/analyzer/comp_evaluator.cc:780-815 | the write through the place is the specified assignment, with its failures |
| `Evaluators.CompEvaluator.EvalIf` | src/analyzer/comp_evaluator.cc:1505-1570 | the conditional in place is its run |
| `Evaluators.CompEvaluator.EvalMatch` | src/analyzer/comp_evaluator.cc:1571-1626 | the match in place is its run |
| `Evaluators.CompEvaluator.EvalLoop` | src/analyzer/comp_evaluator.cc:866-932 | the `while` loop over turns is the run of the loop, for every number of turns |
| `Evaluators.CompEvaluator.EvalConstItem` | src/analyzer/comp_evaluator.cc:1311-1329 | the const item in place is its run |
| `Evaluators.CompEvaluator.EvalFnCall` | src/analyzer/comp_evaluator.cc:937-1037 | the call in place is its run; call depth and instantiation are restored on every path |
| `Evaluators.CompEvaluator.EvalMethodCall` | src/analyzer/comp_evaluator.cc:1232-1309 | the method call in place is its run; call depth and instantiation are restored on every path |
| `Evaluators.CompEvaluator.EvalCall` | src/analyzer/comp_evaluator.cc:1174-1230 | constructors, intrinsics and functions are told apart as the tables say |
| `Evaluators.CompEvaluator.EvalPath` | src/analyzer/comp_evaluator.cc:1342-1375 | binding, splice, const item and unit variant are tried in that order |
| `Evaluators.CompEvaluator.EvalExpr` | src/analyzer/comp_evaluator.cc:1331-1770 | every expression: outcome, scope, quota and failure are those of the run; a value means no failure is recorded, and an evaluator that has failed does nothing |
| `Evaluators.CompEvaluator.Evaluate` | src/analyzer/comp_evaluator.cc:247-260 | a whole evaluation is the run from a full quota at depth zero |
| `Shapes.SameShapeIsBisimilarity` | src/analyzer/summary.cc:84-91 | two types unfold alike at every depth if and only if a bisimulation relates them |
| `Shapes.BisimilarUnfoldAlike` | src/analyzer/summary.cc:84-91 | related types unfold alike, at any depth of a cyclic table |
| `Shapes.ShapeWalk.Match` | src/analyzer/summary.cc:92-287 | false restores the list of assumptions exactly; true leaves a list whose new pairs are all justified; a guiding bisimulation small enough is always followed to true |
| `Shapes.ShapesMatch` | src/analyzer/summary.cc:92-287 | true only for types that unfold alike, whose rows then agree in tag, names, counts, values and, place by place, in the shapes of the types inside; true for all types a bisimulation of at most 4096 pairs relates |
| `Shapes.SameShapeIsRowsAlike` | src/analyzer/summary.cc:121-286 | two nodes are of one shape exactly when their rows are alike: structs and enums of one name with fields, parameters, variants and payloads alike, arrays of one length, constants of one value, and so on, tag by tag |
| `Shapes.SmallTableDecided` | src/analyzer/summary.cc:59-59 | on a table with at most 4096 alike pairs the walk decides sameness of shape |
| `Shapes.AlikeIsSameExactly` | src/analyzer/summary.cc:282-286 | shapes that match are types that agree if and only if the table's closures and type parameters of one tag all agree |
| `Shapes.WithheldSameExactly` | src/analyzer/summary.cc:282-286 | two closures are one type exactly when their signatures agree, and two parameters when their indices do |
| `Shapes.SignaturesLookAlike` | src/analyzer/summary.cc:282-286 | two closures with different results are different types, and the walk answers that they match |
| `Spelling.SpellNominalPath` | src/analyzer/summary.cc:303-335 | the path begins with `package` and ends with the declaration's name; between them stand the dotless parts whose dotted form is the module's path |
| `Spelling.BuildRows` | src/analyzer/summary.cc:684-701 | a type has a site exactly when a struct or enum row without a needed body has it, the first such row's; a name lists the types of its rows in order, repeats included |
| `Spelling.SpellNominal` | src/analyzer/summary.cc:452-486 | a row spells its own path; a copy spells the path of the one row it matches, which is of its shape; a copy of two rows within reach is never spelled; one with exactly one candidate always is |
| `Spelling.SpellType` | src/analyzer/summary.cc:341-489 | tag by tag the syntax says what the table holds, nominals by the path of a row of their shape; it reads back as a type of the same shape, and as the very type where types of one shape are one type; every type built of plain tags and nameable nominals is spelled; raw pointers, constants and closures never are |
| `Spelling.SpellStructural` | src/analyzer/summary.cc:375-451 | a structural type is spelled from its parts' spellings, and reads back as its parts do |
| `Spelling.PathReadsFullyExactly` | src/analyzer/summary.cc:452-486 | a path one row is spelled by reads back as the whole type, signatures and parameters included, exactly when the row is that type |
| `Spelling.OneReading` | src/analyzer/summary.cc:303-335 | when one path never names two shapes, syntax has one reading |
| `Spelling.SpellingTellsShapesApart` | src/analyzer/summary.cc:341-489 | two types share a spelling only if they share a shape, exactly when no path names rows of two shapes |
| `Forests.Forest.Attach` | src/analyzer/resolve.cc:252-349 | a path already taken is refused and changes nothing; otherwise the segments lead to the new module, exactly when none holds a colon; its path is the segments between double colons, the modules between hold no items, and all belong to the package given |
| `Forests.HungIndexed` | src/analyzer/resolve.cc:105-109 | after every attachment the index answers each name as a walk over the siblings would |
| `Forests.ReachedStays` | src/analyzer/resolve.cc:180-183 | a module reached by its segments is reached by them after any later attachment |
| `Forests.ColonRefused` | src/analyzer/resolve.cc:171-178 | a segment with a colon is never found |
| `Staged.LowerBound` | src/analyzer/resolve.cc:1066-1070 | the search finds the first entry not below the item |
| `Staged.InPackageExactly` | src/analyzer/resolve.h:192-196 | a path is inside a package when it is the package's name, or that name and two colons and more |
| `Staged.IsStagedItem` | src/analyzer/resolve.cc:1063-1090 | the search looks at the first staged module that declares the item, and agrees with the walk when an item has one home |
| `Modules.FindDeclaration` | src/analyzer/resolve.cc:619-650 | the first declaring item, or none when no item declares the name |
| `Modules.VisibleIsPub` | src/analyzer/resolve.cc:652-661 | from another module a type or value is visible exactly when its declaration is `pub` |
| `Imports.FirstIsExplicit` | src/analyzer/resolve.cc:574-610 | the first match of a name is the explicit import when there is one, the facade's otherwise |
| `Imports.PlacedArranged` | src/analyzer/resolve.cc:588-609 | adding an explicit import keeps at most one explicit and one injected per name, explicit first |
| `Imports.PlacedAnswers` | src/analyzer/resolve.cc:588-609 | the added name means the new import, and no other name changes meaning |
| `Imports.PlacedPublics` | src/analyzer/resolve.cc:588-609 | a module's public imports only grow, and only by public uses |
| `Imports.OnlyPublicsAnswer` | src/analyzer/resolve.cc:663-677 | a re-export lookup depends on the public imports alone |
| `Imports.SweepAllSwept` | src/analyzer/resolve.cc:784-831 | a pass over the namespaces keeps the list sound, keeps every explicit import and every name, and imports every offer or complains |
| `Imports.SweepOneElsewhere` | src/analyzer/resolve.cc:813-831 | a namespace's import does not disturb what the next namespace's lookup reads, even in the module itself |
| `Resolution.OutcomeMeans` | src/analyzer/resolve.cc:679-846 | a use that complains of nothing reached a module and imported everything it declares, or else re-exports, under the name |
| `Resolution.Entered` | src/analyzer/resolve.cc:551-551 | starting a module keeps every invariant of resolution and leaves one module fewer untouched |
| `Resolution.ReportSearched` | src/analyzer/resolve.cc:540-549 | meeting a module in progress is a real cycle of demands |
| `Resolution.Left` | src/analyzer/resolve.cc:571-571 | finishing a module keeps every invariant: what it demanded is finished before it, or a cycle was reported |
| `Resolution.Settles` | src/analyzer/resolve.cc:679-846 | settling a use keeps every invariant: order, soundness, the spread of facades, the standing of earlier lookups, the count |
| `Resolution.Injected` | src/analyzer/resolve.cc:510-531 | injecting a name keeps every invariant |
| `Resolvers.Resolver.CollectLocals` | src/analyzer/resolve.cc:396-437 | the name lists hold exactly what each module declares, namespace by namespace |
| `Resolvers.Resolver.AddImport` | src/analyzer/resolve.cc:574-610 | the list and the complaint are those of the specified addition |
| `UsePaths.ReachArrives` | src/analyzer/resolve.cc:679-776 | the same of the specified walk, over every tree and path |
| `UsePaths.LastSegmentEnds` | src/analyzer/resolve.cc:171-178 | a module's name is the end of its path after the last colon |
| `UseOutcomes.DeclaresExactly` | src/analyzer/resolve.cc:619-650 | which items declare a name as a type, which as a value, and that no item declares a module |
| `UseOutcomes.VisibleExactly` | src/analyzer/resolve.cc:652-661 | a module sees its own declarations, and another's only when the first that declares the name is `pub` |
| `UseOutcomes.OfferExactly` | src/analyzer/resolve.cc:663-677 | what a name stands for: the module's own declaration, or the target of its first public import of the name |
| `UseOutcomes.OutcomeSays` | src/analyzer/resolve.cc:679-846 | a refused path imports nothing; a name nothing is offered under is missing, or a generic item; otherwise each namespace is imported under the given name, or called private, in conflict with a local, or a duplicate, each exactly when it is |
| `Resolvers.Resolver.FindTarget` | src/analyzer/resolve.cc:679-776 | the head opens the top of the module's parents, the package's unnamed module, the module itself, a package root, or else a child, in that order; each further segment goes to the child it names; a missing one, and a module its package keeps to itself, is refused |
| `Resolvers.Resolver.ResolveUse` | src/analyzer/resolve.cc:679-846 | a use's effect is its outcome over the reached module's public imports; only modules nobody had reached change besides |
| `Resolvers.Resolver.ResolveUses` | src/analyzer/resolve.cc:553-570 | each public (or private) use of a module is settled once, in order, and its demand is finished unless a cycle was reported |
| `Resolvers.Resolver.ResolveExports` | src/analyzer/resolve.cc:536-572 | it ends on every graph of uses, keeps every invariant, touches no module already reached, and leaves the module finished unless a cycle was reported |
| `Resolvers.Resolver.InjectName` | src/analyzer/resolve.cc:510-531 | the first facade to offer a name appends it to exactly the modules that do not declare it |
| `Resolvers.Resolver.OfferItems` | src/analyzer/resolve.cc:470-493 | every name a facade's own public items carry is offered |
| `Resolvers.Resolver.OfferReexports` | src/analyzer/resolve.cc:494-503 | every name a facade re-exports is offered as the declaration itself |
| `Resolvers.Resolver.InjectPrelude` | src/analyzer/resolve.cc:442-505 | every facade is resolved, every name of its public surface is offered, and each name is credited to the first facade that carries it |
| `Resolvers.ResolveModules` | src/analyzer/resolve.cc:996-1014 | over any tree: lists ordered and sound; a cycle reported exactly when the uses' demands have one; each use settled exactly once; each lookup's answer stands at the end; with nothing reported, every use has what the finished tables say; what is injected is what the first facade that carries the name bestows, and every other module declares the name, imports it itself or means that; nothing private is imported but from the module that declares it, or from a facade whose own public item exposes it |
| `Facades.DiscreetInjectsPub` | src/analyzer/resolve.cc:470-503 | an injected private declaration is exposed by a public item of its own facade; facades without such an item inject nothing private |
| `Facades.LeaksExactlyOnSurface` | src/analyzer/resolve.cc:656-661 | a module's items expose a private declaration of its own if and only if its finished public surface holds it |
| `Facades.MeansPubExactly` | src/analyzer/resolve.cc:510-531 | every name a facade gives means a `pub` declaration if and only if no private one is the first offered under a name that another module leaves open |
| `Facades.PrivacyExactly` | src/analyzer/resolve.cc:470-531 | with nothing reported, facades whose items expose nothing private are enough for that; where each `use` names a declaration of the module it reaches, it holds if and only if no item of a facade exposes a private declaration under a name that no earlier facade's items offer and that some other module's items leave free |
| `Facades.ExposedReaches` | src/analyzer/resolve.cc:470-531 | an item by which a facade exposes a private declaration makes every module that neither declares nor uses the item's name mean that declaration, if no earlier facade has a public item or `use` of the name |
| `Facades.MeantIsExposed` | src/analyzer/resolve.cc:470-531 | a module that means a private declaration by a facade does not declare the name; that facade has a public item exposing the declaration, and one of that very name that exposes it or passes on its own re-export |
| `Facades.PrivateFunctionReaches` | src/analyzer/resolve.cc:495-503 | a facade's `pub use self::hidden as shown` makes an empty module mean the private function |
| `Facades.SameUseRefused` | src/analyzer/resolve.cc:813-831 | the same path written as a `use` is refused as private |
| `Graphs.SettledAcyclic` | src/analyzer/resolve.cc:536-572 | nodes that finish only after everything they lead to leave no cycle |
| `Graphs.ReturnCloses` | src/analyzer/resolve.cc:540-549 | an edge back onto the walk closes a cycle |
| `Fmt.LexAt` | src/analyzer/fmt.h:69-132 | one turn of the parser's loop reads the specified token, the digits kept to 32 bits |
| `Fmt.ParseFormatString` | src/analyzer/fmt.h:60-140 | the loop computes the specified parse, errors and positions included |
| `Fmt.RoundTrip` | src/analyzer/fmt.h:60-140 | parsing what is printed from a canonical list gives the list and its placeholder count |
| `Fmt.ParseYieldsCanonical` | src/analyzer/fmt.h:60-140 | every list parsed without error is canonical and survives printing and parsing again |
| `Fmt.AcceptedExactly` | src/analyzer/fmt.h:60-140 | a string is accepted exactly when it is made of plain characters, doubled braces and placeholders; a refusal is put where these end, and is of the kind what follows calls for |
| `Fmt.PrecisionAcceptedExactly` | src/analyzer/fmt.h:88-116 | a precision is accepted exactly when its low 32 bits are at most 17, which is the stated limit except at and past 2^32 |
| `Fmt.HugePrecisionAccepted` | src/analyzer/fmt.h:91-97 | a precision of 2^32 is accepted as zero |
| `Literals.DigitsAre` | src/comp/comp_value.cc:164-189 | a digit's value is its place among sixteen, small or capital, and no other character has one |
| `Literals.WrittenIsRead` | src/comp/comp_value.cc:164-189 | a number written in any base up to sixteen, in either case, is read as itself |
| `Literals.ParseDigits` | src/comp/comp_value.cc:164-189 | the loop computes the number modulo 2^64 and raises its flag exactly when the number does not fit |
| `Literals.ParseNumericValue` | src/comp/comp_value.cc:136-190 | the same for a whole spelling, after the suffix and the prefix the parse takes off |
| `Literals.DigitEnd` | src/analyzer/types_literal.cc:44-105 | the scan stops where the specified one does |
| `Literals.ClassifyReads` | src/analyzer/types_literal.cc:31-105 | every well-formed literal is split exactly where its digits end |
| `Literals.FloatingClassified` | src/analyzer/types_literal.cc:44-105 | a decimal literal with a point, an exponent or both is split where its digits end, too |
| `Literals.NoExponent` | src/analyzer/types_literal.cc:44-105 | an exponent's letter without a digit after it is not one of the digits |
| `Literals.SuffixesExactly` | src/comp/comp_value.cc:121-124 | the suffixes the parse strips are those of the types that have literals, and `isize` and `usize` |
| `Literals.ParseReadsExactly` | src/comp/comp_value.cc:136-190 | the parse reads the number written if and only if the literal is not hexadecimal digits ending like a float suffix |
| `Literals.HexDigitsLost` | src/comp/comp_value.cc:137-145 | `0x1f32` has no suffix for the checker and is read as the number one |
| `Literals.IntLiteralFits` | src/analyzer/types_literal.cc:147-172 | a literal is admitted exactly when the number with its sign is in the type's range |
| `Literals.LiteralKeepsItsValue` | src/analyzer/comp_evaluator.cc:310-317 | what the evaluator answers for a literal `Literals.IntLiteralFits` admits means the number written, cut to its type; a negative one is stored beyond its width, exactly for types narrower than 64 bits |
| `Suite.SuiteCheck.Visit` | tools/embed_std.py:115-126 | the search ends on every graph, settles the node, or answers a walk that closes |
| `Suite.SuiteCheck.VisitAll` | tools/embed_std.py:123-124 | every dependency of a node is settled, or the walk that closes is answered |
| `Suite.WitnessCloses` | tools/embed_std.py:118-121 | a walk whose last package occurs earlier is a cycle |
| `Suite.CheckSuite` | tools/embed_std.py:104-129 | the check passes if and only if every dependency names a member and the graph has no cycle; a refusal names a real stray edge or a real walk that closes |
| `Client.CompilerClient.RejectAll` | site/shared/compiler-client.ts:108-113 | every pending request is rejected once, in the order they were made |
| `Client.CompilerClient.Connect` | site/shared/compiler-client.ts:117-148 | a worker is created only when none is alive |
| `Client.CompilerClient.MakeRequest` | site/shared/compiler-client.ts:151-158 | a request takes a new id and is posted to the live worker |
| `Client.CompilerClient.OnMessage` | site/shared/compiler-client.ts:122-133 | an answer settles the pending request of its id and no other |
| `Client.CompilerClient.OnError` | site/shared/compiler-client.ts:134-142 | an error clears the worker if it is the live one and rejects whatever is pending |
| `Client.CompilerClient.OnUnreadable` | site/shared/compiler-client.ts:143-145 | an unreadable message rejects whatever is pending and keeps the worker |
| `Client.CompilerClient.Close` | site/shared/compiler-client.ts:160-164 | disposal leaves no worker and nothing pending |
| `Client.EveryRunSound` | site/shared/compiler-client.ts:103-166 | over every sequence of events each id is pending or settled, never both, settled at most once and by its own answer, and nothing is pending without a live worker |
| `Client.SettledStays` | site/shared/compiler-client.ts:103-166 | a settlement is never revised |
| `Client.LateAnswerIgnored` | site/shared/compiler-client.ts:128-132 | an answer to a settled request changes nothing, however late |
| `Client.AnswerResolves` | site/shared/compiler-client.ts:122-133 | an answer to a pending request resolves it with that answer's payload and leaves the others pending in order |
| `Client.EverySettlementCaused` | site/shared/compiler-client.ts:103-166 | every settlement has its cause: a resolved one its own answer with that payload, a rejected one a failure or disposal with that reason |
| `Client.EveryRunCurrent` | site/shared/compiler-client.ts:103-166 | every pending request was posted to the worker now alive |
| `Client.ErrorRejectsItsOwnExactly` | site/shared/compiler-client.ts:134-145 | an error or unreadable message rejects only its own worker's requests exactly when that worker is live or nothing is pending |
| `Client.StaleErrorRejects` | site/shared/compiler-client.ts:134-145 | an error, or an unreadable message, of a disposed worker rejects a request posted to its successor |
| `Client.ProgramRun.FinishWith` | site/shared/compiler-client.ts:187-195 | the first event settles the run and stops the worker and the timer; later ones do nothing |
| `Client.RunEvents` | site/shared/compiler-client.ts:181-216 | whatever events come, a run settles once, as the first of them says |

## Left out

- The call recorder and the compiled-code runner of `comp_run_fn` (src/analyzer/comp_evaluator.cc:1002-1033): none is installed.
- Layout queries (`size_of`, `align_of`) and the other intrinsics without a compile-time form: refused in the model as in the source; their layouts are not part of this model.
- Diagnostics' texts and spans, profiling, arenas and string interning: a diagnostic is a recorded event.
- Escape decoding (`comp::unescape`, `text::unescape_string`): string literals are their decoded bytes.
- The checker's own passes: what they leave in tables is an input, and nothing is assumed of it but what the source assumes.
- The staging of the prelude's tree inside `run` (src/analyzer/resolve.cc:886-940): the tree's shape is an input to resolution, required only to have every index in range and every parent before its child.
- `attach_dependency_module` with an empty name, which only moves a summary's items onto the package's root.
- The table from suffix text to type in `classify_suffix`, and its pointer width: only where the suffix begins is modelled.
- The items a summary spells around its types (`spell_summary_surface` beyond its two tables): names and spans.
- Standard-library hints of unresolved names: they change a message only.
- Evaluators.CompEvaluator.EvalPlace: the source holds a pointer into the aggregate while it evaluates the index; when that evaluation replaces the aggregate the pointer dangles, where the model reads the path again (`Purity.IndexPlaceIsHeld` says when the two agree).
- Lang.FieldType: follows at most as many references as the table has rows; on a chain that goes round in the table the source's recursion never returns.
- Evaluators.CompEvaluator.EvalConstItem: a const item is looked up by the importing module and name in one table, which stands for the source's walk over statics and imports.
- Spelling.SpellType: requires that structural types rest on their parts, a cycle always passing through a struct or an enum; on any other table the source's recursion does not end.
- Shapes.ShapesMatch: completeness is stated up to the walk's own limit of 4096 assumed pairs, past which the source answers false by design.
- Facades.PrivacyExactly: its two-way half on items covers trees whose uses each name a declaration of the module they reach; with uses of re-exports the two-way statement is the one on finished tables, `Facades.MeansPubExactly`, and the items give `Facades.ExposedReaches` and `Facades.MeantIsExposed`.
- Staged.IsStagedItem: the index is given sorted and complete; the sort is the standard library's.
- Forests.Forest.Attach: takes the segments between the slashes of a module's name, already split.
- Client.Step: a status message is passed on to the page and changes no state; worker creation and message posting are effects outside the model.
