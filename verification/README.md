# A verified model of the SHIT-compiler test harness and optimiser kernels

This project models, in Dafny, two parts of the SHIT-compiler repository (a
SysY compiler with a mid-level IR, "Mir", and a RISC-V back end):

- the regression harness `tests/auto_test.py`: test discovery, the duration
  text codec (`strptime` / `strftime`), the performance ledger that keeps each
  test's best time and the commit that reached it, the speed-up column, the
  markdown report and the exit status of a suite;
- the small algorithmic kernels of the compiler: the interval-set domain of
  the interval analysis, the difference-bound matrix (`Constraint`) and value
  numbering (`Map`) of branch-constraint reduction, the comparison and
  binary-operator tables of Mir instructions, overflow-checked constant
  folding (`safe_calculate_int`), the RISC-V division-by-constant and
  multiplication-plan optimisers, the back-end variable types, the RISC-V
  stack frame, the interpreter's byte memory and call cache, the algebraic
  simplification rules, phi elimination (critical edges and the lowering of a
  parallel copy into moves), and operand standardisation.

Every module is pure: datatypes, functions and lemmas, with a few methods
where the source is a loop. 32-bit `int` arithmetic is modelled explicitly
(module `Int32`: `Wrap`, C's truncating `/` and `%`), and so is `size_t`
wrap-around. Of C's undefined cases, only a division by zero and
`INT_MIN / -1` give no value; signed overflow of `+`, `-` and `*` is taken
to wrap (see "## Left out" for where the compiler's own arithmetic does
this). In the test harness the speed-up is
`(last - this) / this`, so a test is shown red when it got slower. Dividing
by a zero current time raises `ZeroDivisionError`, and the model keeps that
as an explicit outcome.

Modules: `Wrappers`, `Int32`, `Arith`, `Bits` (shared arithmetic);
`DurationCodec`, `Text`, `StableSort`, `PerfLedger`, `SuiteRunner` (the
harness); `SafeCalc`, `MirOps`, `DivRemOpt`, `MulPlan`, `IntervalSets`,
`ConstrainReduce`, `VariableTypes`, `RiscvStack`, `InterpMemory`,
`AlgebraicSimplify`, `RemovePhi`, `StandardizeBinary` (the compiler).

## Model

| member | source | states |
|---|---|---|
| DurationCodec.NatToString | tests/auto_test.py:46 | the decimal text of a count is a non-empty digit run whose value is the count |
| DurationCodec.DigitRun | tests/auto_test.py:37 | a `\d+` group is read greedily: it ends at the text's end or at the first non-digit |
| DurationCodec.AsciiDigits | tests/auto_test.py:37-41 | the digits `\d` and `int` accept are the Unicode decimal digits; among ASCII characters they are exactly `0` to `9`, valued as usual, and other scripts' digits count too (`\u0663` is 3) |
| DurationCodec.DigitValue | tests/auto_test.py:41 | a digit's value is below 10 and is its distance from the zero of its Unicode block |
| DurationCodec.MatchGroupsSound | tests/auto_test.py:37-38 | a successful match of the pattern is a prefix of the text from the match position |
| DurationCodec.MatchGroupsComplete | tests/auto_test.py:37-38 | any digit groups followed by their separators at the match position are exactly what the pattern matches |
| DurationCodec.StrptimeSound | tests/auto_test.py:35-41 | a parsed count is hours, minutes, seconds and microseconds of groups that really occur in the text, combined as 3600/60/1 seconds plus microseconds |
| DurationCodec.StrptimeComplete | tests/auto_test.py:35-41 | every text beginning with a well-formed duration at the match position parses to that duration's count |
| DurationCodec.StrptimeRejectsNonDigit | tests/auto_test.py:38-39 | text without a digit at the match position gives `None`, not an error |
| DurationCodec.StrptimeLabelled | tests/auto_test.py:36 | the `TOTAL: ` label is skipped: a labelled duration parses to the same count |
| DurationCodec.FormatValue | tests/auto_test.py:44-46 | the four displayed fields recombine to the original microsecond count |
| DurationCodec.StrptimeStrftime | tests/auto_test.py:35-46 | parsing a formatted duration gives the duration back, for every count |
| Text.Repeat | tests/auto_test.py:23 | repeating a string n times gives n times its length |
| Text.StripIsTrim | tests/auto_test.py:110-111 | `strip()` yields a slice of the text with only whitespace (the characters of Python's `str.isspace`, ASCII and Unicode) cut on either side, and no whitespace at its ends |
| Text.ReplaceNewlines | tests/auto_test.py:110-111 | replacing newlines by `<br>` leaves no newline and adds three characters per newline |
| Text.LexLeTotal | tests/auto_test.py:113 | any two names are ordered one way or the other by Python's string order |
| Text.LexLeTransitive | tests/auto_test.py:113 | the string order used as sort key is transitive |
| Text.LexLeAntisymmetric | tests/auto_test.py:113 | two names ordered both ways are equal |
| StableSort.SortByKeyCorrect | tests/auto_test.py:113 | sorting by name gives a sorted permutation of the rows |
| StableSort.SortByKeyStable | tests/auto_test.py:113 | rows with equal names keep their original relative order |
| PerfLedger.PerfRowOf | tests/auto_test.py:109-112 | a passed test's row reads ACCEPTED with its cleaned message; a failed test's status is its cleaned message and its time cell is empty |
| PerfLedger.PerformanceSorted | tests/auto_test.py:109-113 | the performance rows come out ordered by test name |
| PerfLedger.FailedHasNoTime | tests/auto_test.py:111-114 | a failed test has no time in this run |
| PerfLedger.MergeBest | tests/auto_test.py:127-130 | the new best exists when either time does, is one of the two and no larger than either, and carries the hash of the run that set it; a tie keeps the old hash |
| PerfLedger.BestAfterIsMinimum | tests/auto_test.py:126-130 | after any series of runs the best is no larger than the starting best or any run's time |
| PerfLedger.SpeedUpOf | tests/auto_test.py:122-123 | unknown exactly when a time is missing, a division by zero exactly for a zero current time, otherwise the ratio r with r * this == last - this |
| PerfLedger.ColourRedIffSlower | tests/auto_test.py:133 | a row is red exactly when this run is slower than the stored best |
| PerfLedger.TimesOf | tests/auto_test.py:117 | the time dictionary has exactly the names of the ledger rows |
| PerfLedger.HashesOf | tests/auto_test.py:118 | the hash dictionary has exactly the names of the ledger rows |
| PerfLedger.TimesOfLastRowWins | tests/auto_test.py:117 | for a name listed twice, the later row's time is kept |
| PerfLedger.HashesOfLastRowWins | tests/auto_test.py:118 | for a name listed twice, the later row's hash is kept |
| PerfLedger.LoadLedger | tests/auto_test.py:115-118 | reading fails exactly on an empty file or rows too short for their columns; a two-column ledger yields no hashes |
| PerfLedger.LastTimes | tests/auto_test.py:115-121 | one previous entry per performance row, and `(None, None)` for all when the file is missing |
| PerfLedger.BestRow | tests/auto_test.py:136 | a ledger row has three cells and starts with the test name |
| PerfLedger.RunBookkeeping | tests/auto_test.py:109-138 | a report has one line per test, and the new ledger has the header plus one row per test |
| PerfLedger.LedgerRoundTrip | tests/auto_test.py:116-119 | reading back the written ledger gives each test the best time and hash that were written |
| PerfLedger.LedgerNeverRegresses | tests/auto_test.py:115-138 | across one run, the stored best for a test never exceeds its previous best or this run's time |
| PerfLedger.TwoColumnLedgerHasNoHashes | tests/auto_test.py:118-135 | an old two-column ledger gives no previous hashes and an empty hash cell |
| SuiteRunner.Discover | tests/auto_test.py:88-96 | every task comes from a listed `.sy` file that is not hidden |
| SuiteRunner.DiscoverComplete | tests/auto_test.py:89-96 | every listed test source becomes a task, one task per source |
| SuiteRunner.DiscoverCount | tests/auto_test.py:89-96 | the task count is the number of test sources in the listing |
| SuiteRunner.TaskPaths | tests/auto_test.py:91 | the task name is the source path without its `.sy` |
| SuiteRunner.TaskInput | tests/auto_test.py:92-94 | the input is `/dev/null` exactly when the `.in` file is absent |
| SuiteRunner.Table | tests/auto_test.py:20-25 | the report has a header, a separator and one line per row |
| SuiteRunner.SeparatorCells | tests/auto_test.py:23 | the separator line has one cell per title column |
| SuiteRunner.TableLineCells | tests/auto_test.py:22-25 | a row line has one cell per value when no value holds a pipe |
| SuiteRunner.HeaderMatchesSeparator | tests/auto_test.py:20-25 | header and separator delimit the same number of cells |
| SuiteRunner.CountPassed | tests/auto_test.py:101 | the pass count never exceeds the number of results |
| SuiteRunner.CountPassedAll | tests/auto_test.py:101-139 | every test passed exactly when the pass count equals the number of results |
| SuiteRunner.FailedNamesSorted | tests/auto_test.py:141-147 | for results sorted by name, the failure listing is sorted too and names exactly the failed tests |
| SuiteRunner.EndSuiteCorrect | tests/auto_test.py:139-151 | a suite returns exactly when all passed; otherwise it exits with status 1 after listing exactly the failures, sorted |
| SuiteRunner.SuiteStatus | tests/auto_test.py:104-151 | a suite returns exactly when all its tests passed and its bookkeeping raised nothing; an exception from the bookkeeping (which runs first) gives status 1, and so does a failed test |
| SuiteRunner.RunSuites | tests/auto_test.py:8-10 | with no suite named, `usage()` exits with -1, status 255, and no suite runs |
| SuiteRunner.RunSuitesCorrect | tests/auto_test.py:184-190 | status 255 when no suite is named; otherwise status 0 exactly when every suite passed every test and its bookkeeping did not raise, and otherwise status 1 with the run stopped at the first suite that failed or raised |
| SuiteRunner.EmptyLedgerStops | tests/auto_test.py:29-31 | a performance suite whose tests all pass but whose ledger file is empty ends the harness with status 1 before the next suite |
| SafeCalc.SafePlus | include/Pass/Util.h:70-73 | `nullopt` exactly when the true sum leaves the 32-bit range, otherwise the sum |
| SafeCalc.SafeMinus | include/Pass/Util.h:74-77 | `nullopt` exactly when the true difference leaves the 32-bit range, otherwise the difference |
| SafeCalc.SafeMultiplies | include/Pass/Util.h:78-96 | the quotient guards reject exactly the products outside 32 bits; a zero operand gives 0 and `-1 * INT_MIN` is rejected |
| SafeCalc.SafeDivides | include/Pass/Util.h:97-100 | `nullopt` exactly for a zero divisor or `INT_MIN / -1`, otherwise C's truncating quotient |
| SafeCalc.SafeModulus | include/Pass/Util.h:101-104 | `nullopt` in the same cases, otherwise C's remainder, smaller in magnitude than the divisor |
| SafeCalc.QuotientInRange | include/Pass/Util.h:97-100 | every quotient the guards let through fits in 32 bits |
| SafeCalc.RemainderBound | include/Pass/Util.h:101-104 | the remainder is smaller than the divisor, no larger than the dividend, and has the dividend's sign |
| MirOps.IcmpSwapOp | include/Mir/Instruction.h:329-342 | the swapped operator holds on swapped operands exactly when the original holds; EQ and NE are kept |
| MirOps.FcmpSwapOp | include/Mir/Instruction.h:277-290 | the same law for floating-point comparisons, with the same table as the integer swap |
| MirOps.IcmpInverseOp | include/Mir/Instruction.h:344-360 | the inverse operator holds exactly when the original fails |
| MirOps.SwapInvolution | include/Mir/Instruction.h:329-342 | swapping twice gives the operator back |
| MirOps.InverseInvolutionNoFixedPoint | include/Mir/Instruction.h:344-360 | inverting twice gives the operator back, and no operator is its own inverse |
| MirOps.ReverseOp | include/Mir/Instruction.h:362-365 | `reverse_op` exchanges the operands and keeps the comparison's truth in every environment |
| MirOps.ReverseOpTwice | include/Mir/Instruction.h:292-295 | reversing twice restores the comparison |
| MirOps.EvalInt | include/Mir/Instruction.h:664 | an integer operator has no value exactly for DIV or MOD by zero or `INT_MIN` by -1 |
| MirOps.IntIsCommutative | include/Mir/Instruction.h:680-693 | SUB, DIV and MOD are not commutative |
| MirOps.IntIsAssociative | include/Mir/Instruction.h:695-708 | `is_associative` marks exactly the operators `is_commutative` marks |
| MirOps.IsAssociativeOp | include/Mir/Instruction.h:710-723 | `is_associative_op` agrees with `is_associative` |
| MirOps.CommutativeIffSemantic | include/Mir/Instruction.h:680-693 | an operator is marked commutative exactly when swapping operands never changes its 32-bit result |
| MirOps.AssociativeSemantic | include/Mir/Instruction.h:695-708 | every operator marked associative regroups freely in 32-bit arithmetic |
| MirOps.FloatIsAssociative | include/Mir/Instruction.h:744-766 | the floating-point tables agree with each other and mark the same operators as their integer counterparts |
| DivRemOpt.PowerOf2Test | src/Backend/InstructionSets/RISC-V/Opt/Arithmetic.cpp:226 | for positive x, `x & (x - 1) == 0` exactly when x is a power of two |
| DivRemOpt.IsPowerOf2Iff | src/Backend/InstructionSets/RISC-V/Opt/Arithmetic.cpp:226 | `isPowerOf2` holds exactly for the positive powers of two |
| DivRemOpt.NumberOfLeadingZerosBounds | src/Backend/InstructionSets/RISC-V/Opt/Arithmetic.cpp:228-249 | 32 for zero, 0 for negatives, and for positive x the n with 2^(31-n) <= x < 2^(32-n) |
| DivRemOpt.Log2FloorOfPowerOf2 | src/Backend/InstructionSets/RISC-V/Opt/Arithmetic.cpp:251 | the floor logarithm of a power of two is its exponent, between 0 and 30 |
| DivRemOpt.ApplyDivConst | src/Backend/InstructionSets/RISC-V/Opt/Arithmetic.cpp:253-298 | no plan exactly for 0 and `INT_MIN`; negation exactly for a negative divisor; a move exactly for magnitude 1; a shift by the exponent for powers of two; the magic-number path only for other divisors |
| DivRemOpt.ShiftQuotientIsTDiv | src/Backend/InstructionSets/RISC-V/Opt/Arithmetic.cpp:268-283 | the `srli`/`addw`/`sraiw` sequence computes C's truncating quotient by 2^x |
| DivRemOpt.NegativeDivisorAsWritten | src/Backend/InstructionSets/RISC-V/Opt/Arithmetic.cpp:368-372 | dividing 4 by -1 with 7 left in `ans` gives 3 instead of -4 |
| DivRemOpt.CorrectedPowerOf2Division | src/Backend/InstructionSets/RISC-V/Opt/Arithmetic.cpp:257-283 | with `ans = 0 - q`, every divisor of power-of-two magnitude yields the 32-bit C quotient |
| MulPlan.EvalIsMultiplication | src/Backend/InstructionSets/RISC-V/Opt/Arithmetic.cpp:119-197 | a valid plan of shifts, adds and subtracts computes x times its multiplier |
| MulPlan.TryAddOp | src/Backend/InstructionSets/RISC-V/Opt/Arithmetic.cpp:40-47 | only a constant without a plan gets the new plan and joins the level; existing plans are kept |
| MulPlan.TryAddOpKeepsInvariant | src/Backend/InstructionSets/RISC-V/Opt/Arithmetic.cpp:40-47 | every recorded plan stays valid, computes its constant in 32 bits and stays within its level's cost |
| MulPlan.ShiftOnce | src/Backend/InstructionSets/RISC-V/Opt/Arithmetic.cpp:71-80 | the shift loop stops exactly when the shifted constant turns negative |
| MulPlan.Initialize | src/Backend/InstructionSets/RISC-V/Opt/Arithmetic.cpp:50-108 | the table is valid, 0 and 1 are seeded, and every power of two from 2^1 to 2^31 has a plan |
| MulPlan.Publish | src/Backend/InstructionSets/RISC-V/Opt/Arithmetic.cpp:102-106 | copying the levels into the table changes nothing, as every level entry is already in it |
| MulPlan.MakePlan | src/Backend/InstructionSets/RISC-V/Opt/Arithmetic.cpp:111-116 | `MulFinal` exactly when the constant has no plan; otherwise a valid plan for it costing at most 3 |
| MulPlan.MulConstCorrect | src/Backend/InstructionSets/RISC-V/Opt/Arithmetic.cpp:199-224 | the emitted sequence, planned or not, computes the 32-bit product |
| MulPlan.MulByConst | src/Backend/InstructionSets/RISC-V/Opt/Arithmetic.cpp:111-116 | the result is the 32-bit product, and 0, 1 and the powers of two cost at most 3 |
| IntervalSets.Range | include/Pass/Analyses/IntervalAnalysis.h:171-176 | the constructed set is normalized and empty exactly when lower > upper |
| IntervalSets.ConstructorPoints | include/Pass/Analyses/IntervalAnalysis.h:171-188 | a range holds its bounds and what lies between, a constant only itself, `make_any` every `int` |
| IntervalSets.Hull | include/Pass/Analyses/IntervalAnalysis.h:90-108 | the merge of two touching intervals covers exactly their points |
| IntervalSets.SortByLoPermutes | include/Pass/Analyses/IntervalAnalysis.h:150 | the sort only reorders the intervals |
| IntervalSets.SortByLoSorted | include/Pass/Analyses/IntervalAnalysis.h:150 | the sort leaves the intervals ordered by lower bound |
| IntervalSets.AbsorbAsWritten | include/Pass/Analyses/IntervalAnalysis.h:90-98 | the merge step with the `int` sum of the source is the corrected step unless both uppers are `INT_MAX`; when the bounds do not touch as written, the new interval is appended |
| IntervalSets.OverlapAtMaxAsWritten | include/Pass/Analyses/IntervalAnalysis.h:90-98 | as written, [0, INT_MAX] and [5, INT_MAX] do not touch although they overlap, so the merge step keeps both and the result is not in normal form |
| IntervalSets.NormalizeCorrect | include/Pass/Analyses/IntervalAnalysis.h:145-163 | with the corrected, overflow-free merge test, `normalize` keeps exactly the same points and leaves sorted, separated, non-empty intervals |
| IntervalSets.NormalizeFixesCanonical | include/Pass/Analyses/IntervalAnalysis.h:145-163 | a normalized set is left unchanged |
| IntervalSets.NormalizeIdempotent | include/Pass/Analyses/IntervalAnalysis.h:145-163 | normalizing twice is normalizing once |
| IntervalSets.Union | include/Pass/Analyses/IntervalAnalysis.h:202-210 | the undefined set is the identity of union on either side |
| IntervalSets.UnionCorrect | include/Pass/Analyses/IntervalAnalysis.h:202-214 | with the corrected merge test, the union holds exactly the points of either set, and is normalized |
| IntervalSets.IntersectCorrect | include/Pass/Analyses/IntervalAnalysis.h:217-239 | the intersection holds exactly the points of both; undefined on one side returns the other |
| IntervalSets.IntersectCanonical | include/Pass/Analyses/IntervalAnalysis.h:226-237 | intersecting normalized sets needs no normalization: the result is already normalized |
| IntervalSets.WidenTrivial | include/Pass/Analyses/IntervalAnalysis.h:243-249 | an empty or undefined operand makes widening return the other one |
| IntervalSets.WidenShape | include/Pass/Analyses/IntervalAnalysis.h:251-262 | widening gives one interval whose bounds jump to the infinities exactly where the new set grew |
| IntervalSets.WidenCovers | include/Pass/Analyses/IntervalAnalysis.h:242-264 | the widened set covers every point of both operands |
| IntervalSets.Apply | include/Pass/Analyses/IntervalAnalysis.h:267-299 | undefined operands give undefined, empty operands give empty |
| IntervalSets.CombineAllLength | include/Pass/Analyses/IntervalAnalysis.h:275-279 | the double loop emits one interval per pair of operand intervals |
| IntervalSets.ApplySound | include/Pass/Analyses/IntervalAnalysis.h:267-480 | `+`, `-` (lines 267-299) and `max` (lines 461-480) of two points of the operands lie in the result; likewise the corrected `%` (the source's at lines 351-381) |
| IntervalSets.ApplyComplete | include/Pass/Analyses/IntervalAnalysis.h:267-480 | every point of a `+`, `-` (lines 267-299) or `max` (lines 461-480) result is the value of some pair of operand points |
| IntervalSets.RemPositiveDivisor | include/Pass/Analyses/IntervalAnalysis.h:366-370 | a positive divisor range [c, d] gives [0, d - 1] whatever the dividend |
| IntervalSets.RemMissesNegativeDividend | include/Pass/Analyses/IntervalAnalysis.h:366-370 | -5 % 3 is -2 in C, yet the result is [0, 2] |
| IntervalSets.RemMissesPositiveDividend | include/Pass/Analyses/IntervalAnalysis.h:371-376 | 5 % -3 is 2 in C, yet the result is [-2, 0] |
| IntervalSets.RemUsesWrongDivisorBound | include/Pass/Analyses/IntervalAnalysis.h:371-376 | -5 % -6 is -5 in C, yet the result is [0, 0] |
| IntervalSets.RemCheckedSound | include/Pass/Analyses/IntervalAnalysis.h:351-381 | the corrected `%` contains C's remainder of every dividend and non-zero divisor of the operands |
| ConstrainReduce.New | src/Pass/Transform/DataFlow/ConstrainReduce.cpp:30-34 | a new matrix is square with zero on the diagonal and no bound elsewhere, so it rules out no valuation |
| ConstrainReduce.AddDiff | src/Pass/Transform/DataFlow/ConstrainReduce.cpp:112-114 | `add_relation(i, j, diff)` never loosens an entry, and a valuation meets the result exactly when it meets the old matrix and v_i - v_j <= diff |
| ConstrainReduce.AddRelation | src/Pass/Transform/DataFlow/ConstrainReduce.cpp:78-109 | recording a comparison never loosens an entry and adds exactly that comparison to the valuations met; NE adds nothing |
| ConstrainReduce.Deduce | src/Pass/Transform/DataFlow/ConstrainReduce.cpp:116-154 | whenever `deduce_relation` answers, the answer is the comparison's truth in every valuation meeting the matrix |
| ConstrainReduce.DeduceSwap | src/Pass/Transform/DataFlow/ConstrainReduce.cpp:146-149 | asking about (i, j, op) is asking about (j, i, swapped op) |
| ConstrainReduce.DeduceAfterAdd | src/Pass/Transform/DataFlow/ConstrainReduce.cpp:78-154 | a comparison just recorded is deduced to hold |
| ConstrainReduce.PropagateNeverIncreases | src/Pass/Transform/DataFlow/ConstrainReduce.cpp:66-76 | `propagate` never loosens any entry |
| ConstrainReduce.PropagateSound | src/Pass/Transform/DataFlow/ConstrainReduce.cpp:66-76 | every valuation meeting the matrix still meets it after `propagate` |
| ConstrainReduce.PropagateCloses | src/Pass/Transform/DataFlow/ConstrainReduce.cpp:66-76 | on a satisfiable matrix, after `propagate` no entry exceeds a path through any third value |
| ConstrainReduce.GetId | src/Pass/Transform/DataFlow/ConstrainReduce.cpp:156-173 | a known key keeps its number; a new key gets `cnt + 1`; the lookup throws exactly when the map would reach 100 keys; numbering stays injective |
| VariableTypes.ToPointer | src/Backend/VariableTypes.cpp:14-25 | `to_pointer` yields a pointer exactly for types other than void and label, leaves those alone, and is undone by `to_reference` |
| VariableTypes.PointerIdempotent | src/Backend/VariableTypes.cpp:14-25 | applying `to_pointer` twice equals applying it once |
| VariableTypes.ToReference | src/Backend/VariableTypes.cpp:27-38 | `to_reference` of a pointer is a type with a pointer; other types are left alone |
| VariableTypes.ReferenceRoundTrip | src/Backend/VariableTypes.cpp:14-38 | `to_reference` of a pointer is undone by `to_pointer` and leaves other types alone |
| VariableTypes.PointerBijection | src/Backend/VariableTypes.cpp:14-25 | distinct element types have distinct pointer types |
| VariableTypes.TypeToSize | src/Backend/VariableTypes.cpp:40-48 | sizes are 1, 4 or 8: pointers take 8, exactly INT32 and FLOAT take 4, exactly INT1 and INT8 take 1 |
| VariableTypes.IsInt | src/Backend/VariableTypes.cpp:76-103 | the integer register class is the pointers and the integer types, and no type is both integer and float |
| RiscvStack.AddVariableIdempotent | include/Backend/InstructionSets/RISC-V/Modules.h:29-36 | adding a variable already on the stack changes nothing |
| RiscvStack.AddVariable | include/Backend/InstructionSets/RISC-V/Modules.h:29-36 | a name already present leaves the stack unchanged and logs nothing; a fresh name grows the 32-bit frame size by the variable's size, is placed at the new size, keeps every other position, and is logged exactly when its object does not live on the stack |
| RiscvStack.AddParameter | include/Backend/InstructionSets/RISC-V/Modules.h:38-42 | the parameter is placed at `-sp_plus`, overriding any earlier position, the frame size and other positions are kept, and a non-stack object is logged |
| RiscvStack.Align | include/Backend/InstructionSets/RISC-V/Modules.h:44-46 | the masked value never exceeds `stack_size + alignment - 1` |
| RiscvStack.OffsetOf | include/Backend/InstructionSets/RISC-V/Modules.h:48-57 | there is a result exactly for function-local variables; it leaves the frame size alone, logs exactly when the name was never stored, and then inserts it; a known name leaves the stack unchanged |
| RiscvStack.NonStackLogged | include/Backend/InstructionSets/RISC-V/Modules.h:29-57 | a variable whose object does not live on the stack is logged by `add_variable` and `add_parameter`, which otherwise place it as a stack object, and `offset_of` has no result for it |
| RiscvStack.UnknownNameOffset | include/Backend/InstructionSets/RISC-V/Modules.h:48-55 | the offset of a name never stored is logged, the name is inserted at position 0, and the offset is the 16-aligned frame size |
| RiscvStack.FrameLog | include/Backend/InstructionSets/RISC-V/Modules.h:29-36 | adding distinct variables logs nothing exactly when all of them live on the stack |
| RiscvStack.AlignRoundsUp | include/Backend/InstructionSets/RISC-V/Modules.h:44-46 | the mask rounds the frame size up to the next multiple of a power-of-two alignment |
| RiscvStack.Align16 | include/Backend/InstructionSets/RISC-V/Modules.h:44-46 | `align(16)` is the frame size rounded up to a multiple of 16 |
| RiscvStack.FrameLayout | include/Backend/InstructionSets/RISC-V/Modules.h:26-36 | after adding distinct variables, the frame is 8 bytes plus their sizes, holds exactly their names, each sits at the running total, and nothing is logged exactly when all live on the stack |
| RiscvStack.OffsetAt | include/Backend/InstructionSets/RISC-V/Modules.h:48-57 | each function-local variable of the frame is found, without a message and without changing the stack, at the 16-aligned frame size minus its running total |
| RiscvStack.FrameOffsets | include/Backend/InstructionSets/RISC-V/Modules.h:29-57 | offsets are non-negative, stay below the return-address slot, and distinct variables do not overlap |
| RiscvStack.ParameterOffset | include/Backend/InstructionSets/RISC-V/Modules.h:38-54 | a parameter passed at `sp + k` is found at offset `-k`, with nothing logged and the stack unchanged by the lookup |
| InterpMemory.AlignUp | include/Mir/Interpreter.h:71-73 | the bump pointer moves to the least multiple of the alignment at or past it |
| InterpMemory.Allocate | include/Mir/Interpreter.h:70-80 | an allocation is aligned, starts at or past the old pointer, grows the storage with zeros only as needed, keeps old bytes and keeps the bump pointer within the storage |
| InterpMemory.AllocationsDisjoint | include/Mir/Interpreter.h:70-80 | two allocations in a row do not overlap |
| InterpMemory.Write | include/Mir/Interpreter.h:82-88 | with the corrected bounds check (no `size_t` wrap-around), a write succeeds exactly within bounds, stores its bytes, changes nothing else and keeps the size and bump pointer |
| InterpMemory.Read | include/Mir/Interpreter.h:97-106 | with the corrected bounds check (no `size_t` wrap-around), a read succeeds exactly within bounds and returns the stored bytes |
| InterpMemory.ReadAfterWrite | include/Mir/Interpreter.h:82-106 | reading back what was written returns it |
| InterpMemory.ReadOtherAfterWrite | include/Mir/Interpreter.h:82-106 | a write does not disturb bytes it does not cover |
| InterpMemory.WriteTwice | include/Mir/Interpreter.h:82-88 | of two writes of one width to one address, the second wins |
| InterpMemory.ZeroFill | include/Mir/Interpreter.h:90-95 | `zero_fill` is a write of zeros with the same corrected bounds check (no `size_t` wrap-around), and the range reads back as zeros |
| InterpMemory.AllocateThenFill | include/Mir/Interpreter.h:70-95 | a fresh allocation can be zero-filled and then reads as zeros |
| InterpMemory.DecodeEncode | include/Mir/Interpreter.h:87-104 | the little-endian bytes of a value decode back to it |
| InterpMemory.IntRoundTrip | include/Mir/Interpreter.h:82-106 | an `int` written in bounds reads back unchanged |
| InterpMemory.NegativeAddressPassesAsWritten | include/Mir/Interpreter.h:83-85 | the address -4 cast to `size_t` passes the check on empty storage, since the sum wraps |
| InterpMemory.NegativeAddressRejected | include/Mir/Interpreter.h:82-106 | with the check done without wrap-around, a negative address is always out of range |
| InterpMemory.PutThenGet | include/Mir/Interpreter.h:42-62 | after `put`, the key is present with its value, other keys are unchanged, and the size grows only for a new key |
| InterpMemory.GetMisses | include/Mir/Interpreter.h:49-62 | `get` fails exactly on a missing key (where the source falls into undefined behaviour), and `clear` empties the cache |
| InterpMemory.KeyHashWidth | include/Mir/Interpreter.h:24-33 | the combined hash stays a 64-bit value |
| AlgebraicSimplify.ReduceAdd | src/Pass/Transform/Common/AlgebraicSimplify.cpp:30-171 | `reduce_add` never makes the pass itself fail, with its constant folds wrapping at 32 bits |
| AlgebraicSimplify.ReduceSub | src/Pass/Transform/Common/AlgebraicSimplify.cpp:173-346 | `reduce_sub` never makes the pass itself fail, with its constant folds wrapping at 32 bits |
| AlgebraicSimplify.ReduceMul | src/Pass/Transform/Common/AlgebraicSimplify.cpp:348-395 | `reduce_mul` never fails, with its constant folds wrapping at 32 bits, and leaves a product alone unless its right operand is a constant |
| AlgebraicSimplify.ReduceDivAsWritten | src/Pass/Transform/Common/AlgebraicSimplify.cpp:397-484 | as written, `reduce_div` makes the pass fail exactly on `(a * c2) / 0` |
| AlgebraicSimplify.ReduceDiv | src/Pass/Transform/Common/AlgebraicSimplify.cpp:397-484 | corrected, `reduce_div` never fails and agrees with the written rules except on `(a * c2) / 0` and `(0 - a) / a` |
| AlgebraicSimplify.ReduceModAsWritten | src/Pass/Transform/Common/AlgebraicSimplify.cpp:486-524 | as written, `reduce_mod` makes the pass fail exactly on `(a * c2) % 0` |
| AlgebraicSimplify.ReduceMod | src/Pass/Transform/Common/AlgebraicSimplify.cpp:486-524 | corrected, `reduce_mod` never fails and agrees with the written rules except on `a % a` and `(a * c2) % 0` |
| AlgebraicSimplify.ReduceMax | src/Pass/Transform/Common/AlgebraicSimplify.cpp:526-562 | `reduce_max` never fails, and a rewrite is always one of the two operands |
| AlgebraicSimplify.ReduceMin | src/Pass/Transform/Common/AlgebraicSimplify.cpp:564-600 | `reduce_min` never fails, and a rewrite is always one of the two operands |
| AlgebraicSimplify.Reduce | src/Pass/Transform/Common/AlgebraicSimplify.cpp:602-624 | the corrected dispatch never fails and leaves anything but a binary instruction alone |
| AlgebraicSimplify.ReduceAddSound | src/Pass/Transform/Common/AlgebraicSimplify.cpp:30-171 | every `reduce_add` rewrite keeps the instruction's 32-bit value and never traps |
| AlgebraicSimplify.ReduceSubSound | src/Pass/Transform/Common/AlgebraicSimplify.cpp:173-346 | every `reduce_sub` rewrite keeps the value |
| AlgebraicSimplify.ReduceMulSound | src/Pass/Transform/Common/AlgebraicSimplify.cpp:348-395 | every `reduce_mul` rewrite keeps the value |
| AlgebraicSimplify.ReduceDivSound | src/Pass/Transform/Common/AlgebraicSimplify.cpp:397-484 | every corrected `reduce_div` rewrite keeps the value of a division free of signed overflow |
| AlgebraicSimplify.ReduceModSound | src/Pass/Transform/Common/AlgebraicSimplify.cpp:486-524 | every corrected `reduce_mod` rewrite keeps the value of a remainder free of signed overflow |
| AlgebraicSimplify.ReduceMaxSound | src/Pass/Transform/Common/AlgebraicSimplify.cpp:526-562 | every `reduce_max` rewrite keeps the value |
| AlgebraicSimplify.ReduceMinSound | src/Pass/Transform/Common/AlgebraicSimplify.cpp:564-600 | every `reduce_min` rewrite keeps the value |
| AlgebraicSimplify.ReduceSound | src/Pass/Transform/Common/AlgebraicSimplify.cpp:602-624 | with the corrected `reduce_div` and `reduce_mod` rules, the dispatch over all seven operators keeps the value of every defined, overflow-free instruction |
| AlgebraicSimplify.ModSelfAsWritten | src/Pass/Transform/Common/AlgebraicSimplify.cpp:491-495 | `a % a` is replaced by 1 although its value is 0 |
| AlgebraicSimplify.NegDivAsWritten | src/Pass/Transform/Common/AlgebraicSimplify.cpp:458-467 | `(0 - a) / a` is replaced by 1 although its value is -1 |
| AlgebraicSimplify.ConstantZeroDivisorAsWritten | src/Pass/Transform/Common/AlgebraicSimplify.cpp:436-445 | `(a * 4) / 0` and `(a * 4) % 0` make the pass itself divide by zero; the corrected rules keep the instruction |
| AlgebraicSimplify.CorrectedRules | src/Pass/Transform/Common/AlgebraicSimplify.cpp:397-524 | the corrected rules give 0 for `a % a`, -1 for `(0 - a) / a`, and never divide by a constant zero |
| RemovePhi.IsCriticalEdge | src/Pass/Transform/DataFlow/RemovePhi.cpp:37-39 | the edge is critical exactly when both blocks are known and `succ` has several predecessors and `prev` several successors; following the short-circuit `&&`, a lookup fails exactly when `succ` is unknown, or when it has several predecessors and `prev` is unknown; one predecessor makes the edge non-critical whatever `prev` is |
| RemovePhi.CriticalMeansShared | src/Pass/Transform/DataFlow/RemovePhi.cpp:37-39 | an edge is critical exactly when its source has another successor and its target another predecessor |
| RemovePhi.SplitEdge | src/Pass/Transform/DataFlow/RemovePhi.cpp:41-53 | the split replaces the edge by two non-critical edges through the new block, keeps all other edges and block degrees, and adds no others |
| RemovePhi.Relabel | src/Pass/Transform/DataFlow/RemovePhi.cpp:45-51 | the phi's value from the old predecessor now comes from the new block, and nothing else changes |
| RemovePhi.SaveEndangered | src/Pass/Transform/DataFlow/RemovePhi.cpp:72-79 | each source that is also a destination is copied once to the next fresh temp, in order of first use |
| RemovePhi.AssignDestinations | src/Pass/Transform/DataFlow/RemovePhi.cpp:82-91 | each destination is assigned from its saved copy when there is one, otherwise from its source |
| RemovePhi.InsertMoves | src/Pass/Transform/DataFlow/RemovePhi.cpp:55-92 | the emitted moves, run in order, give every phi copy the old value of its source and leave every other old value alone: the parallel-copy meaning |
| StandardizeBinary.TryExchangeOperands | src/Pass/Transform/Common/StandardizeBinary.cpp:9-35 | a constant-first commutative binary or comparison is rewritten, nothing else is, and no result is constant-first |
| StandardizeBinary.ExchangeKeepsValue | src/Pass/Transform/Common/StandardizeBinary.cpp:9-35 | the exchange never changes what an instruction produces |
| StandardizeBinary.ExchangeIdempotent | src/Pass/Transform/Common/StandardizeBinary.cpp:9-35 | exchanging again changes nothing |
| StandardizeBinary.ReverseSignAsWritten | src/Pass/Transform/Common/StandardizeBinary.cpp:37-62 | only an add or subtract of a negative constant is rewritten, and the rewrite keeps the instruction's 32-bit value |
| StandardizeBinary.ReverseSignMinAsWritten | src/Pass/Transform/Common/StandardizeBinary.cpp:49-61 | for `INT_MIN` the negated constant is still negative, and a second run turns the instruction back |
| StandardizeBinary.ReverseSign | src/Pass/Transform/Common/StandardizeBinary.cpp:37-62 | a negative representable addend becomes a positive one under the opposite operator; nothing else changes; the result is never rewritten again; it agrees with the written rewrite on every constant but `INT_MIN` and keeps the 32-bit value |
| StandardizeBinary.StandardizeIdempotent | src/Pass/Transform/Common/StandardizeBinary.cpp:64-75 | with the corrected `reverse_sign` (which leaves `INT_MIN` alone), one run leaves the normal form, and a second run changes nothing |
| StandardizeBinary.RunOnBlock | src/Pass/Transform/Common/StandardizeBinary.cpp:64-75 | with the corrected `reverse_sign`, the block keeps its length and every instruction's value, ends in the normal form, and instructions already normal or not binary are untouched |

## Left out

- Process execution in `tests/auto_test.py`: running the driver script, timeouts, `docker kill`, `diff`, the process pool, and file and directory I/O are outside the model. Each test's outcome and the directory listing are parameters.
- The LaTeX colour cell and the `+.1f` percentage text of the speed-up column: only the colour choice and the ratio are modelled, with the ratio as an exact real.
- PerfLedger: `csv` quoting is not modelled; ledger cells are plain strings.
- `llvm_to_riscv` and `to_riscv_indicator` in `VariableTypes.cpp` depend on the Mir type classes and on logging; they are left out.
- IntervalSets: `*`, `/`, `&`, `|`, `^` and `min` follow the same loop pattern as `+` and are left out. The float instance of the template is left out.
- IntervalSets.Apply: bounds are unbounded integers, whereas the source adds `int` bounds and can overflow at `INT_MAX`.
- IntervalSets.SortByLo: `std::sort` orders by `Interval::operator<`; the model sorts stably by lower bound. Normalization gives the same points either way.
- ConstrainReduce: `long` entries are unbounded integers, so the overflow of `matrix[i][k] + matrix[k][j]` near `LONG_MAX` is not modelled. `run_on_block` and the dominator-tree walk of the pass are left out.
- DivRemOpt.ShiftQuotientIsTDiv: takes the generic LIR `SHIFT_RIGHT` by `64 - x` as a 64-bit logical shift of the sign-extended source, `ADD` as a 32-bit `addw` and the final `SHIFT_RIGHT` by `x` as a 32-bit arithmetic `sraiw`, as the comment beside the code says; the lowering of these LIR operations to RISC-V is not part of this model.
- DivRemOpt.ApplyDivConst: the magic-number path for divisors that are not powers of two is modelled as the constants it computes; its quotient is not proved.
- `applyRemConst` and the LIR instruction objects are left out. Emitted code is modelled by its arithmetic.
- MulPlan: `readPlanRec` is modelled by the meaning of a plan (`Eval`), not by the register moves it emits.
- RiscvStack: `log_error` prints and returns, so the model records the message in a log and carries on as the code does. `offset_of` on a variable that does not live on the stack falls off the end of a non-void function, which is undefined behaviour in C++; the model gives it no result. The layout lemmas assume the frame fits in 32 bits (`Fits`), so they say nothing about a wrapped `stack_size`.
- InterpMemory: only byte sequences and 32-bit integers are modelled; `double` reads and writes are left out. `std::hash` values are parameters; only the combining step is modelled.
- AlgebraicSimplify: the IR is modelled as expression trees, so pointer identity of operands becomes structural equality. Instruction insertion, `replace_by_new_value` and the dead-code pass are left out.
- AlgebraicSimplify: the constants the rules fold are computed in C++ `int` (`ConstInt`'s `+`, `-` and `*`, and the negation `-constant_rhs_v`), whose overflow is undefined behaviour in the compiler itself; the model takes them to wrap at 32 bits. An overflow-free program can reach such a fold, for example `(a + INT_MAX) + INT_MAX` with `a == -INT_MAX` folds `INT_MAX + INT_MAX`.
- AlgebraicSimplify.ReduceAdd: folds `c1 + c2` and `c2 - c1` with 32-bit wrap-around, where the source's `int` sum is undefined on overflow.
- AlgebraicSimplify.ReduceSub: folds its constant sums and differences with 32-bit wrap-around, where the source's are undefined on overflow.
- AlgebraicSimplify.ReduceMul: folds `c1 * c2` and `-c` with 32-bit wrap-around, where the source's are undefined on overflow.
- AlgebraicSimplify.ReduceDiv: folds `-c` with 32-bit wrap-around, so `INT_MIN` negates to itself, where the source's negation is undefined.
- InterpMemory.Get: the source's `get` logs "Cache miss" and then falls off the end of a non-void function, which is undefined behaviour in C++; `Err` stands in for it. The only caller tests `contains` first, so the miss is not reached.
- AlgebraicSimplify.ReduceDivSound: requires the instruction to be free of signed overflow, because C makes overflow undefined and the rules rely on that.
- AlgebraicSimplify.ReduceModSound: requires the same freedom from signed overflow.
- Bitwise operators of the IR are opaque to the simplification rules, which never rewrite them.
- RemovePhi: `build`, which groups phi operands by predecessor and renames phis to their copies, is left out. So are the placement of moves before the terminator and the creation of the split block and its jump.
- RemovePhi: the control-flow analysis is not updated after a split in the source either; the model states the split on a separate graph value.
- RemovePhi: a value never written reads as 0 in the move semantics.
- RemovePhi.InsertMoves: parallel-copy meaning is proved under `PhiCopies`, the shape `build` produces: distinct non-constant destinations and no fresh temps among the operands.
- StandardizeBinary: floating-point values are modelled as reals. Rounding, NaN and infinities are left out, and so is the check that both operands have the right type.
- `Print` output, `Driver`, and every non-core file are not part of this model.

## Findings

| source | as written | input that shows it | evidently intended | confidence | as-written member | corrected member |
|---|---|---|---|---|---|---|
| src/Pass/Transform/Common/AlgebraicSimplify.cpp:491-495 | `a % a` is replaced by the constant 1 | `a == 5`: `5 % 5` is 0 | replace by 0, as the comment says | not executed | AlgebraicSimplify.ModSelfAsWritten | AlgebraicSimplify.CorrectedRules |
| src/Pass/Transform/Common/AlgebraicSimplify.cpp:458-467 | `(0 - a) / a` is replaced by 1 | `a == 5`: `-5 / 5` is -1 | replace by -1 | not executed | AlgebraicSimplify.NegDivAsWritten | AlgebraicSimplify.CorrectedRules |
| src/Pass/Transform/Common/AlgebraicSimplify.cpp:436-445 | `(a * c2) / c` evaluates `c2 % c` without checking `c != 0` (the same at 511-520 for `%`) | `(a * 4) / 0` makes the compiler compute `4 % 0` | leave a constant zero divisor alone | not executed | AlgebraicSimplify.ConstantZeroDivisorAsWritten | AlgebraicSimplify.ReduceDivSound |
| src/Backend/InstructionSets/RISC-V/Opt/Arithmetic.cpp:368-372 | the `LoadIntImm(ans, 0)` is built but never emitted, so `ans = ans - q` uses whatever `ans` held | `4 / -1` with 7 in `ans` gives 3 | `ans = 0 - q` | not executed | DivRemOpt.NegativeDivisorAsWritten | DivRemOpt.CorrectedPowerOf2Division |
| include/Pass/Analyses/IntervalAnalysis.h:93 | `std::min(upper, other.upper) + 1` is an `int` sum, which overflows when both uppers are `INT_MAX` | [0, INT_MAX] and [5, INT_MAX] are left unmerged | take the sum in a wider type, so intervals reaching `INT_MAX` still merge | not executed; signed overflow is undefined in C++, and the row assumes it wraps | IntervalSets.OverlapAtMaxAsWritten | IntervalSets.NormalizeCorrect |
| include/Pass/Analyses/IntervalAnalysis.h:360-377 | `%` by a positive divisor gives [0, d - 1] and by a negative one [d + 1, 0], ignoring the dividend's sign and the divisor's magnitude bound | `-5 % 3` is -2, outside [0, 2] | bounds from the dividend's sign and the largest divisor magnitude | not executed | IntervalSets.RemMissesNegativeDividend | IntervalSets.RemCheckedSound |
| include/Mir/Interpreter.h:83-85 | the bounds check `addr + sizeof(T) > storage.size()` wraps for a huge `size_t` address | an `int` address -4 becomes 2^64 - 4 and passes on empty storage | reject addresses past the storage | not executed | InterpMemory.NegativeAddressPassesAsWritten | InterpMemory.NegativeAddressRejected |
| src/Pass/Transform/Common/StandardizeBinary.cpp:49-61 | `-int_rhs` for `INT_MIN` overflows, so `a + INT_MIN` becomes `a - INT_MIN` and the next run turns it back | `a + INT_MIN` | leave `INT_MIN` alone, so the pass reaches a normal form | not executed | StandardizeBinary.ReverseSignMinAsWritten | StandardizeBinary.ReverseSign |
