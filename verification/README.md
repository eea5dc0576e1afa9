# Verified models of colata's algorithmic parts

The repository collects experiments around the HotSpot compilers. Five of its programs
hold algorithms, and this project models them in Dafny 4.11 and proves what they are for.
`dafny verify dfyconfig.toml` checks everything.

**The C2 graph viewer** (`make/plans/dynamic-ir/ir-core.js`; `IrGraph`, `DataPaths`,
`TopologicalSort`, `Evaluator`, `ValueLaws`, `ExecutionSteps`, `ExceptionPaths`). A parsed
intermediate-representation graph gets a deduplicated edge list, is layered by a
level-synchronous topological sort, and is evaluated level by level into execution steps;
nodes that only lead to a Rethrow can be filtered out. The sort puts every node at the
length of the longest data path to it, and its extra last level is exactly the set of
nodes on or behind a data cycle. On acyclic graphs the displayed values are the one
solution of the dataflow equations; on any graph this holds for all nodes without a cycle
behind them, and every other node is computed from the inputs listed before it. Filtering
exception-only nodes never changes a value that a Return depends on, cyclic graphs included,
and the page's whole pipeline inherits all of this. An object is its map together with the
order in which it lists its keys; only the order of edges and inside levels depends on it, and
with that the values on and behind cycles.

**The reduction generator** (`reassoc-reduct-chain-8351409/src-gen/Gen.java`; `LoopCode`,
`ReductionTrees`, `Generator`, `ReductionEquivalence`, `GeneratedLoops`,
`GeneratorMethods`, `EmittedInstances`). The emitted statements have an interpreter that
checks scopes and array bounds, and a second one on symbols that inlines every temporary;
the first is proved to be the second one evaluated. The emitted loops compute the simple
reduction for every block size, and fail exactly when the array is not a whole number of
steps. Unrolling needs no law of the operation, reassociation and the queue trees need
associativity and commutativity; with associativity only, trees keep the order of the array
exactly if the block size is a power of two, and chains never do. The trees have the least
possible depth, and the chain from the old to the new result has the length for which each
variant was written. The text comment is the printed inlined expression. Java's `i += step`
cannot overflow where a body has read its whole block, so the index is an unbounded number
here.

**The growable list** (`mw-valhalla-999/ParentInfoValue.java`; `JavaInt`, `GrowableList`).
Growth in wrapping 32-bit arithmetic is restated in true sums, the list keeps its elements,
and n additions copy at most 3.25 n elements.

**The branch-probability data** (`fp-mmv-bench-8382615/BranchProbability.java`;
`BranchProbability`, `JavaFloat`). Random choices are a parameter: the rounds of the
rejection loop that the source of randomness has in store. Whatever they are, data that the
generator returns passes all four counting reductions for one expectation and no other, also
where the percentage computation overflows.

**The benchmark comparison** (`make/tools/benchmark-compare/.../BenchmarkCompare.java`;
`CsvLine`, `BenchmarkOrder`, `BenchmarkResults`, `DenseNames`). The line parser undoes
printing by the quoting rules of section 2 of RFC 4180. Rows are numbered so that the map of a
file and the sorted set of results keep all of them in file order. The numbers are part of the
rows' keys: where no parameter name is repeated, a comparison of files with parameters
completes exactly when the base file has no rows, or the patch file has the same columns and
begins with the rows of the base file. Distinct names without empty segments are shortened to
distinct names.

Findings, each stated as a member:

- `Evaluator.ConversionPassesInput`: ConvI2L and ConvL2I start with "Con" and are taken for
  constants at ir-core.js:157, so the case for them at line 194 is never reached.
- `Evaluator.ReturnShowsLastInput` and `Evaluator.ReturnMissesLastInput`: without a marked
  value, the last input of a Return is looked up at a position that does not count
  placeholders in a list that has them (ir-core.js:163-164). It is found exactly if the list
  has that input at that position too; with inputs "_ 5" the placeholder is shown instead.
- `ExecutionSteps.CompleteEdges`: the loop at ir-core.js:255-257 never adds an edge.
- `BenchmarkResults.CollectResults`, with `JoinIsPositional`, `PartnersArePrefix` and
  `ReorderedPatchFails`: value numbers are part of the key with which a base row looks up its
  patch row, so with parameters only the same row in the same place, under the same columns,
  is found. The lookup otherwise yields null, which the next lines dereference: the same rows
  in another order, or one more parameter, end the comparison with an exception.
- `BenchmarkOrder.RowsKept`: without parameter columns, only the last row of each mode and
  benchmark survives reading.
- `DenseNames.DenseNamesCollide` and `DenseNames.EmptySegmentCollides`: dense names are
  distinct exactly up to empty segments.

## Model

| member | source | states |
|---|---|---|
| IrGraph.PresentKeepsOrder | make/plans/dynamic-ir/ir-core.js:39-46 | the list without placeholders has every input, moved up by the number of placeholders before it |
| IrGraph.BuildEdges | make/plans/dynamic-ir/ir-core.js:74-97 | the edge list has exactly one edge for every pair of a known node and a known, different input of it, in the order of the targets' ids and then of the inputs; the kinds of its ends decide whether it is structural |
| DataPaths.RankIsLongest | make/plans/dynamic-ir/ir-core.js:109-123 | a level number that climbs along data edges, each positive one by a single step from some predecessor, is the length of the longest data path ending there |
| DataPaths.RankedIsNotCycleFed | make/plans/dynamic-ir/ir-core.js:109-123 | a node that gets a level lies neither on nor behind a data cycle |
| DataPaths.SelfFeedingIsCycleFed | make/plans/dynamic-ir/ir-core.js:124-126 | nodes that each wait for another one of them lie on or behind a data cycle, by pigeonhole |
| TopologicalSort.CountDegrees | make/plans/dynamic-ir/ir-core.js:101-108 | in-degrees and adjacency lists count the data edges, repetitions included |
| TopologicalSort.TargetAt | make/plans/dynamic-ir/ir-core.js:103-107 | a node lists its targets in the order of the edges |
| TopologicalSort.FinishLevel | make/plans/dynamic-ir/ir-core.js:115-121 | finishing a level leaves in every degree the data inputs still pending, and queues each node whose degree drops to zero once, in the order in which the last of its feeders in the level comes, and that feeder's targets |
| TopologicalSort.TopoLevels | make/plans/dynamic-ir/ir-core.js:100-128 | every id is listed exactly once, no level is empty, a node's level is the length of the longest data path to it, and the nodes on or behind a cycle form the last level by themselves; the first level and that one are in the order of the ids, the others in the order of discovery; the worklist terminates |
| TopologicalSort.DataEdgesClimb | make/plans/dynamic-ir/ir-core.js:112-123 | a data edge goes to a strictly later level unless both ends are on or behind a cycle |
| TopologicalSort.CyclicIffLeftovers | make/plans/dynamic-ir/ir-core.js:124-126 | the extra level is there if and only if the data edges have a cycle |
| TopologicalSort.LevelsOrderUncycled | make/plans/dynamic-ir/ir-core.js:112-123 | on any graph the levels read in sequence put every node without a cycle behind it after all nodes that feed it |
| TopologicalSort.LevelsGiveDataOrder | make/plans/dynamic-ir/ir-core.js:112-123 | on acyclic graphs the levels read in sequence put every node after all nodes that feed it |
| ValueLaws.DivisionLaw | make/plans/dynamic-ir/ir-core.js:175-176 | on whole operands quotient and remainder are whole and recompose the dividend, the remainder is smaller than the divisor and has the dividend's sign |
| ValueLaws.RemainderLaw | make/plans/dynamic-ir/ir-core.js:176 | on any numbers the remainder differs from the dividend by a whole multiple of the divisor, is smaller than the divisor and has the dividend's sign |
| ValueLaws.ShiftLaw | make/plans/dynamic-ir/ir-core.js:177-178 | of what the two shifts show, by the laws below: a left shift that stays in 32 bits multiplies by the power of two, and the right shift undoes it |
| ValueLaws.AdditionLaw | make/plans/dynamic-ir/ir-core.js:172-173 | adding 0 changes nothing, adding one more gives one more, subtraction takes back what was added; int and long kinds alike |
| ValueLaws.MultiplicationLaw | make/plans/dynamic-ir/ir-core.js:174 | multiplying by 0 gives 0, and by one more, one more of the other factor |
| ValueLaws.ZeroDivisor | make/plans/dynamic-ir/ir-core.js:175-176 | a division by zero is shown as a text |
| ValueLaws.LeftShiftLaw | make/plans/dynamic-ir/ir-core.js:177 | shows the int that agrees, up to multiples of 2^32, with the product by the power of two; five bits of the count matter |
| ValueLaws.RightShiftLaw | make/plans/dynamic-ir/ir-core.js:178-179 | shows the int, respectively the unsigned int, with the operand's low 32 bits, divided by the power of two and rounded down |
| ValueLaws.BitwiseLaw | make/plans/dynamic-ir/ir-core.js:180-182 | bit by bit, And, Or and Xor of the operands, for negative ones too |
| ValueLaws.NumberAt | make/plans/dynamic-ir/ir-core.js:169 | the inputs that count are the numbers, in their order |
| ValueLaws.ArithmeticShown | make/plans/dynamic-ir/ir-core.js:170-184 | a node of an arithmetic kind shows the operation on its first two numbers, and nothing if there are fewer |
| ValueLaws.ComparisonShown | make/plans/dynamic-ir/ir-core.js:185-188 | a comparison shows how its first number relates to its second |
| ValueLaws.SignsShown | make/plans/dynamic-ir/ir-core.js:190-193 | negation and absolute value, by sign |
| ValueLaws.PassThroughShown | make/plans/dynamic-ir/ir-core.js:197-198 | projections, phis and checked casts show a number that is the only one among their inputs, and otherwise nothing |
| ValueLaws.ParameterShown | make/plans/dynamic-ir/ir-core.js:147-149 | a numbered parameter shows the value given for its number, or a question mark |
| ValueLaws.OtherParameterShown | make/plans/dynamic-ir/ir-core.js:150-155 | the other parameters show what they stand for |
| ValueLaws.FixedShown | make/plans/dynamic-ir/ir-core.js:145-160 | Start, Root and constants show the same whatever their inputs: a constant its number or, without one, its label |
| ValueLaws.MarkedReturnShown | make/plans/dynamic-ir/ir-core.js:161-166 | a Return with a marked value shows the input at the marked position |
| Evaluator.ReturnShowsLastInput | make/plans/dynamic-ir/ir-core.js:161-166 | a Return without a marked value shows its last input, whatever the values known, if and only if it has no input or the list with placeholders has that input at the last position of the list without |
| Evaluator.ReturnMissesLastInput | make/plans/dynamic-ir/ir-core.js:161-166 | a Return with a placeholder in front of its only input does not show the value of that input |
| Evaluator.ConversionPassesInput | make/plans/dynamic-ir/ir-core.js:157-195 | whatever the inputs, if one of them is a number: of the four kinds in the pass-through case exactly the casts show the first number, a conversion shows its own constant |
| Evaluator.UnaffectedBy | make/plans/dynamic-ir/ir-core.js:214-223 | a node's value depends on no other node than those that feed it through data edges, and itself |
| Evaluator.EvalIsMeaningInOrder | make/plans/dynamic-ir/ir-core.js:203-229 | on any graph and for any order without repetitions the final values are the only ones in which every node is computed from the inputs listed before it, the others being absent |
| Evaluator.EvalSatisfies | make/plans/dynamic-ir/ir-core.js:211-229 | on any graph, a node listed after the nodes that feed it satisfies its dataflow equation |
| Evaluator.EvalSolves | make/plans/dynamic-ir/ir-core.js:203-229 | for nodes closed under data inputs and listed after them, the final values solve the dataflow equations and agree with every solution |
| Evaluator.EvalIsTheMeaning | make/plans/dynamic-ir/ir-core.js:203-229 | for any order that respects the data edges the final values are the one and only solution of the dataflow equations, every node computed from its inputs' values without its own |
| ExecutionSteps.RunLevel | make/plans/dynamic-ir/ir-core.js:213-229 | one level computes its nodes after all earlier ones and activates exactly the data edges into it |
| ExecutionSteps.CompleteEdges | make/plans/dynamic-ir/ir-core.js:254-257 | adding the edges between completed nodes changes nothing: they are completed already |
| ExecutionSteps.BuildSteps | make/plans/dynamic-ir/ir-core.js:203-260 | one initial step and one step a level: its nodes, the data edges into them, the nodes and edges completed before, and all values known after it |
| ExecutionSteps.DataEdgesInto | make/plans/dynamic-ir/ir-core.js:225-228 | active are exactly the data edges whose target is in the level |
| ExecutionSteps.CompletedWereActive | make/plans/dynamic-ir/ir-core.js:231-258 | the completed nodes and edges of a step are exactly those that were active in the steps before it |
| ExecutionSteps.ValuesStay | make/plans/dynamic-ir/ir-core.js:211-245 | a value that a step shows for an active or completed node is shown by all later steps |
| ExecutionSteps.LevelsSolveBesidesCycles | make/plans/dynamic-ir/ir-core.js:203-229 | on any graph the values over the levels are the one solution of the equations of all nodes that lie neither on nor behind a data cycle |
| ExecutionSteps.ActiveEdgesStartCompleted | make/plans/dynamic-ir/ir-core.js:225-258 | on acyclic graphs the active edges of a step leave nodes that earlier steps completed |
| ExceptionPaths.BackwardReachable | make/plans/dynamic-ir/ir-core.js:292-309 | returns exactly the nodes with a backward walk from a seed that does not continue through Root or Start; terminates |
| ExceptionPaths.WalksOn | make/plans/dynamic-ir/ir-core.js:296-306 | the walk goes on to every known input of a node it has reached, but not from Root or Start |
| ExceptionPaths.SeedsByKind | make/plans/dynamic-ir/ir-core.js:311-317 | the walks start from the nodes of kind Return and Rethrow |
| ExceptionPaths.ClassifyExceptionNodes | make/plans/dynamic-ir/ir-core.js:288-324 | returns exactly the nodes on the way to a Rethrow and not on the way to a Return |
| ExceptionPaths.FilterLevels | make/plans/dynamic-ir/ir-core.js:327-335 | every level with a node that stays is found again, reduced to such nodes in their order, at its place among these levels; there are no other levels, so none is empty; with nothing to exclude the levels are returned as they are |
| ExceptionPaths.SlicingKeepsHappyValues | make/plans/dynamic-ir/ir-core.js:203-335 | leaving out nodes that no Return depends on, from any list of nodes, keeps the value of every node that a Return depends on |
| ExceptionPaths.RebuildSteps | make/plans/dynamic-ir/index.html:822-837 | on every graph the pipeline shows, for all nodes a Return depends on, the values of the unfiltered levels, and without the filter for all nodes; these levels are listed as above; their values are the solution of the dataflow equations besides cycles and the meaning in listed order on them, and on acyclic graphs the solution altogether; with the filter no exception-only node is ever active |
| LoopCode.InliningIsSound | reassoc-reduct-chain-8351409/src-gen/Gen.java:72-226 | a body executes if and only if it is well-scoped and its reads are in bounds, and then every variable holds the value of its inlined expression |
| LoopCode.LoopReduces | reassoc-reduct-chain-8351409/src-gen/Gen.java:75-79 | a loop whose body folds its block folds the array if its length is a multiple of the step, and fails otherwise |
| ReductionTrees.TreeFoldsLeaves | reassoc-reduct-chain-8351409/src-gen/Gen.java:95-106 | with an associative operation a tree has the value of the left fold over its leaves |
| ReductionTrees.FoldPermuted | reassoc-reduct-chain-8351409/src-gen/Gen.java:95-106 | with a commutative one as well, permuted operands fold to the same value |
| ReductionTrees.CeilLog2IsLeast | reassoc-reduct-chain-8351409/src-gen/Gen.java:87-104 | the depth function is the least k with n at most 2^k |
| ReductionTrees.QueueKeepsLeaves | reassoc-reduct-chain-8351409/src-gen/Gen.java:95-104 | every queued leaf reaches the root of the queue's tree exactly once |
| ReductionTrees.QueueDepth | reassoc-reduct-chain-8351409/src-gen/Gen.java:95-104 | queue depths stay sorted and within one of each other, and fix the depth of the tree |
| ReductionTrees.PowerOfTwoKeepsOrder | reassoc-reduct-chain-8351409/src-gen/Gen.java:87-106 | a queue of 2^k entries builds a tree that reads them from left to right |
| ReductionTrees.QueueRotates | reassoc-reduct-chain-8351409/src-gen/Gen.java:87-106 | a queue of 2^k + m entries, m < 2^k, builds a tree that reads them rotated by 2 m |
| ReductionTrees.OrderKeptIffPower | reassoc-reduct-chain-8351409/src-gen/Gen.java:87-106 | a block's tree reads its elements in order if and only if their number is a power of two |
| ReductionEquivalence.DepthOfReTreeBlock | reassoc-reduct-chain-8351409/src-gen/Gen.java:87-104 | a block's tree has depth ceil(log2 inner), and no expression over the same elements is shallower |
| Generator.InlineUnroll | reassoc-reduct-chain-8351409/src-gen/Gen.java:188-226 | the unrolled body is well-scoped and inlines to the chain that takes the old result first |
| Generator.InlineReassocBy | reassoc-reduct-chain-8351409/src-gen/Gen.java:114-145 | the chained blocks are well-scoped in spite of the gaps between their names, and inline to one chain a block merged into the result |
| Generator.InlineDrain | reassoc-reduct-chain-8351409/src-gen/Gen.java:95-104 | draining the queue of names declares each temporary once and builds the queue's tree under the last of them |
| Generator.InlineReTree | reassoc-reduct-chain-8351409/src-gen/Gen.java:72-112 | the trees are well-scoped, nameIndex - 1 names each root, and the body inlines to one tree a block merged into the result |
| ReductionEquivalence.ReadsOfUnroll | reassoc-reduct-chain-8351409/src-gen/Gen.java:197-202 | the unrolled body reads each element of its block once, in order |
| ReductionEquivalence.ReadsOfReassocBy | reassoc-reduct-chain-8351409/src-gen/Gen.java:123-130 | so do the chained blocks, all blocks together |
| ReductionEquivalence.ReadsOfReTree | reassoc-reduct-chain-8351409/src-gen/Gen.java:83-93 | so do the trees |
| ReductionEquivalence.LatencyOfUnroll | reassoc-reduct-chain-8351409/src-gen/Gen.java:206-223 | unrolled, the old result is size operations away from the new one |
| ReductionEquivalence.LatencyOfReassocBy | reassoc-reduct-chain-8351409/src-gen/Gen.java:123-140 | with chained blocks it is one operation a block away |
| ReductionEquivalence.LatencyOfReTree | reassoc-reduct-chain-8351409/src-gen/Gen.java:83-107 | with trees it is one operation a block away |
| GeneratedLoops.SimpleLoops | reassoc-reduct-chain-8351409/src-gen/Gen.java:22-28 | the loop of the Base variant and the expect loop return the fold of the array and never fail |
| GeneratedLoops.UnrollIsExpected | reassoc-reduct-chain-8351409/src-gen/Gen.java:188-226 | for every size >= 1 and any operation whatsoever the unrolled loop returns what expect returns, or fails where the length is no multiple of size |
| GeneratedLoops.ReassocByIsExpected | reassoc-reduct-chain-8351409/src-gen/Gen.java:114-145 | the same for every outer >= 1 and inner >= 2, for associative and commutative operations |
| GeneratedLoops.ReassocIsReassocBy | reassoc-reduct-chain-8351409/src-gen/Gen.java:147-186 | the single chain is the case of one block, for every size >= 2 |
| GeneratedLoops.ReTreeIsExpected | reassoc-reduct-chain-8351409/src-gen/Gen.java:72-112 | the same for the queue trees, for every outer >= 1 and inner >= 2 |
| GeneratedLoops.ReTreePowerOfTwo | reassoc-reduct-chain-8351409/src-gen/Gen.java:72-112 | with inner a power of two, associativity alone makes the loop the left fold of the array |
| GeneratedLoops.ReTreeNeedsPowerOfTwo | reassoc-reduct-chain-8351409/src-gen/Gen.java:72-112 | associativity alone makes the loop the left fold, for all operations and arrays, if and only if inner is a power of two |
| GeneratedLoops.ReassocByNeedsCommutativity | reassoc-reduct-chain-8351409/src-gen/Gen.java:114-145 | for every block size there is an associative operation and an array for which the chains yield neither the fold in array order nor what expect returns |
| GeneratorMethods.Unroll | reassoc-reduct-chain-8351409/src-gen/Gen.java:188-226 | emits the unrolled loop, and its comment is the print of the inlined expression |
| GeneratorMethods.Reassoc | reassoc-reduct-chain-8351409/src-gen/Gen.java:147-186 | emits the single chain, and its comment is the print of the inlined expression |
| GeneratorMethods.ReassocBy | reassoc-reduct-chain-8351409/src-gen/Gen.java:114-145 | emits the chained blocks |
| GeneratorMethods.DrainQueue | reassoc-reduct-chain-8351409/src-gen/Gen.java:95-104 | the queue loop emits one combination for every two names taken, and ends with one name |
| GeneratorMethods.ReTree | reassoc-reduct-chain-8351409/src-gen/Gen.java:72-112 | emits the trees |
| GeneratorMethods.BuildTest | reassoc-reduct-chain-8351409/src-gen/Gen.java:11-54 | every variant gets its generator with its sizes |
| GeneratorMethods.EveryVariantIsPlanned | reassoc-reduct-chain-8351409/src-gen/Gen.java:20-49 | every variant is generated as its name says, so many blocks of so many elements |
| GeneratorMethods.EveryVariantHasShape | reassoc-reduct-chain-8351409/src-gen/Gen.java:20-49 | and has the step, the chain from the old to the new result and the depth that this makes: 8 and 1 + 8 for Reassoc2x8 |
| GeneratorMethods.EveryVariantIsExpected | reassoc-reduct-chain-8351409/src-gen/Gen.java:20-49 | for every variant and every array, test returns what expect returns, or fails on a partial block |
| GeneratorMethods.EveryVariantFindsMaximum | reassoc-reduct-chain-8351409/src-gen/Gen.java:11-54 | what it returns is the maximum of the array and of the lower end of the int range |
| GeneratorMethods.DecimalReads | reassoc-reduct-chain-8351409/src-gen/Gen.java:172-214 | numbers in the comments are decimal, without leading zeros |
| GeneratorMethods.ValidationPasses | reassoc-reduct-chain-8351409/src-gen/Gen.java:264-307 | on the array length of the generated programs the validation of every variant succeeds |
| GeneratorMethods.ReTreeIsProgram | reassoc-reduct-chain-8351409/src-gen/Gen.java:95-106 | the emitted trees are well-scoped if and only if inner >= 2; otherwise no iteration gets through |
| GeneratorMethods.ChainsArePrograms | reassoc-reduct-chain-8351409/src-gen/Gen.java:132-166 | the emitted chains are well-scoped if and only if a block has at least two elements; otherwise no iteration gets through |
| GeneratorMethods.UnrollIsProgram | reassoc-reduct-chain-8351409/src-gen/Gen.java:206-207 | the unrolled body is well-scoped if and only if size >= 1 |
| EmittedInstances.TreeBlockOfEight | reassoc-reduct-chain-8351409/src/ReTree8x2/Test.java:20-35 | a tree block of eight is the emitted statement sequence of the repository, numbers and all |
| EmittedInstances.EmittedReTree8x2 | reassoc-reduct-chain-8351409/src/ReTree8x2/Test.java:19-52 | the 8x2 variant steps by 16 and consists of two such blocks, the second numbered from v8 and t7 |
| EmittedInstances.ChainBlockOfEight | reassoc-reduct-chain-8351409/src/Reassoc8x2/Test.java:20-35 | a chain block of eight is the emitted statement sequence of the repository |
| EmittedInstances.EmittedReassoc8x2 | reassoc-reduct-chain-8351409/src/Reassoc8x2/Test.java:19-52 | the 8x2 variant steps by 16 and consists of two such blocks, with no t7 between them |
| EmittedInstances.EmittedUnroll2 | reassoc-reduct-chain-8351409/src/Unroll2/Test.java:19-26 | the emitted statements and the comment of the variant |
| EmittedInstances.EmittedReassoc2 | reassoc-reduct-chain-8351409/src/Reassoc2/Test.java:19-25 | the emitted statements and the comment of the variant |
| GrowableList.NewLengthInTrueSums | mw-valhalla-999/ParentInfoValue.java:119-153 | the wrapping computation returns the preferred length, the soft limit or the required length as the true sums demand, and fails exactly when the required length exceeds the int range |
| JavaInt.WrapDropsMultiple | mw-valhalla-999/ParentInfoValue.java:119-138 | an int sum that overflows is off by a multiple of 2^32 |
| GrowableList.GrownIsLarger | mw-valhalla-999/ParentInfoValue.java:101-115 | growing a full list below the int limit yields strictly more capacity: half as much again up to the soft limit, one more beyond it |
| GrowableList.GrowthInNumbers | mw-valhalla-999/ParentInfoValue.java:96-153 | the capacities 10, 15, 22, and those around the soft limit |
| GrowableList.CopiesArePaid | mw-valhalla-999/ParentInfoValue.java:88-115 | the capacity reached has paid for all copies so far |
| GrowableList.AmortisedCost | mw-valhalla-999/ParentInfoValue.java:88-115 | any number n of additions up to the soft limit copies fewer than 4 n elements |
| GrowableList.ParentInfoList.constructor | mw-valhalla-999/ParentInfoValue.java:78-81 | a fresh list is empty and shares the empty array |
| GrowableList.ParentInfoList.Grow | mw-valhalla-999/ParentInfoValue.java:96-115 | installs a larger array with the same elements, or throws with nothing changed, exactly at the int limit |
| GrowableList.ParentInfoList.Add | mw-valhalla-999/ParentInfoValue.java:83-94 | appends the element and keeps all others, or throws with nothing changed, exactly at the int limit; a full array is never written |
| GrowableList.AddAll | mw-valhalla-999/ParentInfoValue.java:83-115 | a run of additions to a fresh list holds the elements in order and has copied at most 3.25 of them for each |
| BranchProbability.RoundFollowsDraws | fp-mmv-bench-8382615/BranchProbability.java:311-330 | a value lies the drawn distance above the maximum before it if the coin is within the probability, and otherwise below it; the first pair is the first draw and one less |
| BranchProbability.FillRound | fp-mmv-bench-8382615/BranchProbability.java:311-331 | one round fills both arrays as its choices say and counts the new maxima |
| BranchProbability.PercentIsFloor | fp-mmv-bench-8382615/BranchProbability.java:333-334 | while the product does not overflow the percentage is the true one, rounded down |
| BranchProbability.PercentOverflows | fp-mmv-bench-8382615/BranchProbability.java:333-334 | where it does, the percentage of a whole can be negative |
| BranchProbability.DistributeLongRandomIncrement | fp-mmv-bench-8382615/BranchProbability.java:297-339 | returns the arrays of the first round whose percentage is the requested one, as its choices say; fails on size 0 |
| BranchProbability.MyMax | fp-mmv-bench-8382615/BranchProbability.java:68-80 | returns the larger value and counts one comparison: above if the first was larger, below if it was smaller |
| BranchProbability.MyMin | fp-mmv-bench-8382615/BranchProbability.java:94-106 | returns the smaller value and counts one comparison: above if the first was larger, below if it was smaller |
| BranchProbability.MyMaxDouble | fp-mmv-bench-8382615/BranchProbability.java:121-144 | the larger of two doubles, NaN over everything and 0.0 over -0.0, and one comparison counted, which one being stated |
| BranchProbability.MyMinDouble | fp-mmv-bench-8382615/BranchProbability.java:158-181 | the smaller of two doubles, NaN over everything and -0.0 over 0.0, and one comparison counted, which one being stated |
| BranchProbability.LongReductionSimpleMax | fp-mmv-bench-8382615/BranchProbability.java:55-66 | returns the maximum reduction, or an assertion failure exactly when the counts miss the expectation |
| BranchProbability.LongReductionSimpleMin | fp-mmv-bench-8382615/BranchProbability.java:82-92 | the same for the minimum |
| BranchProbability.PassesForOne | fp-mmv-bench-8382615/BranchProbability.java:183-215 | whatever has been counted passes for one expectation and no other |
| BranchProbability.ReductionIsMaximum | fp-mmv-bench-8382615/BranchProbability.java:55-80 | on any data the reduction is the maximum of 0 and the data |
| BranchProbability.ReductionCounts | fp-mmv-bench-8382615/BranchProbability.java:55-80 | on any data it counts the elements above the result so far, those equal to it, and the rest |
| BranchProbability.TallyOfRound | fp-mmv-bench-8382615/BranchProbability.java:55-80 | on generated data the reduction counts every new maximum above, nothing equal, everything else below, and returns the running maximum |
| BranchProbability.AcceptedPassesMax | fp-mmv-bench-8382615/BranchProbability.java:183-198 | accepted data passes validateMax for the expectation P above and 100 - P below, and for no other |
| BranchProbability.NegationMirrors | fp-mmv-bench-8382615/BranchProbability.java:262-279 | on any data, the minimum reduction of the negated data mirrors the maximum reduction |
| BranchProbability.AcceptedPassesMin | fp-mmv-bench-8382615/BranchProbability.java:200-215 | negated accepted data passes validateMin for the mirrored expectation and for no other |
| BranchProbability.BaseIsPrefixMaximum | fp-mmv-bench-8382615/BranchProbability.java:301-330 | from index 1 on the second array holds the maximum of the first array before that index |
| BranchProbability.PairwiseAbove | fp-mmv-bench-8382615/BranchProbability.java:301-309 | compared index by index the first array exceeds the second exactly as often as it sets a new maximum, and never equals it |
| BranchProbability.GeneratorCanReturn | fp-mmv-bench-8382615/BranchProbability.java:310-334 | some sequence of choices makes the loop return if and only if some possible number of new maxima amounts to the requested percentage |
| BranchProbability.DoublesFollowLongs | fp-mmv-bench-8382615/BranchProbability.java:108-181 | on converted longs the double reductions count and return what the long reductions do |
| BranchProbability.ConversionIsExact | fp-mmv-bench-8382615/BranchProbability.java:281-295 | the values of both arrays are within the range in which the conversion to double is exact; up to a ninth of the int range so is the conversion to int, up to a ninth of 2^24 the conversion to float |
| JavaFloat.ToFloatIsNearest | fp-mmv-bench-8382615/BranchProbability.java:285-291 | the conversion of a whole number yields a float of 24 digits, none is closer, and up to 2^24 it is exact |
| BranchProbability.LoopState.Setup | fp-mmv-bench-8382615/BranchProbability.java:250-275 | the int, long, float and double arrays hold both arrays of an accepted round and their negation, whenever there is one, and the result arrays hold zeros |
| BranchProbability.RunChecks | fp-mmv-bench-8382615/BranchProbability.java:18-37 | whenever the generator returns, all four reductions pass with the expectation for the probability |
| CsvLine.ParseCsvLine | make/tools/benchmark-compare/src/main/java/org/mendrugo/colata/BenchmarkCompare.java:461-492 | the loop computes the recursive parse of the line |
| CsvLine.ParseUndoesPrint | make/tools/benchmark-compare/src/main/java/org/mendrugo/colata/BenchmarkCompare.java:461-492 | parsing a printed line returns the fields, whatever they hold, each printed in pieces: quoted with doubled quotes, or bare without comma and quote; one piece each is the form of RFC 4180 |
| CsvLine.ParseUnclosed | make/tools/benchmark-compare/src/main/java/org/mendrugo/colata/BenchmarkCompare.java:461-492 | a quote that is never closed extends the field to the end of the line |
| CsvLine.FieldCount | make/tools/benchmark-compare/src/main/java/org/mendrugo/colata/BenchmarkCompare.java:461-492 | any line, well-quoted or not, yields one field more than it has commas outside quotes |
| BenchmarkOrder.ReadCsv | make/tools/benchmark-compare/src/main/java/org/mendrugo/colata/BenchmarkCompare.java:408-458 | numbering runs on through all cells of all rows, and the map has under every key that occurs the last row that has it |
| BenchmarkOrder.RowsWithoutParamsCollide | make/tools/benchmark-compare/src/main/java/org/mendrugo/colata/BenchmarkCompare.java:449-455 | without parameter columns, rows share a key exactly when mode and benchmark agree |
| BenchmarkOrder.RowsKept | make/tools/benchmark-compare/src/main/java/org/mendrugo/colata/BenchmarkCompare.java:449-455 | with a parameter column every row is kept under its own key, without exactly the last row of each mode and benchmark |
| BenchmarkOrder.OwnRange | make/tools/benchmark-compare/src/main/java/org/mendrugo/colata/BenchmarkCompare.java:437-447 | the numbers of a row stay in the row's own range, also where column names coincide |
| BenchmarkOrder.DictionaryOrder | make/tools/benchmark-compare/src/main/java/org/mendrugo/colata/BenchmarkCompare.java:231 | benchmark names compare in dictionary order |
| BenchmarkOrder.RowsCompareByPosition | make/tools/benchmark-compare/src/main/java/org/mendrugo/colata/BenchmarkCompare.java:167-243 | with a parameter column no comparison throws, rows compare by mode, benchmark and place in the file, and only a row itself has its key |
| BenchmarkResults.JoinComparesCells | make/tools/benchmark-compare/src/main/java/org/mendrugo/colata/BenchmarkCompare.java:344-348 | in any two files, a base row and a patch row have the same key if and only if they agree in mode, benchmark and the cells that count, numbers included |
| BenchmarkResults.JoinInSameColumns | make/tools/benchmark-compare/src/main/java/org/mendrugo/colata/BenchmarkCompare.java:344-348 | under the same columns, repeated names included, such rows stand at the same place if there are columns at all, and agree in the last column of each name |
| BenchmarkResults.JoinIsPositional | make/tools/benchmark-compare/src/main/java/org/mendrugo/colata/BenchmarkCompare.java:344-348 | in any two files without repeated names, such rows are identical, under identical columns and, if there are any, at the same place |
| BenchmarkResults.PartnersArePrefix | make/tools/benchmark-compare/src/main/java/org/mendrugo/colata/BenchmarkCompare.java:344-348 | in any two files without repeated names, all base rows find a patch row if and only if there are none, or the columns are the same and the patch file begins with the base rows or, without columns, contains them |
| BenchmarkResults.ReorderedPatchFails | make/tools/benchmark-compare/src/main/java/org/mendrugo/colata/BenchmarkCompare.java:344-370 | two rows in the base file, the same two the other way round in the patch file: the lookup finds nothing |
| BenchmarkResults.AddKeepsOrder | make/tools/benchmark-compare/src/main/java/org/mendrugo/colata/BenchmarkCompare.java:343-395 | adding a row whose key is its own to the sorted set keeps it sorted, loses nothing and adds the row once |
| BenchmarkResults.CollectResults | make/tools/benchmark-compare/src/main/java/org/mendrugo/colata/BenchmarkCompare.java:341-397 | whatever order the hash map delivers and whatever the two files: no comparison throws; the loop completes if and only if every base row has a patch row with the same cells, that is, without repeated names, if the patch file covers the base file as above; then all rows of the base map are in the result, by mode, then by benchmark in dictionary order, then by place in the file; otherwise it ends with the null dereference |
| BenchmarkResults.FileOrderWithinBenchmark | make/tools/benchmark-compare/src/main/java/org/mendrugo/colata/BenchmarkCompare.java:223-243 | rows of one mode and benchmark come out in file order |
| DenseNames.CommonPrefix | make/tools/benchmark-compare/src/main/java/org/mendrugo/colata/BenchmarkCompare.java:705-752 | computes the longest run of leading lower-case segments that all names share, and whether the first name had a longer one |
| DenseNames.PiecesJoin | make/tools/benchmark-compare/src/main/java/org/mendrugo/colata/BenchmarkCompare.java:712 | the pieces of a name are what stands between its dots |
| DenseNames.SplitDropsTrailing | make/tools/benchmark-compare/src/main/java/org/mendrugo/colata/BenchmarkCompare.java:712 | splitting drops the empty pieces at the end, and nothing else |
| DenseNames.ReplacePrefix | make/tools/benchmark-compare/src/main/java/org/mendrugo/colata/BenchmarkCompare.java:754-757 | each segment becomes its first letter, or nothing if never cut; fails exactly when an initial of an empty segment is asked for |
| DenseNames.DenseClassNames | make/tools/benchmark-compare/src/main/java/org/mendrugo/colata/BenchmarkCompare.java:692-785 | maps every name to its segments with the shared prefix replaced; the prefix always fits, and the only failure is that of an empty segment in a cut prefix |
| DenseNames.DenseNameReads | make/tools/benchmark-compare/src/main/java/org/mendrugo/colata/BenchmarkCompare.java:759-782 | a dense name is the abbreviated prefix and the other segments as they are, those that are not empty, joined by dots |
| DenseNames.DenseNamesCollide | make/tools/benchmark-compare/src/main/java/org/mendrugo/colata/BenchmarkCompare.java:759-782 | for any names, two get the same dense name if and only if their segments agree once empty ones are ignored |
| DenseNames.ProperNamesStayDistinct | make/tools/benchmark-compare/src/main/java/org/mendrugo/colata/BenchmarkCompare.java:692-785 | distinct names without empty segments get distinct dense names, and cannot make the method fail |
| DenseNames.EmptySegmentCollides | make/tools/benchmark-compare/src/main/java/org/mendrugo/colata/BenchmarkCompare.java:705-782 | two distinct names, one with an empty segment, for which the method drops the shared prefix and shows both alike |

## Left out

- Text and page work around the graph: parsing the printed IR with regular expressions
  (the matches on a node's trailing text are fields here), colours, layout, step names and
  descriptions, the parameter list.
- Number values: JavaScript doubles are reals here, so rounding, NaN and -0 are not
  modelled; a Return's text keeps its argument as a value instead of its printed form.
- ValueLaws.DivisionLaw: says nothing about the quotient of fractions or of numbers from 2^53
  on, because there the doubles of the program round and the reals of the model do not;
  remainders are exact in both, and RemainderLaw covers them all.
- Generator scaffolding: JavaPoet builders, the file that is written, warm-up and timing.
- Sizes of zero: a loop emitted with step 0 would never end, so loops are run with a
  positive step only. No variant of the repository has such a size.
- Names of temporaries are a constructor with a number; their decimal spelling only
  appears in the comments.
- Termination of the rejection loop: it is probabilistic; the model stops when the given
  rounds run out. The copy of the generator in the outer class and the printed percentages
  are not modelled.
- Infinities are no values of the modelled double: converted longs never reach them.
- Failure of the virtual machine to allocate an array of a size the list asks for, the
  unused modCount field, and the truncation of a property index to short.
- Reading files: header and row splitting, column lookup by header name, blank lines, mode
  names and score numbers. Rows start as their mode, benchmark and parameter texts, in the
  order in which the hash map visits the columns, the same for every row. Value numbers are
  unbounded; in Java they wrap after 2^31 values. A result is its base row; the scores that
  are taken from the two rows are not modelled.
- The red-black tree behind TreeSet: a set is its rows in ascending order. The HashMap is
  its entries in any order.
- Strings compare character by character; code units beyond the basic plane are not
  treated apart. Lower case is any predicate on segments.
- Score formatting, report printing, sorting by difference and command-line options.
- CsvLine.ParseCsvLine: the contract is the recursive parse, whose meaning ParseUndoesPrint
  and FieldCount state.
