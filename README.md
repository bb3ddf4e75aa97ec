# sngp in Dafny: a single-node GP engine

sngp evolves programs with single-node genetic programming. A program
population is one graph of 100 nodes. The first nodes are the problem's
inputs. Every later node applies one operation (Add, Sub, Mult, Div, And,
Or, Nand, Nor, Yes, Not, Greater, Less, Equal, If) to lower-numbered
nodes. Every node is a candidate program.

The search is a hill climber:
- each generation evaluates every node on every fitness case of the problem;
- it keeps the last mutation only if the total score did not drop;
- it then rewires one operand of one random node;
- it re-evaluates only the nodes that the mutation can affect.

To know which nodes those are, the engine keeps a dependents index: for
each node, the nodes that use it. It also keeps an ordered set of changed
nodes.

This project models that core:

| module | file | models |
|---|---|---|
| `SNodes` | snode.dfy | operations, the node record, `getNumParams`, `isValue`, `OpAsString`, the statistics record |
| `SortedArrays` | sortedarray.dfy | the fixed-capacity sorted array (`add`, `clear`) and the sorted-insert specification it meets |
| `Evaluation` | evaluation.dfy | `evalNode` (corrected for Add and Not, with the switch as written beside it), C division, the forward pass, and what the pass computes |
| `Links` | links.dfy | the dependents index: its rebuild from the graph, and the effect of `switchLink` on it |
| `Engine` | engine.dfy | class `EvalEngine`: `evalAll`, `evalChanged`, `clearChanged`, `mutate`, `restore`, `smut`, `switchLink`, `markChanged`, `generateLinks`, `verifyLinksExist`, `verifyAllLinks`, `randomise`, `init` and the setters |
| `Problems` | problem.dfy | the three sample problems (6-multiplexer, parity, symbolic regression), their fitness and their hit test |
| `Worker` | worker.dfy | class `SNGPWorker`: `setProblem`, `reset`, `runGeneration`, `run`, and the program tracing behind `getProgramAsText` |

### Engine invariant

`EvalEngine.Valid` states the engine invariant:
- the graph is acyclic: every non-input node is a function node whose used slots name lower indices;
- the cached dependents list of every non-input node equals its rebuild from the graph;
- the changed set is strictly ascending and closed under dependents;
- every node that differs from the graph last fully evaluated (ghost `base`) is in the changed set.

### What is proved

From that invariant:
- `EvalChanged` yields exactly the full evaluation of the current graph. It re-evaluates only the changed nodes, in ascending order, starting from value vectors fully evaluated against `base`.
- `Mutate` followed by `Restore` gives back the same graph and the same dependents index.
- The worker keeps every case's value vector equal to the full evaluation of the graph, generation after generation.
- The worker keeps each node's fitness equal to its score over all cases.
- A node reaches the problem's target score exactly when it computes the expected output on every case.

### Source files and classes

SEvalEngine (sevalengine.cpp) and SNodeEval (snodeeval.cpp) hold the same
code. One class, `Engine.EvalEngine`, models both. The table cites
sevalengine.cpp, the engine the worker uses. In snodeeval.cpp:
- lines 16-214 are the same;
- markChanged is at 216-225;
- everything after it sits three lines earlier: generateLinks 227-243, verifyLinksExist 245-268, verifyAllLinks 270-306, randomize 308-330, init 332-346, setAvailableOps 348-351.

sevalengine.h declares the dependents lists as vectors and the changed set
as a `SortedArray`. The code in sevalengine.cpp uses them as a multiset and
as an ordered set (`find`/`erase`, `insert` returning whether it was new),
as snodeeval.h declares them. The model follows the code:
- each dependents list is a `multiset<int>`;
- the changed set is a strictly ascending `seq<int>`, grown with the same `SortedArrays.Insert` that specifies `SortedArray.add`.

### Randomness and fitness values

`rand()` is replaced by explicit draws:
- `NodeDraw` is what one `randomise(i)` consumes;
- `MutationDraw` is what one `mutate()` consumes.

The source's `% n` is applied to each draw.

Fitness values are integers, as sngpworker.h declares `_fitness`. The
source's real-valued thresholds (63.9, 2^n - 0.1, -0.1) are compared as
reals.

## Model

| member | source | states |
|---|---|---|
| SNodes.NewNode | snode.cpp:5-11 | a new node is a NoOp with all three slots zero |
| SNodes.NumParams | snode.cpp:13-41 | arity is at most 3; it is 0 exactly for NoOp, InputOp and the sentinel, 1 exactly for ValOp, NotOp and YesOp, 3 exactly for IfOp (the rest are binary) |
| SNodes.IsValue | snode.cpp:43-46 | a value node (an input or a literal) uses at most one slot: the literal exactly one, an input none |
| SNodes.OpAsString | snode.cpp:68-108 | the name is "MaxOps" exactly for the sentinel, and no name is shorter than two characters |
| SNodes.OpNamesDistinct | snode.cpp:68-108 | distinct operations get distinct names, so a name identifies its operation |
| SNodes.SNodeStats.constructor | snode.cpp:110-113 | a new statistics record has every field zero |
| SNodes.SNodeStats.Reset | snode.cpp:115-125 | reset makes every one of the eight fields zero |
| SortedArrays.InsertPos | sortedarray.h:28-39 | the scan stops at the first element greater than the value: every element before it is not greater, and the one at it is greater |
| SortedArrays.InsertShifts | sortedarray.h:32-41 | inserting puts the value at the insertion point, keeps earlier elements in place and moves later ones one place right |
| SortedArrays.InsertSorted | sortedarray.h:27-43 | inserting a new value into a strictly sorted sequence keeps it strictly sorted, adds that value and nothing else, and grows it by one |
| SortedArrays.SortedArray.constructor | sortedarray.h:12-18 | a new array has the requested capacity and no elements |
| SortedArrays.SortedArray.Size | sortedarray.h:25 | size() is the number of stored elements |
| SortedArrays.SortedArray.Add | sortedarray.h:27-43 | add returns true exactly when the value was absent; then the contents become the sorted insertion of the value, otherwise they are unchanged; the array stays strictly sorted |
| SortedArrays.SortedArray.ShiftUp | sortedarray.h:32-34 | elements at [i, size) move one place right; everything else is untouched |
| SortedArrays.SortedArray.Place | sortedarray.h:40-42 | writing the value into the gap and growing the size gives exactly the sorted insertion |
| SortedArrays.SortedArray.Clear | sortedarray.h:45 | clear empties the array and keeps its storage |
| Evaluation.TruncDiv | sevalengine.cpp:83-88 | C division truncates toward zero: the quotient's magnitude is the quotient of the magnitudes, and a non-zero quotient is negative exactly when the operand signs differ |
| Evaluation.TruncDivBounds | sevalengine.cpp:85 | the truncated quotient is the largest magnitude whose multiple of the divisor does not exceed the dividend in magnitude |
| Evaluation.TruncDivNonNegative | sevalengine.cpp:85 | on non-negative operands C division agrees with mathematical division |
| Evaluation.ReadsSuffice | sevalengine.cpp:38-151 | for every operation, the sentinel included, both the switch as written and the corrected evaluation depend on no value but the slots the switch reads (as many as the operation has parameters, all three for the sentinel, which falls through every case) and an input node's own entry: two vectors that agree there give the same result |
| Evaluation.EvalNode | sevalengine.cpp:38-151 | boolean operations yield 0 or 1; NoOp yields 0; an input keeps its value; a literal yields its slot; Add yields the sum of its operands and Not their complement (the corrections below); Div by a zero value yields 0, otherwise the truncated quotient of operand 1 by operand 0; If selects operand 1 or 2 on operand 0 |
| Evaluation.EvalNodeAsWritten | sevalengine.cpp:38-151 | the switch as written agrees with the corrected evaluation on every operation but Add and Not |
| Evaluation.AddAsWritten | sevalengine.cpp:77-78 | as written, Add on operand values 2 and 3 yields 4, where the corrected evaluation yields the sum 5 |
| Evaluation.NotAsWritten | sevalengine.cpp:57-68 | as written, Not computes the same as Yes, so it yields 0 on a zero operand, where the corrected evaluation yields 1 |
| Evaluation.IntendedAddAndNot | sevalengine.cpp:63-78 | corrected, Add is the sum of its operands whatever order the slots name them in, and Not is the complement of Yes |
| Evaluation.EvalNodeLocal | sevalengine.cpp:54-144 | a function node's value depends only on the values of the slots it uses |
| Evaluation.EvalFromStep | sevalengine.cpp:18-19 | one more iteration of the pass evaluates the next node over the vector built so far, and that node only reads existing entries |
| Evaluation.EvalFromSettles | sevalengine.cpp:16-21 | the partial pass leaves input slots and unvisited nodes alone, and every visited node holds its own value over the result |
| Evaluation.FullEvalEvaluates | sevalengine.h:47-55 | evalAll keeps the inputs and leaves every function node holding its operation applied to the final values of its operands |
| Evaluation.EvaluatedUnique | sevalengine.h:47-55 | two evaluated vectors with the same inputs are equal: the inputs determine all stored values |
| Evaluation.EvaluatedIsFullEval | sevalengine.h:47-55 | any evaluated vector with given inputs is what evalAll computes from them |
| Evaluation.FullEvalIdempotent | sevalengine.cpp:16-21 | a second evalAll changes nothing |
| Links.SlotCountPositive | sevalengine.cpp:236-243 | a node is counted as a dependent of k exactly when one of its used slots names k |
| Links.SlotCountRewire | sevalengine.cpp:186-188 | rewiring slot s from a to b lowers the slot count of a by one and raises that of b by one, all else equal |
| Links.ReferrersCount | sevalengine.cpp:236-245 | in the rebuilt list of k, node x occurs once per slot of x that names k, and only scanned nodes occur |
| Links.ReferrersStep | sevalengine.cpp:236-245 | the rebuild scans nodes in order: node i contributes one copy of itself per slot naming k |
| Links.ReferrerNames | sevalengine.h:141-144 | every rebuilt dependent of k is a scanned node that names k |
| Links.ReferrerPresent | sevalengine.h:141-144 | every scanned node that names k is in the rebuilt list of k |
| Links.ReferrersAbove | sevalengine.h:141-144 | in an acyclic graph, only later function nodes depend on a node |
| Links.LinksMatchAbove | sevalengine.h:141-144 | with an exact index, every listed dependent of a non-input node is a later node |
| Links.LinksMatchExist | sevalengine.cpp:248-271 | an exact index passes the fast check: every cached dependent really names its node |
| Links.SwitchedKeepsInputs | sevalengine.cpp:202-213 | switchLink never touches the list of an input node |
| Links.SwitchedCount | sevalengine.cpp:196-214 | a switch removes one occurrence of i from the old link's list and adds one to the new link's list, and changes nothing else |
| Links.RewireKeepsLinks | sevalengine.cpp:186-189 | writing a rewired slot and switching its link keeps the index exact for the new graph |
| Engine.FillSlots | sevalengine.cpp:324-326 | the first j slots get their draws modulo i; the rest and the operation are unchanged |
| Engine.Randomised | sevalengine.cpp:311-333 | the operation comes from the available set; for i > 1 a literal is in [0, 1000] with zeroed other slots, and any other node gets used slots below i and keeps its unused ones; nodes 0 and 1 get all-zero slots |
| Engine.Smutated | sevalengine.cpp:176-194 | smut keeps the operation and changes at most one used slot; a literal gets a value in [0, 1000]; other nodes stay over lower indices; nodes 0 and 1 and nodes without operands are untouched |
| Engine.ResizedNodes | sevalengine.cpp:337 | resizing keeps the existing nodes and pads with default nodes |
| Engine.ResizedLinks | sevalengine.cpp:338 | resizing keeps the existing lists and pads with empty lists |
| Engine.SwitchedAddsOnly | sevalengine.cpp:196-214 | a switch only ever adds the rewired node to a list |
| Engine.OperandsOutside | sevalengine.cpp:216-228 | when the changed set is closed under dependents, a node outside it reads no node inside it |
| Engine.EvalEngine.constructor | sevalengine.cpp:5-10 | a new engine has no inputs, no nodes, no links, no changes and a default saved node at index 0 |
| Engine.EvalEngine.SetSize | sevalengine.h:22 | setSize stores the node count, which getSize then returns |
| Engine.EvalEngine.GetSize | sevalengine.h:27 | once the engine has its shape, getSize is the number of nodes and of dependents lists |
| Engine.EvalEngine.SetNumInputs | sevalengine.h:37 | the input count is the one given |
| Engine.EvalEngine.SetAvailableOps | sevalengine.cpp:351-354 | the available operations are the ones given |
| Engine.EvalEngine.EvalAll | sevalengine.cpp:16-21 | the result is the full forward pass: inputs unchanged, and every function node holds its own value over the result |
| Engine.EvalEngine.EvalStep | sevalengine.cpp:28-29 | re-evaluating the next changed node keeps the earlier changed nodes settled, because they lie below it |
| Engine.EvalEngine.ChangedSettle | sevalengine.cpp:23-31 | after every changed node is re-evaluated, every node holds its own value over the result |
| Engine.EvalEngine.EvalChanged | sevalengine.cpp:23-31 | from vectors fully evaluated against the graph before the changes, re-evaluating only the changed nodes in order gives the full evaluation of the current graph; nodes outside the set keep their values |
| Engine.EvalEngine.ClearChanged | sevalengine.cpp:33-36 | the changed set becomes empty and the current graph becomes the evaluated one; the invariant holds |
| Engine.EvalEngine.SwitchLink | sevalengine.cpp:196-214 | the lists become exactly the switch of one occurrence of i from the old link to the new one, input lists excepted |
| Engine.EvalEngine.MarkChanged | sevalengine.cpp:216-228 | the set stays strictly ascending and gains index; every node it gains lies at or above index, is reachable from index through the dependents lists, and has all its dependents in the set; so, when the set was closed under dependents beforehand, it gains exactly index and those of its transitive dependents that were not yet in it |
| Engine.EvalEngine.ClosedGrows | sevalengine.cpp:221-226 | a node whose dependents are all marked stays so as the set grows |
| Engine.EvalEngine.AddReferrers | sevalengine.cpp:236-245 | after the scan, each list is its start plus the rebuilt dependents |
| Engine.EvalEngine.AddSlotsOf | sevalengine.cpp:237-244 | node i is added to the list of each node a used slot names, once per slot |
| Engine.EvalEngine.AddSlotStep | sevalengine.cpp:239-242 | adding i to the list one slot names extends the counted slots by one |
| Engine.EvalEngine.RebuiltFromNone | sevalengine.cpp:236 | before any node is scanned, the rebuilt lists are the start lists |
| Engine.EvalEngine.AddReferrersStep | sevalengine.cpp:236-245 | scanning one more node extends the rebuild by that node's slots |
| Engine.EvalEngine.GenerateLinks | sevalengine.cpp:230-246 | the index becomes exact for every non-input node; input lists are not cleared and keep accumulating |
| Engine.EvalEngine.VerifyLinksExist | sevalengine.cpp:248-271 | the check succeeds exactly when every cached dependent of a non-input node names that node in a used slot |
| Engine.EvalEngine.VerifyAllLinks | sevalengine.cpp:273-309 | the check succeeds exactly when every non-input list equals its rebuild from the graph |
| Engine.EvalEngine.CompareLinks | sevalengine.cpp:289-306 | striking each cached entry off the rebuilt list finds a difference exactly when the two multisets differ |
| Engine.EvalEngine.StrikeOff | sevalengine.cpp:295-300 | striking one entry off what is left keeps the remainder equal to the rebuild minus what was struck |
| Engine.EvalEngine.LeftoverEmpty | sevalengine.cpp:303-305 | a cached list contained in the rebuild with nothing left over equals it |
| Engine.EvalEngine.Randomise | sevalengine.cpp:311-333 | node i becomes the randomised node for its draws; no other node changes |
| Engine.EvalEngine.MarkInputs | sevalengine.cpp:340-342 | the first numInputs nodes get the input operation; the others are unchanged |
| Engine.EvalEngine.RandomiseAll | sevalengine.cpp:344-346 | every non-input node is randomised with its own draw; the inputs are unchanged |
| Engine.EvalEngine.Init | sevalengine.cpp:335-349 | init resizes, marks the inputs, randomises every other node and rebuilds the index; the engine invariant then holds with the new graph as the evaluated one |
| Engine.EvalEngine.Rewire | sevalengine.cpp:186-190 | the node gets the new slot value, the lists get exactly that link switch, the node is in the changed set, every node the set gains is reachable from it through the dependents lists, and the invariant holds |
| Engine.EvalEngine.Smut | sevalengine.cpp:176-194 | node i becomes its smutated form and input lists are unchanged; when a slot is rewired (i > 1 and the node has parameters) node i is in the changed set and every node the set gains is reachable from it, otherwise the lists and the changed set are untouched; the invariant holds |
| Engine.EvalEngine.Mutate | sevalengine.cpp:153-159 | the node picked is numInputs + draw mod (size - numInputs); it is saved for undo and replaced by its smutated form; when a slot is rewired, that node is in the changed set and every node the set gains is reachable from it, otherwise the lists and the changed set are untouched; the invariant holds |
| Engine.EvalEngine.Restore | sevalengine.cpp:161-174 | the saved node is back at its index; when the mutation changed nothing, the lists and the changed set are untouched too; otherwise the node is in the changed set and every node the set gains is reachable from it through the dependents lists |
| Engine.EvalEngine.MutateThenRestore | sevalengine.h:57-65 | a mutation immediately restored leaves the graph and the dependents index exactly as they were |
| Problems.Bit | problem.cpp:66 | each input is 0 or 1 |
| Problems.BitsOf | problem.cpp:65-67 | a case has one 0/1 input per input slot |
| Problems.BitsOfEncode | problem.cpp:62-67 | reading case i's inputs as a binary number gives i back, so the cases enumerate every input combination |
| Problems.BitsOfDistinct | problem.cpp:86-93 | distinct cases have distinct inputs |
| Problems.MuxCaseSelects | problem.cpp:68 | the multiplexer's output is the data input that the two address bits name |
| Problems.OnesFlip | problem.cpp:90-93 | flipping one input changes the count of set inputs by exactly one |
| Problems.ParityFlip | problem.cpp:94 | flipping any one input of a parity case flips its expected output |
| Problems.PolynomialBounded | problem.cpp:137-145 | every regression target over the sixteen inputs fits a 32-bit signed int |
| Problems.CaseBits | problem.cpp:88-93 | the inner loop builds the case's input bits and counts those that are set |
| Problems.NewMultiplexer | problem.cpp:55-71 | 6 inputs, operations {And, Or, Not, If}, 64 cases, case i being the multiplexer case of i |
| Problems.NewEvenParity | problem.cpp:73-97 | n inputs, operations {And, Or, Nand, Nor}, 2^n cases, case i being the parity case of i |
| Problems.NewSymbolicRegression | problem.cpp:129-148 | 1 input, operations {Add, Sub, Mult, Div}, 16 cases over x = -8 .. 7 with target 4x^4 - 3x^3 + 2x^2 - x |
| Problems.MatchFitness | problem.cpp:109-112 | the boolean problems score a case 1 exactly on a match and 0 otherwise (the multiplexer's getFitness at problem.cpp:50-53 is the same) |
| Problems.RegressionFitness | problem.cpp:150-157 | the regression fitness is minus the distance to the target: never positive, and zero exactly on a match |
| Problems.Fitness | problem.h:47-50 | getFitness dispatches on the problem: 0 or 1 and 1 exactly on a match for the boolean problems, minus the distance to the target for regression |
| Problems.NodeScoreBounds | problem.h:68-75 | a boolean score counts matches, lies in [0, cases] and is maximal exactly on a perfect match; a regression score is at most 0 and is 0 exactly on a perfect match |
| Problems.HitTargetFitness | problem.cpp:40-127 | the scan reports a hit exactly when some score reaches the problem's threshold: 63.9 for the multiplexer (40-48), 2^n - 0.1 for parity (99-107), -0.1 for regression (119-127) |
| Problems.HitMeansSolved | problem.h:111-121 | a node's total score reaches the threshold exactly when it computes the expected output on every case |
| Worker.MaxOf | sngpworker.cpp:105-111 | the best score is one of the scores and no score exceeds it |
| Worker.Totals | sngpworker.cpp:104-111 | the loop computes the sum of all scores and the best one |
| Worker.AddScores | sngpworker.cpp:98-100 | every node's score gains its fitness on the case |
| Worker.ColumnStep | sngpworker.cpp:95-100 | scoring one more case adds that case's fitness to a node's score |
| Worker.ScoresStep | sngpworker.cpp:132-138 | after case c every node's score covers exactly the first c + 1 cases |
| Worker.FullEvalInputs | sngpworker.cpp:97 | evaluating a case keeps its inputs |
| Worker.InitialResults | sngpworker.cpp:35-43 | a case's vector holds its inputs, then zero for every other node |
| Worker.CaseResults | sngpworker.cpp:34-44 | every case's vector is initialised that way |
| Worker.ResizedScores | sngpworker.cpp:31 | resizing the fitness vector keeps the existing scores and pads with zeros |
| Worker.MarkOperands | sngpworker.cpp:177-179 | a mark is set exactly when it was set before or the node names that index in a used slot |
| Worker.UsedByAppend | sngpworker.cpp:174-180 | collecting one more node adds exactly the nodes that node uses |
| Worker.DescendingAppend | sngpworker.cpp:171-174 | nodes are collected in strictly descending order |
| Worker.TraceProgram | sngpworker.cpp:168-182 | the walk collects, in descending order, exactly node i and every node that a collected non-value node uses |
| Worker.Renumber | sngpworker.cpp:186-189 | the remapping maps exactly the collected nodes, each to its position |
| Worker.ProgramIndices | sngpworker.cpp:164-189 | the indices are ascending and are exactly node i and every node that a collected non-value node uses; the remapping numbers them 0 .. n-1 |
| Worker.HitIffSolved | sngpworker.cpp:222 | on the standard cases, some node reaches the target exactly when some node matches every case |
| Worker.MutationIndex | sevalengine.cpp:155 | the node a mutation picks is always a non-input node |
| Worker.SNGPWorker.constructor | sngpworker.cpp:8-13 | a new worker is stopped, has no problem, asks for 0 runs and has zeroed statistics |
| Worker.SNGPWorker.SetProblem | sngpworker.cpp:21-45 | the engine gets the problem's inputs and operations and 100 nodes and is initialised; every case's vector starts with its inputs and zeros; existing scores are kept and padded with zeros; the worker invariant holds |
| Worker.SNGPWorker.SetNumTimesToRun | sngpworker.cpp:47-50 | the requested number of runs is the one given |
| Worker.SNGPWorker.Reset | sngpworker.cpp:52-57 | the statistics are zero and every non-input node is freshly randomised |
| Worker.SNGPWorker.ResetFitness | sngpworker.cpp:91-93 | every score becomes zero |
| Worker.SNGPWorker.EvalCase | sngpworker.cpp:132-134 | full or incremental, evaluating a case gives its full evaluation |
| Worker.SNGPWorker.ScoreCases | sngpworker.cpp:132-138 | every case's vector becomes its full evaluation, and each node's score becomes its fitness summed over all cases |
| Worker.SNGPWorker.ScoreAll | sngpworker.cpp:128-138 | scores are zeroed, then each equals the node's total fitness over the evaluated vectors; inputs are kept |
| Worker.SNGPWorker.FirstGeneration | sngpworker.cpp:89-119 | generation 0 fully evaluates every case; the current, previous and best totals are the sum of the scores and the best individual is their maximum |
| Worker.SNGPWorker.RecordFirst | sngpworker.cpp:115-119 | the first totals become the current, previous and best ones |
| Worker.SNGPWorker.UndoIfWorse | sngpworker.cpp:121-124 | when the total dropped, the last mutation is undone and the previous total restored; otherwise nothing changes |
| Worker.SNGPWorker.Evolve | sngpworker.cpp:121-125 | after the conditional undo, the node the draw picks is saved and smutated |
| Worker.SNGPWorker.MutateEngine | sngpworker.cpp:125 | the engine's mutate picks the node the draw names, saves it and smutates it; the worker keeps its shape and its value vectors stay evaluated against the base graph |
| Worker.SNGPWorker.Rescore | sngpworker.cpp:127-139 | after incremental re-evaluation every case's vector is the full evaluation of the mutated graph, the scores are rebuilt, and the changed set is empty |
| Worker.SNGPWorker.RecordNext | sngpworker.cpp:151-159 | the previous total moves to lastAvgScore and the run maxima never decrease |
| Worker.SNGPWorker.Advance | sngpworker.cpp:121-139 | undo on a drop, mutate, then incrementally rescore to the full evaluation |
| Worker.SNGPWorker.Tally | sngpworker.cpp:141-161 | the new totals are recorded and the generation advances |
| Worker.SNGPWorker.NextGeneration | sngpworker.cpp:120-161 | a later generation undoes a dropped mutation, mutates the picked node, holds the full evaluation and rebuilt scores, and updates the statistics |
| Worker.SNGPWorker.RunGeneration | sngpworker.cpp:86-162 | either branch advances the generation, keeps the vectors fully evaluated and scored, and records the sum and maximum of the new scores |
| Worker.SNGPWorker.HitIffSolvedHere | sngpworker.cpp:222 | with the current scores, a hit means some node solves every case, and conversely |
| Worker.SNGPWorker.CountRun | sngpworker.cpp:221-229 | a hit is counted; a run ends on a hit or at the generation limit and is then counted |
| Worker.SNGPWorker.FinishOrRestart | sngpworker.cpp:230-235 | once the requested runs are complete the worker stops; otherwise the engine is re-initialised and the generation is 0 |
| Worker.SNGPWorker.EndOfGeneration | sngpworker.cpp:221-236 | hits and runs are counted as the source does, and the worker stops or restarts accordingly; the scores are untouched |
| Worker.SNGPWorker.Run | sngpworker.cpp:214-238 | the loop terminates, with the requested number of runs complete and the worker stopped |

## Left out

- Threads, the mutex and the UI (`pause`, `resume`, `isRunning`, `getNodes`, `getFitness`, the copies made while stopped) are not modelled. `step()` (sngpworker.cpp:80-84) is `runGeneration()` under that mutex, so it is `SNGPWorker.RunGeneration`.
- `srand(time(NULL))` and every `rand()` are modelled by draw parameters: `NodeDraw`, `MutationDraw`, and the draw functions of `Run`. The distribution of the draws is not modelled.
- Text rendering is not modelled: `SNode::asString`, and the printing half of `getProgramAsText` (sngpworker.cpp:191-211). The node selection and renumbering it prints from are modelled by `ProgramIndices`.
- The Problem accessors (problem.cpp:15-33 and `getOps`) are field reads of the `Problem` value. A problem's fields are only written by its constructor.
- The abstract `Problem` class with virtual methods is one datatype with a `Kind` tag. `Fitness` and `HitTargetFitness` switch on that tag.
- The worker's `_problem` pointer is an `Option`. Deleting the old problem is not modelled.
- Fitness and statistics are integers instead of doubles. Every fitness the problems return is integral, and sngpworker.h declares `_fitness` as a vector of ints. Only the thresholds are compared as reals.
- C `int` overflow is not modelled: node values, scores, `1 << n` for large n, and `val1 * val0` are all unbounded. `PolynomialBounded` shows the regression targets fit in 32 bits.
- `setNumMaxGenerations` and `_maxGenerations` are not modelled. `run()` compares against the literal 25000 (`MaxGenerations`).
- Engine.EvalEngine.Init: requires every available operation to be a function operation, at least one input, and no pending changes. The sample problems meet all three. With `ValOp` in the operation set, a literal could be mutated after generation 0; literals are modelled by the node-level functions `Randomised` and `Smutated`.
- Engine.EvalEngine.Smut: requires a valid engine, so its `ValOp` branch is unreachable. `Smutated` models that branch.
- Engine.EvalEngine.Restore: requires the saved node to be one slot apart from the current one, which `Mutate` guarantees. restore() is only called after a mutate().
- Engine.EvalEngine.GenerateLinks: says nothing about input-node lists beyond their accumulation. The source never clears them, and nothing reads them.
- Engine.EvalEngine.VerifyLinksExist: requires every cached dependent to be a node index. The source would index out of range otherwise.
- Worker.SNGPWorker.SetProblem: requires generation 0, a well-formed problem and no pending engine changes. Changing the problem in mid-run is not modelled.
- Worker.SNGPWorker.RunGeneration: states the common outcome of both branches; `FirstGeneration` and `NextGeneration` state each branch in full.
- Worker.SNGPWorker.Run: does not state the statistics of each generation; `RunGeneration` and `EndOfGeneration` state them per iteration.
- SortedArrays.SortedArray.Add: requires room for a new value. On a full array the source writes past `_maxSize` unchecked (sortedarray.h:40-41), which is undefined behaviour, so the model excludes that case.
- The SortedArray's `data()` accessor and destructor are not modelled. The zero-initialisation of its storage is not modelled either, because elements past the size are never read.
- `EvalNode` corrects Add (sum of both operands) and Not (complement), as "## Findings" records, and the engine and the worker evaluate with it. The modelled node values therefore differ from the program's wherever Add or Not occurs: the 6-multiplexer (which uses Not) and the symbolic regression (which uses Add) score as the corrected program would. `EvalNodeAsWritten` keeps the switch as written.
- Some loops are restructured without changing behaviour: `add()`'s shift-and-place tail is split into `ShiftUp` and `Place`, and `init()`'s loops into `MarkInputs` and `RandomiseAll`.
- Problem documentation that disagrees with the code follows the code. The parity problem's expected output is `bitsSet & 1`, which is 1 for an odd count, although its comment describes even parity. The regression cases run over x = -8 .. 7, although the comment says -16 .. 16.

## Findings

| source | as written | input that shows it | evidently intended | confidence | as-written member | corrected member |
|---|---|---|---|---|---|---|
| sevalengine.cpp:77-78 | Add returns `val0 + val0`, doubling its first operand and ignoring the second | an Add node over operand values 2 and 3 yields 4 | the sum `val0 + val1` (5) | not executed | Evaluation.AddAsWritten | Evaluation.IntendedAddAndNot |
| sevalengine.cpp:63-68 | Not returns 1 on a non-zero operand and 0 otherwise, the same as Yes | a Not node over operand value 0 yields 0 | the complement of Yes (1 on a zero operand) | not executed | Evaluation.NotAsWritten | Evaluation.IntendedAddAndNot |

`EvalNode` is the corrected rule set, and the engine, the worker and every
evaluation lemma use it. `EvalNodeAsWritten` keeps the switch as the source
writes it, and `AddAsWritten` and `NotAsWritten` exhibit the two
differences. Every other operation is evaluated exactly as written.
