# Verified models of parts of an LLVM 3.7 tree

Twelve components of the tree, each modelled on its own and proved to do what it is for. Code that works by changing
state is modelled by methods and classes proved against specification functions; protocols are state machines.

- **BrainF** (`BrainFLanguage`, `BrainFMachine`, `BrainFTranslation`, `BrainFSimulation`, `BrainFForm`, `BrainFCompiler`): the one-pass
  compiler from BrainF text to basic blocks. The text has a small-step semantics; the blocks run on a machine with a
  register file, phi nodes and 64-bit addresses, which is *stuck* when a phi lacks the block control came from or a
  register is used before it is defined, and *wild* when an access leaves the tape. The class `BrainF` emits blocks as
  `readloop` does, and `Parse` is proved to produce blocks that do exactly what the text does, forever if need be. Apart from
  any run, the blocks are proved to be a legal function in SSA form (`BrainFForm`).
- **Once-only initialisation** (`OnceInit`): any number of threads running the compare-and-swap protocol of
  `CALL_ONCE_INITIALIZATION` with nested dependencies, analysis groups and default passes.
- **CFG walks** (`CFGWalks`): the explicit-stack search for back edges, and potential reachability.
- **Alias arithmetic** (`LinearExpressions`, `LinearExactness`, `GepDecomposition`, `AliasArithmetic`, `GepAliasing`, `Bits`):
  index expressions as linear forms modulo a power of two and exactly when they are more than that, addresses as base plus
  scaled indices, the tests at the end of `aliasGEP`, and the whole way from two pointer expressions to the answer.
- **Alias sets** (`AliasSets`): the tracker with forwarding, path collapsing, reference counts and merging.
- **Block frequencies** (`BlockMasses`, `Distributions`, `Dithering`, `MassShares`, `MassFlow`, `IrreducibleHeaders`): scaling by a fraction,
  combining and normalising weights, dithering, the share each target gets, mass through a region, and the headers of
  irreducible loops.
- **Branch weights** (`BranchWeights`): unreachable, metadata and cold-call weights, and which blocks get marked.
- **Reductions** (`Reductions`): the pairwise and splitting matchers of the cost model, against the meaning of the
  vector code they match.
- **Mod/ref** (`ModRefChain`): answers about calls through a chain of alias analyses of any length.
- **Captures** (`CaptureTracking`): the walk over the uses of a pointer and its copies, also up to an instruction.
- **Exceptions** (`Leb128`, `Personality`, `ExceptionFrames`): reading the tables, the personality routine's two phases,
  and the blocks generated for try, catch and finally, run over whole nests of functions.
- **Thread barrier** (`ThreadBarrier`): `WaitForThreads` over all interleavings.

Where the code does not meet a property on all inputs, the model keeps the code, a lemma gives an input on which the
property fails, and another proves exactly when it holds:

| what fails | an input | exactly when it holds |
|---|---|---|
| bounds checks keep accesses on the tape | `PlusGoesWild` | `ChecksNeedATape` with `CheckedIsSafe` |
| a decomposed index is the index | `OverflowIsMisread`, `NegativeScaleIsMisread` | `FormIsRight`, `ReadsIsExact`, `OneIndexIsExact` |
| the symbolic distance of two pointers is their distance | `ProductIsMisread` | `DistanceIsExact` |
| fields that pass the test are apart | `WrappedEndIsUnsafe` | `FieldsApartIffNoWrap` |
| normalised totals fit 32 bits after an overflow | `OverflowMayNotFit` | `FitsIffFewRoundUp` |
| what is matched as a reduction sums the lanes | `SwapNeeded`, `RegroupNeeded` | `OperatorsThatSum` |
| what is matched sums the whole vector | `WiderSourceIsAccepted` | `WholeIffSameWidth` |
| releasers get what they ask for | `TwoReleasersMisfire`, `TwoReleasersStick` | `ServedIffOneDemand`, `StuckIffShort` |
| everything gets initialised | `UnguardedDefaultDeadlocks` | `AllInitialisedIffAcyclic` |

Where documentation and code disagree, the code is followed. `releaseThreads(num)` is documented to block until there
are enough *other* threads; with a second releaser it returns after fewer (`TwoReleasersMisfire`). The comment on
`DecomposeGEPExpression` says that the variables may have other high bits than are represented; its caller then draws
conclusions as if they had not, and `OverflowIsMisread` and `NegativeScaleIsMisread` are two pairs of equal addresses for
which the answer is NoAlias. In the second, nothing overflows: the scale found below a sign extension is zero-extended.
The comment on the test for signs says that with all variables positive one pointer is not below the other;
`ProductIsMisread` is a third such pair, without any extension, in which a 64-bit index product overflows and no address does.

## Model

| member | source | states |
|---|---|---|
| BrainFLanguage.CloseThenOpen | source_code/examples/BrainF/BrainF.cpp:283-303 | Scanning right for the `]` and left for the `[` agree at every nesting depth |
| BrainFLanguage.BracketsPair | source_code/examples/BrainF/BrainF.cpp:391-407 | Partner brackets: the scan to the right and the scan to the left are inverse on them |
| BrainFLanguage.CloseOuter | source_code/examples/BrainF/BrainF.cpp:417-458 | An inner loop, once closed, does not change which bracket closes the loop around it |
| BrainFSimulation.RunChange | source_code/examples/BrainF/BrainF.cpp:331-350 | Executing a run of `+` and `-`, comments between, one by one changes the cell by the coalesced amount modulo 256 |
| BrainFSimulation.RunMove | source_code/examples/BrainF/BrainF.cpp:352-371 | Executing a run of `<` and `>` moves the head by the coalesced amount, and with checks ends in the error exactly if it lands off the tape |
| BrainFSimulation.BoundsTestExact | source_code/examples/BrainF/BrainF.cpp:244-261 | The two unsigned address comparisons together fire exactly when the offset is off the tape, wherever the tape lies in memory, also where the address wraps |
| BrainFSimulation.MachineRead | source_code/examples/BrainF/BrainF.cpp:201-215 | The three instructions for `,` consume one input character, truncate it to a byte (-1 at the end becomes 255) and store it at the head |
| BrainFSimulation.MachineWrite | source_code/examples/BrainF/BrainF.cpp:217-235 | The three instructions for `.` output the cell at the head and change nothing else |
| BrainFSimulation.MachineChange | source_code/examples/BrainF/BrainF.cpp:269-281 | The three instructions of a change add the amount to the cell at the head modulo 256 |
| BrainFSimulation.MachinePhi | source_code/examples/BrainF/BrainF.cpp:294-299 | The phi of a loop takes the head of whichever side, before the loop or its end, control came from |
| BrainFSimulation.MachineTest | source_code/examples/BrainF/BrainF.cpp:423-455 | From either side of a loop its test enters the body exactly when the cell is not zero, with head, tape and constants carried through both phis |
| BrainFSimulation.Simulate | source_code/examples/BrainF/BrainF.cpp:194-310 | From related states, text and blocks both advance, at least a step each, to related states again or halt alike: one token of simulation |
| BrainFSimulation.SimulateMany | source_code/examples/BrainF/BrainF.cpp:184-467 | However far either run has gone, both reach related states further on, so runs that do not end are covered |
| BrainFCorrectness.FunctionHaltsAsText | source_code/examples/BrainF/BrainF.cpp:184-467 | If the text halts the blocks halt alike, with the same tape, consumed input, output and error message, and are never stuck |
| BrainFCorrectness.TextHaltsAsFunction | source_code/examples/BrainF/BrainF.cpp:184-467 | If the blocks halt the text halts alike; so divergence is preserved too |
| BrainFCorrectness.OutputsAgree | source_code/examples/BrainF/BrainF.cpp:217-235 | At any moment whatever one run has printed the other prints too, ended or not |
| BrainFCorrectness.HeadStays | source_code/examples/BrainF/BrainF.cpp:244-265 | With checks, a head on the tape, or off it only while moves are pending, stays so along every run and no access goes wild |
| BrainFCorrectness.CheckedIsSafe | source_code/examples/BrainF/BrainF.cpp:106-124 | With checks and a non-empty tape every load and store of every run of the blocks is on the tape |
| BrainFCorrectness.ChecksNeedATape | source_code/examples/BrainF/BrainF.cpp:112-115 | The checks keep a program safe only if there is a tape: with size 0, `+` accesses memory before any test |
| BrainFCorrectness.CompiledIsFaithful | source_code/examples/BrainF/BrainF.cpp:40-50 | Blocks that correspond to the text at every token are faithful to it for every input and address of the tape, and safe with checks and a tape |
| BrainFCompiler.BrainF.ReadSymbol | source_code/examples/BrainF/BrainF.cpp:311-414 | The lexer with one symbol of lookahead yields exactly the next coalesced token of the text, and what it holds pending is the beginning of the one after |
| BrainFCompiler.BrainF.EmitMove | source_code/examples/BrainF/BrainF.cpp:237-267 | A move appends the address computation and, with checks, the test and branch to the error block, going on in a new block |
| BrainFCompiler.BrainF.FinishLoop | source_code/examples/BrainF/BrainF.cpp:423-455 | Closing a loop adds the second phi entry, the test and the exit block, and leaves every other block alone: the result is the code of a loop |
| BrainFCompiler.BrainF.CompileLoop | source_code/examples/BrainF/BrainF.cpp:283-303 | A whole loop is compiled to its matching bracket and tells whether the rest still balances; earlier code is kept |
| BrainFCompiler.BrainF.ReadLoop | source_code/examples/BrainF/BrainF.cpp:184-467 | The recursive compiler aborts only on unbalanced brackets, returns at the bracket that closes its loop, and every token up to there has its code |
| BrainFForm.AvailIsDefined | source_code/examples/BrainF/BrainF.cpp:184-467 | What is recorded as available where a block begins is defined on every path from the entry to it |
| BrainFForm.FinishedIsWellFormed | source_code/examples/BrainF/BrainF.cpp:423-466 | When no block is left open: one terminator per block, at its end; phis first, with exactly one entry per predecessor; one definition per register; and on every path of the control-flow graph a definition before each use |
| BrainFForm.OpenForm | source_code/examples/BrainF/BrainF.cpp:283-301 | Opening a loop, with half a phi, keeps the unfinished blocks in form |
| BrainFForm.CloseForm | source_code/examples/BrainF/BrainF.cpp:423-455 | Closing the innermost loop keeps them in form: the patched phi has exactly the two predecessors, and its test, body and exit see their definitions |
| BrainFForm.CheckedMoveForm | source_code/examples/BrainF/BrainF.cpp:237-265 | A move with its test keeps them in form, going on in a new block |
| BrainFCompiler.Parse | source_code/examples/BrainF/BrainF.cpp:40-50 | Compilation succeeds exactly when brackets balance; the function then behaves as the text on every input, never leaves the tape if checked, and is a legal SSA function, run or not |
| OnceInit.StepKeeps | source_code/include/llvm/PassSupport.h:36-54 | Whatever thread moves and whatever it calls, flags, frames and registry stay consistent and a started init function makes progress |
| OnceInit.RunsAreSafe | source_code/include/llvm/PassSupport.h:56-83 | In every run of any number of threads no registry assertion fails, nothing is registered twice, a caller returns only when the pass is registered, and dependencies are registered earlier |
| OnceInit.OneRunner | source_code/include/llvm/PassSupport.h:38-40 | No two frames, of one thread or two, are inside the same init function at one time |
| OnceInit.RunsOnce | source_code/include/llvm/PassSupport.h:36-54 | Along every run of any number of threads each init function, of a pass or a group, is started once at most and ended once at most: exactly once each if the node is initialised |
| OnceInit.PathsGoBack | source_code/include/llvm/PassSupport.h:67-83 | Whatever a registered pass needs, however indirectly, stands before it in the registry, at least as far as the path is long |
| OnceInit.CyclesNeverReturn | source_code/include/llvm/PassSupport.h:46-53 | A pass that needs itself, however indirectly, is never initialised |
| OnceInit.StuckWaits | source_code/include/llvm/PassSupport.h:46-53 | A thread that cannot move is spinning on a flag that says the init function is running |
| OnceInit.StackDescends | source_code/include/llvm/PassSupport.h:70-73 | Along the stack of one thread the rank of the passes strictly descends |
| OnceInit.SomeThreadMoves | source_code/include/llvm/PassSupport.h:36-54 | With acyclic dependencies some thread can always move while one is busy: no deadlock, whatever has happened so far |
| OnceInit.MovesAreBounded | source_code/include/llvm/PassSupport.h:36-54 | Under every schedule the moves of busy threads are bounded by a potential of the state |
| OnceInit.RestIsIdle | source_code/include/llvm/PassSupport.h:36-54 | When nothing can move any more in an acyclic system, every call has returned |
| OnceInit.Settle | source_code/include/llvm/PassSupport.h:36-54 | From any reachable state the busy threads alone can finish every call, and what was asked for is then initialised |
| OnceInit.AllInitialisedIffAcyclic | source_code/include/llvm/PassSupport.h:172-217 | Everything can be initialised if and only if calls between init functions contain no cycle |
| OnceInit.UnguardedDefaultDeadlocks | source_code/include/llvm/PassSupport.h:184-203 | Without the `if (!def)` guard a thread that initialises the group spins for ever on the flag it set itself |
| OnceInit.RegAppends | source_code/lib/IR/PassRegistry.cpp:57-71 | Registering a pass whose callees are registered keeps the registry free of repetition and dependencies before dependents |
| Graphs.NeverLeaves | source_code/lib/Analysis/CFG.cpp:142-171 | A path never leaves a set of blocks closed under successors |
| Backedges.GoDown | source_code/lib/Analysis/CFG.cpp:57-60 | Visiting a new successor keeps what the search has established about visited, stacked and finished blocks |
| Backedges.ScanVisited | source_code/lib/Analysis/CFG.cpp:46-55 | An edge to a visited block is reported exactly if its target is on the stack, and then closes a cycle |
| Backedges.GoUp | source_code/lib/Analysis/CFG.cpp:61-64 | A block is finished after all it reaches by unreported edges |
| Backedges.WalksGoBack | source_code/lib/Analysis/CFG.cpp:27-66 | Any path that avoids the reported edges strictly goes back in finishing order |
| Backedges.FindFunctionBackedges | source_code/lib/Analysis/CFG.cpp:27-66 | Without the reported edges no cycle is reachable from the entry; each is a real edge whose target leads back to its source; the blocks visited are those reachable from the entry, each once; by the order in which blocks are finished, an edge is reported, as often as it occurs, exactly if its target is not finished before its source |
| Reachability.CoveredIsClosed | source_code/lib/Analysis/CFG.cpp:159-166 | Visited blocks together with the loops around them are closed under successors although loop bodies are skipped |
| Reachability.DominatorReaches | source_code/lib/Analysis/CFG.cpp:148-149 | A block that dominates the reachable stop block reaches it |
| Reachability.LoopContainsBoth | source_code/lib/Analysis/CFG.cpp:112-127 | True exactly if both blocks have the same outermost loop |
| Reachability.IsPotentiallyReachableInner | source_code/lib/Analysis/CFG.cpp:129-172 | False only if no start block has a path to the stop; true only if one has or at least 32 blocks can be reached |
| Reachability.IsPotentiallyReachable | source_code/lib/Analysis/CFG.cpp:174-184 | Block to block: false exactly if there is no path, as long as fewer than 32 blocks can be reached |
| Reachability.IsInstructionPotentiallyReachable | source_code/lib/Analysis/CFG.cpp:186-236 | Instruction to instruction: false only if no run leads from the first to the second; true only if one does, 32 blocks can be reached, the block is in a loop, or the first is in the entry block and the second elsewhere |
| LinearExpressions.LinearIsRight | source_code/lib/Analysis/BasicAliasAnalysis.cpp:196-275 | For every expression tree, extension state and depth cut-off the value is scale * variable + offset modulo two to the narrowest width crossed |
| LinearExpressions.LinearIsExact | source_code/lib/Analysis/BasicAliasAnalysis.cpp:196-275 | Where no extension is crossed the linear form gives the value itself |
| LinearExpressions.LeafIsFound | source_code/lib/Analysis/BasicAliasAnalysis.cpp:196-275 | The form is one of the variable or constant itself exactly if every or on the way is a sum, extensions are of one kind, and it is at most six operators away |
| LinearExactness.FormIsRight | source_code/lib/Analysis/BasicAliasAnalysis.cpp:196-275 | For every expression tree, extension state and depth, the form is right in its low t bits if and only if, at every extension that those bits depend on, scale * variable + offset is in the range of the narrow width; factors make fewer bits matter |
| LinearExactness.Crossing | source_code/lib/Analysis/BasicAliasAnalysis.cpp:252-270 | Across an extension from w bits, value and form agree in t bits exactly if they do in w bits and the form lies in the signed (for zext, unsigned) range of w |
| LinearExactness.OneExtension | source_code/lib/Analysis/BasicAliasAnalysis.cpp:252-270 | One sext or zext around any nest of additions, ors, products and shifts of one width: exact if and only if the form is in range |
| LinearExactness.NoOverflowFits | source_code/lib/Analysis/BasicAliasAnalysis.cpp:196-275 | Forms that, as plain integers, fit the narrow width at every extension looked through are right in all bits |
| GepDecomposition.TermAdded | source_code/lib/Analysis/BasicAliasAnalysis.cpp:386-410 | Merging a scaled variable into the list adds its value modulo 2^64, leaves each variable listed once, and no scale zero |
| GepDecomposition.IndexAdded | source_code/lib/Analysis/BasicAliasAnalysis.cpp:344-411 | Offset and terms grow, modulo 2^64 and for all values, by exactly what is read for the index |
| GepDecomposition.ReadsIsExact | source_code/lib/Analysis/BasicAliasAnalysis.cpp:370-384 | What is read for an index of any shape, width and element size moves the address as the index does if and only if the forms are in range where the address depends on it |
| GepDecomposition.NarrowIndex | source_code/lib/Analysis/BasicAliasAnalysis.cpp:370-375 | A byte index narrower than a pointer, implicitly sign-extended: in range means scale * x + offset, in 64 bits, lies in the signed range of its width |
| GepDecomposition.NoOverflowReads | source_code/lib/Analysis/BasicAliasAnalysis.cpp:370-384 | An index whose forms never leave the widths they are in is read as what it is |
| GepDecomposition.AddIndices | source_code/lib/Analysis/BasicAliasAnalysis.cpp:346-411 | The loops over indices and known variables compute the sums that IndexAdded speaks of |
| GepDecomposition.DecompositionIs | source_code/lib/Analysis/BasicAliasAnalysis.cpp:292-420 | Base + offset + scaled variables is, modulo 2^64 and for all values, the address that is read; each variable once; the lookup limit is reported exactly for chains of depth 6 or more |
| GepDecomposition.SameAddress | source_code/lib/Analysis/BasicAliasAnalysis.cpp:292-420 | And it is the address of the pointer when every index is in range |
| GepDecomposition.OneIndexIsExact | source_code/lib/Analysis/BasicAliasAnalysis.cpp:292-420 | For a pointer with one index, if and only if that is in range |
| GepDecomposition.DecomposeGEPExpression | source_code/lib/Analysis/BasicAliasAnalysis.cpp:292-420 | The loop with its lookup count computes the decomposition of which DecompositionIs and SameAddress speak |
| GepDecomposition.FullWidthIsExact | source_code/lib/Analysis/BasicAliasAnalysis.cpp:373-384 | A 64-bit index in which no extension is crossed is always in range |
| AliasArithmetic.DifferenceIs | source_code/lib/Analysis/BasicAliasAnalysis.cpp:1556-1590 | The resulting terms are the symbolic difference, modulo 2^64, for every value of the variables that respects which values are equal; no scale is zero |
| AliasArithmetic.DifferenceMerges | source_code/lib/Analysis/BasicAliasAnalysis.cpp:1556-1590 | Of a variable read alike for both pointers at most one term is left |
| AliasArithmetic.GetIndexDifference | source_code/lib/Analysis/BasicAliasAnalysis.cpp:1556-1590 | The nested loops compute the difference of which DifferenceIs speaks |
| AliasArithmetic.ModuloTest | source_code/lib/Analysis/BasicAliasAnalysis.cpp:1215-1223 | With the lowest bit of all scales, both accesses fitting beside the offset's remainder means they never overlap, for all variable values and any number of address wraps |
| AliasArithmetic.FitsBeside | source_code/lib/Analysis/BasicAliasAnalysis.cpp:1217-1223 | Two accesses whose distance is congruent to a gap that holds both never overlap |
| AliasArithmetic.FitsGapIff | source_code/lib/Analysis/BasicAliasAnalysis.cpp:1217-1223 | Both accesses fit beside the offset in a gap exactly if no step of the gap width, either way, brings them together |
| AliasArithmetic.GapIsLargest | source_code/lib/Analysis/BasicAliasAnalysis.cpp:1180-1215 | The gap width is the largest power of two that divides every scale |
| AliasArithmetic.SignsAreExact | source_code/lib/Analysis/BasicAliasAnalysis.cpp:1189-1212 | The terms count as positive exactly if no values that agree with what is known make one negative |
| AliasArithmetic.FromOffsetIsSound | source_code/lib/Analysis/BasicAliasAnalysis.cpp:1141-1240 | Every answer drawn from the difference is sound for all values: NoAlias means no shared byte, MustAlias no difference at all, PartialAlias from a constant real overlap |
| AliasArithmetic.AnswersAreGiven | source_code/lib/Analysis/BasicAliasAnalysis.cpp:1141-1240 | And each is given when it should be: MustAlias exactly for no difference, NoAlias from a constant exactly if no byte is shared, and with variables exactly if no step of the largest power of two in all scales brings the accesses together or the signs and the constant keep them apart |
| AliasArithmetic.AliasFromOffset | source_code/lib/Analysis/BasicAliasAnalysis.cpp:1141-1240 | The branches and the loop over scales and signs give the answers of which FromOffsetIsSound and AnswersAreGiven speak |
| GepAliasing.DistanceIsSymbolic | source_code/lib/Analysis/BasicAliasAnalysis.cpp:1065-1104 | Two pointer expressions on one base: their addresses differ, modulo 2^64, by the symbolic difference of their decompositions, in every run with indices in range |
| GepAliasing.AnswersAreSound | source_code/lib/Analysis/BasicAliasAnalysis.cpp:1065-1240 | From two pointer expressions to the answer, for every value of every variable and every size: MustAlias means one address; NoAlias means no shared byte, from the gaps always, from a constant if the distance fits 64 bits, from the signs if the symbolic distance fits too; PartialAlias from a constant means a shared byte, unless a size is 0 |
| GepAliasing.DistanceIsExact | source_code/lib/Analysis/BasicAliasAnalysis.cpp:1226-1230 | If the distance fits 64 bits, the symbolic one is it exactly when it fits too, as it does if no index product or partial sum overflows, and for terms known not to be negative only then |
| GepAliasing.GapsNeedNoBound | source_code/lib/Analysis/BasicAliasAnalysis.cpp:1215-1223 | NoAlias from the gaps between scales holds however often addresses wrap |
| GepAliasing.AliasGEP | source_code/lib/Analysis/BasicAliasAnalysis.cpp:1065-1240 | Decomposing, comparing bases, giving up at the lookup limit, subtracting and judging compute the answer of which AnswersAreSound and PointerAnswersAreGiven speak |
| GepAliasing.PointerAnswersAreGiven | source_code/lib/Analysis/BasicAliasAnalysis.cpp:1065-1240 | MayAlias exactly for chains of 6 or more steps or different roots; otherwise NoAlias, MustAlias and PartialAlias exactly as the symbolic difference tells |
| GepAliasing.OneBaseIff | source_code/lib/Analysis/BasicAliasAnalysis.cpp:1065-1100 | One base is found exactly for chains of fewer than 6 steps from one root |
| GepAliasing.BetweenIsMerged | source_code/lib/Analysis/BasicAliasAnalysis.cpp:1556-1590 | Between two pointers each variable read alike is left once at most; without variables the symbolic distance is the constant |
| GepAliasing.SelfMustAlias | source_code/lib/Analysis/BasicAliasAnalysis.cpp:1141-1142 | A pointer and itself must alias, whatever the sizes, if its variables are read alike |
| GepAliasing.OverflowIsMisread | source_code/lib/Analysis/BasicAliasAnalysis.cpp:1150-1159 | Two equal addresses for which the answer for four bytes is NoAlias: an addition that overflows below a sign extension |
| GepAliasing.NegativeScaleIsMisread | source_code/lib/Analysis/BasicAliasAnalysis.cpp:261-269 | Two equal addresses for which the answer is NoAlias although nothing overflows: a negative factor below a sign extension |
| GepAliasing.ProductIsMisread | source_code/lib/Analysis/BasicAliasAnalysis.cpp:1226-1230 | Two equal addresses for which the answer is NoAlias although every index is read as what it is and no address wraps: an index product overflows 64 bits |
| AliasArithmetic.OverlapIsASharedByte | source_code/lib/Analysis/BasicAliasAnalysis.cpp:1150-1176 | Two accesses overlap exactly if some byte belongs to both |
| AliasArithmetic.FieldsStayApart | source_code/lib/Analysis/BasicAliasAnalysis.cpp:960-976 | Fields that pass the test are disjoint in every pair of elements of an array of the struct, if the ends do not wrap |
| AliasArithmetic.FieldsApartIffNoWrap | source_code/lib/Analysis/BasicAliasAnalysis.cpp:965-970 | The test is right for all pairs of elements exactly when neither access's end wraps around 2^64 |
| AliasArithmetic.FieldTestIsExact | source_code/lib/Analysis/BasicAliasAnalysis.cpp:965-970 | If neither end wraps, the test passes exactly for fields that are apart in every pair of elements |
| AliasArithmetic.WrappedEndIsUnsafe | source_code/lib/Analysis/BasicAliasAnalysis.cpp:965-970 | Sizes for which the test passes and the fields overlap |
| Bits.LowestBitTrick | source_code/lib/Analysis/BasicAliasAnalysis.cpp:1215-1215 | x ^ (x & (x - 1)) is the lowest set bit of x |
| Bits.MaskIsRemainder | source_code/lib/Analysis/BasicAliasAnalysis.cpp:1220-1220 | Masking with a bit less one is the remainder modulo that bit |
| Bits.LowOfOr | source_code/lib/Analysis/BasicAliasAnalysis.cpp:1184-1187 | Adding scales to the modulo can only lower its lowest bit to one that divides it |
| Bits.OrIsSum | source_code/lib/Analysis/BasicAliasAnalysis.cpp:221-232 | An or of disjoint bits is a sum |
| AliasSets.ForwardingEnds | source_code/include/llvm/Analysis/AliasSetTracker.h:231-244 | Following forwarding pointers from any set ends at a live set within a bounded number of links |
| AliasSets.MayAliasTogether | source_code/lib/Analysis/AliasSetTracker.cpp:279-302 | Recorded pointers that may alias have the same live set |
| AliasSets.ListedOnce | source_code/lib/Analysis/AliasSetTracker.cpp:99-128 | A recorded pointer is listed by the set its record leads to, by no other, once: the live sets partition the pointers |
| AliasSets.NoneEmpty | source_code/lib/Analysis/AliasSetTracker.cpp:86-97 | A live set holds a pointer or an instruction, and a must set a pointer |
| AliasSets.AliasesPointer | source_code/lib/Analysis/AliasSetTracker.cpp:149-183 | Looking at one pointer of a must set tells the same as looking at all members |
| AliasSets.AliasesUnknownInst | source_code/lib/Analysis/AliasSetTracker.cpp:185-205 | True exactly if the instruction may concern something in the set |
| AliasSets.WithoutInst | source_code/lib/Analysis/AliasSetTracker.cpp:520-536 | Overwriting with the last entry removes all occurrences and nothing else |
| AliasSets.AliasSetTracker.DropRef | source_code/include/llvm/Analysis/AliasSetTracker.h:143-147 | Giving up a reference, with the removals it cascades into, keeps the whole invariant, reference counts included, and every set still reached |
| AliasSets.AliasSetTracker.RemoveAliasSet | source_code/lib/Analysis/AliasSetTracker.cpp:86-97 | Erasing an unreferenced set keeps the invariant and touches nothing that is reached otherwise |
| AliasSets.AliasSetTracker.GetForwardedTarget | source_code/include/llvm/Analysis/AliasSetTracker.h:231-244 | Collapsing a chain ends at its live set, makes the set forward there directly, and changes nobody's live set |
| AliasSets.AliasSetTracker.GetAliasSet | source_code/include/llvm/Analysis/AliasSetTracker.h:83-92 | A record comes to name the live set it led to |
| AliasSets.AliasSetTracker.MergeSetIn | source_code/lib/Analysis/AliasSetTracker.cpp:30-84 | Pointers and instructions of the one are appended to the other; refs, mods and volatile are each set exactly if they were on one of the two; must exactly if both were and all pointers must alias; whatever led to the one leads to the other; other sets stay |
| AliasSets.AliasSetTracker.FindAliasSet | source_code/lib/Analysis/AliasSetTracker.cpp:224-273 | All sets the query may alias, and no others, are merged into one, which is found and holds, and is accessed, exactly as they were together; nothing is found if there are none |
| AliasSets.AliasSetTracker.AddPointer | source_code/lib/Analysis/AliasSetTracker.cpp:279-309 | The set of the pointer is made of the one that listed it, or else of exactly those that may alias it: it holds what they held and the pointer, each flag is set exactly if it was on one of them or the access has it, and it is must exactly if they were and all its pointers must alias. All other live sets keep contents and flags. New exactly if unrecorded and no set aliased it |
| AliasSets.AliasSetTracker.GetAliasSetForPointer | source_code/lib/Analysis/AliasSetTracker.cpp:279-302 | The same before the access is recorded: no flag is gained |
| AliasSets.AliasSetTracker.AddToSet | source_code/lib/Analysis/AliasSetTracker.cpp:99-128 | The pointer is listed and recorded; the set stays must exactly if the pointer must alias all it lists |
| AliasSets.AliasSetTracker.AddUnknown | source_code/lib/Analysis/AliasSetTracker.cpp:353-368 | The instruction ends in a may set made of exactly the sets that it may concern, with their contents and flags, refs, and mods if it writes; all other live sets keep contents and flags; new exactly if there were none |
| AliasSets.AliasSetTracker.DeleteValue | source_code/lib/Analysis/AliasSetTracker.cpp:514-546 | The value's record, its place in a list, and its unknown effects, go; sets keep everything else, flags included, and only sets that held nothing else are gone; all other pointers keep their live set |
| BlockMasses.Saturates | source_code/include/llvm/Analysis/BlockFrequencyInfoImpl.h:84-101 | The wrap tests make sum and difference saturate at full and empty |
| BlockMasses.Digits | source_code/lib/Support/BranchProbability.cpp:35-49 | The 96-bit product is recombined from 32-bit digits with its carry |
| BlockMasses.TwoStepDivision | source_code/lib/Support/BranchProbability.cpp:55-64 | Dividing digit by digit gives the quotient of the whole |
| BlockMasses.ScaleIsFloor | source_code/lib/Support/BranchProbability.cpp:29-68 | Scaling a 64-bit number by N/D is the floor of the exact product, or full if that does not fit; exact when N = D |
| BlockMasses.ShareBound | source_code/lib/Analysis/BlockFrequencyInfoImpl.cpp:90-99 | A share is never more than the whole, and the whole share is the whole |
| Distributions.CombineAdds | source_code/lib/Analysis/BlockFrequencyInfoImpl.cpp:118-132 | Combining capped amounts of one target gives the capped sum, whatever their order |
| Distributions.CombineBySorting | source_code/lib/Analysis/BlockFrequencyInfoImpl.cpp:133-153 | Sorting and compacting in place leaves one positive weight per target holding the capped sum of its amounts |
| Distributions.CombineByHashing | source_code/lib/Analysis/BlockFrequencyInfoImpl.cpp:154-170 | Hashing, emptied in any order, leaves the same |
| Distributions.CollatedIsUnique | source_code/lib/Analysis/BlockFrequencyInfoImpl.cpp:171-179 | Both ways of combining give the same weights up to order |
| Distributions.RoundsToNearest | source_code/lib/Analysis/BlockFrequencyInfoImpl.cpp:180-186 | Shifting rounds to the nearest multiple |
| Distributions.ShiftLeaves31 | source_code/lib/Analysis/BlockFrequencyInfoImpl.cpp:205-211 | For any 64-bit total above 32 bits the shift leaves less than 2^31 |
| Distributions.ShiftIsLeast | source_code/lib/Analysis/BlockFrequencyInfoImpl.cpp:205-211 | And no smaller shift does |
| Distributions.ScaledTotal | source_code/lib/Analysis/BlockFrequencyInfoImpl.cpp:225-241 | With at most 2^31 targets the new total never wraps and fits 32 bits if the old did not overflow, although each weight is raised to at least 1 |
| Distributions.OverflowMayNotFit | source_code/lib/Analysis/BlockFrequencyInfoImpl.cpp:205-211 | Two full weights overflow the total, and the scaled total is 2^32: one more than fits |
| Distributions.FitsIffFewRoundUp | source_code/lib/Analysis/BlockFrequencyInfoImpl.cpp:205-240 | After an overflow the new total fits 32 bits if and only if the amounts without their low 33 bits and the number of weights rounded up do together |
| Distributions.Distribution.Add | source_code/lib/Analysis/BlockFrequencyInfoImpl.cpp:101-116 | The weight is appended, and total with overflow flag still stand for the exact sum |
| Distributions.Distribution.Normalize | source_code/lib/Analysis/BlockFrequencyInfoImpl.cpp:187-241 | One positive weight per target, scaled from the sums of its amounts; the total is their sum and fits 32 bits when it did not overflow |
| Dithering.DitherSum | source_code/lib/Analysis/BlockFrequencyInfoImpl.cpp:83-99 | The shares taken one after the other add up to the mass put in, exactly |
| Dithering.DitherIsFair | source_code/lib/Analysis/BlockFrequencyInfoImpl.cpp:83-99 | Every edge gets at least the floor of its exact share |
| Dithering.DitherIsTight | source_code/lib/Analysis/BlockFrequencyInfoImpl.cpp:83-99 | And no more than one unit for each edge before it above its exact share |
| MassShares.ScaledTotals | source_code/lib/Analysis/BlockFrequencyInfoImpl.cpp:213-241 | Scaled back, the total of the scaled weights is that of the edges to within one step of the shift for each target |
| MassShares.NormalizedNear | source_code/lib/Analysis/BlockFrequencyInfoImpl.cpp:187-241 | Collating and scaling keep the weight of each target, and the total, to the grain of the shift, also after an overflow |
| MassShares.SharesAreFair | source_code/lib/Analysis/BlockFrequencyInfoImpl.cpp:378-424 | Each target of a block gets its share of the mass by the sum of the weights of the edges to it: to within one unit an edge, and one part in 2^30 an edge where weights had to be scaled |
| MassShares.SmallTotals | source_code/lib/Analysis/BlockFrequencyInfoImpl.cpp:205-211 | Where the total fits 32 bits, at least the exact share rounded down |
| Dithering.DitheringDistributer.constructor | source_code/lib/Analysis/BlockFrequencyInfoImpl.cpp:83-88 | Cutting the total to 32 bits loses nothing after normalising |
| Dithering.DitheringDistributer.TakeMass | source_code/lib/Analysis/BlockFrequencyInfoImpl.cpp:90-99 | No mass is lost or made: what is taken and what is left add up to what was there; it is the weight's exact share rounded down, and everything when the weight is all that is left |
| MassFlow.DepositAllHolds | source_code/lib/Analysis/BlockFrequencyInfoImpl.cpp:397-423 | Depositing shares on nodes to come, exits and back edges adds exactly their sum and never saturates |
| MassFlow.DepositAllArrives | source_code/lib/Analysis/BlockFrequencyInfoImpl.cpp:397-423 | Every share arrives at its own target, and at no other |
| MassFlow.AddToDist | source_code/lib/Analysis/BlockFrequencyInfoImpl.cpp:260-320 | Fails exactly for an edge back to a node that is no header; otherwise one local, exit or backedge weight of at least 1 is added |
| MassFlow.LocalsAhead | source_code/lib/Analysis/BlockFrequencyInfoImpl.cpp:299-315 | In the order of visits every local edge leads to a node not yet visited |
| MassFlow.AddSuccessorsToDist | source_code/include/llvm/Analysis/BlockFrequencyInfoImpl.h:1137-1150 | Every edge is entered with its kind, its target and its own weight, 0 counted as 1 |
| MassFlow.MassState.DistributeMass | source_code/lib/Analysis/BlockFrequencyInfoImpl.cpp:378-424 | The source's mass lands, share by share, on the targets of the normalised weights |
| MassFlow.MassState.PropagateMassToSuccessors | source_code/include/llvm/Analysis/BlockFrequencyInfoImpl.h:1129-1157 | Refuses exactly if some edge cannot be classified, changing nothing; otherwise the node's mass has moved to successors still to come, exits and back edges, each target getting its share by the weights of the edges to it, and nothing else changing |
| MassFlow.MassState.SplitAmongHeaders | source_code/include/llvm/Analysis/BlockFrequencyInfoImpl.h:1035-1041 | Each header of an irreducible loop receives an even part of the full mass, rounded down or up, and they receive all of it together |
| MassFlow.MassState.ComputeMassInLoop | source_code/include/llvm/Analysis/BlockFrequencyInfoImpl.h:1030-1058 | Succeeds exactly if local edges go forward; then every node has dealt its mass out in shares by the weights of its edges, the mass of a node is the sum of the shares it got, likewise back-edge mass and each exit, and back-edge mass, exits and the mass of ending nodes add up to the full mass put in |
| MassFlow.FlowStep | source_code/include/llvm/Analysis/BlockFrequencyInfoImpl.h:1030-1058 | Visiting a node keeps that all mass has come from the nodes visited, by their weights |
| MassFlow.MassState.TryToComputeMassInFunction | source_code/include/llvm/Analysis/BlockFrequencyInfoImpl.h:1060-1078 | The same over the function with its loops packaged: each node deals out its mass by the weights of its edges, and all mass ends where control ends |
| IrreducibleHeaders.FindEntryBlocks | source_code/lib/Analysis/BlockFrequencyInfoImpl.cpp:608-629 | Finds exactly the blocks with a predecessor outside the component, each once |
| IrreducibleHeaders.FindExtraHeaders | source_code/lib/Analysis/BlockFrequencyInfoImpl.cpp:631-668 | Adds exactly the targets of backward edges from blocks that are not entries |
| IrreducibleHeaders.FindIrreducibleHeaders | source_code/lib/Analysis/BlockFrequencyInfoImpl.cpp:604-669 | Splits the component, both parts in order, so that a block is a header exactly if it has an outside predecessor or is the target of a backward edge |
| IrreducibleHeaders.OthersAscend | source_code/lib/Analysis/BlockFrequencyInfoImpl.cpp:636-668 | Any path among the others ascends, so they hold no cycle |
| IrreducibleHeaders.IrreducibleLoopIsForward | source_code/include/llvm/Analysis/BlockFrequencyInfoImpl.h:1042-1044 | Mass distribution never gives up in a loop with these headers, as the unreachable there promises |
| BranchWeights.MarksAreExact | source_code/lib/Analysis/BranchProbabilityInfo.cpp:127-153 | One pass in post-order marks exactly the blocks all whose paths run into unreachable code, without cycling |
| BranchWeights.ColdMarksMeet | source_code/lib/Analysis/BranchProbabilityInfo.cpp:222-250 | From a block marked cold every path that ends, or is longer than the visits, meets a cold call |
| BranchWeights.ColdMarksAreExact | source_code/lib/Analysis/BranchProbabilityInfo.cpp:222-250 | Exactly the blocks without a way out are marked cold: a way along visited successors without a cold call to a block that the heuristic does not see, that has no successors, or that goes on to a later block |
| BranchWeights.SharedFits | source_code/lib/Analysis/BranchProbabilityInfo.cpp:155-172 | The two kinds of weights shared over a block's edges are positive and their sum fits 32 bits |
| BranchWeights.ClampedFits | source_code/lib/Analysis/BranchProbabilityInfo.cpp:177-212 | Recorded weights cut to an equal part of 32 bits are positive and their sum fits |
| BranchWeights.ClampedRecords | source_code/lib/Analysis/BranchProbabilityInfo.cpp:177-212 | Recorded weights keep their order, and their value between 1 and an equal part of 32 bits; larger ones become that part, zero becomes 1 |
| BranchWeights.SharedApportions | source_code/lib/Analysis/BranchProbabilityInfo.cpp:155-172 | The edges to marked blocks share one total evenly, at least 1 each, the others another, at least 16 each; every edge to a marked block weighs less than every other |
| BranchWeights.UnreachableOdds | source_code/lib/Analysis/BranchProbabilityInfo.cpp:63-73 | An edge into unreachable code weighs 1; the others weigh 2^20 - 1 together to within their number; with one edge of each kind it is taken once in 2^20 times |
| BranchWeights.BranchProbabilityInfo.CalcUnreachableHeuristics | source_code/lib/Analysis/BranchProbabilityInfo.cpp:127-173 | Decides a block exactly if it branches and an edge goes to a marked block, weighs its edges alone, 1 shared by those to marked blocks and 2^20 - 1 by the others, each of the former less than each of the latter, and marks it exactly if it must end in unreachable |
| BranchWeights.BranchProbabilityInfo.CalcMetadataWeights | source_code/lib/Analysis/BranchProbabilityInfo.cpp:177-212 | Decides exactly the branches with a constant profile of the right length, and keeps the recorded weights in order and as they are where they lie in range |
| BranchWeights.BranchProbabilityInfo.CalcColdCallHeuristics | source_code/lib/Analysis/BranchProbabilityInfo.cpp:222-275 | Decides exactly the branching blocks with an edge to a cold one, with 4 shared by those edges and 64 by the others, each of the former less than each of the latter; marks cold what has a cold call or only cold successors |
| BranchWeights.BranchProbabilityInfo.GetSumForBlock | source_code/lib/Analysis/BranchProbabilityInfo.cpp:548-560 | The 32-bit sum is the true sum and grows with every edge, as asserted |
| BranchWeights.BranchProbabilityInfo.RunOnFunction | source_code/lib/Analysis/BranchProbabilityInfo.cpp:500-532 | All sums fit 32 bits, marks are those of the post-order, each block keeps the weights of the first heuristic that decides it, so that every edge to unreachable, or else cold, code is less likely than every other, and recorded weights keep order and value; what none decides is left as it was |
| Reductions.FoldPairs | source_code/lib/Analysis/CostModel.cpp:161-168 | Joining neighbouring lanes keeps the fold of an operator whose operands may be regrouped |
| Reductions.FoldHalves | source_code/lib/Analysis/CostModel.cpp:330-375 | Joining two halves keeps the fold |
| Reductions.MatchPairwiseShuffleMask | source_code/lib/Analysis/CostModel.cpp:138-159 | Accepts exactly the masks that pick the even (or odd) lanes of this level and leave the rest undefined |
| Reductions.MatchPairwiseReductionAtLevel | source_code/lib/Analysis/CostModel.cpp:161-240 | Accepts exactly the roots of a chain of pairwise levels of one operator down to one vector |
| Reductions.MatchPairwiseReduction | source_code/lib/Analysis/CostModel.cpp:242-289 | Succeeds exactly for lane 0 of such a chain as long as the logarithm of the width, and reports operator and width |
| Reductions.FillMask | source_code/lib/Analysis/CostModel.cpp:361-370 | Reusing the mask buffer still gives the mask of this level |
| Reductions.MatchVectorSplittingReduction | source_code/lib/Analysis/CostModel.cpp:305-379 | Succeeds exactly for lane 0 of a chain of halving levels of one operator |
| Reductions.PowerOf2Is | source_code/lib/Analysis/CostModel.cpp:257-262 | The bit test accepts exactly the powers of two |
| Reductions.ChainFolds | source_code/lib/Analysis/CostModel.cpp:161-240 | Along a matched chain the fold of the first lanes equals the fold of twice as many lanes at every further level, whatever undefined lanes hold |
| Reductions.MatchedReduces | source_code/lib/Analysis/CostModel.cpp:242-379 | What either matcher accepts computes in lane 0 the fold of as many lanes of one vector as the root has; the splitting form, of a vector of that width |
| Reductions.WholeIffSameWidth | source_code/lib/Analysis/CostModel.cpp:242-289 | A matched sum of n lanes is the sum of the whole vector, for every operator that may be reordered, if and only if the vector has n lanes |
| Reductions.CostOfExtract | source_code/lib/Analysis/CostModel.cpp:460-479 | An extract is costed as a reduction exactly if one of the forms matches; then lane 0 sums as many lanes of one vector as the root has, all of them exactly if that vector is as wide as the root, as it is in the splitting form |
| Reductions.OperatorsThatSum | source_code/lib/Analysis/CostModel.cpp:305-379 | What is matched sums the lanes exactly for operators whose operands may be swapped and regrouped; the matchers do not check this |
| Reductions.WiderSourceIsAccepted | source_code/lib/Analysis/CostModel.cpp:242-289 | The pairwise matcher accepts code that sums half of a wider vector |
| ModRefChain.BehaviorIsSound | source_code/lib/Analysis/AliasAnalysis.cpp:241-268 | Intersecting behaviours along a chain of any length stays sound |
| ModRefChain.BehaviorIsExact | source_code/lib/Analysis/AliasAnalysis.cpp:241-268 | A behaviour loses exactly what some analysis of the chain denies |
| ModRefChain.CallAndLocation | source_code/lib/Analysis/AliasAnalysis.cpp:103-151 | Never less than the call really does to the location, despite masking and argument loops; and Mod or Ref exactly if no analysis of the chain rules it out by behaviour, constant memory, or arguments none of which may alias and do it |
| ModRefChain.LocationIsExact | source_code/lib/Analysis/AliasAnalysis.cpp:103-151 | That second half, for any call, location and chain |
| ModRefChain.ChainRefines | source_code/lib/Analysis/AliasAnalysis.cpp:147-150 | An analysis put before a chain never makes the answer wider |
| ModRefChain.SecondStays | source_code/lib/Analysis/AliasAnalysis.cpp:195-200 | Leaving the argument loop once the mask is full loses nothing |
| ModRefChain.FirstStays | source_code/lib/Analysis/AliasAnalysis.cpp:221-228 | The same for the loop over the first call's arguments |
| ModRefChain.ThroughSecond | source_code/lib/Analysis/AliasAnalysis.cpp:177-203 | Inverting reads and writes of the second call's arguments still covers every dependence |
| ModRefChain.ThroughFirst | source_code/lib/Analysis/AliasAnalysis.cpp:205-231 | The first call's arguments cover every dependence too |
| ModRefChain.CallAndCall | source_code/lib/Analysis/AliasAnalysis.cpp:153-239 | Contains Mod where the first call writes what the second uses, and Ref where it reads what the second writes, through a chain of any length; and no more: nothing for unrelated calls, else what some argument of the second, or else of the first, calls for if it works through arguments only |
| ModRefChain.CallIsExact | source_code/lib/Analysis/AliasAnalysis.cpp:153-239 | That second half, for any two calls and chain |
| ModRefChain.SeparateArgumentsIndependent | source_code/lib/Analysis/AliasAnalysis.cpp:177-203 | Two calls that work through arguments only, no two of which may alias, do not depend on each other |
| ModRefChain.InstructionAndLocation | source_code/lib/Analysis/AliasAnalysis.cpp:342-424 | Never less than a load, store, va_arg, atomic or call does to the location, and nothing exactly if it cannot meet it; otherwise what its kind can do |
| ModRefChain.CanInstructionRangeModRef | source_code/lib/Analysis/AliasAnalysis.cpp:519-533 | False only if no instruction of the range, both ends included, uses the location in the way asked for |
| ModRefChain.InstructionIsExact | source_code/lib/Analysis/AliasAnalysis.cpp:342-424 | The answer for an instruction is empty exactly for no access, no alias or a write to constant memory, else exactly what some instruction of its kind does |
| CaptureTracking.CaptureTracker.ShouldExplore | source_code/lib/Analysis/CaptureTracking.cpp:67-84 | A use that can run before the instruction asked about is explored; one that the tree puts after it for good is not |
| CaptureTracking.CaptureTracker.OnCapture | source_code/lib/Analysis/CaptureTracking.cpp:86-103 | A leak that counts stops the walk, and nothing else does; returning the pointer counts only if asked for |
| CaptureTracking.ChainIsDone | source_code/lib/Analysis/CaptureTracking.cpp:228-246 | When nothing waits every chain of copies whose uses count has been looked at to its end |
| CaptureTracking.Walk | source_code/lib/Analysis/CaptureTracking.cpp:169-270 | An untouched tracker means that no chain of copies of the pointer ends in a leak; a touched one, that a chain of uses that may count does, or that there are more than 20 uses; the walk ends though phis make copies cyclic |
| CaptureTracking.PointerMayBeCaptured | source_code/lib/Analysis/CaptureTracking.cpp:122-136 | True exactly if some chain of copies ends in a capturing use, or one of the copies has more than 20 uses |
| CaptureTracking.RunMatters | source_code/lib/Analysis/CaptureTracking.cpp:67-84 | Along a run that hands the pointer on, leaks it and then reaches the instruction, no use may be skipped |
| CaptureTracking.PointerMayBeCapturedBefore | source_code/lib/Analysis/CaptureTracking.cpp:147-162 | False only if no run hands the pointer on, leaks it and then reaches the instruction, itself not on the chain unless included; true only if a chain of uses ends in a leak, or in more than 20 uses, and the tree puts none of the chain after the instruction for good |
| Leb128.EncodedU | source_code/examples/ExceptionDemo/ExceptionDemo.cpp:376-392 | The value and length of an unsigned encoding are those encoded, whatever follows |
| Leb128.EncodedS | source_code/examples/ExceptionDemo/ExceptionDemo.cpp:400-420 | The same for signed numbers |
| Leb128.FourBytesU | source_code/examples/ExceptionDemo/ExceptionDemo.cpp:382-387 | Four bytes hold exactly the unsigned numbers of 28 bits |
| Leb128.FourBytesS | source_code/examples/ExceptionDemo/ExceptionDemo.cpp:406-417 | Four bytes hold exactly the signed numbers of 28 bits |
| Leb128.ReadULEB128 | source_code/examples/ExceptionDemo/ExceptionDemo.cpp:376-392 | Shifting and or-ing reads the number of an encoding of up to four bytes and moves past it |
| Leb128.ReadSLEB128 | source_code/examples/ExceptionDemo/ExceptionDemo.cpp:400-420 | The same for signed numbers, as a 64-bit word in two's complement |
| Leb128.RoundTrip | source_code/examples/ExceptionDemo/ExceptionDemo.cpp:371-420 | Reading what was encoded gives it back, anywhere in memory |
| Personality.ChainIsOne | source_code/examples/ExceptionDemo/ExceptionDemo.cpp:576-627 | The bytes determine the action chain |
| Personality.HandleActionValue | source_code/examples/ExceptionDemo/ExceptionDemo.cpp:550-630 | Finds exactly if a record of the chain has the type, with one plus the position of the first; never for a foreign exception |
| Personality.HandleLsda | source_code/examples/ExceptionDemo/ExceptionDemo.cpp:644-814 | In the search phase a handler is reported exactly for a match at the call site of the pc; in the cleanup phase the landing pad is installed with the selector of that match, or 0 |
| Personality.BothPhases | source_code/examples/ExceptionDemo/ExceptionDemo.cpp:756-807 | A handler is reported exactly when the cleanup phase installs a selector that is not 0, and never for a foreign exception |
| ExceptionFrames.Builder.CreateCatchWrappedInvokeFunction | source_code/examples/ExceptionDemo/ExceptionDemo.cpp:1126-1374 | Creating the blocks first and filling them in afterwards yields the intended function for any number of clauses |
| ExceptionFrames.FrameRuns | source_code/examples/ExceptionDemo/ExceptionDemo.cpp:1126-1374 | Running the generated blocks: without an exception finally runs and the function returns; with one, the selected clause runs, then finally, then the exception is freed or resumed |
| ExceptionFrames.ClausesSelect | source_code/examples/ExceptionDemo/ExceptionDemo.cpp:1274-1283 | For tables made of the clauses the personality selects one plus the first clause with the type |
| ExceptionFrames.NestUnwinds | source_code/examples/ExceptionDemo/ExceptionDemo.cpp:1126-1374 | For a nest of any depth and any catch lists, exactly what happens, in order |
| ExceptionFrames.SearchPhase | source_code/examples/ExceptionDemo/ExceptionDemo.cpp:756-807 | Asking the personality routine of every frame, with its own tables, finds a handler exactly if some frame lists the type of a native exception |
| ExceptionFrames.Raise | source_code/examples/ExceptionDemo/ExceptionDemo.cpp:644-814 | Both phases through a nest, tables read by the personality routine and selectors installed by it, give exactly the events that the catch lists prescribe |
| ExceptionFrames.EventsCounted | source_code/examples/ExceptionDemo/ExceptionDemo.cpp:1126-1374 | The innermost frame that lists the type catches; every finally runs exactly once if anyone handles the exception, else none; it is freed exactly once if caught; foreign ones are never caught |
| ThreadBarrier.StepKeeps | source_code/examples/ParallelJIT/ParallelJIT.cpp:149-217 | Every step of every call keeps that n counts the unsignalled waiters and is below waitFor |
| ThreadBarrier.RunsAreSafe | source_code/examples/ParallelJIT/ParallelJIT.cpp:149-175 | In every interleaving the assertion of `block` holds, no call is let go twice, and a call that returned was in a batch let go |
| ThreadBarrier.BroadcastKeeps | source_code/examples/ParallelJIT/ParallelJIT.cpp:202-217 | One broadcast lets go exactly the calls that n counts |
| ThreadBarrier.ReleasesEnough | source_code/examples/ParallelJIT/ParallelJIT.cpp:177-199 | While releasers under way at one time ask for one number, `releaseThreads(k)` returns only after one broadcast let go at least k calls |
| ThreadBarrier.ServedIffOneDemand | source_code/examples/ParallelJIT/ParallelJIT.cpp:177-199 | With demands from a set, every releaser gets what it asks for in every run if and only if the set has one number at most |
| ThreadBarrier.StuckIffShort | source_code/examples/ParallelJIT/ParallelJIT.cpp:149-199 | In no run is a releaser stuck with its own demand reached, if and only if the demands that are not zero are one number |
| ThreadBarrier.StuckWaits | source_code/examples/ParallelJIT/ParallelJIT.cpp:149-199 | When no call can go on the mutex is free, every call waits or is back, and fewer wait than was last asked for |
| ThreadBarrier.TwoReleasersMisfire | source_code/examples/ParallelJIT/ParallelJIT.cpp:190-194 | For any two demands, a run in which the releaser of the greater returns when only the lesser number of calls was let go |
| ThreadBarrier.TwoReleasersStick | source_code/examples/ParallelJIT/ParallelJIT.cpp:190-194 | For any two demands that are not zero, a run that ends stuck with the lesser one reached |

## Left out

- BrainFCompiler.Parse: texts and tapes of more than 2^31 - 1 characters or cells, where the compiler's own counters overflow; characters skipped as white space are among those ignored. `malloc` is taken to succeed and to give a tape that does not wrap around the address space.
- BrainF: driver, JIT, bitcode, value names; `BrainFDriver.cpp`.
- OnceInit: memory fences and weak memory; steps are sequentially consistent. Registry locks, listeners, constructors and ownership of `PassInfo`.
- Reachability.IsPotentiallyReachableInner: the dominator tree and loop information are oracles assumed right; unreachable stop blocks drop the dominator tree as in the source.
- GepDecomposition.DecomposeGEPExpression: 64-bit pointers only; aliases of globals and simplified instructions are not looked through.
- GepAliasing.AliasGEP: bases that are the same value; other bases, and two GEPs of one operand judged by their fields first, are not modelled. What the analysis knows of equal reads, signs and low bits is an oracle.
- GepAliasing.AnswersAreSound: NoAlias is promised of runs in which every index is in range where it matters. Drawn from a constant it is promised if the distance of the addresses fits 64 bits; drawn from the signs of the variables, only if the symbolic distance fits 64 bits too, that is, if index products do not overflow, which is more than that addresses do not wrap (ProductIsMisread). Drawn from the gaps it needs neither.
- GepDecomposition.TermAdded: variables are the same if their expressions are, where the source compares `Value` pointers: the model merges, and matches between two pointers, more terms.
- AliasArithmetic.GetIndexDifference: signed overflow of scales and offsets is taken to wrap around.
- AliasArithmetic.AliasFromOffset: of the last `PartialAlias`, which the source calls a hack, only when it is given is promised, not that accesses overlap. No variable is known to be both negative and not.
- Alias analysis: the first half of `aliasGEP` with its recursive queries, `aliasPHI`, `aliasSelect`, `MergeAliasResults`, the struct walk before the field test, `aliasCheck`.
- AliasSets.AliasSetTracker.AddPointer: access sizes are fixed per pointer; growth of a recorded size and alias metadata are not modelled. The alias oracle is symmetric and must-alias an equivalence that it respects.
- AliasSets.AliasSetTracker.GetForwardedTarget: the reference to the old target is dropped after, not before, the forwarding field is set; the two are independent.
- AliasSets: intrusive lists are sequences, sets live in maps by number, and live sets are visited in any order. The `remove` family, `copyValue`, `clear` and debug intrinsics are not modelled.
- Distributions.Distribution.Normalize: after an overflow its contract promises the 32-bit bound for totals with room to round, which is all that mass distribution adds; FitsIffFewRoundUp has the exact condition.
- Distributions.SortWeights: `std::sort` is an insertion sort and the hash table is emptied in arbitrary order.
- MassFlow.MassState.ComputeMassInLoop: edges from a node that is no header to itself are excluded, as loops make such nodes headers. Loop scales, packaging, exit frequencies and `Scaled64` arithmetic are not modelled, nor is `convertFloatingToInteger`.
- IrreducibleHeaders.FindIrreducibleHeaders: the component comes from the search for strongly connected components, which is not modelled, and has two entry blocks, as the source asserts.
- BranchWeights.BranchProbabilityInfo.RunOnFunction: pointer, zero, floating-point, loop and invoke heuristics; blocks left to them keep the weights they had. The post-order is given.
- Reductions.MatchPairwiseReduction: every vector is at least as wide as the root, which has at least two lanes; otherwise the source writes past its mask.
- Reductions: the remaining cases of the cost model, `isReverseVectorMask`, `isAlternateVectorMask`.
- ModRefChain.CallAndCall: analyses that override the call queries themselves; `callCapturesBefore`; the instruction and call form.
- CaptureTracking.PointerMayBeCapturedBefore: a capture by the instruction itself in an earlier turn of a loop is not seen unless it is included, in the model as in the source.
- Leb128.ReadULEB128: encodings of more than four bytes, where the source shifts an `int`.
- Leb128.ReadSLEB128: likewise.
- Personality.HandleLsda: `readEncodedPointer` and the header bytes are read already; call sites are a list; a filter, which the source asserts away, is excluded.
- ExceptionFrames.ClausesSelect: that the tables list the clauses in order is an assumption about the emitter, `TablesFor`.
- ExceptionFrames.Raise: the unwinder's two loops over frames stand for the runtime library.
- ExceptionFrames: printing; the functions of the demonstration program; exceptions thrown from catch and finally blocks.
- ThreadBarrier.RunsAreSafe: spurious wakeups, and counters that wrap. The barrier is a state machine on values, not a class, because its steps interleave.
- `source_code/libdyncast`, `source_code/libdlcfi/dlcfi.cpp`: calls into other libraries around one test. CFLAliasAnalysis: its sets are stratified elsewhere.
