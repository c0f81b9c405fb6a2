# Verified model of the MunVM code generator

MunVM turns the syntax tree of a function into a list of instructions, builds SSA form over its control-flow graph,
lays out its frame, resolves parallel moves and emits x86-64 code. This project models those passes and proves what
they promise. Nothing here runs the original program.

`dafny verify dfyconfig.toml` checks the whole project.

| files | what they hold |
|---|---|
| `words`, `wrappers` | machine integers and register numbers; optional values |
| `paths`, `semidominators`, `dominators`, `aliasing` | graph theory by preorder number, path compression and the climb to immediate dominators; the same as written |
| `discovery`, `numbering` | the depth-first walk over blocks, and what it says about the control-flow graph |
| `bitvector`, `frontiers`, `phis`, `ssa` | word-packed sets and their iterator, dominance frontiers, phi placement, and why the phis suffice |
| `flow`, `liveness`, `deadstores`, `renaming`, `livenesswritten` | liveness along walks, the data-flow loop and its queries, dead stores; the same as written |
| `construction`, `ssawritten` | the passes one after the other, with theorems about the control-flow graph itself; phi placement after liveness as written |
| `machine`, `moves`, `cycles`, `resolver` | the parallel move resolver over a machine with registers and stack cells |
| `x64`, `encoding`, `operands`, `assembler`, `emitters`, `emitterswritten`, `movebytes`, `frames` | a decoder after the Intel 64 and IA-32 Architectures Software Developer's Manual, Volume 2A (sections 2.1.3, 2.1.5 and 2.2.1), the assembler proved against it, lists of its calls, the same as written, the resolver's code assembled, and what entering and leaving a frame do to the stack |
| `lowering`, `lowered`, `listing`, `builder` | lowering of syntax trees to instruction lists |
| `scope`, `locations`, `uses` | frame slots, tagged operand locations, use lists |

## What the model repairs

Where the code does not do what it is evidently meant to do, the main results are about the repaired code, and a
lemma says exactly when the code as written is right.

- Dominators: label and semidominator of a finished block share one cell (flow_graph.c:113), so compression lowers
  finished semidominators, and the label is never read into `best` (lines 105-110). Here the arrays hold values.
  As written: `Aliasing.DominatorsAsWritten` has the exact condition, on the links that path compression leaves, which
  depend on the order of the edges; `Aliasing.WrongAsWritten` and `Aliasing.RightAsWritten` are about the graph alone,
  and where neither applies the order of the compressions decides.
- Discovery pushes the address of a variable local to the loop body (flow_graph.c:45-49); here the states are values.
  The list of live phis and the parent array start empty (lines 26 and 316 use them unset).
- Liveness: the variable index is compared with the number of blocks (liveness.c:74 and 86) and a load adds its index
  to the list of vectors instead of a bit (line 75); the query for the last load looks in live-in (line 139). As
  written: `LivenessAsWritten.EmptySetsRight` for the sets, `StoresRightIff` and `LoadRightIff` for the queries,
  `DropsUnseenIff` for dropping stores, and `SsaAsWritten.PhisAsWritten` for the phis. Bits past the end of a vector,
  which the index test as written lets through, are memory of something else: there the model asks that every
  variable be counted, which `FrameSlots.PlacedApart` shows of allocated ones.
- Resolver: a move is dropped when source and destination differ instead of when they are equal
  (move_resolver.c:35); the body of the loop that performs the moves is missing (lines 55-60; here all moves but
  constant loads, then the constant loads, then the list is cleared); a swap rewrites a destination where it should
  rewrite a source (x64/resolver.c:103); nothing is emitted between two FPU registers (lines 42-44). As written
  the loop does nothing, so that none of the others is reached: `Resolver.CompileAsWritten`.
- Assembler: the operand's prefix bits are dropped (core.c:14-17), a high index register sets REX.W instead of REX.X
  (line 29), the limit of the 32-bit test overflows (lines 58-62), the prefix of addsd has its registers swapped
  (line 411), and the scaled address leaves its prefix unset (lines 135-139; taken as empty). As written:
  `EmittersAsWritten.CallAsWritten`, call by call, with `Operands.MisplacedIndexBit` and
  `Encoding.Is32AsWrittenNeverHolds` for two of the causes.
- Lowering: the load visitor of the value context is never bound (flow_graph.c:492-498). The model has both, by the
  parameter `loads`: `Building.UnboundLoadsAgree`, `Building.LoadedOperandCrashes`.
- Locations: the bias of stack indices shifts a 32-bit 1 by 54 (location.c:13): `Locations.SlotRoundTrip` holds for any
  bias, `Locations.IntendedSlots` for the intended one. Policies have a field of three bits and values up to 16
  (location.c:25-27): `Locations.PolicyRoundTrip`.
- Entry: the size of a frame is a parameter here; the code asks for as many bytes as there are slots
  (x64/compiler.c:31-41): `Frames.EntryTakesTooLittle`,
  with `Frames.FrameHoldsSlots` for the size that is enough.

## Model

| member | source | states |
|---|---|---|
| Discovery.FlowGraph.DiscoverBlock | src/codegen/instructions.c:161-193 | A block counts as visited only if the preorder array confirms its number, so stale numbers do no harm; a visited block only gains a predecessor, a new one is numbered, linked to its parent and starts with that one predecessor |
| Discovery.FlowGraph.Step | src/codegen/flow_graph.c:37-53 | One round of the loop takes the walk to its next state: revisit, enter or leave |
| Discovery.NextKeepsInvariant | src/codegen/flow_graph.c:37-53 | Every step of the walk keeps the whole invariant: spanning tree, stack is a tree branch, visited blocks are on the stack or finished, finished edges are settled, predecessor lists record exactly the edges seen |
| Discovery.NextKeepsOrder | src/codegen/flow_graph.c:37-53 | Every step keeps the order of the walk as well: what each predecessor list holds first and in which order, successors from the last to the first, and the order in which blocks finish |
| Discovery.FlowGraph.Traverse | src/codegen/flow_graph.c:37-53 | The loop terminates from any state of the walk and keeps its invariant and order |
| Discovery.FlowGraph.Discover | src/codegen/flow_graph.c:22-60 | For every graph and any left-over numbers and lists, the walk ends in a complete discovery made in the order of the walk; reverse postorder is the postorder backwards |
| Numbering.DiscoveryVisitsReachable | src/codegen/flow_graph.c:22-60 | Preorder and postorder list exactly the reachable blocks, each once |
| Numbering.PostorderOrdersEdges | src/codegen/flow_graph.c:50-59 | An edge goes to a block that finished earlier, or back to a spanning-tree ancestor |
| Numbering.PostorderFromTree | src/codegen/flow_graph.c:50-55 | The finishing order, both ways: one block finishes before another if and only if it is below it in the spanning tree, or was visited earlier and the other is not below it |
| Numbering.LastSuccessorFirst | src/codegen/flow_graph.c:33-43 | What follows the last mention of a tree child in its parent's successor list was visited before that child |
| Numbering.JoinListsFollowWalk | src/codegen/blocks.c:68-75 | The first predecessor a join lists, the one its first phi inputs stand for, is its parent in the spanning tree; a later one was not visited earlier unless it is an ancestor of the one before |
| Numbering.JoinListsAreExact | src/codegen/blocks.c:68-75 | A join block's list holds each reachable edge into it exactly as often as it occurs, and no other |
| Numbering.NumberedGraphExact | src/codegen/blocks.c:4-43 | The predecessors the passes read give exactly the edges of the reachable graph if and only if no edge enters the graph entry and no target block has two different predecessors |
| Numbering.NumberingIsDepthFirst | src/codegen/instructions.c:179-185 | Parents form a depth-first spanning tree: parents come before children, and an edge to a higher number goes to a descendant |
| Numbering.DominanceTransported | src/codegen/flow_graph.c:98-123 | Dominance among preorder numbers is dominance among the blocks of the control-flow graph |
| Numbering.ImmediateDominanceTransported | src/codegen/flow_graph.c:98-123 | So is immediate dominance, against every block of the graph |
| Semidominators.StrictDominatorsCharacterised | src/codegen/flow_graph.c:115-121 | The strict dominators of a block are exactly the dominators of its spanning-tree parent that are not above its semidominator: why climbing by number finds the immediate dominator |
| Dominators.AnswerIsLeastAbove | src/codegen/flow_graph.c:68-75 | At any stage of compression, following links and taking the least label gives the least semidominator on the original tree path |
| Dominators.CompressPath | src/codegen/flow_graph.c:68-75 | After compressing, the label is the least semidominator over the original path above the start, the link goes to an original ancestor not above the start, answers for all vertices are unchanged, and higher-numbered vertices are untouched |
| Dominators.RecurrenceIsSemidominator | src/codegen/flow_graph.c:98-111 | The least offer of a block's predecessors is its semidominator, defined by paths through higher-numbered blocks |
| Dominators.OfferOf | src/codegen/flow_graph.c:102-108 | What one predecessor offers is attained by such a path and bounds all offers through its branch |
| Dominators.SemidominatorOf | src/codegen/flow_graph.c:98-114 | Processing one block stores its semidominator and links it into the forest |
| Dominators.ComputeSemidominators | src/codegen/flow_graph.c:87-114 | Every non-entry block gets its semidominator |
| Dominators.ClimbFrom | src/codegen/flow_graph.c:116-120 | The climb ends at the immediate dominator |
| Dominators.ClimbToDominators | src/codegen/flow_graph.c:115-123 | idom names the immediate dominator of each non-entry block; the dominated list of a block holds exactly the blocks it immediately dominates, in increasing order |
| Dominators.ComputeDominatorTree | src/codegen/flow_graph.c:78-123 | For every graph with a depth-first numbering: the true immediate dominators, and in each dominated list exactly the blocks immediately dominated, in increasing order |
| Dominators.DominatorsAreAncestors | include/mun/codegen/instruction.h:116-120 | Ancestors in the dominator tree are exactly the dominators |
| Aliasing.DominatorsAsWritten | src/codegen/flow_graph.c:87-121 | As written, with label and semidominator in one cell: the result is the dominator tree if and only if no block's immediate dominator is above the block's final link; the links follow from the edges and the spanning tree by compression alone |
| Aliasing.WrongAsWritten | src/codegen/flow_graph.c:98-121 | On the graph alone: as written the result is wrong whenever a block has an edge back past one of its strict dominators, to a block other than the entry |
| Aliasing.RightAsWritten | src/codegen/flow_graph.c:98-121 | And it is right whenever no block on the tree path that such an edge closes has a strict dominator past the edge's target |
| Aliasing.LoopIsMisread | src/codegen/flow_graph.c:68-121 | On a loop of three blocks behind the entry, discovered depth first, as written block 3 is given dominator 1 where 2 is right |
| Frontiers.RunUp | src/codegen/flow_graph.c:129-134 | For one predecessor, the runner terminates and adds the block to exactly the frontiers of the predecessor's dominators that do not strictly dominate the block |
| Frontiers.SinglePredecessorRunsNowhere | src/codegen/flow_graph.c:127-128 | A block with at most one predecessor is in no frontier, so skipping it loses nothing |
| Frontiers.ComputeFrontiers | src/codegen/flow_graph.c:125-136 | Bit y is set in the vector of x exactly when x dominates a predecessor of y and does not strictly dominate y |
| Phis.IteratedFrontierIsLeast | src/codegen/flow_graph.c:163-181 | The blocks reached by frontier steps form the least set that contains the frontier of every assigned block and of its own members |
| Phis.PhiInserter.SeedWorklist | src/codegen/flow_graph.c:156-161 | The worklist starts with exactly the assigned blocks, marked for this variable |
| Phis.PhiInserter.PlacePhi | src/codegen/flow_graph.c:168-179 | Placing at one block is one step of the worklist transition: at most one phi per block and variable |
| Phis.PhiInserter.ProcessBlock | src/codegen/flow_graph.c:163-181 | Visiting one block's frontier leaves a phi all over it and disturbs no other variable |
| Phis.PhiInserter.PlaceVariable | src/codegen/flow_graph.c:155-182 | The worklist terminates with phis exactly on the iterated frontier; phis of other variables are untouched |
| Phis.PhiInserter.Insert | src/codegen/flow_graph.c:140-183 | For all variables over one set of marks that is never cleared: phis exactly on the iterated frontiers, one input per predecessor, and each phi once in the live list |
| Ssa.OneDefinitionReaches | src/codegen/flow_graph.c:140-183 | Without a phi, the last definition before a block is the same on every path from the entry |
| Ssa.PathsConvergeAtPhi | src/codegen/flow_graph.c:140-183 | Where two paths from different definitions first meet there is a phi |
| SsaConstruction.ReadPredecessors | src/codegen/instructions.c:143-159 | Reading the predecessor fields by number gives the graph the dominator pass needs |
| SsaConstruction.NumberProgram | src/codegen/liveness.c:4-16 | The blocks in postorder with successors by postorder number: the same program under new names |
| SsaConstruction.ComputeAssigned | src/codegen/liveness.c:100-114 | For each block in preorder: exactly the variables it stores and leaves live |
| SsaConstruction.ComputeSsa | src/codegen/flow_graph.c:305-317 | On a discovered graph, dominators, frontiers, liveness and phi placement one after the other: dominator tree, lists of dominated blocks, frontiers, and phis exactly on the iterated frontiers of the blocks that store a variable and leave it live |
| SsaConstruction.BuildSsa | src/main.c:24-25 | Discovery and then all of these, on any control-flow graph with single entries and whatever numbers and lists its blocks start with |
| SsaConstruction.ImmediateDominators | src/codegen/flow_graph.c:305-310 | In terms of the control-flow graph: each reachable block but the entry has its immediate dominator |
| SsaConstruction.PhiBlocksAreJoins | src/codegen/flow_graph.c:170-171 | Every phi lands in a join block with more than one predecessor and has one input for each: the unchecked cast is safe |
| SsaConstruction.MeetingPathsHavePhi | src/codegen/flow_graph.c:305-317 | Whenever two control-flow paths from blocks that store a variable (or are the entry) first meet at a block where it is live, that block has a phi for it |
| SsaConstruction.PhisComeFromLiveStores | src/codegen/liveness.c:108-110 | A variable has phis only if some reachable block stores it and leaves it live |
| SsaConstruction.OneDefinitionReachesBlock | src/codegen/flow_graph.c:305-317 | Where a variable is live into a block without a phi, the last block that stores it or holds a phi for it is the same on all control-flow paths from the entry, although dead stores got no phis |
| SsaAsWritten.InsertPhisAsWritten | src/codegen/liveness.c:100-114 | After liveness as written every assigned set is empty, and so is the placement |
| SsaAsWritten.PhisAsWritten | src/codegen/liveness.c:108-110 | As written there is no phi at all, which is the intended placement if and only if no block that stores a variable and leaves it live has a dominance frontier |
| Renaming.LiveRenamed | src/codegen/liveness.c:12 | Liveness does not depend on how blocks are numbered |
| BitVectors.BitVector.constructor | include/mun/bitvec.h:31-37 | A new vector is empty and has room for its size |
| BitVectors.BitVector.Contains | include/mun/bitvec.h:49-53 | The bit test is membership |
| BitVectors.BitVector.Add | include/mun/bitvec.h:21-24 | Adds exactly one member |
| BitVectors.BitVector.Remove | include/mun/bitvec.h:16-19 | Removes exactly one member |
| BitVectors.BitVector.Clear | include/mun/bitvec.h:26-29 | Leaves the empty set |
| BitVectors.BitVector.Intersect | include/mun/bitvec.h:44-47 | Leaves the intersection |
| BitVectors.BitVector.AddAll | include/mun/bitvec.h:55-69 | Leaves the union, and reports a change exactly when the set changed |
| BitVectors.BitVector.KillAndAdd | include/mun/bitvec.h:71-85 | Adds the generated members that are not killed, and reports a change exactly when the set changed |
| BitVectors.BitVectorIterator.Advance | src/bitvec.c:3-27 | Steps to the next member; what remains is what remained without the current one, over all-zero words and words used up at their top bit |
| BitVectors.BitVectorIterator.constructor | src/bitvec.c:40-50 | Initially all members remain |
| BitVectors.Enumerate | src/bitvec.c:3-50 | A full iteration yields exactly the members, in strictly increasing order, and ends |
| Flow.SoundSolutionIsLiveness | src/codegen/liveness.c:4-24 | A solution of the data-flow equations that holds only live variables is liveness along walks, and the least solution |
| Liveness.ScanBlock | src/codegen/liveness.c:70-96 | The backward scan finds the upward-exposed loads and the stores of a block, and marks each access by what follows it in the block |
| Liveness.LivenessAnalysis.UpdateLiveOut | src/codegen/liveness.c:4-16 | Live-out gains the live-in sets of all successors; a change is reported exactly |
| Liveness.LivenessAnalysis.UpdateBlock | src/codegen/liveness.c:36-38 | Recomputing live-in only when live-out changed keeps live-in what live-out determines |
| Liveness.LivenessAnalysis.Pass | src/codegen/liveness.c:34-39 | A pass either makes progress or shows that everything is settled |
| Liveness.LivenessAnalysis.ComputeLiveSets | src/codegen/liveness.c:27-41 | The loop terminates, settled and consistent |
| Liveness.LivenessAnalysis.Analyze | src/codegen/liveness.c:44-53 | A variable is live-in exactly when some walk reaches a load of it before a store; and the sets are the least solution |
| Liveness.LivenessAnalysis.InitialSets | src/codegen/liveness.c:56-98 | Exposed loads and stores of every block, and the marks of every access |
| Liveness.LivenessAnalysis.ComputeAssigned | src/codegen/liveness.c:101-114 | Kill sets cut down in place to what is live-out, in the given order |
| Liveness.LivenessAnalysis.IsStoreAlive | src/codegen/liveness.c:126-133 | The answer read off marks and live-out |
| Liveness.LivenessAnalysis.IsLastLoad | src/codegen/liveness.c:136-140 | The answer read off marks and live-out, where the source looks in live-in |
| Liveness.StoreAliveMeansLive | src/codegen/liveness.c:126-133 | A store is reported alive exactly when some walk from just after it loads the variable before another store |
| Liveness.LastLoadMeansDead | src/codegen/liveness.c:136-140 | A load reported last is followed by no other load before a store; without a later store in its block, the report is exact |
| DeadStores.UnseenIffNothingLive | src/codegen/liveness.c:126-133 | Letting stores write null goes unseen by every load on every walk if and only if none of those stores is live |
| DeadStores.DeadStoresAreInvisible | src/codegen/liveness.c:126-133 | On every walk and whatever the stores compute, storing null instead of each value not reported alive changes no value any load sees |
| LivenessAsWritten.ScanBlock | src/codegen/liveness.c:70-96 | The scan as written: the list of vectors grows with each load that passes the index test, live-in stays empty, and the marks say what follows among the accesses that pass |
| LivenessAsWritten.OneLongerPerLoad | src/codegen/liveness.c:74-75 | The scan as written makes the list of vectors longer by exactly the number of loads that pass the index test |
| LivenessAsWritten.Analyze | src/codegen/liveness.c:44-53 | As written the analysis ends with empty live-in and live-out and the marks of the scan |
| LivenessAsWritten.EmptySetsRight | src/codegen/liveness.c:71-96 | The empty sets are liveness if and only if no block loads a variable before storing it |
| LivenessAsWritten.AliveIffSkipped | src/codegen/liveness.c:125-133 | As written a store is reported alive if and only if it fails the index test |
| LivenessAsWritten.StoresRightIff | src/codegen/liveness.c:125-133 | All answers about stores are right if and only if exactly the stores that no load meets later pass the index test; with a block for every variable, if and only if no store is loaded later |
| LivenessAsWritten.IsLastLoad | src/codegen/liveness.c:135-140 | The query as written, read off marks and live-in |
| LivenessAsWritten.LoadRightIff | src/codegen/liveness.c:135-140 | The answer about a load is right if and only if it is the last of its block to pass the index test just when nothing loads the variable later; with a block for every variable: if another load follows in the block it comes before any store, and if none does, a store does or the variable is dead at the end |
| LivenessAsWritten.LastLoadLooksInLiveIn | src/codegen/liveness.c:139 | Line 139 alone, on correct sets: when looking in live-in instead of live-out gives the right answer, for every load |
| LivenessAsWritten.DropsUnseenIff | src/codegen/liveness.c:125-133 | As written, dropping the stores not reported alive goes unseen if and only if no store that passes the index test is loaded later |
| LivenessAsWritten.DroppingAsWritten | src/codegen/liveness.c:125-133 | Then it is invisible on every walk whatever the stores compute |
| LivenessAsWritten.LoadedStoreReportedDead | src/codegen/liveness.c:83-96 | A store, a load and a store in one block: the empty sets are liveness, and yet the first store is marked dead although the load sees it |
| Machine.SlotSides | src/location.c:165-173 | Negative slots lie above the return address, slot -1 next to it, the others below the saved frame pointer, slot 0 three words below; the next higher slot is eight bytes lower |
| Machine.MoveCodeMoves | src/codegen/x64/resolver.c:12-78 | The code for one move puts the source's value in the destination and changes nothing but the scratch registers if the kinds match; otherwise the destination keeps its value |
| Machine.MovesIffKindsMatch | src/codegen/x64/resolver.c:12-78 | The code for a move carries it out from every state if and only if it goes neither from a processor register, single slot or constant to an FPU register nor from an FPU register or double slot to a processor register |
| Machine.SwapCodeSwaps | src/codegen/x64/resolver.c:87-91 | The swap code exchanges two registers |
| Moves.EmitMoveRealises | src/codegen/x64/resolver.c:12-78 | Emitting a move whose destination nobody still reads realises it and keeps the other moves right |
| Moves.EmitSwapRealises | src/codegen/x64/resolver.c:81-106 | Swapping, with sources exchanged in the remaining moves, realises one move and keeps the others right (the source changes a destination in one branch) |
| Cycles.ClosedStackIsCycle | src/codegen/move_resolver.c:40-46 | When a pending move still reads the destination, the pending moves form a cycle |
| Cycles.SwapKeepsCycles | src/codegen/x64/resolver.c:96-105 | A swap takes its move out of the cycles that hold it, leaves all other cycles as they are and makes none; only registers are swapped if all cycles are of registers |
| Cycles.EliminateKeepsCycles | src/codegen/move_resolver.c:35-38 | Eliminating a move that nobody waits for leaves exactly the same cycles |
| Resolver.MoveResolver.EmitSwap | src/codegen/x64/resolver.c:81-106 | Only registers are swapped; anything else stops |
| Resolver.MoveResolver.BuildInitialMovesList | src/codegen/move_resolver.c:14-19 | The list is the non-redundant moves in order |
| Resolver.FilteredInOrder | src/codegen/move_resolver.c:14-19 | Two moves of the list come from two of the parallel move in the same order |
| Resolver.MoveResolver.PerformMove | src/codegen/move_resolver.c:22-49 | Performing a move first clears what reads its destination, terminates, and eliminates it with the code still able to reach the goal; it stops only on a cycle with a non-register |
| Resolver.MoveResolver.Finish | src/codegen/move_resolver.c:33-49 | With no reader left but pending ones: drop a move onto itself, swap to close a cycle, else move |
| Resolver.MoveResolver.PerformMoves | src/codegen/move_resolver.c:55-60 | All moves but constant loads are performed |
| Resolver.MoveResolver.LoadConstants | src/codegen/x64/resolver.c:66-75 | Constant loads come last and complete the list |
| Resolver.MoveResolver.Compile | src/codegen/move_resolver.c:52-61 | For every list of moves with distinct destinations and matching kinds: it succeeds if and only if all cycles are of registers, and then every location outside the scratch registers holds what the simultaneous assignment gives it; no instruction uses the frame if one sets the frame pointer |
| Resolver.CompileAsWritten | src/codegen/move_resolver.c:52-61 | As written nothing is emitted, which is right if and only if every move is redundant |
| MoveBytes.PerformsCode | src/codegen/x64/resolver.c:12-91 | The instructions of the resolver's code, performed one after the other, do what the code does |
| MoveBytes.EmitInstr | src/codegen/x64/resolver.c:12-91 | Each of them is assembled to bytes that decode to it, with stack cells addressed from the frame pointer |
| MoveBytes.Assemble | src/codegen/move_resolver.c:52-61 | From a parallel move to bytes: they decode, with none left over, to moves that leave in every location but the scratch registers what the simultaneous assignment puts there |
| Operands.Operand.SetSib | src/x64/core.c:26-32 | SIB byte and prefix bits of index and base (the source sets the wrong prefix bit for the index) |
| Operands.Operand.InitRegister | src/x64/core.c:141-145 | The operand decodes to the register, for all 16 |
| Operands.Operand.InitAddress | src/x64/core.c:117-132 | The operand decodes to base plus displacement for all 16 base registers: RSP and R12 through a SIB byte, RBP and R13 with an explicit displacement; the displacement takes no byte, one byte or four, as few as it can |
| Operands.Operand.InitScaled | src/x64/core.c:134-139 | The operand decodes to index times scale plus displacement; RSP as index means none, a factor of 16 reads as 1 |
| Operands.MisplacedIndexBit | src/x64/core.c:27-32 | As written, the operand is the intended one if and only if the index register is below 8 |
| Encoding.Is32AsWrittenNeverHolds | src/x64/core.c:58-62 | The 32-bit test as written never succeeds, so it agrees with the intended one exactly on wide immediates (what becomes of the emitters is in EmittersAsWritten.CallAsWritten) |
| Encoding.SplitsRex | src/x64/core.c:7-17 | A prefix is read back before any opcode, and its absence too |
| Encoding.DecodesImm64 | src/x64/core.c:65-71 | A 64-bit immediate is read back |
| Encoding.DecodesImm32 | src/x64/core.c:40-43 | A 32-bit field reads back as the value cut down to 32 bits |
| Assembling.Assembler.EmitOper | src/x64/core.c:74-78 | Emits the operand's bytes with the register field filled in |
| Assembling.Assembler.EmitImmediate | src/x64/core.c:65-71 | Four bytes if the value fits 32 bits, eight otherwise |
| Assembling.Assembler.EmitComplex | src/x64/core.c:81-94 | Whichever of the three forms is chosen, the bytes decode to the same arithmetic instruction; and which form it is, by its length |
| Assembling.Assembler.MovqRR | src/x64/core.c:468-475 | Decodes to a 64-bit register move, for all registers |
| Assembling.Assembler.MovqRI | src/x64/core.c:495-509 | Decodes to the load of the immediate, in the short or the 64-bit form |
| Assembling.Assembler.MovqRA | src/x64/core.c:478-482 | Decodes to the load from the address |
| Assembling.Assembler.MovqAR | src/x64/core.c:512-516 | Decodes to the store to the address |
| Assembling.Assembler.MovqAI | src/x64/core.c:519-529 | Decodes to the store of the immediate, or through the scratch register if it is wide |
| Assembling.Assembler.Leaq | src/x64/core.c:165-169 | Decodes to the address computation |
| Assembling.Assembler.AddqRR | src/x64/core.c:148-155 | Decodes to the addition of two registers |
| Assembling.Assembler.AddqRA | src/x64/core.c:158-162 | Decodes to the addition from memory |
| Assembling.Assembler.AddqAR | src/x64/core.c:198-202 | Decodes to the addition to memory |
| Assembling.Assembler.AddqRI | src/x64/core.c:172-184 | Decodes to the addition of the immediate, wide ones through the scratch register |
| Assembling.Assembler.AddqAI | src/x64/core.c:187-195 | Decodes to the addition of the immediate to memory, wide ones through the scratch register |
| Assembling.Assembler.SubqRR | src/x64/core.c:214-221 | Decodes to the subtraction of two registers |
| Assembling.Assembler.SubqRA | src/x64/core.c:239-243 | Decodes to the subtraction from memory |
| Assembling.Assembler.SubqAR | src/x64/core.c:246-250 | Decodes to the subtraction in memory |
| Assembling.Assembler.SubqRI | src/x64/core.c:224-236 | Decodes to the subtraction of the immediate, wide ones through the scratch register |
| Assembling.Assembler.SubqAI | src/x64/core.c:253-261 | Decodes to the subtraction of the immediate in memory, wide ones through the scratch register |
| Assembling.Assembler.AndqRR | src/x64/core.c:387-393 | Decodes to the conjunction of two registers |
| Assembling.Assembler.AndqRI | src/x64/core.c:396-406 | Decodes to the conjunction with the immediate, wide ones through the scratch register |
| Assembling.Assembler.CmpqRR | src/x64/core.c:425-432 | Decodes to the comparison of two registers |
| Assembling.Assembler.CmpqRI | src/x64/core.c:435-447 | Decodes to the comparison with the immediate, wide ones through the scratch register |
| Assembling.Assembler.TestqRR | src/x64/core.c:377-384 | Decodes to the test of two registers |
| Assembling.Assembler.MulqRR | src/x64/core.c:287-295 | Decodes to the signed product |
| Assembling.Assembler.MulqRI | src/x64/core.c:298-311 | Decodes to the three-operand product, wide immediates through the scratch register |
| Assembling.Assembler.PushR | src/x64/core.c:323-326 | Decodes to the push of any of 16 registers |
| Assembling.Assembler.PopR | src/x64/core.c:329-332 | Decodes to the pop of any of 16 registers |
| Assembling.Assembler.PushI | src/x64/core.c:264-275 | Decodes to the push of the immediate, in two bytes if it fits a byte and in five if it fits 32 bits, wide ones through the scratch register |
| Assembling.Assembler.PushA | src/x64/core.c:418-422 | Decodes to the push from memory |
| Assembling.Assembler.PopA | src/x64/core.c:335-339 | Decodes to the pop to memory |
| Assembling.Assembler.JmpR | src/x64/core.c:360-367 | Decodes to the jump to a register |
| Assembling.Assembler.JmpA | src/x64/core.c:370-374 | Decodes to the jump through memory |
| Assembling.Assembler.CallR | src/x64/core.c:485-492 | Decodes to the call of a register |
| Assembling.Assembler.RetInsn | src/x64/core.c:342-344 | Decodes to the return |
| Assembling.Assembler.EnterFrame | src/x64/core.c:347-351 | Decodes to saving and setting the frame pointer, then making room of any 64-bit size |
| Assembling.Assembler.LeaveFrame | src/x64/core.c:354-357 | Decodes to releasing the frame |
| Assembling.Assembler.MovsdRA | src/x64/core.c:459-465 | Decodes to the floating-point load |
| Assembling.Assembler.MovsdAR | src/x64/core.c:450-456 | Decodes to the floating-point store |
| Assembling.Assembler.AddsdRR | src/x64/core.c:409-415 | Decodes to the floating-point addition |
| Assembling.Assembler.SubsdRR | src/x64/core.c:205-211 | Decodes to the floating-point subtraction |
| Assembling.Assembler.MulsdRR | src/x64/core.c:278-284 | Decodes to the floating-point product |
| Assembling.Assembler.DivsdRR | src/x64/core.c:314-320 | Decodes to the floating-point quotient |
| Frames.EnterBuildsFrame | src/x64/core.c:347-351 | From any state, the instructions of entering store the frame pointer in the word below the stack pointer, let the frame pointer point there and take the size off the stack pointer; no other memory and no other register changes, but for the scratch register with wide sizes |
| Frames.LeaveRestores | src/x64/core.c:354-357 | From any state inside the frame, wherever its stack pointer has gone, the instructions of leaving restore the stack and frame pointer of the caller and change nothing else |
| Frames.LeaveUndoesEnter | src/x64/core.c:347-357 | Entering and leaving give back every register and all memory apart from the one saved word |
| Frames.FrameHoldsSlots | src/location.c:165-173 | The first n slots are within a frame if and only if its size is at least eight bytes for each of them and two words more |
| Frames.EntryTakesTooLittle | src/codegen/x64/compiler.c:31-41 | The size asked for at entry is the number of slots, not of bytes: the last slot is then always below the stack pointer, and all of them are if and only if there are fewer than 24 |
| Assembling.DecodeManySplits | src/x64/core.c:147-529 | Decoding m + n instructions is decoding m and then n |
| Assembling.RunDecodes | src/x64/core.c:147-529 | If each buffer of a series appends bytes that decode to some instructions, the last buffer decodes to all of them in order and leaves no byte over |
| Emitters.Emit | src/x64/core.c:147-529 | Each call of the assembler, with any registers, addresses and immediates, appends bytes that decode to its instructions |
| Emitters.Assemble | src/x64/core.c:147-529 | For any list of calls, decoding the whole buffer gives their instructions in order and leaves no byte over |
| EmittersAsWritten.BytesSayWritten | src/x64/core.c:147-529 | The bytes of each call as written decode, whatever follows, to instructions in which an operand has lost its prefix bits and every immediate takes the wide form |
| EmittersAsWritten.CallAsWritten | src/x64/core.c:13-529 | For every call as written: its bytes decode to instructions that do what it asks for, in the short or the wide form, if and only if its operand has low registers (moves, arithmetic, tests, products, jumps, calls, pushes and pops), it is no arithmetic with an immediate and no frame with room, and for addsd both registers are low or both high |
| EmittersAsWritten.RunAsWritten | src/x64/core.c:147-529 | A whole list of calls as written decodes, call by call, to what was asked for if and only if each call is one of those |
| Building.Visitor.Bind | src/codegen/flow_graph.c:324-334 | Binding takes the inputs off the temporaries, puts the definition on the next one, and appends it |
| Building.Visitor.Do | src/codegen/flow_graph.c:337-356 | An instruction done for its effect takes its inputs off |
| Building.Visitor.Append | src/codegen/flow_graph.c:366-374 | Another visitor's list follows, with its open or closed end |
| Building.Visitor.Visit | src/codegen/flow_graph.c:389-487 | Visiting a tree gives the list, the end, the value and the counters of the lowering function, and stops where that has no result |
| Building.Visitor.VisitSequence | src/codegen/flow_graph.c:395-406 | Children in order, up to the first return |
| Building.BuildGraph | src/codegen/flow_graph.c:515-528 | The list is built exactly for trees whose operands have values up to the first return; no temporary is left; and running it gives the variables, stores and result of left-to-right evaluation, for any arithmetic and start state, by name or on temporaries alone, where a load reads the variable's slot only; the operators are those of the tree, and no variable with a constant is loaded |
| Listing.LoweredOperators | src/codegen/flow_graph.c:389-487 | The operators of the list are those of the tree in evaluation order up to the first return: no load of a constant variable but its constant, and no instruction for a constant nobody uses |
| Listing.ConstantsNotLoaded | src/codegen/flow_graph.c:480-484 | No instruction of the list loads a variable that has a constant |
| LoweredCode.EffectAccepted | src/codegen/flow_graph.c:389-449 | Lowering for effect succeeds exactly on the accepted trees, and the list is closed exactly when the tree returns |
| LoweredCode.ValueBalanced | src/codegen/flow_graph.c:324-334 | A value adds one temporary, its own; each instruction finds its operands on top of the temporaries, in order |
| LoweredCode.EffectBalanced | include/mun/codegen/flow_graph.h:66-74 | An effect restores the count of temporaries |
| LoweredCode.ValuePreserved | src/codegen/flow_graph.c:389-487 | Running the code of a value leaves the state and the value of evaluation, and keeps all earlier values; only evaluation knows the constants of variables, the code has to bring them |
| LoweredCode.EffectPreserved | src/codegen/flow_graph.c:389-449 | Running the code of a tree leaves variables, stores and result of evaluation |
| LoweredCode.TemporariesSuffice | src/codegen/flow_graph.c:324-345 | A machine that only has the stack of temporaries computes the same as one that looks operands up by name |
| Building.UnboundLoadsAgree | src/codegen/flow_graph.c:477-498 | As written value loads are not bound; where the tree is accepted nonetheless the list is the same |
| Building.LoadedOperandCrashes | src/codegen/flow_graph.c:492-498 | Returning a variable is accepted with the binding and crashes without it |
| FrameSlots.AllocLocals | src/scope.c:57-62 | The scope's own locals take consecutive slots downwards; variables listed but owned elsewhere are left alone |
| FrameSlots.AllocChildren | src/scope.c:64-71 | Every child scope starts below the scope's own locals; the lowest slot over all children is found |
| FrameSlots.AllocVariables | src/scope.c:47-74 | The whole tree is laid out, parameters first, and the result is the first free slot below the deepest nesting |
| FrameSlots.VisibleDescend | src/scope.c:57-71 | Along every path of scopes the visible locals take consecutive slots |
| FrameSlots.DepthReached | src/scope.c:64-73 | Some path of scopes needs all the slots reserved |
| FrameSlots.PlacedApart | include/mun/scope.h:31-36 | The bit index of a visible variable is its position among the visible ones: parameter p maps to p, local slot k to parameters plus k; and its cell, eight times its frame index, is the one its stack slot addresses, misses the saved frame pointer and the return address and lies on its side of them, the last parameter next to the return address |
| FrameSlots.Function.AllocFrame | include/mun/function.h:28-43 | Any variables visible at once have disjoint cells of the frame and different bits below the variable count, none of them the saved frame pointer or the return address, parameters above these and locals below; every variable of the innermost scope is visible, the first declared highest; and the count is reached |
| Locations.FieldReads | include/mun/bitfield.h:15-23 | A field that fits is read back from between its neighbours |
| Locations.AllocatedReads | src/location.c:65-68 | Kind and payload are read back |
| Locations.RegisterRoundTrip | src/location.c:85-93 | All registers of both kinds are read back |
| Locations.RegisterInBits | src/location.c:85-93 | The word of a register bit by bit: its number above kind 8, or 12 for an FPU register |
| Locations.SlotWordInBits | src/location.c:95-119 | The word of a slot bit by bit: kind 4 or 7, the base register in five bits, and above it the slot plus 2^54 |
| Locations.PolicyInBits | src/location.c:60-78 | The word of a policy: its value above kind 3 |
| Locations.PolicyRoundTrip | src/location.c:25-27 | A policy is read back if and only if it is below 8 |
| Locations.ConstantRoundTrip | src/location.c:80-83 | An address is read back if and only if it is a multiple of 4 |
| Locations.SlotRoundTrip | src/location.c:95-154 | For any bias, a slot is read back if and only if biasing it gives a value of 55 bits; the base register always is |
| Locations.IntendedSlots | src/location.c:13 | With bias 2^54: exactly the slots from -2^54 below 2^54; with bias 0 no negative slot |
| Locations.KindsExclusive | src/location.c:121-129 | No word answers to two kinds, whatever address a constant carries |
| Locations.WordsDistinct | src/location.c:65-68 | Words of different kind or payload differ |
| Locations.SlotCells | src/location.c:161-173 | Different slots are disjoint eight-byte cells that miss the saved frame pointer and the return address |
| Locations.AddressableFits | src/location.c:161-173 | Exactly the slots from -(2^28 - 2) to 2^28 - 3 fit a 32-bit displacement |
| Locations.EncodeStackAddress | src/location.c:161-177 | The operand built for a slot word decodes to the slot's cell |
| Uses.Prepend | include/mun/codegen/instruction.h:168-175 | The list stays well linked with the input in front |
| Uses.Unlink | include/mun/codegen/instruction.h:151-166 | The list stays well linked without the input, which ends unlinked |
| Uses.UseLists.Add | include/mun/codegen/instruction.h:168-175 | All lists stay well formed; the input is the first of its definition's list, and on every list the other inputs are the same in the same order |
| Uses.UseLists.Remove | include/mun/codegen/instruction.h:151-166 | All lists stay well formed; the input is on none, and on every list the other inputs are the same in the same order |
| Uses.UseLists.Bind | include/mun/codegen/instruction.h:177-182 | All lists stay well formed; the input is enlisted, the first of its new definition's list, and on every list the other inputs are the same in the same order |
| Uses.UseLists.OnlyOnItsOwnList | include/mun/codegen/instruction.h:142-149 | A list holds exactly the enlisted inputs whose definition it belongs to |
| Uses.UseLists.LinksAreTheList | include/mun/codegen/instruction.h:142-149 | Following the links visits the list in order and ends: no cycles |

## Left out

- The garbage collector (src/alloc.c), the interference graph and linear scan (src/codegen/interference_graph.c), the
  parser, tables, string buffers and types.
- Variable renaming (flow_graph.c:185-302): its body is commented out. The model stops at the placed phis.
- Turning the buffer into executable memory (core.c:534-557), native calls (x64/compile.c:52-87) and the compilation of
  single instructions.
- Name lookup in scopes (scope.c:12-30): the model starts from variables without repetition in a scope.
- Integer widths of counters and frame indices: `int` fields of the frame layout and `word` counters are unbounded
  here. Immediates, displacements and location words have their widths.
- Object addresses and memory management: blocks and instructions are indices or names, arrays that grow are
  sequences, allocation does not fail.
- Floating-point arithmetic: the four operators are parameters of the lowering semantics, and the resolver moves
  values without looking at them.
- Discovery.FlowGraph.Discover: the `last` instruction that the walk finds for each block is not modelled; successors
  are given as lists.
- BitVectors.BitVector.Contains: a word is a sequence of 64 booleans instead of an unsigned integer, so shifts and
  masks are operations on sequences.
- Resolver.MoveResolver.Compile: the list shares its moves with the parallel move instruction in the source, which
  is left empty of them; here the input is a value. Slots are based on the frame pointer and within reach of a 32-bit
  displacement (`Locations.AddressableFits`); a list may not read a slot as single and write it as double. Two
  kinds of list are not covered: those with a move between kinds for which the emitter has no code
  (`Machine.MovesIffKindsMatch` shows that such a move is not carried out; it writes memory at a cell decoded from a
  register's bits), and those that set the frame pointer and also use slots.
- Building.Visitor.Visit: the links between instructions are the order of a sequence, and an input is the name of its
  definition. Crashes (a missing value, an unhandled node) are the result false.
- FrameSlots.AllocVariables: the child and sibling pointers of scopes are a tree value; the variables are objects.
- Uses.UseLists.Remove: requires an enlisted input, because the source follows a null link on any other.
- Frames.EnterBuildsFrame: memory is a map from addresses to eight-byte cells, so what a store does to a cell that
  overlaps the one it writes is not modelled; flags are not either.
- Locations.EncodeStackAddress: the constructors return words instead of writing through a pointer.
- SsaConstruction.MeetingPathsHavePhi: where the variable is dead at the meeting block nothing is promised, because the
  source places phis only for stores that are live out of their block (liveness.c:108-110);
  `SsaConstruction.PhisComeFromLiveStores` says when there is none.
- Lowering of static and native calls and of indexed loads and stores: the source stops on them.
