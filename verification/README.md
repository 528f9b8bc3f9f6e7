# Reference-count pruning and JIT section allocation

This project models two components of llvmlite and proves what they promise.

**The reference-count pruner** (`ffi/custom_passes.cpp`). `RefNormalize` moves decrefs behind the
increfs of their block; `RefPrune` then erases increfs and decrefs with four subpasses (per block,
diamond, fan-out, fan-out with raise) until none finds anything. A function is a sequence of
blocks with a successor table. Blocks hold increfs and decrefs of SSA values, stores that raise,
and other instructions. The results are about every walk through the graph, cyclic or not, and
about every object. What an object goes through on a walk is described by the set of SSA values
that hold it at each block; a set changes only where the walk enters the block that assigns a value,
and that block dominates the value's refops. So every aliasing is covered, with another one in each
iteration of a loop; values that are null at run time are in no set. For a
walk of whole blocks two numbers matter, the final count and the lowest running count. A
transformation is safe when no walk gets lower than it did in the original function and complete
walks keep their final counts.

- `ControlFlow` and `DiamondWalks`: walks, dominance, the forward and backward conditions, and the
  bookkeeping of head and tail visits along a walk.
- `Ir`, `Erasure`, `Safety`: instructions, counts, erasing, objects along walks, safety and the
  bracketing argument.
- `RefNormalize`, `PerBlockPrune`, `FanoutSearch`, `SearchLimits`, `FanoutSafety`, `Diamond`,
  `RefPrune`, `Pipeline`: the passes and searches, and their theorems.
- `Prototype`: the Python prototype of the fan-out search (`llvmlite/tests/refprune_proto.py`),
  decided exactly and compared with the bounded search.

**The section allocator** (`ffi/memorymanager.cpp`). One mapping is split page by page between
Code, ROData and RWData; sections are carved from the front of a free block; finalization applies
permissions and trims free memory to whole pages.

- `Alignment`, `MemoryModel`, `HeapModel`, `Isolation`: word arithmetic, one group, all groups,
  page permissions.
- `Reservation`: how much is enough, as an if-and-only-if.
- `HeapSteps`, `ManagerModel`: the steps of the allocator on the whole heap, the runs they form,
  and what the manager's operations do, on values.
- `MemoryManager`: the mapper contract and the manager itself. `Valid()` holds in every reachable
  state, also after finalizations that failed, and guards every page of a finalized section. A group
  is `Isolated` from each successful finalization on until one fails for it.

Premises that the theorems need, each with a lemma that shows why:

- The diamond subpass does not check that the head cannot be entered again before the tail.
  `Diamond.DiamondNeedsNoReentry` gives a function it accepts although the pair does not balance;
  `Diamond.DiamondBalanceExact` gives the exact condition. Whole-pipeline safety asks that no two
  blocks be re-entered that hold an incref and a decref of one value and pass the graph tests.
- Raise mode skips raising blocks in its backward walk. `FanoutSafety.RaiseModeNeedsQuietRaises`
  gives a function on which that loses a decref; `FanoutSafety.RaiseAccountExact` gives the exact
  condition. Whole-pipeline safety assumes that no decref runs in or after a raising block.
- Reusing old free memory checks sizes only. For alignments up to a page that is enough in every
  state (`HeapSteps.ReusedServes`); beyond a page `ManagerModel.ReuseBeyondPageCanFail` gives two
  reservations after which it is not, and `Reservation.ReuseServesExactly` the exact condition.
- A failed finalization does not revert permissions. Finalized pages are not affected and the next
  success isolates the group again; `Isolation.FailureIsolatesExactly` says when memory that is
  still pending may have lost its permissions in between.

Where code and comments disagree the code is followed: alignment 0 means 8
(`ffi/memorymanager.cpp:52-54`), not 16 (`ffi/memorymanager.h:136-137`); the comment on the diamond
subpass (`ffi/custom_passes.cpp:350-357`) does not mention re-entry; the `depth` argument of the
prototype (`llvmlite/tests/refprune_proto.py:248-270`) is never passed down and has no effect.

Dominance and post-dominance are relations defined over walks. The pruner is given tables of them;
safety needs only that what the tables say is true. The operating system is the class
`MemoryMapper`, which answers arbitrarily within its contract. Assertions of the source are treated
as enabled: a failed mapping ends in the result `Aborted`, a part of a mapping that starts less
aligned than asked in `Misaligned`, and a request that cannot be served returns `Null`.

## Model

| member | source | states |
|---|---|---|
| RefNormalize.RunOnFunction | ffi/custom_passes.cpp:114-160 | Every block that has both an incref and a decref is reordered in place into its normalized form; a block without an incref or without a decref is left as it is. The result says whether there was such a block, and if not the function is unchanged. |
| RefNormalize.SinkDecrefs | ffi/custom_passes.cpp:132-157 | Collecting the decrefs and moving each before the terminator leaves the other instructions in order, followed by the decrefs in order. |
| RefNormalize.NormalizeBlockProps | ffi/custom_passes.cpp:108-157 | Normalizing permutes a block, puts increfs before decrefs, and for every object keeps the change of its count and never dips lower than the original order. |
| RefNormalize.NormalizeIsStable | ffi/custom_passes.cpp:133-157 | By position: decrefs keep their order among themselves, all other instructions keep theirs, and in a block with an incref every decref ends up behind all of those. |
| RefNormalize.NormalizeIsSafe | ffi/custom_passes.cpp:108-160 | The whole pass brings every block into normal form, is idempotent, and is safe: on every walk and for every object the lowest count is not lower and the final count is unchanged. |
| Ir.NormalLow | ffi/custom_passes.cpp:225-227 | In a block whose increfs precede its decrefs the lowest running count of any object is reached at one of the two ends. |
| Ir.LowIsMinimum | ffi/custom_passes.cpp:108-111 | The measure Low is the minimum of the running count of a block over all instruction prefixes: it is attained and nothing lies below it. |
| Safety.WalkLowIsMinimum | ffi/custom_passes.cpp:108-111 | The lowest count on a walk is the minimum of the running count over all instructions executed. |
| Ir.SameRaising | ffi/custom_passes.cpp:949-962 | A pass that keeps every non-refop instruction keeps the set of raising blocks and adds no decref block. |
| Safety.SafeTrans | ffi/custom_passes.cpp:201-222 | Safety of transformations composes, in the exact form and in the form that forgives raising walks. |
| Safety.BlockwiseSafe | ffi/custom_passes.cpp:255-322 | A rewriting of blocks that keeps each block's balance and low point is safe on all walks, through any loops. |
| Safety.ErasesNet | ffi/custom_passes.cpp:568-601 | Erasing an incref in the head and one decref in each tail changes an object's count at the end of a walk by exactly the head visits minus the tail visits at which the value held it. |
| Safety.BracketLow | ffi/custom_passes.cpp:524-606 | If heads and tails alternate, no decref runs in between and each tail finds the object of its head, erasing them never takes any object below a count the original reached on the same walk. |
| Safety.BracketSafe | ffi/custom_passes.cpp:524-606 | The same for all walks and objects at once, also for values that loops assign anew, with balances kept where heads and tails are even. |
| Safety.NoReassignment | ffi/custom_passes.cpp:856-871 | Between a head and its tail the value is not assigned again: otherwise a walk could have come to the tail without the head. |
| Safety.TailPays | ffi/custom_passes.cpp:856-871 | At every arrival at a tail the value holds the object that it held at the last head visit, in every iteration of any loop. |
| PerBlockPrune.PruneBlock | ffi/custom_passes.cpp:259-320 | What is left has no refop on null and no incref with a decref of the same value; only refops are erased, the counter is their number, every object's balance is kept, and nothing is erased exactly when the block was settled. Of the refops of one value, by position, the first increfs and the last decrefs remain. |
| PerBlockPrune.DropNulls | ffi/custom_passes.cpp:280-289 | Exactly the refops on null are erased, each counted once. |
| PerBlockPrune.FindRelated | ffi/custom_passes.cpp:296-300 | The first live decref of the incref's value is found, or there is none. |
| PerBlockPrune.MatchPairs | ffi/custom_passes.cpp:292-319 | Popping increfs from the back and erasing each with its first live partner ends with no incref that has a partner, and with the first increfs and the last decrefs of each value. |
| PerBlockPrune.PrunedBlockIsSafe | ffi/custom_passes.cpp:225-253 | On a normalized block every object's lowest count and balance are unchanged, not only bounded. |
| PerBlockPrune.SurplusRemains | ffi/custom_passes.cpp:291-319 | For every value exactly the surplus of increfs over decrefs, or of decrefs over increfs, remains. |
| ControlFlow.TailsOnlyAfterHead | ffi/custom_passes.cpp:856-936 | With the backward condition, no walk arrives at a tail unless the head was its latest head-or-tail visit. |
| ControlFlow.HeadDominatesTails | ffi/custom_passes.cpp:856-871 | With the backward condition the head dominates every tail. |
| ControlFlow.BackwardOkExact | ffi/custom_passes.cpp:856-936 | The backward condition holds if and only if on every walk each arrival at a tail finds the head as the latest head-or-tail visit, when the tails can be executed. |
| ControlFlow.SkippedBackwardExact | ffi/custom_passes.cpp:889-931 | With skipped blocks, the backward condition holds if and only if every execution that arrives at a tail, and has met no skipped block since it began or left the last tail, has come through the head. |
| ControlFlow.PendingIsOpen | ffi/custom_passes.cpp:709-714 | After a successful forward search, as long as a head visit is unpaid, execution is still in blocks that the search walked through. |
| ControlFlow.PendingGoesOn | ffi/custom_passes.cpp:709-714 | An unpaid head is never entered again and never reaches a block without successors. |
| ControlFlow.Ledger | ffi/custom_passes.cpp:628-685 | On every walk head visits minus decref-block visits equal the heads that ran into a raise plus the one still unpaid; on complete walks none is unpaid. |
| ControlFlow.LedgerExact | ffi/custom_passes.cpp:872-936 | After a successful forward search that ledger holds on all walks if and only if the backward condition holds with no block skipped. |
| FanoutSearch.WalkChildForDecref | ffi/custom_passes.cpp:772-853 | One step keeps the search space closed under successors. A failure means that the forward condition is false or names the limit that was hit; it marks the head unless the reason is a dead end or the depth. After a success the node counter has grown by exactly the size of the search tree, and no open path without repetition through the block reaches the depth limit. |
| FanoutSearch.FollowEdge | ffi/custom_passes.cpp:789-801 | An edge back to the head refutes the forward condition and marks the head; one back to another block of the path is skipped because that block is covered. |
| FanoutSearch.VisitBlock | ffi/custom_passes.cpp:803-852 | A block with a related decref ends the path, any other decref fails the search, a raise ends it in raise mode, and otherwise all successors are searched. |
| FanoutSearch.WalkChildren | ffi/custom_passes.cpp:738-752 | The loop over successors succeeds only if all of them are covered, and a leaf fails. |
| FanoutSearch.FindFanoutDecrefCandidates | ffi/custom_passes.cpp:720-752 | Succeeds if and only if the forward condition holds and no limit applies: no open path without repeated blocks is 15 deep and the search has at most subgraph_limit steps. Success gives exactly the first decref blocks and first raises; at most subgraph_limit + 1 recursive calls are made; the head is marked only after a failure, and always after one that the contents of the stops alone explain. |
| FanoutSearch.VerifyFanoutBackward | ffi/custom_passes.cpp:872-936 | Returns true exactly when the blocks that lead to a tail without crossing the head, and without raising blocks in raise mode, contain neither the entry nor a block with a tail as predecessor; for tails that can be executed, exactly when executions arrive at tails by the head, except past a block that raises, whether or not that block holds a decref. |
| FanoutSearch.VisitBack | ffi/custom_passes.cpp:889-931 | Handling one popped block keeps the state of the reverse walk, or shows that the backward condition is false. |
| FanoutSearch.WalkBack | ffi/custom_passes.cpp:885-931 | Emptying the work stack of one tail closes the visited set under predecessors or exhibits a violation. |
| FanoutSearch.PushPreds | ffi/custom_passes.cpp:915-930 | All predecessors other than the head are pushed, and the block is rejected exactly when one of them is a tail. |
| FanoutSearch.FindFanout | ffi/custom_passes.cpp:628-685 | Accepts if and only if the fan-out condition holds and no search limit applies, in both modes, and returns exactly the first decref blocks. What it accepts has a walk from the head to a decref of the value and, in raise mode, one to a block that raises and holds no decref. |
| FanoutSearch.FanoutMeans | ffi/custom_passes.cpp:628-852 | The fan-out condition in terms of walks: followed to the first decref and, in raise mode, the first raise, walks from the head never return to it, meet no foreign decref and no leaf; some meets a decref and, in raise mode, some a raise without one; and these blocks pass the backward condition. |
| SearchLimits.ChainAccepted | ffi/custom_passes.cpp:778-787 | Where the limits lie: with a chain of n open blocks between incref and decref the condition holds, and no limit applies if and only if n is at most 13 and below the subgraph limit. |
| FanoutSearch.SearchAnswers | ffi/custom_passes.cpp:688-718 | A closed search space contains everything that walks from the head can touch, so the result sets are exact. |
| FanoutSafety.FanoutBracketed | ffi/custom_passes.cpp:436-477 | On every walk, through any loops, head visits and visits to its decref blocks alternate, head first, and no other decref runs in between. |
| FanoutSafety.FanoutIsSafe | ffi/custom_passes.cpp:530-606 | Pruning an accepted fan-out is safe for every object, also in loops that assign values anew; without raise mode every complete walk keeps every balance. |
| FanoutSafety.UnskippedBackward | ffi/custom_passes.cpp:893-897 | When no decref can follow a raise, skipping raising blocks in the backward walk overlooks nothing. |
| FanoutSafety.NothingAfterRaise | ffi/custom_passes.cpp:823-829 | Under that hypothesis a walk that has raised meets neither the head nor any decref again. |
| FanoutSafety.RaiseAccounting | ffi/custom_passes.cpp:479-524 | In raise mode each complete walk loses exactly one count of the object whose reference the head took before it ran into a raise, which happens at most once. |
| FanoutSafety.RaiseAccountExact | ffi/custom_passes.cpp:657-677 | Without the hypothesis on raises, that account holds on all walks and for all fixed aliasings if and only if the backward condition holds with raising blocks not skipped. |
| FanoutSafety.RaiseModeNeedsQuietRaises | ffi/custom_passes.cpp:893-897 | A concrete function that raise mode accepts within every limit of at least two steps although a complete walk reaches the erased decref without the incref. |
| Diamond.HasDecrefBetweenGraph | ffi/custom_passes.cpp:1080-1120 | Returns true exactly when some block reachable from the head without entering the tail, the head included, has a decref. |
| Diamond.DecrefBetweenMeans | ffi/custom_passes.cpp:1080-1120 | There is a decref in between if and only if some walk from the head that does not meet the tail ends in a block with a decref. |
| DiamondWalks.HeadTailAlternate | ffi/custom_passes.cpp:350-357 | Without a cycle from head to head that avoids the tail, head and tail visits alternate on every walk. |
| DiamondWalks.TailsNeverLead | ffi/custom_passes.cpp:398-405 | Whatever the graph, tail visits never outnumber head visits on any walk. |
| DiamondWalks.DiamondBalancesExactly | ffi/custom_passes.cpp:350-357 | Head and tail visits are even on all complete walks if and only if no head-avoiding-tail cycle sits at a head that complete walks execute. |
| Diamond.DiamondIsSafe | ffi/custom_passes.cpp:394-437 | Erasing an accepted pair is safe and exact when the head cannot be entered again before the tail. |
| Diamond.DiamondNeverGains | ffi/custom_passes.cpp:394-437 | Without that hypothesis erasing the pair still never raises a count, because every tail visit pays back a head visit of its own, for the same object. |
| Diamond.DiamondBalanceExact | ffi/custom_passes.cpp:394-437 | Erasing the pair keeps the balance of every object on every complete walk if and only if there is no such cycle at an executed head. |
| Diamond.DiamondNeedsNoReentry | ffi/custom_passes.cpp:394-437 | A concrete accepted pair, in a function whose entry has no predecessors, whose head runs twice and whose tail runs once on a complete walk. |
| RefPrune.ListRefOps | ffi/custom_passes.cpp:1139-1157 | Lists every refop of the function that passes the test, each once; an earlier entry is in an earlier block, or in the same block at an earlier position. |
| RefPrune.EraseFirstRelated | ffi/custom_passes.cpp:550-578 | Erases the first decref of the value in the block; the later ones stay. |
| RefPrune.Pruner.RunPerBasicBlockPrune | ffi/custom_passes.cpp:255-322 | Settles every block, safely and exactly, only by erasing; no incref or decref of null is left, and of each value the first increfs and the last decrefs stay; the statistic grows by the number of refops gone; mutation is reported exactly when some block was not settled. |
| RefPrune.Pruner.FindDiamondTail | ffi/custom_passes.cpp:381-412 | Finds the first live decref in another block that is related, dominated and post-dominating by the tables, singly executed and free of decrefs in between. |
| RefPrune.Pruner.PruneDiamond | ffi/custom_passes.cpp:376-436 | One incref is erased together with its first qualifying decref, if it has one, and the statistic grows by two. |
| RefPrune.Pruner.RunDiamondPrune | ffi/custom_passes.cpp:367-438 | Goes through all increfs: of the pairs that passed its tests at the start none has both its refops left. For any dominance tables, reports mutation exactly when there was such a pair, and counts what it erases; safe and exact when what the tables say is true and no pair of blocks that holds an incref and a decref of one value and passes the graph tests can be re-entered. |
| RefPrune.NoReentryShrinks | ffi/custom_passes.cpp:367-438 | The premise on re-entry speaks of the original function and survives every subpass, because no block gains an instruction. |
| RefPrune.DoneExactly | ffi/custom_passes.cpp:381-412 | When the dominance tables are exact, the subpass has nothing to do if and only if no accepted diamond is left. |
| RefPrune.Pruner.PruneFanout | ffi/custom_passes.cpp:567-601 | Erases the incref and the first related decref of each decref block, nothing else, and counts each. |
| RefPrune.Pruner.TryFanout | ffi/custom_passes.cpp:552-603 | Prunes exactly what the accepted fan-out condition names and leaves the function alone otherwise; accepts if and only if the condition holds and no limit applies. |
| RefPrune.Pruner.PruneFanoutOf | ffi/custom_passes.cpp:540-604 | Erases exactly when the block is unmarked and free of decrefs and the incref has a fan-out within the limits; otherwise it changes nothing and marks at most the incref's block. |
| RefPrune.Pruner.RunFanoutPrune | ffi/custom_passes.cpp:530-606 | Every incref has its round, on what the rounds before have left: it erases its fan-out exactly if its block is unmarked and decref-free and the fan-out is accepted, and else nothing. Safe in both modes, exact without raises; reports mutation if and only if some incref in a decref-free block has a fan-out within the limits and follows no incref of its block that fails the forward condition; never without a decref, nor in raise mode without a raise. |
| RefPrune.IdleIsDone | ffi/custom_passes.cpp:537-548 | Where the subpass has nothing to erase, every decref-free block with increfs is beyond a search limit or holds an incref without a fan-out. |
| RefPrune.Pruner.Round | ffi/custom_passes.cpp:208-219 | Per-block, diamond, fan-out and raise subpass run in this order if enabled, each on what the one before has left and counted by its own statistic; a disabled one changes nothing. |
| RefPrune.Pruner.RoundLeaves | ffi/custom_passes.cpp:208-219 | What the per-block subpass cancels stays cancelled: after the round no block has more increfs or decrefs of a value than the surplus it had at the start, and none of null. |
| RefPrune.Pruner.RunOnFunction | ffi/custom_passes.cpp:201-222 | Terminates after rounds that each erased something, one on what the other has left; only refops are erased, and as many as the statistics say. With the per-block subpass no block keeps more increfs or decrefs of a value than the surplus it started with, and none of null. Safe under the premises of the enabled subpasses; it reports mutation exactly when some enabled subpass has something to erase, and afterwards none has, so a second run reports no mutation. |
| Pipeline.AddRefPrunePass | ffi/custom_passes.cpp:1202-1217 | Normalization, then the pruner on its result, for all flags: on every walk no object's count goes below what it reached in the original function, and every complete walk - in raise mode every one that does not raise - keeps all balances. The surplus of each value in each block is measured in the original function. |
| Prototype.WalkChildForDecref | llvmlite/tests/refprune_proto.py:248-277 | The unlimited path-stack search terminates because the path never repeats a node, and answers the region condition. |
| Prototype.FindDecrefCandidates | llvmlite/tests/refprune_proto.py:279-296 | Returns exactly the first-hit decref nodes, or the empty set when the region touches the head or has a dead end. |
| Prototype.VerifyNonOverlapping | llvmlite/tests/refprune_proto.py:199-237 | Walking back with a separate visited set per tail decides the same backward condition as the optimiser's single visited set. |
| Prototype.FindFanout | llvmlite/tests/refprune_proto.py:188-197 | The result is the first-hit set when both conditions hold and it is not empty, and none otherwise. |
| Prototype.FindFanoutInFunction | llvmlite/tests/refprune_proto.py:179-186 | Every node with an incref, and no other, gets its fan-out. |
| Prototype.SameCondition | llvmlite/tests/test_refprune.py:47-53 | On functions with refops on one value the optimiser's conditions and the prototype's coincide. |
| Prototype.BothSearches | llvmlite/tests/test_refprune.py:47-53 | The bounded search returns exactly what the prototype does, except that it finds nothing where one of its limits applies. |
| Alignment.RequiredSpaceExact | ffi/memorymanager.cpp:59-60 | The required size computed on 64-bit words is the rounded size plus one alignment if and only if size plus twice the alignment fits a word. |
| MemoryModel.CarvedKeeps | ffi/memorymanager.cpp:83-113 | Handing out a section keeps all invariants of its group: sections aligned, disjoint and in the group's regions, pending ranges disjoint and covering, the prefix index naming the range right before the free block. |
| MemoryModel.CoveredOnce | ffi/memorymanager.h:194-200 | A section whose permissions are not applied lies in exactly one pending range. |
| MemoryModel.TrimExact | ffi/memorymanager.cpp:286-305 | Trimming gives whole pages inside the block if and only if the block reaches its first page boundary, where the subtraction does not wrap, and then the largest such run. |
| MemoryModel.AppliedKeeps | ffi/memorymanager.cpp:314-327 | Clearing the pending ranges and trimming free memory keeps all invariants of the group. |
| MemoryModel.RefilledKeeps | ffi/memorymanager.cpp:190-192 | Dropping old free memory and adding a fresh region keeps all invariants of the group. |
| HeapModel.SectionsApart | ffi/memorymanager.h:183-206 | Any two live sections, of the same or of different groups, are disjoint in every state. |
| HeapModel.FreeFitsWord | ffi/memorymanager.cpp:184-200 | All free memory lies in the latest mapping. |
| HeapSteps.RunStaysWithin | ffi/memorymanager.cpp:184-200 | On every run without a fresh reservation the heap invariant holds in all states, no section moves or disappears, and all new sections and free memory of each group come from what was free at the start. |
| HeapSteps.SectionsOfOneReservation | ffi/memorymanager.cpp:184-248 | All sections handed out between two fresh reservations lie in one region of exactly the size that the first of them computed. |
| HeapModel.HeapRefill | ffi/memorymanager.cpp:194-248 | A fresh mapping split into page-aligned parts keeps the invariants of all groups and between them. |
| Isolation.FinalPageIsExclusive | ffi/memorymanager.cpp:316-327 | In every state, also after finalizations that failed, a page with a byte of a finalized section of any group has that group's permission, no byte of free or pending memory of any group, and no byte of a section of another group. |
| Isolation.AppliedIsolates | ffi/memorymanager.cpp:310-327 | Protecting the pending ranges and trimming isolates a guarded group, whatever earlier attempts have left: finalized pages have its permission, and all its other memory is writable and on other pages. |
| Isolation.ForeignChange | ffi/memorymanager.cpp:196-200 | Changing permissions on blocks in another group's page-aligned regions reaches no page on which this group depends. |
| HeapModel.TrimNeverWraps | ffi/memorymanager.cpp:286-305 | In every state the unsigned subtractions of the trim do not wrap and its assertions hold. |
| Isolation.FailureIsolatesExactly | ffi/memorymanager.cpp:253-267 | Over every answer the system may give to a failed attempt, the group stays isolated if and only if all its pending ranges are empty. |
| HeapSteps.FailureKeeps | ffi/memorymanager.cpp:310-313 | A failed attempt keeps all groups guarded, and isolated those it was not made for. |
| Reservation.ServesAllExactly | ffi/memorymanager.cpp:166-173 | A free block serves every request sequence that a reservation announces if and only if, after rounding its start, it still holds the rounded total plus one alignment. |
| Reservation.FreshServesAll | ffi/memorymanager.cpp:194-248 | After a fresh reservation no announced sequence of sections can fail, for any alignment that the mapping satisfies. |
| Reservation.ReuseServesAll | ffi/memorymanager.cpp:175-182 | A block that ends on a page boundary and passes the size check of the reuse path serves every announced sequence, for alignments up to a page. |
| Reservation.ReuseServesExactly | ffi/memorymanager.cpp:175-182 | For any block and alignment the size check is enough if and only if the surplus covers the rounding of the block's start. |
| HeapSteps.ReusedServes | ffi/memorymanager.cpp:175-182 | In every state, free memory that passes the size check serves every announced sequence, for alignments up to a page. |
| ManagerModel.ReuseBeyondPageCanFail | ffi/memorymanager.cpp:175-182 | Beyond a page the size check is not enough: a first reservation leaves memory that a second one, at an alignment of two pages, reuses, and the second of two nonempty sections announced for that is refused. |
| MemoryManager.MemoryMapper.AllocateMappedMemory | ffi/memorymanager.h:74-96 | Maps a page-aligned block of at least the requested size, disjoint from all others and writable, or fails without effect. |
| MemoryManager.MemoryMapper.ProtectMappedMemory | ffi/memorymanager.h:98-111 | Changes all pages the block touches, or fails having changed at most those. |
| MemoryManager.Manager.constructor | ffi/memorymanager.cpp:376-377 | A new manager has no memory, is valid, and all its groups are isolated. |
| MemoryManager.Manager.AllocateSection | ffi/memorymanager.cpp:42-121 | Serves exactly when the free block has the required space computed on words, and leaves exactly the state of the word arithmetic. Where that space does not overflow, in numbers: alignment 0 stands for 8; a request is served exactly if the free block has the rounded size plus one alignment, at an aligned address less than one alignment above the start of the block, and the block is left right after the section; a new pending range is made only if none ends where the free block starts. The invariant and all isolation are kept; a refusal changes nothing. |
| MemoryManager.Manager.CarveBlock | ffi/memorymanager.cpp:84-111 | On words, the pending range is appended or extended over the section and the free block shrinks from its front. |
| ManagerModel.OnWordsIsExact | ffi/memorymanager.cpp:84-109 | Where the section fits the block, the arithmetic on words is the exact one. |
| MemoryManager.Manager.ReserveAllocationSpace | ffi/memorymanager.cpp:132-251 | Exactly: nothing is asked and nothing done; or the free block of every group has the size rounded up to its alignment plus that alignment, at least 8, and old memory is reused; or all old free memory is dropped and parts of these sizes in whole pages, one after the other in one new mapping, are handed out, unless the mapping fails or a part does not start aligned. The invariant and all isolation are kept in every case. |
| ManagerModel.OnlyBeyondPage | ffi/memorymanager.cpp:214-248 | The assertions on the alignment of the parts can fail only for alignments beyond a page. |
| MemoryManager.Manager.AllocateAll | ffi/memorymanager.cpp:42-121 | Any interleaving of requests of the three groups that their free memory serves is answered section by section, each placed and aligned as requested; the log of each group grows by exactly its sections. |
| MemoryManager.Manager.ReserveAndAllocate | ffi/memorymanager.cpp:132-251 | After a fresh or a reusing reservation every interleaving of announced requests of the three groups is served, inside one mapping and, if it is fresh, inside the required size, so the assertion on missing memory is unreachable; a group that reserved nothing refuses. Alignments beyond a page are covered too, when reused memory is roomy, which is the exact condition. The invariant and the isolation of every group are kept. |
| ManagerModel.OutcomeIsReady | ffi/memorymanager.cpp:166-182 | Each successful outcome of a reservation leaves every group that has memory ready for all requests announced to it. |
| MemoryManager.Manager.ApplyMemoryGroupPermissions | ffi/memorymanager.cpp:307-330 | Success leaves no pending range, finalizes all sections, trims free memory to whole pages and isolates the group, whatever failed before; failure leaves the group and may have changed exactly the pages that the attempts made could reach. The other groups keep their isolation, and the invariant is kept in both cases. |
| MemoryManager.Manager.FinalizeMemory | ffi/memorymanager.cpp:253-284 | Success finalizes all Code and ROData sections, leaves every page of a Code section executable and read-only and of a ROData section read-only, and isolates both groups, on every run; a failure at either group is described exactly. The invariant, which guards every finalized page, is kept in all cases. |
| MemoryManager.Manager.Destroy | ffi/memorymanager.cpp:338-343 | Every mapped block is released exactly once. |

## Left out

- LLVM itself: instruction classes, pass managers and the construction of dominator trees.
- FanoutSearch.WalkChildForDecref: the node counter is unbounded; the source counts in 32 bits, which matters only after four billion steps.
- MemoryManager.Manager.AllocateSection: keeps the invariants only where size plus twice the alignment fits a 64-bit word, as `Alignment.RequiredSpaceExact` shows the formula needs; beyond that it states the answer and the state that the arithmetic on words gives. The bit mask that rounds an address is written as division and multiplication.
- MemoryManager.Manager.ReserveAllocationSpace: requires that the page-rounded sizes fit a word together; beyond that the sum wraps and the parts would exceed the mapping.
- Debug printing, the statistics structure of the C interface, and the counters' being shared between functions.
- Instruction-cache invalidation: it runs when the pending list it iterates over has already been cleared.
- The allocation hint `Near`, which no code reads.
- Section names and identifiers, the choice between the read-only and the read-write data group, and the error message text of `finalizeMemory`.
- The graph rendering and the fixed test cases of the prototype.
- The IR builder, the ctypes bindings and the other C++ wrappers: they build text and forward calls to LLVM, and neither component depends on their state.
