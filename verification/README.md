# FORGE: a verified model of the kernel's and the boot loader's core

This project models the parts of FORGE whose correctness is hardest to see by reading them, and
proves what they are for. Every theorem is about all inputs, all runs or all reachable states of
the model. `dafny verify dfyconfig.toml` checks all of it.

**The kernel allocator** (`src/kernel/dlmalloc.c`, in the configuration FORGE sets: 32-bit words, no
mmap, one segment that grows at its end). `BinMap` is the 32-bit bin maps and their bit tricks,
`BinIndex` the partition of the sizes into tree bins. A tree bin is a bitwise digital trie
with a ring of chunks per size: `Tries` is the trie as a value, `TreeMemory` its representation by
`fd`/`bk`/`child`/`parent` words, `TreeSearch` the best-fit search, `TreeBins` the class with the
source's loops over memory. `SmallBins` is the circular lists for small sizes, `BoundaryTags` the
`head` and `prev_foot` words of chunks that tile a segment, and `KernelHeap` puts them together: the class
`Arena` with `dlmalloc` and `dlfree`. Its invariant says that the chunks tile the segment up to top, that no
two free chunks touch, that every tag agrees with its neighbour, and that every free chunk is in
exactly one place, the designated victim or the bin for its size. Every call keeps it, from any state in which it holds.

**The lock-free queue** (`src/kernel/queue.c`). `LockFreeQueue` runs any number of threads one shared
access at a time. The main theorem is linearizability: every interleaving is
explained by a sequence of atomic pushes and pops. The point where a pop of an empty queue
takes effect is its read of a null link, but only if head has not moved when it looks again, so the
proof lets an effect be withdrawn. `QueueProgress` proves lock-freedom: every step makes one bound
smaller, so the calls in flight are done after a number of steps quadratic in how many they are.
`QueueRest` proves that a queue at rest has its tail pointer at the end and has lost no node.

**The configuration expressions** (`src/kboot/utilities/kconfig/expr.c`). `KconfigExpr` has the
tristate algebra and the evaluator; `KconfigSpine` addresses two places in one tree, because the
elimination of duplicates rewrites both through pointers; `KconfigEq`, `KconfigTransform`,
`KconfigDups` and `KconfigCompare` follow the rewriters, and `KconfigMod` runs them on expressions that are m.
`KconfigCanon` says what the comparison finds, equality up to order and nesting, and `KconfigClean` what the
elimination of duplicates leaves. Values are compared under every admissible
valuation: constants have their own value, a boolean symbol is never m, the string of a boolean or
tristate symbol names its value, and different constants have different strings. The elimination
of duplicates is right for every valuation that does not make the whole expression m, whatever its
symbols are; where the expression is m it may be wrong, and the model says which rule is to blame and when.

**The boot memory manager** (`src/kboot/source/memory.c`). `RangeMap` and `MemoryMap` prove that the
list of physical ranges is the unique canonical form of a map from addresses to types; `BootHeap` is
the first-fit heap, whose list is determined by its live blocks. Two properties hold only under a condition, and the condition is exact:
`phys_memory_alloc` picks the least aligned free address unless its 64-bit arithmetic wraps, and
`kmalloc` hands out a block inside the heap unless the size wraps in 32 bits or the very first
request is larger than the heap (its comment promises an error there; the code has no such test).

**The AVL tree** (`src/kernel/tree.c`). `AvlShape` is trees with cached heights, `AvlItems` what they
store, `AvlDelete` what the walk up and a deletion do to their shape, `AvlBalance` when a deletion keeps balance,
`AvlTree` the pointer program. Cached heights are refreshed only when a parent is visited, so the
invariant leaves the one of the root stale. Insertion keeps balance; deletion keeps order, links and
cached heights. It does not always keep balance; for deleted nodes of height at most four the condition is exact, and it never fails below height four. A value equal to the search sentinel lets a key be stored twice, and only that does.

**Block reads** (`src/kboot/source/disk.c`, `src/kboot/source/fs/ext2.c`). `BlockDevice` and `Ext2`
prove that partial transfers, nested partitions, indirect blocks and extent trees all agree with one
flat array of bytes, with the exact condition under which a read succeeds; `Ext2Layout` writes block numbers and
extents to the disk byte by byte and proves that they are read as written. Four tests there wrap around: the
end of a disk in 64 bits, and in 32 bits the rounded size of a file, the number of a block and the reach of a
bi-indirect block. For each the model says exactly when that makes it wrong.

## Model

| member | source | states |
|---|---|---|
| `LockFreeQueue.RunsAreLinearizable` | src/kernel/queue.c:70-131 | every run of any number of overlapping pushes and pops has a sequential order of the calls that took effect, consistent with real time, in which a FIFO queue gives every finished call the result it returned |
| `LockFreeQueue.RunsKeepTheList` | src/kernel/queue.c:79-129 | in every reachable state the nodes from head form one chain ending in a null link, tail is its last or last but one node, head has not passed tail, and no next step of any call dereferences null or a node that never existed |
| `LockFreeQueue.QuietLength` | src/kernel/queue.c:95-129 | when no call is in flight, the stored count is the number of items in the list (modulo the 32-bit range), and the list holds what replaying the linearization leaves |
| `LockFreeQueue.RunInv` | src/kernel/queue.c:34-131 | the invariant that ties chain, program counters, count and linearization together holds at the end of every run from a created queue |
| `LockFreeQueue.AdvanceInv` | src/kernel/queue.c:79-129 | every step of every call keeps that invariant, and says what the step does to the linearization: the two successful swaps and the null read add the entry of their call, a stale empty pop takes its own out, and every other step leaves it alone |
| `LockFreeQueue.InvokeInv` | src/kernel/queue.c:70-107 | entering a push or a pop keeps that invariant |
| `LockFreeQueue.AllocateInv` | src/kernel/queue.c:75-77 | getting and filling a node at any address nobody holds keeps that invariant |
| `LockFreeQueue.PushTakesEffect` | src/kernel/queue.c:85 | a push takes effect when its node is linked behind the last one: the items gain its value at the end, and its entry goes to the end of the linearization |
| `LockFreeQueue.PopTakesEffect` | src/kernel/queue.c:119-120 | a pop takes effect when head moves: the items lose their first value, it is the value the pop read, and the entry with that value goes to the end of the linearization |
| `LockFreeQueue.ReadNextLog` | src/kernel/queue.c:109-114 | an empty pop takes effect at its read of a null link, where the replayed queue is empty: its entry goes to the end of the linearization; any other read leaves the linearization alone |
| `LockFreeQueue.CheckHeadLog` | src/kernel/queue.c:111-118 | an empty pop that finds head moved takes exactly that entry out again, which changes nothing that the linearization leaves; otherwise nothing happens |
| `LockFreeQueue.ReplayWithout` | src/kernel/queue.c:113-114 | a pop of the empty queue can be taken out of any sequential history without changing what the rest leaves |
| `LockFreeQueue.NullMeansEmpty` | src/kernel/queue.c:109-114 | a null link read through a dummy node that is current means that the list is empty and head is tail |
| `LockFreeQueue.NothingFaults` | src/kernel/queue.c:82-127 | the invariant rules out every null or dangling dereference in the next step of any call |
| `QueueProgress.StepMakesProgress` | src/kernel/queue.c:79-129 | lock-freedom: every step of a call in flight makes one bound smaller, whatever the other calls do, so a call starts its loop over only at the cost of a move of head, tail or a link |
| `QueueProgress.RunsSettle` | src/kernel/queue.c:70-131 | in every run, the calls in flight take at most that many steps until another call is made, however they interleave; so some call ends, and in the end all do |
| `QueueProgress.BoundIsQuadratic` | src/kernel/queue.c:79-129 | the bound is at most quadratic in the number of calls in flight |
| `QueueProgress.NeverBlocked` | src/kernel/queue.c:79-129 | in every state of the list the next step of every call in flight can be taken |
| `QueueProgress.PushNearer` | src/kernel/queue.c:79-95 | a step of a push either moves a shared pointer on, or leaves them alone and is one step nearer to the end |
| `QueueProgress.PopNearer` | src/kernel/queue.c:105-130 | so does a step of a pop |
| `QueueRest.QuietRest` | src/kernel/queue.c:70-131 | when no call is in flight, the tail pointer is at the last node and the nodes of the list are all that is allocated: no push leaves the tail behind for good, and no pop loses a node |
| `QueueRest.RunRests` | src/kernel/queue.c:70-131 | in every reachable state the tail pointer is at the last node or a push is about to move it there, and every allocated node is in the list or held by the one call that is to link it in or to free it |
| `QueueRest.AdvanceTail` | src/kernel/queue.c:79-129 | every step keeps the first |
| `QueueRest.AdvanceLosesNothing` | src/kernel/queue.c:79-129 | every step keeps the second |
| `KconfigEq.EliminateYnKeepsValue` | src/kboot/utilities/kconfig/expr.c:236-317 | dropping the constants y and n keeps the value under every admissible tristate valuation |
| `KconfigEq.EliminateYnShrinks` | src/kboot/utilities/kconfig/expr.c:236-317 | the result is smaller exactly when there was a constant to drop, and then nothing is left to drop |
| `KconfigEq.CancelKeepsRest` | src/kboot/utilities/kconfig/expr.c:135-189 | there is one value, the common part, that both expressions lose together through the mutual recursion of cancelling equal operands |
| `KconfigEq.ExprEqIsSound` | src/kboot/utilities/kconfig/expr.c:194-234 | if two expressions compare equal, they have the same value under every admissible tristate valuation |
| `KconfigEq.ExprEqIsReflexive` | src/kboot/utilities/kconfig/expr.c:194-234 | every expression compares equal to itself, through copying, cancelling and dropping of constants |
| `KconfigEq.Cancel` | src/kboot/utilities/kconfig/expr.c:135-189 | cancelling never makes an operand larger and keeps its connective, which is what the mutual recursion terminates on |
| `KconfigCanon.EqualIffSameCanon` | src/kboot/utilities/kconfig/expr.c:194-234 | two expressions in which no list has y or n for an operand compare equal if and only if they are the same up to the nesting and the order of the operands of each connective |
| `KconfigCanon.ListsEqualIff` | src/kboot/utilities/kconfig/expr.c:208-219 | two lists of one connective that may have y or n among their operands compare equal if and only if both have the constant that decides them (n for &&, y for ||), or neither has it and their other operands are the same, each as often |
| `KconfigCanon.CancelIsDifference` | src/kboot/utilities/kconfig/expr.c:135-166 | cancelling leaves of each list the operands that the other does not have as often, and all constants |
| `KconfigCanon.DroppedIs` | src/kboot/utilities/kconfig/expr.c:236-317 | dropping constants leaves the deciding constant if the list has it, the neutral one if nothing else is left, and otherwise all other operands |
| `KconfigCanon.Reordered` | src/kboot/utilities/kconfig/expr.c:194-234 | so swapping the operands of a join, or nesting three of them the other way, is found equal |
| `KconfigCanon.ExprEqIsEquivalence` | src/kboot/utilities/kconfig/expr.c:194-234 | and on such expressions the comparison is symmetric and transitive |
| `KconfigCanon.NotTransitive` | src/kboot/utilities/kconfig/expr.c:194-234 | with constants further down it is not: three expressions of which the first equals the second and the second the third, but not the first the third |
| `KconfigCanon.ReorderingMissed` | src/kboot/utilities/kconfig/expr.c:194-234 | and there a list is found unequal to the same three operands in another order |
| `KconfigTransform.Transform` | src/kboot/utilities/kconfig/expr.c:641-776 | the transformation, calling itself again after De Morgan, terminates and never gains weight |
| `KconfigTransform.TransformKeepsValue` | src/kboot/utilities/kconfig/expr.c:641-776 | transforming keeps the value under every admissible tristate valuation |
| `KconfigTransform.TransformComparisonKeepsValue` | src/kboot/utilities/kconfig/expr.c:658-702 | rewriting a comparison of a boolean symbol with y, m or n keeps its value |
| `KconfigTransform.TransformIsNormal` | src/kboot/utilities/kconfig/expr.c:641-776 | the result is in negation normal form: a negation stands only over a symbol other than y, m and n, and no comparison of a boolean symbol with them is left |
| `KconfigTransform.NoConstantNegatedIff` | src/kboot/utilities/kconfig/expr.c:641-776 | the result negates no constant at all if and only if no quoted constant stands under an odd number of negations in the expression |
| `KconfigTransform.QuotedStaysNegated` | src/kboot/utilities/kconfig/expr.c:703-769 | a negated quoted constant is left as it is |
| `KconfigTransform.TransformKeepsParity` | src/kboot/utilities/kconfig/expr.c:641-776 | the number of negations over a quoted constant stays even or odd |
| `KconfigTransform.NormalIsFixed` | src/kboot/utilities/kconfig/expr.c:641-776 | an expression in that form is left as it is |
| `KconfigTransform.TransformIsIdempotent` | src/kboot/utilities/kconfig/expr.c:641-776 | transforming twice is transforming once |
| `KconfigDups.JoinOrKeepsValue` | src/kboot/utilities/kconfig/expr.c:351-413 | whatever two operands of || join into has the larger of their values |
| `KconfigDups.JoinAndKeepsValue` | src/kboot/utilities/kconfig/expr.c:415-507 | whatever two operands of && join into has the smaller of their values |
| `KconfigDups.ExtractEqSplits` | src/kboot/utilities/kconfig/expr.c:831-880 | extracting the common operands splits both expressions into a rest and the one common part that is returned |
| `KconfigDups.ExtractKeepsValue` | src/kboot/utilities/kconfig/expr.c:853-880 | the same at every level of the recursion, with the common operands gathered so far |
| `KconfigDups.Dups1Kept` | src/kboot/utilities/kconfig/expr.c:509-559 | the first pass, rewriting two places of one tree through pointers, keeps the value of the whole under every admissible tristate valuation and reports a rewrite whenever it made one |
| `KconfigDups.Dups2Kept` | src/kboot/utilities/kconfig/expr.c:561-615 | the second pass keeps the value of the whole under every admissible tristate valuation that does not make it m, and reports a rewrite whenever it made one |
| `KconfigDups.ContradictionUnlessBothMod` | src/kboot/utilities/kconfig/expr.c:578-606 | where the contradiction or tautology rule applies, replacing the pair of operands by n (or y) keeps their joint value if and only if not both of them are m |
| `KconfigDups.ContradictionValue` | src/kboot/utilities/kconfig/expr.c:578-606 | applying the rule inside a list keeps the value of the list unless that was m |
| `KconfigMod.EliminateDupsLosesMod` | src/kboot/utilities/kconfig/expr.c:617-639 | for any two tristate symbols, an expression that duplicate elimination, run to its end, turns into n although it is m when they are |
| `KconfigDups.OnePassProgress` | src/kboot/utilities/kconfig/expr.c:617-639 | a round either changes nothing, or leaves a smaller expression |
| `KconfigClean.EliminateDupsIsClean` | src/kboot/utilities/kconfig/expr.c:617-639 | in the result no two operands of a list, nor of any list below it that is reached through lists, compare equal or form one of the pairs that can be joined, and no list without constants contains the negation of one of its operands; and there is no constant operand in it unless it was returned unchanged |
| `KconfigClean.JoinsIffJoinable` | src/kboot/utilities/kconfig/expr.c:351-507 | two operands are joined if and only if they compare equal or are one of these pairs: in ||, tests of one tristate for two of y, m and n, or a boolean and its negation; in &&, a boolean or tristate with a test that it is y, not m or not n, tests of a tristate for one constant and against another, or tests of it against two of y, m and n |
| `KconfigClean.JoinedInPlace` | src/kboot/utilities/kconfig/expr.c:536-554 | where two operands are joined, the first becomes the neutral constant and the second what they are joined into, a duplicate being the first of the two; no other operand changes |
| `KconfigClean.ExtractsAllIff` | src/kboot/utilities/kconfig/expr.c:831-880 | all of one expression is extracted if and only if the other has all its operands, each as often, whichever the connective, so the contradiction rule of && and the tautology rule of || fire exactly there |
| `KconfigClean.NothingToJoin` | src/kboot/utilities/kconfig/expr.c:509-559 | a first pass that changes nothing has found no two operands to join, at any two places below its two pointers |
| `KconfigClean.NothingContradicted` | src/kboot/utilities/kconfig/expr.c:561-615 | a second pass that changes nothing has found no operand whose negation is contained |
| `KconfigClean.DuplicateIsDropped` | src/kboot/utilities/kconfig/expr.c:536-554 | two copies of any operand are never left side by side |
| `KconfigClean.EliminateAllDups` | src/kboot/utilities/kconfig/expr.c:617-639 | the loop of rounds ends with such a result, which has the same value under every admissible valuation that does not make the expression m |
| `KconfigDups.EliminateDupsKeepsValue` | src/kboot/utilities/kconfig/expr.c:617-639 | eliminating duplicates keeps the value under every admissible tristate valuation that does not make the whole expression m, whatever its symbols are; without m among the symbols that is always so |
| `KconfigDups.EliminateDupsIsIdempotent` | src/kboot/utilities/kconfig/expr.c:617-639 | no round finds anything to do in the result, and eliminating twice is eliminating once |
| `KconfigDups.FirstPassKeepsValue` | src/kboot/utilities/kconfig/expr.c:509-559 | the first pass followed by dropping constants keeps the value under every admissible tristate valuation |
| `KconfigCompare.TransCompareRounds` | src/kboot/utilities/kconfig/expr.c:882-941 | comparing with y or n evaluates, for every expression over any symbols and every admissible tristate valuation, to the comparison of the value that the expression has when every symbol with the string of y (or n) is taken for it and every other symbol for the opposite |
| `KconfigCompare.TransCompareIsRightIff` | src/kboot/utilities/kconfig/expr.c:882-941 | so it is the comparison of the value if and only if that rounding does not decide it |
| `KconfigCompare.SymbolIsRightIff` | src/kboot/utilities/kconfig/expr.c:933-934 | the comparison of one symbol with y, m or n is the comparison of its value if and only if it has the string of the constant exactly when it has its truth value |
| `KconfigCompare.UndeclaredIsMisread` | src/kboot/utilities/kconfig/symbol.c:282-285 | a symbol that is used but never declared is n and has its name for a string: asked whether it differs from n, the comparison says y, with neither a negation nor an m in the expression |
| `KconfigCompare.TransCompareIsComparison` | src/kboot/utilities/kconfig/expr.c:882-941 | if every symbol used as an expression has the string of y (or n) exactly when it has its truth value, comparing with y (or n) evaluates to the comparison of the value, for every tristate valuation without negations in the expression and for every valuation without m in general |
| `KconfigCompare.TruthValuesAgree` | src/kboot/utilities/kconfig/expr.c:933-934 | that is so for the constants y, m and n and for all boolean and tristate symbols |
| `KconfigCompare.TransCompareOfNot` | src/kboot/utilities/kconfig/expr.c:913-914 | over a negation of such an expression without negations, it is the comparison of the value if and only if what is negated is not m |
| `KconfigCompare.TransCompareModIsRightIff` | src/kboot/utilities/kconfig/expr.c:894-934 | comparing with m is the comparison of the value if and only if, behind the negations, there is a test of two symbols or a symbol whose string agrees with its value, under an even number of them, a symbol whose string does not, under an odd number, or a join that is n under an even number and y under an odd number |
| `KconfigMod.TransCompareOfNotMod` | src/kboot/utilities/kconfig/expr.c:913-914 | a negated symbol that is m compares equal to y and equal to n |
| `KconfigCompare.TransBoolKeepsNo` | src/kboot/utilities/kconfig/expr.c:322-346 | on an expression in normal form the boolean translation is n exactly when the expression is n |
| `KconfigCompare.TransBoolAfterTransform` | src/kboot/utilities/kconfig/expr.c:322-346 | so on the result of the transformation of any expression |
| `KconfigCompare.TransBoolReplacesAll` | src/kboot/utilities/kconfig/expr.c:322-346 | no test of a tristate symbol against n is left anywhere, and the expression is returned unchanged if and only if it had none |
| `KconfigCompare.OrderIsKept` | src/kboot/utilities/kconfig/expr.c:322-941 | comparing with y or n, and replacing tests against n, mention the same symbols in the same order |
| `BinMap.MarkSets` | src/kernel/dlmalloc.c:2915-2924 | marking and clearing a bin changes that bit of the 32-bit map and no other |
| `BinMap.MarkedAfterMeans` | src/kernel/dlmalloc.c:2930 | the mask of the bits to the left keeps exactly the marked bins behind a given one |
| `BinMap.FirstMarkedIsFirst` | src/kernel/dlmalloc.c:2927-2975 | isolating the least bit and scanning for it yields the first marked bin |
| `BinMap.ThisOrNext` | src/kernel/dlmalloc.c:4577-4581 | the two low bits of the shifted map say whether this bin or the next one is marked |
| `BinMap.NoneFrom` | src/kernel/dlmalloc.c:4577-4593 | when the shifted map is zero, no bin from the index on is marked |
| `BinMap.SmallLeftMarks` | src/kernel/dlmalloc.c:4597 | shifting back and masking keeps exactly the marked bins behind the index |
| `BinMap.SmallLeftFirst` | src/kernel/dlmalloc.c:4597-4599 | when the two low bits are clear, the bin found is the first marked one from the index on |
| `BinIndex.TreeIndexPlaces` | src/kernel/dlmalloc.c:2835-2909 | every large size lies in the interval of the bin its index names |
| `BinIndex.TreeIndexIsTheBin` | src/kernel/dlmalloc.c:2835-2909 | a bin is the one computed for a size if and only if the size lies in its interval |
| `BinIndex.TreeIndexIsMonotone` | src/kernel/dlmalloc.c:2835-2895 | larger sizes never go to an earlier bin |
| `BinIndex.FirstBitsSteer` | src/kernel/dlmalloc.c:2902-2904 | the left shift of a bin puts the first bit that tells its sizes apart in the sign position |
| `BinIndex.NextBitsSteer` | src/kernel/dlmalloc.c:4449-4457 | the sign bit picks the half of the interval that holds the size, and shifting on steers the half below |
| `Tries.InsertedHolds` | src/kernel/dlmalloc.c:3645-3694 | inserting adds exactly one chunk to the trie and keeps every other |
| `Tries.InsertedFits` | src/kernel/dlmalloc.c:3645-3694 | inserting keeps every subtree within the half interval its position stands for, with one node per size |
| `Tries.InsertedSeparate` | src/kernel/dlmalloc.c:3645-3694 | inserting keeps every chunk in one place |
| `Tries.UnlinkedHolds` | src/kernel/dlmalloc.c:3713-3782 | unlinking removes exactly that chunk, whether from a ring or by moving up the rightmost leaf |
| `Tries.UnlinkedFits` | src/kernel/dlmalloc.c:3713-3782 | unlinking keeps the interval of every subtree, although the node that moves up comes from far below |
| `Tries.UnlinkedSeparate` | src/kernel/dlmalloc.c:3713-3782 | unlinking keeps every chunk in one place and frees only the one address |
| `Tries.HoldsOnce` | src/kernel/dlmalloc.c:3298-3357 | a chunk is stored under one size only |
| `Tries.HeightBound` | src/kernel/dlmalloc.c:3298-3357 | the depth is at most the number of bits that tell the sizes of an interval apart |
| `TreeMemory.InsertRep` | src/kernel/dlmalloc.c:3645-3694 | the pointer writes of an insertion turn memory that represents a trie into memory that represents the trie with the chunk |
| `TreeMemory.UnlinkRep` | src/kernel/dlmalloc.c:3713-3782 | the pointer writes of an unlink turn it into memory that represents the trie without the chunk |
| `TreeBins.Bins.constructor` | src/kernel/dlmalloc.c:3908-3915 | the bins start empty |
| `TreeBins.Bins.InsertLarge` | src/kernel/dlmalloc.c:3645-3694 | the bins stay tries with same-size rings, right parent links and a map bit per non-empty bin, and store exactly one chunk more |
| `TreeBins.Bins.LinkIn` | src/kernel/dlmalloc.c:3661-3692 | the descent by sign bits hangs the chunk where the trie wants it, or in the ring of its size |
| `TreeBins.Bins.UnlinkLarge` | src/kernel/dlmalloc.c:3713-3782 | the same invariants, and exactly that chunk is gone |
| `TreeBins.Bins.Detach` | src/kernel/dlmalloc.c:3716-3742 | the replacement is the ring neighbour, or the rightmost leaf below, cut off its parent |
| `TreeBins.Bins.FindLeaf` | src/kernel/dlmalloc.c:3729-3737 | the loop ends at the rightmost leaf of the subtree |
| `TreeBins.Bins.TakePlace` | src/kernel/dlmalloc.c:3743-3781 | the replacement takes over the place, the children and the root of the bin, and the map bit is cleared when nothing is left |
| `TreeBins.BinDepth` | src/kernel/dlmalloc.c:3298-3357 | every path in a bin is at most the number of differentiating bits of that bin long |
| `TreeSearch.RemainderCompares` | src/kernel/dlmalloc.c:4443-4446 | the wrapped difference of sizes compares as the sizes do when both fit |
| `TreeSearch.SearchStep` | src/kernel/dlmalloc.c:4441-4458 | each step down keeps everything that could still improve on the best chunk below the current node or in the deepest untaken right subtree |
| `TreeSearch.LeftStep` | src/kernel/dlmalloc.c:4470-4477 | each step to the leftmost child keeps everything that could still improve below it |
| `TreeBins.Bins.FindBest` | src/kernel/dlmalloc.c:4431-4477 | the chunk found is of least size among all tree chunks that fit, and null only if none fits |
| `TreeBins.Bins.WalkDown` | src/kernel/dlmalloc.c:4437-4459 | the walk down one path of the home bin ends with the best chunk so far and the only subtree left to search |
| `TreeBins.Bins.WalkLeft` | src/kernel/dlmalloc.c:4470-4477 | the walk to the left finds the least size of that subtree |
| `TreeBins.Bins.FindSmallest` | src/kernel/dlmalloc.c:4502-4517 | the chunk found is a smallest one of all the trees |
| `SmallBins.Small.constructor` | src/kernel/dlmalloc.c:3908-3915 | the small bins start as empty circles |
| `SmallBins.Small.Insert` | src/kernel/dlmalloc.c:3567-3583 | every small bin stays a doubly linked circle with a map bit if it is not empty, and the chunk is first in its bin |
| `SmallBins.Small.Unlink` | src/kernel/dlmalloc.c:3586-3609 | the same, and exactly that chunk is gone |
| `SmallBins.Small.UnlinkFirst` | src/kernel/dlmalloc.c:3612-3627 | the same, and the first chunk of the bin is gone |
| `BoundaryTags.ByteInOneChunk` | src/kernel/dlmalloc.c:3420-3448 | the chunks tile the segment up to top: every byte lies in exactly one |
| `BoundaryTags.NeighboursInUse` | src/kernel/dlmalloc.c:3420-3448 | no free chunk has a free neighbour, and none touches top |
| `BoundaryTags.TakeWhole` | src/kernel/dlmalloc.c:3056-3058 | marking a free chunk as in use keeps the tiling and all tags, and moves it from the free to the live chunks |
| `BoundaryTags.SplitTiled` | src/kernel/dlmalloc.c:4489-4490 | splitting a free chunk keeps the tiling and all tags |
| `BoundaryTags.SplitMaps` | src/kernel/dlmalloc.c:4489-4490 | and makes its front live and its back free |
| `BoundaryTags.SplitTop` | src/kernel/dlmalloc.c:4655-4665 | splitting top does the same, with the back the new top |
| `BoundaryTags.JoinTiled` | src/kernel/dlmalloc.c:2284-2289 | freeing a chunk together with free neighbours keeps the tiling and all tags |
| `BoundaryTags.JoinMaps` | src/kernel/dlmalloc.c:2284-2289 | and replaces them by one free chunk |
| `BoundaryTags.JoinTop` | src/kernel/dlmalloc.c:4731-4734 | a freed chunk in front of top becomes part of top |
| `BoundaryTags.GrowTop` | src/kernel/dlmalloc.c:4204-4205 | growing top keeps the tiling and all chunks |
| `BoundaryTags.UserWrite` | src/kernel/dlmalloc.c:2130-2139 | the word behind a live chunk, its foot, belongs to the user: writing it breaks nothing |
| `KernelHeap.Arena.constructor` | src/kernel/dlmalloc.c:3893-3915 | a fresh arena is all top, with empty bins |
| `KernelHeap.Arena.Malloc` | src/kernel/dlmalloc.c:4541-4675 | every call keeps all invariants; a success adds one live chunk of at least the padded size and less than 16 bytes more and touches no other; null means that nothing fits, in bins, designated victim or top; a large request gets a best fit of all free chunks, of equal ones the designated victim; a small one gets a best fit of the binned chunks if a small chunk of its size or eight bytes more is binned or the designated victim is too small, and otherwise the designated victim; what is left of a binned chunk becomes the designated victim after a small request and never after a large one |
| `KernelHeap.Arena.SmallRequest` | src/kernel/dlmalloc.c:4572-4623 | serves a best fit of the binned chunks if one of them is a small chunk of just that size or eight bytes more, or if the designated victim is too small and something fits; otherwise leaves everything as it was; what is left of the chunk becomes the designated victim |
| `KernelHeap.Arena.TmallocLarge` | src/kernel/dlmalloc.c:4431-4499 | serves the best fit if it is smaller than the designated victim, which stays as it is, and otherwise says that the designated victim is the best fit or that nothing fits |
| `KernelHeap.Arena.TmallocSmall` | src/kernel/dlmalloc.c:4502-4537 | serves a smallest chunk of the trees and makes the rest the designated victim, if it is a chunk |
| `KernelHeap.Arena.FromDv` | src/kernel/dlmalloc.c:4635-4653 | serves from the designated victim, which keeps the rest, or is gone if the rest is not a chunk |
| `KernelHeap.Arena.FromTop` | src/kernel/dlmalloc.c:4655-4665 | serves the start of top and leaves the rest as top |
| `KernelHeap.Arena.SysAlloc` | src/kernel/dlmalloc.c:4034-4235 | serves from the grown top exactly when that is large enough, and refuses requests that are too big |
| `KernelHeap.Arena.FromVictimOrTop` | src/kernel/dlmalloc.c:4635-4667 | the designated victim serves if it is large enough, otherwise top, grown by the system if need be; null exactly when neither is large enough |
| `KernelHeap.Arena.ReplaceDv` | src/kernel/dlmalloc.c:3631-3640 | the old designated victim goes to its small bin |
| `KernelHeap.Arena.InsertChunk` | src/kernel/dlmalloc.c:3786-3788 | the bins gain exactly that chunk |
| `KernelHeap.Arena.UnlinkChunk` | src/kernel/dlmalloc.c:3790-3792 | the bins lose exactly that chunk |
| `KernelHeap.Arena.SetInuseAndPinuse` | src/kernel/dlmalloc.c:3056-3058 | all tags stay right and the chunk becomes live |
| `KernelHeap.Arena.SplitFree` | src/kernel/dlmalloc.c:4489-4490 | all tags stay right, the front becomes live and the back free |
| `KernelHeap.Arena.CarveToDv` | src/kernel/dlmalloc.c:4527-4529 | all invariants hold again after a split whose rest becomes the designated victim |
| `KernelHeap.Arena.CarveToBin` | src/kernel/dlmalloc.c:4489-4491 | all invariants hold again after a split whose rest goes to a bin |
| `KernelHeap.Arena.Release` | src/kernel/dlmalloc.c:4679-4786 | every free keeps all invariants, coalescing included, and the live chunks lose exactly the one freed; the designated victim stays, larger if the chunk touched it, unless top has swallowed it |
| `KernelHeap.Arena.ReleaseForward` | src/kernel/dlmalloc.c:4729-4774 | the second half: merging with top, the designated victim or the next free chunk, and binning the result |
| `KernelHeap.Arena.MergeBinned` | src/kernel/dlmalloc.c:4749-4758 | the invariant holds when a free chunk behind the freed one leaves its bin and joins it, in a bin or as part of the designated victim |
| `KernelHeap.Arena.SetFreeWithPinuse` | src/kernel/dlmalloc.c:2288-2289 | all tags stay right when the freed chunk is followed by one in use |
| `KernelHeap.Arena.SetFree` | src/kernel/dlmalloc.c:2284-2285 | all tags stay right when the freed chunk swallows the next free one |
| `KernelHeap.Arena.MergeDv` | src/kernel/dlmalloc.c:4743-4748 | the invariant holds when the designated victim behind the freed chunk grows over it and a free chunk before it, and only that chunk is no longer live |
| `KernelHeap.Arena.MergeTop` | src/kernel/dlmalloc.c:4731-4741 | all tags stay right when the freed chunk becomes part of top |
| `KernelHeap.Arena.FillBlock` | src/kernel/dlmalloc.c:2130-2139 | a user that fills a live chunk to its last word breaks no invariant |
| `KernelHeap.LiveApart` | src/kernel/dlmalloc.c:3284-3295 | live chunks are aligned, at least of minimum size, below top, and overlap no other chunk |
| `KernelHeap.RequestFits` | src/kernel/dlmalloc.c:2224-2233 | a padded request holds the bytes asked for and wastes less than eight bytes unless it is a minimum chunk, and is small exactly when the request is |
| `KernelHeap.BestBinned` | src/kernel/dlmalloc.c:4479-4480 | a best fit of the trees is a best fit of all binned chunks when the request is large |
| `KernelHeap.BestWithDv` | src/kernel/dlmalloc.c:4479-4480 | choosing between it and the designated victim by size yields a best fit of all free chunks |
| `KernelHeap.LargeFit` | src/kernel/dlmalloc.c:4480 | the wrapped comparison with the size of the designated victim decides that choice rightly, also when the victim is too small |
| `KernelHeap.FirstBinIsBest` | src/kernel/dlmalloc.c:4579-4601 | a chunk of the first marked bin that fits is a best fit of all binned chunks |
| `KernelHeap.SnugIff` | src/kernel/dlmalloc.c:4577-4581 | the two low bits of the shifted map are set exactly when a small chunk of just the size, or of eight bytes more, is binned |
| `KernelHeap.SmallestIsBest` | src/kernel/dlmalloc.c:4619 | with no small bin that fits, a smallest tree chunk is a best fit of all binned chunks |
| `AvlShape.BalancedIsBushy` | src/kernel/tree.c:314-361 | a balanced tree of height h has at least Fib(h+2)-1 nodes |
| `AvlShape.RotateKeeps` | src/kernel/tree.c:419-455 | a rotation keeps the in-order contents, the nodes and their number |
| `AvlShape.LightenKeeps` | src/kernel/tree.c:483-500 | so does a rebalancing, single or double |
| `AvlShape.LightenLowers` | src/kernel/tree.c:483-500 | rebalancing never raises the subtree and leaves exact cached heights below it |
| `AvlShape.LightenMends` | src/kernel/tree.c:483-500 | rebalancing a node whose balanced subtrees differ by two yields a balanced subtree, at most one lower |
| `AvlShape.RefreshKidsExact` | src/kernel/tree.c:457-481 | computing the balance factor refreshes the cached heights of both children and finds the true difference if those below are exact |
| `AvlShape.WalkOn` | src/kernel/tree.c:355-360 | a step of the walk upwards over a node in balance keeps what the walk owes the nodes above |
| `AvlShape.WalkTurns` | src/kernel/tree.c:355-360 | a step over a node out of balance rotates, keeps it too, and makes progress although the walk visits the lowered node again |
| `AvlItems.LookupFinds` | src/kernel/tree.c:395-417 | on a sorted tree the search finds an item of the key if there is one, and the sentinel if not |
| `AvlItems.LookupIsMap` | src/kernel/tree.c:395-417 | so it agrees with the finite map of the items |
| `AvlItems.InsertIsUpdate` | src/kernel/tree.c:314-361 | an insertion is an update of that map where the key was missing, and keeps the keys distinct if and only if the key was not stored with the sentinel as its value |
| `AvlTree.StoreTwice` | src/kernel/tree.c:319-321 | two insertions of one key, the first with the sentinel as its value, leave a tree with that key twice |
| `AvlItems.DeleteIsRemoval` | src/kernel/tree.c:363-393 | a deletion is the removal of the key from that map, unless the sentinel is its value |
| `AvlItems.InsertedMap` | src/kernel/tree.c:314-361 | an item put in at a sorted place keeps the keys distinct exactly when its key is new |
| `AvlItems.RemovedMap` | src/kernel/tree.c:363-393 | an item taken out takes exactly its key out of the map |
| `AvlTree.Avl.constructor` | src/kernel/tree.c:136-146 | a created tree is empty |
| `AvlTree.Avl.Rotate` | src/kernel/tree.c:419-455 | the pointer writes of a rotation, on either side and at the root or below, represent the rotated tree with right parent links |
| `AvlTree.Avl.NodeHeight` | src/kernel/tree.c:457-477 | returns the height by the cached heights of the children, caches it, and writes nothing else |
| `AvlTree.Avl.Bfactor` | src/kernel/tree.c:479-481 | returns the difference of the two, with both children refreshed |
| `AvlTree.Avl.Rebalance` | src/kernel/tree.c:483-500 | the pointer writes represent the rebalanced tree; no rotation goes through null |
| `AvlTree.Avl.Retrace` | src/kernel/tree.c:355-360 | the walk to the root ends, is the walk on trees that the balance theorems are about, keeps the contents, and leaves every cached height but the one of the root exact |
| `AvlTree.Avl.Search` | src/kernel/tree.c:395-417 | the loop finds what the tree search means |
| `AvlTree.Avl.Insert` | src/kernel/tree.c:314-361 | a present key changes nothing, another is added at its place in order; all links, cached heights below the root and the count stay right, and a balanced tree stays balanced |
| `AvlTree.Avl.Attach` | src/kernel/tree.c:335-353 | the new leaf hangs where the order wants it |
| `AvlTree.Avl.Delete` | src/kernel/tree.c:363-393 | a missing key changes nothing, a present one loses exactly one item; all links, cached heights below the root and the count stay right, and the shape is the one that the balance theorems are about |
| `AvlTree.Avl.RemoveNode` | src/kernel/tree.c:81-121 | rotating down, cutting off and walking up removes exactly that node and leaves the shape that the balance theorems are about |
| `AvlTree.Avl.SinkToLeaf` | src/kernel/tree.c:86-101 | the loop of rotations ends with the node as a leaf, whatever the cached heights, at the place that the theorems on trees are about |
| `AvlDelete.InsertBalances` | src/kernel/tree.c:355-360 | the walk after an insertion into a balanced tree ends with a balanced tree |
| `AvlDelete.WalkedKept` | src/kernel/tree.c:113-118 | the walk, with all its rotations, keeps the contents in order |
| `AvlDelete.SunkKept` | src/kernel/tree.c:86-101 | so do all the rotations that take a node down to a leaf |
| `AvlBalance.DeleteBalancesIff` | src/kernel/tree.c:363-393 | a deletion of a node of height at most four from a balanced tree leaves a balanced tree if and only if the node has not outgrown one of its sides: one child of height three, the other of height two with nothing on its outer side, and the outer grandchild of the higher one of height two or the inner one with children of equal height |
| `AvlBalance.BigDelete` | src/kernel/tree.c:81-118 | a node of height four leaves a balanced subtree at most one lower in its place if it has not outgrown a side, and otherwise an unbalanced one of the same height |
| `AvlBalance.LowDelete` | src/kernel/tree.c:81-118 | a node with children of height at most two leaves a balanced subtree in its place; its height is determined by the heights one and two levels below the node |
| `AvlBalance.OneChild` | src/kernel/tree.c:90-93 | a node with one child, of any height, leaves a balanced subtree of the height of that child |
| `AvlBalance.TwoDown` | src/kernel/tree.c:94-100 | one round of rotations puts the lower child, of equal ones the left, in the place of the node, the other child below it, and the node between their inner subtrees |
| `AvlBalance.SameHeightStays` | src/kernel/tree.c:113-118 | above a subtree that has kept its height the walk turns nothing, so the tree is balanced if and only if the subtree is |
| `AvlBalance.LoweredBalances` | src/kernel/tree.c:113-118 | above a balanced subtree that is at most one lower than before the walk ends with a balanced tree |
| `AvlBalance.Settle` | src/kernel/tree.c:114-116 | the walk balances a node whose balanced subtrees differ by two, or by three if the higher one leans, with the heights this gives |
| `AvlBalance.Spoils` | src/kernel/tree.c:114-116 | it does not balance one whose subtrees differ by three with a level higher one, or by four with two inward leans, and leaves it unbalanced |
| `AvlBalance.UnbalancingDelete` | src/kernel/tree.c:81-121 | balanced trees of seven keys that one deletion unbalances |
| `RangeMap.CanonIsUnique` | src/kboot/source/memory.c:193-309 | two canonical lists (sorted, disjoint, non-empty, maximally merged) that give every address the same type are the same list |
| `RangeMap.AddedIsUpdate` | src/kboot/source/memory.c:252-309 | the list after an addition is canonical and is the pointwise update of the old one |
| `RangeMap.MergedCanon` | src/kboot/source/memory.c:193-212 | merging one range with its neighbours makes a list canonical that was so on both sides |
| `RangeMap.MergedAt` | src/kboot/source/memory.c:193-212 | merging changes the type of no address |
| `MemoryMap.MemoryMap.Add` | src/kboot/source/memory.c:252-309 | insert, split, swallow and merge together compute that pointwise update and leave the list canonical |
| `MemoryMap.MemoryMap.Merge` | src/kboot/source/memory.c:193-212 | computes the merged list and where the range now is |
| `MemoryMap.MemoryMap.FindPlace` | src/kboot/source/memory.c:261-273 | finds the first range that does not start earlier |
| `MemoryMap.MemoryMap.PutIn` | src/kboot/source/memory.c:262-286 | clips the range before, and puts its overhanging rest behind the new one |
| `MemoryMap.MemoryMap.Swallow` | src/kboot/source/memory.c:289-305 | removes what the new range covers and cuts the last one |
| `MemoryMap.MemoryMap.Alloc` | src/kboot/source/memory.c:349-377 | takes the first free range that the wrapped comparison accepts, marks exactly the interval, and fails only if none is accepted; an accepted interval that wraps fails the assertion and changes nothing |
| `MemoryMap.MemoryMap.Finalise` | src/kboot/source/memory.c:399-410 | turns internal memory into free memory pointwise and ends canonical, although it merges while it iterates |
| `MemoryMap.FreeInOneRange` | src/kboot/source/memory.c:349-377 | in a canonical list an interval that is all free lies within one free range |
| `MemoryMap.PickIsLeast` | src/kboot/source/memory.c:357-372 | without wrap-around the address is aligned, its interval is all free, and no smaller address would do |
| `MemoryMap.PickIsRightUnlessItWraps` | src/kboot/source/memory.c:364-367 | the address is the least aligned one with a free interval if and only if rounding up and adding the size do not wrap |
| `MemoryMap.PickWraps` | src/kboot/source/memory.c:364-367 | when they wrap, the address is no such address |
| `MemoryMap.WrapExample` | src/kboot/source/memory.c:364-367 | a concrete free range near the end of the address space for which they wrap |
| `MemoryMap.NoPick` | src/kboot/source/memory.c:357-376 | when no range is accepted, no aligned free interval exists |
| `MemoryMap.AllocationsApart` | src/kboot/source/memory.c:349-377 | what is handed out after any number of further allocations does not overlap what was allocated before |
| `BootHeap.ChunksApart` | src/kboot/source/memory.c:73-175 | the chunks tile the heap, so no two overlap and neighbours touch: both assertions in freeing hold |
| `BootHeap.AllFreeIsOne` | src/kboot/source/memory.c:144-175 | with no live block the heap is one free chunk |
| `BootHeap.ServesIffSane` | src/kboot/source/memory.c:82-117 | the block handed out holds the request within the heap if and only if the request does not wrap around in 32 bits and, when it is the first, is not larger than the heap |
| `BootHeap.NotServed` | src/kboot/source/memory.c:82-117 | the first request for as many bytes as the heap has gets a chunk that is too small, and a request that wraps around gets one of four bytes |
| `BootHeap.CarvedWellIff` | src/kboot/source/memory.c:107-117 | after a request of any size the list is in order if and only if the chunk taken keeps room for its header |
| `BootHeap.CarvedWell` | src/kboot/source/memory.c:107-117 | allocating keeps the tiling with no two free neighbours |
| `BootHeap.FreedWell` | src/kboot/source/memory.c:156-174 | freeing keeps it too, with no two free neighbours |
| `BootHeap.FreedLive` | src/kboot/source/memory.c:155-174 | freeing takes the freed block, and no other, out of the live ones |
| `BootHeap.LiveDetermines` | src/kboot/source/memory.c:73-175 | a list in order is determined by its live blocks: two tilings of one heap with the same live blocks and no two free neighbours are the same list |
| `BootHeap.CarvedLive` | src/kboot/source/memory.c:107-117 | an allocation adds the block taken to the live ones, and no other, and wastes less than a header |
| `BootHeap.SaneServes` | src/kboot/source/memory.c:82-117 | a sane request gets a new live block that holds it, with less than a header to spare beyond the rounded size |
| `BootHeap.TotalIs` | src/kboot/source/memory.c:82-83 | the size of the chunk is the request rounded up to eight bytes with a header, or wraps around to at most a header |
| `BootHeap.FreeUndoesAlloc` | src/kboot/source/memory.c:73-175 | freeing the block just allocated restores the chunk list exactly |
| `BootHeap.StillThere` | src/kboot/source/memory.c:132-136 | an allocation of any size leaves every live block in the list |
| `BootHeap.CopyFits` | src/kboot/source/memory.c:132-136 | what fits into the new block is copied within the heap and apart from the old block |
| `BootHeap.Heap.constructor` | src/kboot/source/memory.c:86-90 | the heap starts without chunks |
| `BootHeap.Heap.Kmalloc` | src/kboot/source/memory.c:73-118 | takes the first free chunk that fits, cuts it, and fails exactly when there is none; the first request takes the whole heap without a look at its size; after a sane request the live blocks are the old ones and the new one |
| `BootHeap.Heap.Kfree` | src/kboot/source/memory.c:144-175 | frees a live block with both neighbours joined, refuses one that is free already, and ignores null; all other live blocks stay |
| `BootHeap.Heap.Krealloc` | src/kboot/source/memory.c:124-140 | allocates, copies the smaller of both sizes between two blocks that are apart, and frees the old block; size zero only frees; the live blocks lose the old block and gain the new one; the copy overruns the new block exactly when it is larger than that block, and never for a request that allocation serves rightly |
| `BlockDevice.PartitionByte` | src/kboot/source/disk.c:115-117 | a byte of a partition, nested to any depth, is the byte of the root disk at the sum of the offsets |
| `BlockDevice.ReadBlocks` | src/kboot/source/disk.c:115-117 | reading blocks through any depth of partitions fills the buffer with the bytes of the flat disk, and succeeds exactly when every block is readable |
| `BlockDevice.Read` | src/kboot/source/disk.c:38-107 | the head, full and tail transfers together fill exactly the slice of the flat disk, touch nothing else of the buffer, and succeed exactly when the 64-bit test for the end passes, the slice is in range and every block it touches is readable |
| `BlockDevice.EndTestIsRight` | src/kboot/source/disk.c:49-51 | on a disk of less than 2^64 bytes the test for the end is right if and only if the end of the slice does not wrap around in 64 bits, or wraps to an offset beyond the end |
| `BlockDevice.EndTestExample` | src/kboot/source/disk.c:49-51 | a slice that wraps around and passes the test |
| `BlockDevice.ReadRest` | src/kboot/source/disk.c:79-106 | the transfers from a block boundary on |
| `BlockDevice.ReadPart` | src/kboot/source/disk.c:67-77 | a partial transfer through the temporary block |
| `Ext2.ReadBlock` | src/kboot/source/fs/ext2.c:49-52 | a filesystem block is the slice of the disk at its number |
| `Ext2.IndirectGet` | src/kboot/source/fs/ext2.c:135-200 | direct, indirect and bi-indirect lookup agree with one flat table of block numbers, and succeed exactly when the blocks they need are readable and the number is in the table, as far as the 32-bit product says |
| `Ext2.ReachIsFullIff` | src/kboot/source/fs/ext2.c:171 | that product counts all entries below the bi-indirect block if and only if blocks have less than 256 KiB |
| `Ext2.NothingInReach` | src/kboot/source/fs/ext2.c:171 | for larger blocks, whose size is a power of two, it counts none |
| `Ext2.FlatAt` | src/kboot/source/fs/ext2.c:137-191 | where each of the three kinds of entry lies in the flat table |
| `Ext2.JoinedAt` | src/kboot/source/fs/ext2.c:171-191 | quotient and remainder find the entry of the concatenated indirect blocks |
| `Ext2.FindLeaf` | src/kboot/source/fs/ext2.c:60-88 | the walk down the extent index ends at a leaf that maps the block as the whole tree does, and succeeds exactly when the tree leads there through readable blocks |
| `Ext2.BrokenFails` | src/kboot/source/fs/ext2.c:68-69 | nothing is found through a node that has not got the magic number |
| `Ext2.CountKeys` | src/kboot/source/fs/ext2.c:74-78 | the loop stops behind the last key that is not larger |
| `Ext2.ChildHolds` | src/kboot/source/fs/ext2.c:74-85 | in an ordered tree the child so found maps the block as the tree does |
| `Ext2.LeafHolds` | src/kboot/source/fs/ext2.c:115-130 | in an ordered leaf the extent so found maps the block, or it is a hole |
| `Ext2.LeafGet` | src/kboot/source/fs/ext2.c:114-132 | the lookup in a leaf agrees with its mapping |
| `Ext2.ExtentGet` | src/kboot/source/fs/ext2.c:108-133 | the lookup through index and leaf agrees with the mapping of the tree |
| `Ext2.GetBlock` | src/kboot/source/fs/ext2.c:97-212 | the raw block of either kind of inode, with the exact condition of success |
| `Ext2.ReadInodeBlock` | src/kboot/source/fs/ext2.c:219-237 | the buffer gets the raw block, or zeros for an unmapped one, and the read succeeds exactly when the block is below the size rounded up in 32 bits, can be found and can be read |
| `Ext2.AllBytesCountedIff` | src/kboot/source/fs/ext2.c:224-225 | every byte of a file lies in a block that passes that test if and only if the size does not wrap around when it is rounded up |
| `Ext2.NothingReadableIfWrapped` | src/kboot/source/fs/ext2.c:224-225 | no block of a file whose size wraps around can be read, such as one of 2^32 - 1 bytes in blocks of 1024 |
| `Ext2.BlocksAre` | src/kboot/source/fs/ext2.c:224 | how many blocks pass the test, with and without wrap-around |
| `Ext2.ReadFile` | src/kboot/source/fs/ext2.c:347-405 | the buffer gets exactly the bytes of the logical blocks, numbered in 32 bits, and the read succeeds exactly when each of those blocks passes the test for the end of the file and is readable |
| `Ext2.HoldsIsSlice` | src/kboot/source/fs/ext2.c:347-405 | they are the slice of the concatenated logical blocks of the file if no block number wraps around |
| `Ext2.SuccessIsWithinIff` | src/kboot/source/fs/ext2.c:361-362 | a read that succeeds is one of blocks of the file if and only if no block number wraps around |
| `Ext2.WrappedReadSucceeds` | src/kboot/source/fs/ext2.c:361-362 | 2^32 blocks behind a block that can be read, a read of a block that is not in the file succeeds |
| `Ext2.ReadRestOfFile` | src/kboot/source/fs/ext2.c:379-404 | the transfers from a block boundary on |
| `Ext2.MappedUnique` | src/kboot/source/fs/ext2.c:60-133 | an ordered extent tree maps a block to one raw number only |
| `Ext2.FileByteUnique` | src/kboot/source/fs/ext2.c:347-405 | so every byte of the file is determined by the inode and the disk |
| `Ext2Layout.WordReadsBack` | src/kboot/source/fs/ext2.c:159 | a 32-bit number written low byte first is read back |
| `Ext2Layout.HalfReadsBack` | src/kboot/source/fs/ext2.c:68-70 | so is a 16-bit number |
| `Ext2Layout.NumbersReadBack` | src/kboot/source/fs/ext2.c:149-161 | an indirect block is read as the numbers that were written to it |
| `Ext2Layout.IndirectLookup` | src/kboot/source/fs/ext2.c:135-161 | on a disk given byte by byte, blocks from the thirteenth on are the ones written to the indirect block that the thirteenth number names, and those before are the direct numbers |
| `Ext2Layout.DoubleLookup` | src/kboot/source/fs/ext2.c:171-191 | and those behind are the ones written to the blocks that are written to the block that the fourteenth number names |
| `Ext2Layout.HeaderReadsBack` | src/kboot/source/fs/ext2.h:300-306 | the magic number, the number of entries and the depth of a node are where its header has them |
| `Ext2Layout.LeafReadsBack` | src/kboot/source/fs/ext2.h:284-289 | a leaf is read as the extents that were written to it |
| `Ext2Layout.NodeReadsBack` | src/kboot/source/fs/ext2.h:292-297 | an index node is read as the keys and block numbers that were written to it |
| `Ext2Layout.BrokenReadsBack` | src/kboot/source/fs/ext2.c:68-69 | a node whose first two bytes are not 0A F3 is one without the magic number |
| `Ext2Layout.SortedIsOrdered` | src/kboot/source/fs/ext2.c:60-133 | sorted extents in leaves that their keys divide make a tree that the lookup is proved for |
| `Ext2Layout.TreeReadsBack` | src/kboot/source/fs/ext2.c:60-133 | a tree of extents of any depth is read as it was written |
| `Ext2Layout.ExtentLookup` | src/kboot/source/fs/ext2.c:114-132 | on a disk given byte by byte, a block that an extent covers is where that extent puts it |

## Left out

- dlmalloc: mmap, several segments, FOOTERS, locks, `sys_trim`, `release_unused_segments`, mspaces, realloc, memalign and statistics. What the system adds in `sys_alloc` is the parameter `extra`, contiguous with the segment.
- dlmalloc: a head word is a record of size and two bits, and the heads, feet and links are separate maps by address; that links overlay the payload of a free chunk is not modelled. The checks against corruption never fail in the model, so their error paths are absent.
- KernelHeap.Arena.SysAlloc: how much the system adds, whether it refuses, and the limit on the footprint are one parameter.
- KernelHeap.Arena.FillBlock: writes the one word of a block that overlaps the next chunk's tags; the rest of the payload is not modelled.
- KernelHeap.Arena.Release: takes only null or the address of a live chunk; any other address is an error of the caller in the source too.
- TreeBins.Bins.UnlinkLarge: is told the size of the chunk in a ghost parameter; the source reads nothing but the links and the bin index either.
- Queue: `delete_queue` and `queue_empty`; compare-and-swap is taken to be atomic and memory sequentially consistent, which the ARM fallback does not promise; an address is handed out again only when no call in flight holds it, and a freed node keeps its contents until then.
- Queue: the pushes and pops are programs of a state machine, not methods, because their steps interleave; a null queue pointer and a null result of `malloc` in `queue_push`, which the source does not look at, are not modelled.
- Kconfig: expressions are values. Rewriting through pointers is a new tree with the places addressed by paths, and the global counter of rewrites is a result. A null expression, lists, ranges, `expr_print`, `expr_contains_symbol`, `expr_depends_symbol` and `expr_compare_type` are absent; so is how symbols get their values.
- KconfigDups.EliminateDupsKeepsValue: one way only, because an expression that is m may keep its value or lose it, depending on which rules fire where; for one firing of the rule the condition is exact, in ContradictionUnlessBothMod.
- KconfigCanon.EqualIffSameCanon: only without constant operands, or, in ListsEqualIff, with constants in the outermost lists; with constants further down the comparison depends on the order of operands, as NotTransitive and ReorderingMissed show, and is sound and reflexive.
- KconfigClean.EliminateDupsIsClean: says of contradictions only where neither the list nor the negated operand has a constant operand.
- KconfigCompare.TransCompareIsComparison: only where strings and truth values of the symbols agree, and not against m; TransCompareIsRightIff and TransCompareModIsRightIff say exactly when it holds without that.
- AVL tree: keys are integers in the order of the comparer; `len` is unbounded and starts at 0, which the source forgets to set; the mirror-image pair of rotations is one method with a flag; the address of a new node is a parameter. Iterators, reference counts, deferred deletion and `delete_tree` are absent.
- AvlBalance.DeleteBalancesIff: for deleted nodes of height at most four; above that it depends on the heights at every level of the way down, which differ more and more as the node sinks, and no condition is stated.
- Boot memory: the two linked lists are sequences and a chunk is passed by its place in the list; `phys_memory_protect`, `memory_init`, the tags written by `memory_finalise` and the nodes that ranges occupy on the heap are absent.
- BootHeap.Heap.Krealloc: takes only null or a live block; the bytes copied are counted, not moved, and what an overrun destroys is not modelled: the model stops there.
- BlockDevice.Read: what a driver does with blocks that the disk does not have is not modelled: the status says that it was asked; a disk without a read operation is absent, and reading past the end, an internal error in the source, is a status.
- Ext2.ReadFile: takes at least one byte, as `file_read` guarantees, and an inode whose extent tree is sorted and stored consistently; a triple-indirect block fails as in the source. Directories, inodes on disk and mounting are absent.
- The scheduler, semaphores, timers, the other kernel containers, loaders, consoles and menus are not part of this model: they rest on architecture code, or would add only easy members.
