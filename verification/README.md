# Verified model of the TinyCLR execution engine

A Dafny model of the parts of the .NET Micro Framework runtime (TinyCLR) whose correctness depends on
several loops over the same mutable state agreeing with each other, with proofs of what they promise.
`dafny verify dfyconfig.toml` checks everything.

## What is modelled

**The memory manager.** Memory is one array of cells; a cell holds a block header (type, flags, size) and
one word. A cluster is a range of cells tiled by blocks; its free blocks form a doubly linked list in
address order, threaded through the cells themselves (`HeapCells`, `Partition`, `FreeBlocks`).
`HeapCluster` allocates from either end of a free block, rebuilds the list from the marks, and takes cells
back with coalescing (`Returns`). `Mark` is the walk over a bounded mark stack that drops work when the stack is full,
with the slow rescan that repairs this and the finalizer step; `Collector` puts mark and sweep together.
`Compactor` slides and moves runs of blocks, records relocation regions in a bounded table that is flushed
in the middle of a run, and rewrites every reference by binary search (`Relocator`). The results are stated
on what a program sees: reachability, contents, identity of objects (`HeapGraph`, `CompactedHeap`), on
what the allocator gets: packed clusters (`Packing`), and on whole runs of allocations, writes, collections,
compactions and finalizers (`HeapRuns`), from the heap that `HeapSetup` cuts out of the memory.

A reference may lead to the head of a block or to a cell inside one, as those do that ldflda, ldloca and
ldarga make. The collector marks such a cell and not the block around it. `Survivors` states what this means:
which blocks are kept, when an interior reference is followed, a heap that loses an object in this way, and
the exact condition under which none is lost.

**The AVL tree and the virtual-method caches.** `AvlTree` is the algorithm on trees with its theorems;
`AvlCache` is the same algorithm over nodes linked by index, with the pool of nodes and the MRU list, proved
to follow it. `HashCache` is the other implementation, with circular chains and an MRU ring threaded through
index links (`Rings`). Both caches are proved against one specification, `LruModel`.

**The cooperative scheduler.** `Monitors` has locks, owners, requests and the request counters; a ghost
history of acquisitions and releases gives meaning to recursion counts, and `MonitorRuns` follows whole
runs. `WaitObjects` has the wait objects and the walk over the waiting threads, `SignalWalk` the turns of
that walk with the question when it ends, `Scheduler` the ready queue.

**Smaller parts.** `Unicode` has the UTF-8/UTF-16 converter with its counting functions, `ArmConditions` and
`ArmTransfers` the data processing, condition table and block transfers of the ARM emulator, `Random` the
random generator.

## How it is modelled

- Addresses are cell indices. The two pseudo-nodes that delimit a free list overlay the cluster header in the
  runtime; here they are the cells right before and right after the payload. Byte offsets into a block are
  modelled at the granularity of cells, and address differences as unbounded integers where the runtime
  wraps at 32 bits.
- Block sizes stay below 2^16: this bound is part of every cluster, and coalescing is proved to respect it.
- The capacity of the relocation table (at least one) and the length of the mark stack (at least two, with
  its sentinel) are parameters; every result holds for all of them.
- Whether an allocation from the event cache succeeds is a boolean parameter, and all outcomes are covered.
- The callbacks of the AVL tree (compare, new node, free node, reassign) are methods of the cache table.
- The uncached method lookup, the owner of a method and the CRC are function parameters. One assumption is
  made about the lookup: a method is its own implementation in the class that declares it.
- The roots of a collection are a list of single objects, forced objects and ranges of cells, in the two
  groups before and after the finalizers; the places that hold references into the heap from outside are an
  array of root pointers for the compaction.
- A cell of type String refers to its text, which a compaction may move and a collection does not follow.
- A stack frame is a block whose header takes one cell, with its arguments, local variables and evaluation
  stack in the cells behind it. Blocks with the event flag carry their mark all the time.
- A finalizer is the object that it stands for, in one of the two lists. A cluster takes two cells besides its
  payload, and a cell twelve bytes, when the memory is cut into clusters.
- Time is a parameter of the step that expires requests. Thread lists, lock lists and request queues are
  sequences.
- The flags of the ARM status register are booleans next to its other bits, and bit 31 of a bitwise
  expression is the boolean expression over the sign bits. The table of conditions holds sets of conditions
  instead of bit masks. Memory maps word addresses to words; an access outside of it fails.
- Strings exclude their terminating zero.

Where code and documentation differ, the model follows the code: the round trip of surrogate pairs, the
byte count under a limit, `String.get_Chars` on a surrogate pair, the shortcut of the hash cache for abstract methods, a lock that stays behind
without an owner, a walk over suspended threads that does not end, and an object that is freed while a
reference to its interior is left are stated with the exact condition under which they occur.

## Model

| member | source | states |
|---|---|---|
| Compacting.Compactor.HeapCompact | CLR/Core/GarbageCollector_Compaction.cpp:43-282 | Terminates for every heap and every table capacity of at least one. Afterwards blocks tile the heap and the free lists are exact; there is a map R of addresses under which every block in use is found whole, with every reference in it mapped, and no other block is in use; every root pointer is mapped too. Below the first block in use that is pinned or an event, every cluster has all its cells in use before its free ones; without such a block this holds everywhere. Type by type, without the functions of the model: the header of a block, the fields of objects and value types, the elements of reference arrays, the target of a delegate, the members of a delegate list and all arguments, locals and stack entries of a frame have their reference mapped; every other cell in use is moved as it is; and where a free cell lies before one in use there is a block below that may not move. |
| Compacting.Compactor.CompactRound | CLR/Core/GarbageCollector_Compaction.cpp:86-265 | One round of the inner loop: the source never goes back, and where it stays the free block moves up, unless the round was the last. |
| Compacting.Compactor.CompactRun | CLR/Core/GarbageCollector_Compaction.cpp:127-260 | Either a run is moved and its region recorded, or the free block is given up; a full table is flushed first, and the map recorded so far stays the map of the heap as it now is. |
| Compacting.Compactor.MoveRun | CLR/Core/GarbageCollector_Compaction.cpp:200-253 | Unlinking the free block, copying, giving back its rest and the old cells: the run is at the free block, nothing else in use changed, exactly the right cells are free, and the free block to go on with is on its list. |
| HeapImages.ImageMove | CLR/Core/GarbageCollector_Compaction.cpp:200-238 | Moving one more run composes with the map of all earlier moves, whether or not their references have been rewritten yet. |
| HeapImages.ImagePass | CLR/Core/GarbageCollector_Compaction.cpp:324-382 | A heap whose references follow the first regions follows all regions after a pass with the rest: each reference is mapped once for each batch. |
| HeapImages.CellFound | CLR/Core/CLR_RT_HeapBlock.cpp:1915-1956 | Cell by cell and type by type what has its reference mapped, stated without the functions that the compaction uses. |
| Compacting.AllHolesBehindPins | CLR/Core/GarbageCollector_Compaction.cpp:101-108 | A free cell before one in use in a cluster means that a pinned or event block lies no further up. |
| CompactedHeaps.Places | CLR/Core/GarbageCollector_Compaction.cpp:91-108 | No block in use moves up, and a pinned or event block does not move. |
| CompactedHeaps.EdgeForward | CLR/Core/GarbageCollector_Compaction.cpp:324-382 | Every reference from a block, or from the interior of one, before the compaction is a reference of the moved block or cell after it, mapped; references to the interior of a block included. |
| CompactedHeaps.EdgeBack | CLR/Core/GarbageCollector_Compaction.cpp:324-382 | And no other references come into being. |
| CompactedHeaps.MovedSound | CLR/Core/GarbageCollector_Compaction.cpp:324-382 | After the compaction every reference leads to nothing, to the head of a block in use, or to a value inside one, if that was so before. |
| CompactedHeaps.ReachabilityKept | CLR/Core/GarbageCollector_Compaction.cpp:43-282 | A block or an interior cell is reachable from the mapped roots after the compaction exactly if it was reachable from the roots before. |
| CompactedHeaps.CellsConserved | CLR/Core/GarbageCollector_Compaction.cpp:43-282 | As many cells are free after the compaction as before. |
| CompactedHeaps.PinLeavesHole | CLR/Core/GarbageCollector_Compaction.cpp:101-108 | On every heap with a block at p that may not move, where nothing above it fits into the free cells below: the first cluster gets packed up to p exactly if no cell below p was free, whatever is moved. So the condition of the packing result cannot be dropped. |
| CompactedHeaps.HolesStay | CLR/Core/GarbageCollector_Compaction.cpp:101-108 | Then as many cells below p, in all clusters, are free after a compaction as before. |
| CompactedHeaps.HoledStays | CLR/Core/GarbageCollector_Compaction.cpp:101-108 | A heap of this kind. |
| Packing.NeatMove | CLR/Core/GarbageCollector_Compaction.cpp:151-256 | The invariant behind the packing result, below the first block that may not move: earlier clusters are packed, and nothing in use lies between the free block and the source; a move keeps it, and once the source has passed that block the heap below stays packed. |
| Packing.NeatGiveUp | CLR/Core/GarbageCollector_Compaction.cpp:246-272 | Below the first block that may not move, a free block is given up only at the end of a cluster that is packed. |
| Packing.BelowKept | CLR/Core/GarbageCollector_Compaction.cpp:200-238 | A move from above an address into a free block keeps the heap below that address packed, for it fills the free block from its front and all in front of it is in use. |
| Packing.PackedIff | CLR/Core/GarbageCollector_Compaction.cpp:43-282 | A cluster is packed exactly if its free list holds nothing but at most one block that ends with the cluster. |
| Relocating.Relocator.RelocatePointer | CLR/Core/GarbageCollector_Compaction.cpp:397-438 | The range filter and the binary search give what the map of the whole table gives. |
| Relocating.Relocator.Bracket | CLR/Core/GarbageCollector_Compaction.cpp:324-340 | The range covers all regions of the table, so the filter loses nothing. |
| Relocating.Relocator.RelocateBlock | CLR/Core/GarbageCollector_Compaction.cpp:386-395 | The reference in a block header and those behind it are mapped once; no other cell changes. |
| Relocating.Relocator.RelocatePass | CLR/Core/GarbageCollector_Compaction.cpp:359-382 | Every block of every cluster is passed exactly once; cells outside blocks and data in them do not change. |
| Relocating.Relocator.Relocate | CLR/Core/GarbageCollector_Compaction.cpp:324-357 | The pass and the roots use the same table, and the table is empty afterwards. |
| HeapImages.RegionAppended | CLR/Core/GarbageCollector_Compaction.cpp:146-244 | Recording one more move above all earlier ones keeps the table sorted and its regions disjoint, which the binary search relies on. |
| Relocation.MapCases | CLR/Core/GarbageCollector_Compaction.cpp:397-438 | The map is given by the one region that holds the address, or is the identity. |
| Relocation.MapSplit | CLR/Core/GarbageCollector_Compaction.cpp:324-357 | Mapping by the first regions and then by the rest is mapping by all of them: an address that was moved is never moved again by a later batch. |
| Marking.Marker.ComputeReachabilityGraphForMultipleBlocks | CLR/Core/GarbageCollector_ComputeReachabilityGraph.cpp:38-292 | The walk over the bounded mark stack terminates, for references to the heads of blocks and to their interior; it marks only what is reachable from where it started, never unmarks, and leaves a marked block incomplete only if it reports that it ran out of space, in which case it has newly marked at least one block. What an interior cell that it marked refers to is marked in any case. |
| Marking.Marker.MarkSlow | CLR/Core/GarbageCollector.cpp:265-294 | Rescanning the heap terminates and leaves the overflow flag clear and every marked block complete. |
| Marking.Marker.MarkSlowPass | CLR/Core/GarbageCollector.cpp:265-294 | A pass that ends with the flag set has strictly fewer unmarked blocks left. |
| Marking.Marker.Mark | CLR/Core/GarbageCollector.cpp:297-434 | With any mark stack that has room for one element beside its sentinel, exactly the events and the blocks reachable from the roots and from the pending finalizers are marked, and of the interior cells without an old mark exactly the reachable ones; the finalizers moved behind the old pending ones are those of objects that were not reached, the objects of all others are marked, and no finalizer is lost. Kind by kind: what is marked has all its fields, its elements, the target of a delegate or the members of a strong list marked, and what they and its header refer to; so have the roots and the objects of all finalizers. |
| Marking.Marker.PrepareFinalizers | CLR/Core/GarbageCollector.cpp:404-434 | Each finalizer whose object is unmarked moves to the pending list and its object is marked with all it refers to; what is left on the alive list is marked. |
| MarkPhase.ExactlyReachable | CLR/Core/GarbageCollector.cpp:297-434 | When the flag is clear and the roots are marked, the blocks and interior cells that have become marked are exactly the reachable ones. An interior reference makes its target cell reachable, not the block around it, and what that cell refers to only if the cell carries no mark from an earlier collection. |
| HeapGraph.ValuesByKind | CLR/Core/GarbageCollector_ComputeReachabilityGraph.cpp:170-286 | Which cells are values of a block, and what a cell refers to, kind by kind. |
| Marking.HoldersComplete | CLR/Core/GarbageCollector_ComputeReachabilityGraph.cpp:170-286 | After marking, what is marked has what it holds marked, kind by kind. |
| Marking.RootsMarked | CLR/Core/GarbageCollector.cpp:297-434 | So have the roots: single and forced objects, and ranges of cells with what they refer to. |
| Marking.Held | CLR/Core/GarbageCollector_ComputeReachabilityGraph.cpp:170-286 | And conversely: what has become marked is a root, or something that has become marked holds it, kind by kind; a weak list does not. |
| MarkPhase.SingleStarts | CLR/Core/GarbageCollector_ComputeReachabilityGraph.cpp:28-36 | A single root, be it a block or an interior cell, is a valid start for the walk unless it carries a mark already. |
| MarkPhase.PassVisit | CLR/Core/GarbageCollector.cpp:265-294 | One step of the rescan: what is not complete has not been visited yet, unless the flag is set and progress was made. |
| MarkSteps.WalkDone | CLR/Core/GarbageCollector_ComputeReachabilityGraph.cpp:38-292 | What the loop invariant gives when the stack is empty. |
| Survivors.HeldByHead | CLR/Core/GarbageCollector_ComputeReachabilityGraph.cpp:170-286 | A block that a collection keeps is an event, a root, or what some cell refers to by its head. |
| Survivors.KeptByKind | CLR/Core/GarbageCollector.cpp:133-166 | What a collection keeps, block by block and kind by kind. |
| Survivors.SoundAgainIff | CLR/Core/CLR_RT_HeapCluster.cpp:141-207 | After a collection all references are sound again, each leading to nothing, to a block in use or into one, exactly if nothing that stays refers to what does not; the values of the blocks that stay are where they were. |
| Survivors.InteriorSafeIff | CLR/Core/GarbageCollector_ComputeReachabilityGraph.cpp:173-286 | With all cells of stack frames and other event blocks among the roots, a collection leaves no reference dangling exactly if every interior cell that is reached lies in a block that stays for another reason. |
| Survivors.BlockLost | CLR/Core/Interpreter.cpp:2296 | A heap that loses an object which only a reference to one of its fields, such as ldflda makes, leads into: with the local variable that holds the reference as the only root the object is freed. The object that the field refers to is kept, and once the field carries an old mark it is lost as well. |
| Survivors.FieldsDeadEnd | CLR/Core/CLR_RT_HeapCluster.cpp:193-197 | The sweep clears marks on block heads only, so after a collection each field of a block that was kept for being reached carries a mark, and an interior reference to it is not followed in the next one. |
| HeapClusters.HeapCluster.RecoverFromGC | CLR/Core/CLR_RT_HeapCluster.cpp:141-207 | The free list is rebuilt: a cell is free afterwards exactly if it was in an unmarked block, free blocks are the maximal runs in address order, marked blocks lose their mark and nothing else, and no cell of another cluster changes. Block by block: a marked one is there cell by cell, with the mark cleared unless it is an event, each cell of the others is in a free block, and behind a free block comes one in use or the end. |
| Sweeping.SweepDead | CLR/Core/CLR_RT_HeapCluster.cpp:141-207 | One run of unmarked blocks becomes one free block at the end of the list built so far. |
| Sweeping.SweepResult | CLR/Core/CLR_RT_HeapCluster.cpp:141-207 | What the walk has established when it reaches the end of the cluster. |
| Sweeping.ReclaimedByBlock | CLR/Core/CLR_RT_HeapCluster.cpp:141-207 | What reclaiming a cluster does to each of its blocks, marked or not. |
| FreeBlocks.FreeBlocksUnique | CLR/Core/CLR_RT_HeapCluster.cpp:250-288 | Two free lists over the same free cells consist of the same blocks: the list is determined by the free cells. |
| Collecting.Collector.ExecuteGarbageCollection | CLR/Core/GarbageCollector.cpp:133-166 | A whole collection, with interior references: afterwards a cell is free exactly if its block is neither an event nor reached by its head, every other block is there with its contents unchanged, the free lists are exact, which marks are left on heads and interior cells is stated, and the references are sound again exactly if nothing that stays refers to what does not. The mark stack is ready again; the finalizers that were due still are, in front, those of objects not reached otherwise have joined them, and the objects of all finalizers are blocks in use: with sound references this is what the next collection asks for. Kind by kind: each block that is in use afterwards has its old place, size and contents, each cell of the others is free, and what a field, an element, a delegate, a strong list, a header or a root refers to by the head is in use. |
| Survivors.FinalizersStay | CLR/Core/GarbageCollector.cpp:404-434 | After a collection every finalizer, due or not, stands for a block in use: the objects that stay alive stay, and those of finalizers that are due are kept one last time. |
| Collecting.Collector.Sweep | CLR/Core/GarbageCollector.cpp:512-562 | All clusters are reclaimed, each one without disturbing the others. |
| Collecting.CellFate | CLR/Core/GarbageCollector.cpp:297-562 | A cell ends up free exactly if its block is neither an event nor reached by its head. |
| Collecting.LiveKept | CLR/Core/GarbageCollector.cpp:297-562 | A reachable block keeps its place, its size and its contents. |
| Collecting.SweptMarks | CLR/Core/CLR_RT_HeapCluster.cpp:141-207 | Which marks a collection leaves: on the heads of event blocks, and on every interior cell that had one or was reached. |
| HeapClusters.HeapCluster.Initialize | CLR/Core/CLR_RT_HeapCluster.cpp:9-43 | Whatever clusters were set up before: the new one is one free block, or nothing if it has no cells, whatever size its blocks were set up with; the other clusters do not change, and the heap with the new cluster behind them is in order. |
| Partitions.PartitionsJoined | CLR/Core/CLR_RT_HeapCluster.cpp:9-43 | Payloads that do not touch: the blocks of both tile both. |
| HeapSetups.ExecutionEngine.AllocateHeaps | CLR/Core/Execution.cpp:207-256 | Any stretch of memory is cut into clusters, all but the last of full size and none without payload; afterwards the whole heap is in order, each cluster is one free block, and no other memory has changed. Fails, and changes nothing, exactly if there is no room for one cluster. |
| HeapClusters.HeapCluster.ExtractBlocks | CLR/Core/CLR_RT_HeapCluster.cpp:45-137 | NULL, and no change, exactly if no free block is long enough; else a block of the length at the front of the first fit, or at the back of the last fit for events, which was free and now is not; all other blocks and free cells stay. Every heap of several clusters that was in order still is. Block by block: the free block chosen is the lowest long enough, or for events the highest, what it has left stays free, every other block stays, and no cell in use changes. |
| HeapClusters.HeapCluster.FirstFit | CLR/Core/CLR_RT_HeapCluster.cpp:67-80 | The free block with the lowest address that is long enough. |
| HeapClusters.HeapCluster.LastFit | CLR/Core/CLR_RT_HeapCluster.cpp:53-66 | The free block with the highest address that is long enough. |
| HeapClusters.HeapCluster.InsertInOrder | CLR/Core/CLR_RT_HeapCluster.cpp:209-244 | A run of whole blocks becomes free: afterwards the blocks, with the run and the free neighbours that touch it joined into one, tile the cluster, the free list is exact, in order, and without neighbours that touch, and no other cluster changes. Block by block: the free block that arises starts at the run or at the free block that ends there, ends with the run or with the free block that starts there, and all other blocks and all cells in use stay. |
| Returning.ReturnedCluster | CLR/Core/CLR_RT_HeapCluster.cpp:209-244 | Why the tiling is right again: the joined block starts at a block and ends at one, and no other block has changed. |
| Sweeping.ClusterChanged | CLR/Core/CLR_RT_HeapCluster.cpp:45-244 | An operation that keeps one cluster in order and leaves the others alone keeps a heap of several clusters in order. |
| HeapCells.Unlink | CLR/Include/TinyCLR_Runtime__HeapBlock.h:1447-1459 | Taking a node out keeps the list doubly linked and in address order. |
| HeapCells.InsertBeforeNode | CLR/Include/TinyCLR_Runtime__HeapBlock.h:1511-1535 | Linking a node in before its successor keeps the list doubly linked and in address order. |
| Extraction.FrontCarved | CLR/Core/CLR_RT_HeapCluster.cpp:82-122 | Free cells after the front of a block was taken. |
| Extraction.BackCarved | CLR/Core/CLR_RT_HeapCluster.cpp:82-122 | Free cells after the back of a block was taken. |
| Extraction.ExtractedByBlock | CLR/Core/CLR_RT_HeapCluster.cpp:45-137 | What an allocation does to each block: the one chosen, what it has left, the other free ones, and those in use. |
| Returning.ReturnedByBlock | CLR/Core/CLR_RT_HeapCluster.cpp:209-244 | What giving cells back does to each block: the neighbours that touch, the other free ones, and those in use. |
| Partitions.MergeKeepsPartition | CLR/Core/CLR_RT_HeapCluster.cpp:141-207 | Joining neighbouring blocks keeps the tiling. |
| Partitions.SplitKeepsPartition | CLR/Core/CLR_RT_HeapCluster.cpp:45-137 | Splitting a block keeps the tiling. |
| Partitions.TilingIsPartition | CLR/Core/CLR_RT_HeapCluster.cpp:250-288 | Blocks of positive length that cover the payload without overlap are a partition in the sense used here. |
| HeapRuns.AllocateSound | CLR/Core/CLR_RT_HeapCluster.cpp:45-137 | Allocating a block that refers to nothing yet, or a stack frame, keeps the tiling, the free lists, the references, the marks and the finalizers sound. |
| HeapRuns.WriteSound | CLR/Include/TinyCLR_Runtime__HeapBlock.h:1178-1202 | So does a write of a plain value or a reference to a field, an element or a stack cell, whatever mark comes with it. |
| HeapRuns.CollectSoundIff | CLR/Core/GarbageCollector.cpp:133-166 | A collection, which also sorts the finalizers, does exactly if it leaves nothing dangling. |
| HeapRuns.CompactSound | CLR/Core/GarbageCollector_Compaction.cpp:43-282 | A compaction, which also maps the objects of the finalizers, always does. |
| HeapRuns.RunSoundIff | CLR/Core/GarbageCollector.cpp:133-166 | Over any run of allocations, writes, collections, compactions, registrations, suppressions and starts of finalizers, in any order, the heap stays sound exactly if every collection in it leaves nothing dangling. |
| HeapRuns.RunFromStart | CLR/Core/Execution.cpp:207-256 | The same for every run from a heap that AllocateHeaps has just set up. |
| HeapRuns.RunBalance | CLR/Core/CLR_RT_HeapBlock_Finalizer.cpp:9-78 | Over any run no finalizer is lost and none is there twice: they come only by registration, and go only by being started or suppressed; collections and compactions keep their number. |
| AvlTrees.InsertIsSorted | CLR/Core/AVLTree.cpp:533-569 | Insertion into the tree is insertion into the sorted list of its items. |
| AvlTrees.InsertSortedKeys | CLR/Core/AVLTree.cpp:533-569 | That adds exactly the new item, or nothing if the key is there. |
| AvlTrees.InsertBalances | CLR/Core/AVLTree.cpp:130-245 | Insertion keeps every skew flag equal to the height difference, and returns RES_BALANCE exactly if the tree became one higher; a duplicate or an error changes nothing. |
| AvlTrees.InsertResult | CLR/Core/AVLTree.cpp:533-569 | RES_DUPLICATE exactly if the key is there, RES_ERROR exactly if it is not and there is no node. |
| AvlTrees.InsertNodes | CLR/Core/AVLTree.cpp:533-569 | The nodes in use are the old ones and the new one, if it was used. |
| AvlTrees.RemoveIsWithout | CLR/Core/AVLTree.cpp:598-645 | Removal takes out the item of the key and nothing else; RES_NOTFOUND exactly if there is none. |
| AvlTrees.WithoutKeyKeys | CLR/Core/AVLTree.cpp:598-645 | The reference for removal keeps the list sorted and drops exactly one key. |
| AvlTrees.RemoveBalances | CLR/Core/AVLTree.cpp:266-405 | Removal keeps every skew flag equal to the height difference, and returns RES_BALANCE exactly if the tree became one lower. |
| AvlTrees.RemoveNodes | CLR/Core/AVLTree.cpp:598-645 | Exactly one node is freed, which may be another one than the node of the key. |
| AvlTrees.LeftGrownBalances | CLR/Core/AVLTree.cpp:130-190 | After the left side became one higher: balanced again, with the height reported. |
| AvlTrees.LeftShrunkBalances | CLR/Core/AVLTree.cpp:266-338 | After the left side became one lower: balanced again, with the height reported. |
| AvlTrees.HeightIsLogarithmic | CLR/Core/AVLTree.cpp:533-645 | Two to half the height is at most the number of nodes plus one. |
| AvlTrees.CompareIsOrder | CLR/Include/TinyCLR_Runtime.h:2614-2624 | The key comparison is a total order. |
| AvlCaches.VirtualMethodTable.InsertAt | CLR/Core/AVLTree.cpp:533-569 | The recursive method over nodes linked by index does what the function on trees does, touches no node outside the tree and the spare one, and uses the pool accordingly. |
| AvlCaches.VirtualMethodTable.RemoveAt | CLR/Core/AVLTree.cpp:598-645 | The same for removal; the payload of the freed node has moved to the node of the key. |
| AvlCaches.VirtualMethodTable.FindHighest | CLR/Core/AVLTree.cpp:428-461 | Takes the highest item out of a subtree and hands its node over. |
| AvlCaches.VirtualMethodTable.Find | CLR/Core/AVLTree.cpp:28-50 | Finds the node of a key, or none if there is none. |
| AvlCaches.RemoveKeepsOrder | CLR/Core/Cache.cpp:53-176 | Although removal may free another node, the remembered order after it is the old one without the entry of the key, and no node is lost. |
| AvlCaches.VirtualMethodTable.FindVirtualMethod | CLR/Core/Cache.cpp:53-135 | The answer is that of the uncached lookup; the remembered entries make one step of a cache that forgets the least recently used, unless the shortcut for methods that the class declares and that are not abstract answers. If the table held the most recently asked keys before, it does afterwards. Written out: a hit moves the entry to the front, a miss puts the new one there and drops the last when the cache is full, and a shortcut or a failure changes nothing. |
| AvlCaches.VirtualMethodTable.Evict | CLR/Core/Cache.cpp:100-113 | The entry that is forgotten is the last in most-recently-used order. |
| AvlCaches.VirtualMethodTable.Admit | CLR/Core/Cache.cpp:123-124 | The new entry is the first, behind it all others in order. |
| LruModel.LruStepKeeps | CLR/Core/Cache.cpp:53-135 | A step keeps all answers right and keys unique, and does not exceed the capacity. |
| LruModel.CallRecency | CLR/Core/Cache.cpp:53-135 | A call keeps the cache holding exactly the most recently asked keys, where lookups that fail and lookups that a shortcut answers do not count. |
| LruModel.RunIsRecency | CLR/Core/Cache.cpp:53-135 | Over any run of calls from the empty cache, failing ones and shortcuts included, the remembered keys are exactly the most recently asked ones, as many as fit, in order; answers are right and keys unique. |
| LruModel.RecencyIs | CLR/Core/Cache.cpp:53-135 | What most recently asked means: of two remembered keys the one in front was asked for after the other one for the last time, and every key that was asked for is there. |
| LruModel.CallWrittenOut | CLR/Core/Cache.cpp:53-135 | What one call does to the remembered entries, case by case. |
| HashCaches.VirtualMethodTable.FindVirtualMethod | CLR/Core/Cache.cpp:213-314 | The same specification for the hash variant, whose shortcut also answers for abstract methods; it too keeps holding the most recently asked keys. The step is written out in the same way. |
| HashCaches.VirtualMethodTable.Walk | CLR/Core/Cache.cpp:282-308 | The walk along a chain terminates and finds the entry of the key exactly if there is one. |
| HashCaches.VirtualMethodTable.Remember | CLR/Core/Cache.cpp:295-305 | The last entry in the MRU ring, used or not, and in whatever bucket, becomes the new one, in the bucket of its key. |
| HashCaches.VirtualMethodTable.MoveToTop | CLR/Core/Cache.cpp:310-311 | Both rings stay rings; the chains stay disjoint, one for each bucket. |
| HashCaches.VirtualMethodTable.constructor | CLR/Core/Cache.cpp:180-211 | The initial links: empty chains and an MRU ring over all entries. |
| HashCaches.ChainsMoved | CLR/Core/Cache.cpp:316-347 | After an entry moved, from its chain or from none, to the top of a bucket, all chains are disjoint rings again. |
| HashCaches.AllVisited | CLR/Core/Cache.cpp:180-211 | The MRU ring visits every entry. |
| Rings.MoveEntryToTop | CLR/Core/Cache.cpp:316-347 | The entry is taken out of the ring it is in and linked in right behind the head; all other links stay. |
| Monitors.ExecutionEngine.LockObject | CLR/Core/Execution.cpp:2658-2673 | Entering a lock, with every outcome of the three allocations: the caller owns one level more, or waits at the end of the queue, or nothing changed for it; all invariants hold afterwards. Each case is written out with the owners and requests it leaves. |
| Monitors.ExecutionEngine.UnlockObject | CLR/Core/Execution.cpp:2675-2689 | Leaving a lock: an error and no change for a subthread that does not hold it; else one level less, and the last level hands the lock to the first in the queue or destroys it. Each case is written out with the owners and requests it leaves. |
| Monitors.ExecutionEngine.ChangeOwner | CLR/Core/CLR_RT_HeapBlock_Lock.cpp:68-132 | The first request that is waiting becomes the only owner, the lock moves to the list of its thread, and the request leaves the queue and the counters. |
| Monitors.InOneList | CLR/Core/CLR_RT_HeapBlock_Lock.cpp:84-86 | Each lock is linked in the list m_locks of the thread that owns it, once, and in that of no other thread; all operations keep this. |
| Monitors.ExecutionEngine.IncrementOwnership | CLR/Core/CLR_RT_HeapBlock_Lock.cpp:134-171 | One level more for the subthread; a request if the lock belongs to another thread. Each case is written out. |
| Monitors.ExecutionEngine.DestroyOwner | CLR/Core/CLR_RT_HeapBlock_Lock.cpp:50-66 | A subthread that ends gives the lock up, whatever its recursion. |
| Monitors.ExecutionEngine.CreateRequest | CLR/Core/CLR_RT_HeapBlock_LockRequest.cpp:9-27 | The request goes to the end of the queue and is counted. |
| Monitors.ExecutionEngine.DeleteLockRequests | CLR/Core/Execution.cpp:2351-2385 | All requests of the subthread are gone and no others, although the walk stops as soon as its thread has none left. In each queue a request is left as often as before if it is of another subthread, and else not at all, and what is left is in the old order. |
| Monitors.ExecutionEngine.ExpireRequests | CLR/Core/Execution.cpp:2597-2615 | Exactly the requests whose time is over are dropped; the rest stay in order. A request is left as often as before if its time is above now, and else not at all. |
| Monitors.ExecutionEngine.ChangeLockRequestCount | CLR/Core/Thread.cpp:78-98 | After a request has come to the queues or left them, the counters of all subthreads and threads agree with the queues again; the thread runs again exactly if none of its subthreads has a request left, and no other thread is stopped or restarted. |
| Monitors.MutualExclusion | CLR/Core/CLR_RT_HeapBlock_Lock.cpp:134-171 | Two subthreads that hold the same lock belong to the same thread. |
| Monitors.LockStepHeld | CLR/Core/Execution.cpp:2658-2673 | How often a subthread holds a lock is, over any run, how often it acquired it less how often it left it: entering keeps this. |
| Monitors.UnlockStepHeld | CLR/Core/Execution.cpp:2675-2689 | Leaving and handing over keep it too. |
| Monitors.OwnedAfterLock | CLR/Core/Execution.cpp:2658-2673 | Every lock has an owner after LockObject exactly unless the lock was new, could be allocated, and its owner entry could not. |
| Monitors.OrphanMade | CLR/Core/Execution.cpp:2658-2673 | Such a lock: with nothing there, the first LockObject whose owner entry cannot be allocated leaves a lock without an owner. |
| Monitors.OwnedAfterHandOver | CLR/Core/CLR_RT_HeapBlock_Lock.cpp:68-132 | And after a hand-over exactly if nobody waited or the owner entry could be allocated. |
| MonitorRuns.OrphanRecoversIff | CLR/Core/CLR_RT_HeapBlock_Lock.cpp:50-66 | A lock without an owner gets one, or goes, exactly if a subthread of the thread it is listed with enters it and the owner entry can be allocated, or a subthread of that thread ends and either nobody waits or the owner entry can be allocated. Nobody who leaves, and no other thread that enters, brings it back. |
| MonitorRuns.RunLedger | CLR/Core/Execution.cpp:2658-2689 | Over any run of entering, leaving, expiring, giving up and ending: a subthread holds a lock as often as it acquired it less how often it left it, and all holders of a lock belong to one thread. |
| MonitorRuns.RunLocksOk | CLR/Core/CLR_RT_HeapBlock_Lock.cpp:134-171 | Over any run, the owners of each lock belong to the thread of the lock, each with a recursion of at least one and no subthread twice, and no resource has two locks. |
| MonitorRuns.GrantIsFirst | CLR/Core/CLR_RT_HeapBlock_Lock.cpp:68-107 | Whoever a lock is passed on to was first in its queue. |
| MonitorRuns.RunInOrder | CLR/Core/CLR_RT_HeapBlock_Lock.cpp:68-107 | Over any run, the requests for a resource that are granted are granted in the order in which they arrived, although others are dropped in between and the lock may go and come back. |
| WaitObjects.ExecutionEngine.SignalObject | CLR/Core/CLR_RT_HeapBlock_WaitForObject.cpp:125-143 | Called in exactly those states in which its walk ends, the loop over the waiting threads, suspended ones included, takes the turns of the specification. Afterwards no thread with the status Waiting waits for what has happened; only satisfied threads become ready, the first one in the list does; an auto-reset object frees at most one thread; of the signals only auto-reset ones are gone that a thread which is ready now waited for; the other threads stay in order. |
| WaitObjects.ExecutionEngine.TryObjects | CLR/Core/CLR_RT_HeapBlock_WaitForObject.cpp:59-123 | Succeeds exactly if the wait is satisfied; a failed wait for all resets nothing, a successful one resets all its auto-reset objects, a wait for any resets the first signalled one and reports its index. Written out: a wait for any ends with the first index whose object was signalled, every other signal stays, and that one stays exactly if it is not auto-reset; a wait for all takes exactly the auto-reset objects of its list. |
| WaitObjects.ExecutionEngine.TryWaitForSignal | CLR/Core/CLR_RT_HeapBlock_WaitForObject.cpp:45-57 | One turn of the walk: a thread whose wait is satisfied takes its signals and becomes ready; if it is suspended it goes to the back of the waiting list and keeps its wait. What happens to the signals and the result of the wait is written out. |
| WaitObjects.ExecutionEngine.WaitForSignal | CLR/Core/CLR_RT_HeapBlock_WaitForObject.cpp:145-174 | Goes on at once exactly if the wait is satisfied; too many objects are an error; else the running thread leaves the ready list and joins the waiting ones, and what holds of the lists between operations still does. What happens to the signals and the result of the wait is written out. |
| WaitObjects.ExecutionEngine.TimeOut | CLR/Core/Execution.cpp:2580-2594 | A deadline ends one wait and touches no signal; a suspended thread keeps its wait all the same. |
| WaitObjects.ExecutionEngine.Suspend | CLR/Core/Thread.cpp:317-330 | Suspending a thread takes it off the ready list and puts it at the back of the waiting list; what holds of the lists still does. |
| WaitObjects.ExecutionEngine.Resume | CLR/Core/Thread.cpp:332-345 | Resuming moves a thread that has become ready to the ready list, and one that still waits to the back of the waiting list. |
| SignalWalks.SignalEndsIff | CLR/Core/Execution.cpp:1366-1392 | When the walk of SignalObject ends: always for an auto-reset object, and for a manual-reset one exactly if at most one suspended thread in the list, whatever others there are, can go on by manual-reset signals alone. |
| SignalWalks.WalkEndsIff | CLR/Core/CLR_RT_HeapBlock_WaitForObject.cpp:125-143 | In any state of the waiting threads, the walk ends exactly if there is at most one such thread or somebody takes the signal of the object. |
| SignalWalks.TwoSuspended | CLR/Core/Execution.cpp:1371-1382 | Two suspended threads that wait for one manual-reset object: the walk never ends. |
| SignalWalks.TakesAll | CLR/Core/CLR_RT_HeapBlock_WaitForObject.cpp:125-143 | If the first thread that can go on takes the signal and is suspended, nothing else happens: it keeps the signal from all others, although it does not go on either. |
| SignalWalks.SignalAstray | CLR/Core/CLR_RT_HeapBlock_WaitForObject.cpp:125-143 | So a suspended thread ahead of another one takes the signal of an auto-reset object, and takes it again when it is signalled again, for it still has its wait; the other thread is not freed. |
| SignalWalks.WalkOver | CLR/Core/CLR_RT_HeapBlock_WaitForObject.cpp:125-143 | When the walk is over no thread that could go on has been passed over, the first one that could has become ready, and at most one suspended thread can go on by manual-reset signals alone, as before. |
| Schedulers.BoundedBypass | CLR/Core/Execution.cpp:1193-1252 | A ready thread runs after at most as many rounds as the other threads can run before their counters fall below its own. |
| Schedulers.StepKeepsSorted | CLR/Core/Execution.cpp:1193-1252 | Each round hands on a queue in order of the execution counters. |
| Schedulers.InsertPlace | CLR/Core/Execution.cpp:1420-1453 | A thread is inserted behind all with at least its counter: equal counters run first come, first served. |
| Schedulers.InsertKeepsSorted | CLR/Core/Execution.cpp:1420-1453 | Insertion keeps the order and the other threads. |
| Schedulers.Scheduler.InsertThreadRoundRobin | CLR/Core/Execution.cpp:1420-1453 | The loop over the list does the insertion of the specification. All threads in front of the place have at least the counter of the thread, the next one has less, and the others are in order. |
| Schedulers.Scheduler.RunFirst | CLR/Core/Execution.cpp:1193-1295 | Bringing the counter up to date, charging the quantum, lowering the global counter and inserting make one step. Written out: priority 5 pays 1 and each lower one twice as much, the counter before it is the old one capped at 33 above the global counter, and the global counter is the least that a charged thread has had. |
| Schedulers.ChargedRuns | CLR/Core/Thread.cpp:111-123 | A run costs a thread at least one of the runs that it may have before another. |
| Schedulers.DebitTable | CLR/Include/TinyCLR_Runtime.h:2536-2543 | The charge of each priority, and the cap on the counter. |
| Schedulers.Share | CLR/Core/Execution.cpp:1193-1252 | Over any number of rounds with all threads always ready and their counters close together, what two threads have paid differs by at most twice that distance. |
| Schedulers.ShareOfNext | CLR/Include/TinyCLR_Runtime.h:2536-2543 | So a thread runs twice as often as one of the next lower priority, up to that bound. |
| Unicode.CountFailsIff | CLR/Core/CLR_RT_UnicodeHelper.cpp:75-119 | CountNumberOfBytes fails exactly on strings with a surrogate that is not part of a pair. |
| Unicode.CountedExactly | CLR/Core/CLR_RT_UnicodeHelper.cpp:75-119 | Else it is exactly what ConvertToUTF8 writes. |
| Unicode.LimitedCount | CLR/Core/CLR_RT_UnicodeHelper.cpp:75-119 | With a limit it never counts more than the conversion writes, and counts exactly that if and only if the string has no more characters than the limit or no pair among the first units. |
| Unicode.PairNotCharged | CLR/Core/CLR_RT_UnicodeHelper.cpp:362-380 | A string and a limit for which fewer bytes are counted than written. |
| Unicode.CharactersCounted | CLR/Core/CLR_RT_UnicodeHelper.cpp:17-73 | CountNumberOfCharacters fails exactly on bytes without proper structure; for bytes that can be decoded it is the number of units. |
| Unicode.CountedUpTo | CLR/Core/CLR_RT_UnicodeHelper.cpp:17-73 | With a limit, what is counted are the units of the first characters, and the count fails exactly if they are not complete; without one, the same of all characters. |
| Unicode.EncodedForm | CLR/Core/CLR_RT_UnicodeHelper.cpp:315-416 | What the bytes of a character spell, and how the code point decides how many there are. |
| Unicode.DecodedForm | CLR/Core/CLR_RT_UnicodeHelper.cpp:123-313 | What a character of up to three bytes decodes to, and exactly which first bytes are refused. |
| Unicode.DecodedPair | CLR/Core/CLR_RT_UnicodeHelper.cpp:268-275 | A character of four bytes becomes two units, with the base of supplementary planes still in the first. |
| Unicode.RoundTripIff | CLR/Core/CLR_RT_UnicodeHelper.cpp:123-416 | Decoding what was encoded gives the string back exactly if it has no surrogate pairs. |
| Unicode.PairNotRestored | CLR/Core/CLR_RT_UnicodeHelper.cpp:268-275 | A surrogate pair that comes back as another one. |
| Unicode.DecodeEncode | CLR/Core/CLR_RT_UnicodeHelper.cpp:123-416 | And for any well-formed string it gives a known result: in each pair the first unit comes back with the base of supplementary planes still in it. |
| Unicode.CountedConverts | CLR/Core/CLR_RT_UnicodeHelper.cpp:123-313 | For all bytes with proper structure, converting the counted number of units succeeds exactly if no first byte is one that the conversion refuses, and then converts everything. |
| Unicode.DefaultBudget | CLR/Core/CLR_RT_UnicodeHelper.cpp:123-137 | So it does with the default budget of three bytes for each unit. |
| Unicode.OverlongCounted | CLR/Core/CLR_RT_UnicodeHelper.cpp:177-179 | An overlong form is counted as one unit, but not converted. |
| Unicode.ConvertFromSplits | CLR/Core/CLR_RT_UnicodeHelper.cpp:123-313 | Whether a call succeeds or not, what it has written followed by what the input left decodes to is the whole string: the input pointer is where the next call goes on. |
| Unicode.FourByteUnit | CLR/Core/CLR_RT_UnicodeHelper.cpp:133-137 | A character of four bytes is not converted at all with a limit of one unit and the default budget. |
| Unicode.UnitAtIff | CLR/Libraries/CorLib/corlib_native_System_String.cpp:57-62 | String.get_Chars on any string that can be decoded: moving over index units and converting one reads the unit at the index exactly if the character that the unit belongs to takes at most three bytes, wherever other characters of four bytes are. Otherwise nothing is read, or for the second unit of a pair the unit behind the pair. |
| Unicode.MovedOver | CLR/Core/CLR_RT_UnicodeHelper.cpp:123-313 | Where the move stops: at the unit if a character starts there, and else behind the pair or, when three bytes of the budget are left, before it. |
| Unicode.UnitBehindPair | CLR/Libraries/CorLib/corlib_native_System_String.cpp:57-62 | A string and an index for which the unit behind the pair is read. |
| Unicode.ConvertToIff | CLR/Core/CLR_RT_UnicodeHelper.cpp:315-416 | ConvertToUTF8 succeeds exactly if there is room for all bytes and the terminator, and then writes all of them; else a prefix. |
| Unicode.ConvertToGoesOn | CLR/Core/CLR_RT_UnicodeHelper.cpp:315-416 | A call that ends before the string does leaves the input where the next call goes on. |
| Unicode.UnicodeHelper.ConvertToUTF8 | CLR/Core/CLR_RT_UnicodeHelper.cpp:315-416 | For every string in which a high surrogate is not the last unit, well-formed or not: the result, the bytes in the buffer, the position of the input pointer, which a successful call leaves behind the terminating zero if it gets there, and the zero behind the bytes are those of the recursive conversion; when only moving, the buffer does not change. |
| Unicode.UnicodeHelper.ConvertFromUTF8 | CLR/Core/CLR_RT_UnicodeHelper.cpp:123-313 | For all bytes that do not announce a character beyond the end, and for bytes that it refuses: the result, the units in the buffer, the position of the input pointer and the zero behind the units are those of the recursive conversion; when only moving, the buffer does not change. |
| Unicode.UnicodeHelper.CountNumberOfBytes | CLR/Core/CLR_RT_UnicodeHelper.cpp:75-119 | The loop computes the recursive count. |
| Unicode.UnicodeHelper.CountNumberOfCharacters | CLR/Core/CLR_RT_UnicodeHelper.cpp:17-73 | The loop computes the recursive count. With a limit it counts one unit for each first byte among the first characters and one more for those of four bytes, and fails exactly if these characters are not complete. |
| ArmConditions.CompareMeaning | CLR/Core/Jitter_ARM.cpp:764-846 | After CMP, for all words, EQ NE CS CC HI LS GE LT GT LE tell how the operands compare, unsigned and in two's complement. |
| ArmConditions.AddPair | CLR/Core/Jitter_ARM.cpp:793-803 | ADDS and ADCS on halves add 64-bit numbers; carry and overflow are those of the 64-bit sum. |
| ArmConditions.SubtractPair | CLR/Core/Jitter_ARM.cpp:773-791 | SUBS and SBCS on halves subtract 64-bit numbers; CS and GE compare them. |
| ArmConditions.LogicalMeaning | CLR/Core/Jitter_ARM.cpp:764-811 | AND, BIC, ORR, EOR and MVN work on every bit. |
| ArmConditions.BitIs | CLR/Core/Jitter_ARM.cpp:764-811 | Bit k, as a division and a remainder. |
| ArmConditions.LogicalResult | CLR/Core/Jitter_ARM.cpp:764-846 | All logical operations, comparisons and moves, bit by bit, with the carry of the shifter. |
| ArmConditions.ArithmeticResult | CLR/Core/Jitter_ARM.cpp:764-846 | All arithmetic operations as exact sums and differences, with what carry and overflow tell. |
| ArmConditions.Processor.FillTable | CLR/Core/Jitter_ARM.cpp:80-104 | The table answers every condition for every status register. |
| ArmConditions.Processor.CheckConditions | CLR/Include/TinyCLR_Jitter_ARM.h:266-269 | A lookup gives the meaning of the condition. MI, PL, VS and VC are the flags N and V, and AL always holds. |
| ArmConditions.Processor.DataProcessing | CLR/Core/Jitter_ARM.cpp:758-846 | For all sixteen operations: the exact sum or difference, with or without the carry, modulo 2^32, the result of a logical operation bit by bit, or the operand; carry and overflow tell whether an arithmetic result fits without and with a sign, logical operations pass on the carry of the shifter and keep overflow, N and Z are those of the result; only the destination changes, and nothing does when the operation only compares. |
| ArmTransfers.StoreLoadRoundTrip | CLR/Core/Jitter_ARM.cpp:1037-1122 | For every register list, a store with write-back that succeeds followed by a load in the opposite direction with the opposite indexing succeeds and restores every listed register and the base, whatever happened to the other registers meanwhile. |
| ArmTransfers.LoadedFromSaved | CLR/Core/Jitter_ARM.cpp:1079-1105 | Loading what was stored brings back the listed registers and no others, and sets the program counter exactly if it is listed. |
| ArmTransfers.StoredIsSaved | CLR/Core/Jitter_ARM.cpp:1079-1105 | The words of a store do not overwrite each other, also where addresses wrap around. |
| ArmTransfers.WordsInOrder | CLR/Core/Jitter_ARM.cpp:1037-1078 | The address of the word of each register, in all four modes, and the base that is written back. |
| ArmTransfers.StoreTransferred | CLR/Core/Jitter_ARM.cpp:1079-1122 | A store writes each listed register to its word and changes no other word. |
| ArmTransfers.LoadTransferred | CLR/Core/Jitter_ARM.cpp:1079-1122 | A load reads each listed register from its word and changes no other register. |
| ArmTransfers.Processor.BlockDataTransfer | CLR/Core/Jitter_ARM.cpp:1037-1122 | The loops over the register list do the transfer of the specification. Written out for all four modes: each register in the list takes the next word, the first one at the base or four above it, or the last one at the base or four below it; a store writes these words and no others, a load reads them into these registers and no others, and the base written back is at the other end. Succeeds exactly if all words are there and the status register is not asked for. |
| Randoms.Random.Next | CLR/Core/Random.cpp:23-45 | For every 32-bit state no intermediate value leaves 32 bits, and the unmasked state is multiplied by 16807 modulo 2^31 - 1. The mask turns exactly the bits of 123459876 round, before and after. |
| Randoms.Schrage | CLR/Core/Random.cpp:36-42 | Schrage's form is that multiplication, for negative states too. |
| Randoms.StuckIff | CLR/Core/Random.cpp:18-45 | The sequence reaches zero exactly if the unmasked seed is a multiple of 2^31 - 1. |
| Randoms.LehmerInjective | CLR/Core/Random.cpp:23-45 | States that differ modulo 2^31 - 1 have successors that differ. |
| Randoms.MaskedTwice | CLR/Core/Random.cpp:36-44 | Masking twice gives the state back. |
| Randoms.XorBit | CLR/Core/Random.cpp:36-44 | Exclusive or works on every bit. |
| Randoms.MaskedBits | CLR/Core/Random.cpp:36-44 | The mask turns exactly the bits of 123459876 round, for negative states too. |

## Left out

- The branch that reuses a mark-stack segment reloads the state of the old one (CLR/Core/GarbageCollector_ComputeReachabilityGraph.cpp:98-103), and further segments: one segment and the overflow flag are modelled.
- Weak references and weak delegate lists, extended references, persistence and application domains: the reachability statement is about strong references.
- Compacting.Compactor.HeapCompact: above the first block that may not move the contract states safety and termination, not packing; what such a block costs is stated by `CompactedHeaps.HolesStay` and `CompactedHeaps.PinLeavesHole` for blocks that nothing above fits below.
- `Heap_Relocate_AddBlock`, and the heap validation of debug builds.
- Choosing when to collect or compact (`Heap_ComputeAliveVsDeadRatio`, `ExtractHeapBlocks` over several clusters), and objects that are salvaged from memory when a cluster is set up.
- WaitObjects.ExecutionEngine.SignalObject: the method requires the condition under which its walk ends, for beyond it the loop of the source has no final state; `SignalWalks.SignalEndsIff` proves the condition exact.
- WaitObjects.ExecutionEngine.Suspend: threads that are not started yet or terminated, which no list of the model holds.
- The walk of `CheckThreads` over the waiting threads as a whole; the step that ends one wait is modelled.
- The scheduler while another thread's `Execute` wakes threads, thread priorities changing during a run, and quanta that end early.
- The destruction of a lock object while requests are pending, and thread termination as a whole; the step that gives up one lock is modelled.
- Unicode.UnicodeHelper.ConvertToUTF8: requires a unit behind every high surrogate; otherwise the conversion reads memory behind the string.
- Unicode.UnicodeHelper.ConvertFromUTF8: requires as many bytes as each first byte announces, for the same reason.
- The ARM shifter, multiplication, single transfers, mode changes, status-register moves, coprocessor instructions, the fetch step that advances the program counter, and cycle counts.
- Seeding the random generator from the clock, and the conversions of its numbers to floating point and bytes.
- `CLR_RT_HeapBlock_Queue`, `ArrayList` and `Stack`: they would add easy members.
- The interpreter, boxing, exceptions, type loading, debugger, interop marshalling, the boot loaders, drivers and cryptography.
