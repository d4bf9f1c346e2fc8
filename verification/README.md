# Verified model of the mmap visualization allocator

A Dafny model of the allocator, the event tracker, the sharded arena, the cache-line
analyzer and the request simulator of the memory-mapping visualizer, with proofs of what
they guarantee over every input, every run and every interleaving.

**The allocator.** `FreeListAllocator.dfy` is the class itself: an address-ordered red-black
tree of free blocks with parent links, a `nil_` sentinel and a cached largest size per
subtree, plus eight chained lists of small blocks, all updated in place in a memory of
records. A ghost tree and a zipper (`BlockTree.dfy`) say what the pointers mean
(`TreeMemory.dfy`); `Fixup.dfy`, `Splice.dfy`, `TreeSteps.dfy` and `Navigation.dfy` hold the
facts about each rotation, recolouring, transplant and walk. A record exists while its block
is a node; taking a block out removes the record, so no code can read it again.
`HeapModel.dfy` is a naive
allocator: the heap is the sequence of its blocks in address order, allocation scans it from
the left, freeing looks at the two neighbours. The class refines it call by call
(`Coupling.dfy`), and everything about runs is proved of the naive allocator
(`HeapInvariant.dfy`, `HeapTheorems.dfy`, `RoundTrip.dfy`): `InitInv` and `RunInv` give the
invariant `Inv` in every reachable state, and the theorems follow from it.

**The ring buffer and tracker.** `RingProtocol.dfy` makes each load, slot access and store
one step and lets a load of the other side's index return any value since the last one
observed. `Tracker.dfy` adds the id counter and sampling, and the objects as they behave
when calls do not overlap.

**The arena.** `ShardedArena.dfy` is a state machine: threads attach, allocate under a
shard's lock, write through user pointers, and free in two steps (header read and
invalidated without a lock, then the block freed under the owning shard's lock).
`ArenaBytes.dfy` and `BlockHeader.dfy` model headers and footers byte by byte, `NodeBytes.dfy`
the allocator's own nodes, which lie in the same bytes. A step of the machine may change the
bytes of nodes that start a free block before or after it, and nothing else of the
allocator's; that this spares every live block is proved. `VisualizationArena.dfy` is the
object, over 256 allocator objects: it writes their changed records through to the bytes, and
its validity says that its state is the one its history of steps leads to and that the bytes
hold every node. `ArenaNodes.dfy` proves that no header, footer or client write can damage a
node, and that what an allocator reads back is the record it works on.

**The analyzer and the simulator.** `CacheAnalyzer.dfy` proves the nested accumulation loop
against a byte-by-byte meaning. `ServerSim.dfy` proves that the simulator leaks nothing
under any pattern of allocation failures, given the arena's contract, and `ArenaClient.dfy`
proves that the arena meets that contract.

Results of the form "not what one would expect of the code" are stated exactly:

- Small lists ignore alignments above 16. `RoundTrip.AlignmentMet` says when the request is
  met; `RoundTrip.ListIgnoresAlignment` is a run where it is not.
- `free_blocks_` is not incremented for a front gap. `HeapTheorems.FreeBlockCount` says how
  far off the count is and when it is exact; `RoundTrip.GapMiscounted` is a run where it is not.
- Freeing at once does not always undo an allocation. `RoundTrip.AllocateFreeIdentity` gives
  the condition, in both directions; `RoundTrip.SmallNotMergedBack` is a case where it fails.
- Shards are manageable only for capacities from 256 * 48 bytes to 256 GiB
  (`ShardedArena.ShardsManageable`); `ShardedArena.OnePageTooSmall` is a configured size below.
- The burst pattern with burst size 0 never ends (`ServerSimulation.BurstsFinish`).

Where code and documentation differ the code is followed: `deallocate` needs the
`actual_size` that `allocate` returned, although its comment names the requested size
(src/allocator/free_list.hpp:71); `allocate` never returns `InvalidAlignment`; `actual_size`
contains no 48-byte overhead, although tests/test_free_list.cpp:32 expects it.

What the model takes from its callers, because the code relies on it: base 16-aligned and
positive, size a multiple of 16 between 48 bytes and 1 GiB, alignment at most 16 or a power of
two, `size + 15` below 2^64, and freed blocks given with their actual size. Addresses are
integers; `free_blocks_` wraps at 2^64. Random sizes, the page size, which of the simulator's
allocations fail, and the bytes an allocator leaves behind in nodes it has given up are
arbitrary parameters.

## Model

| member | source | states |
|---|---|---|
| `FreeList.FreeListAllocator.DeleteNode` | src/allocator/free_list.cpp:575-639 | for every valid tree and every node z: the in-order content afterwards is the old content without exactly z, every other node keeps its identity, and red-black rules, parent links, exact `subtree_max` and the untouched sentinel hold again; no record outside the tree changes |
| `FreeList.FreeListAllocator.RbDeleteFixup` | src/allocator/free_list.cpp:641-701 | from a tree one black short at x (possibly nil, found through `x_parent`), the loop terminates in a red-black tree with the same content and exact maxima |
| `FreeList.FreeListAllocator.DeleteStepLeft` | src/allocator/free_list.cpp:645-670 | one round with x a left child keeps the deficit confined to x, keeps the content and strictly lowers the termination measure |
| `FreeList.FreeListAllocator.DeleteStepRight` | src/allocator/free_list.cpp:671-697 | the mirrored round |
| `FreeList.FreeListAllocator.Unlink` | src/allocator/free_list.cpp:580-620 | all three splicing cases yield a hole and subtree whose plugging is the old content without z, one black short exactly when a black node was spliced out, with x and `x_parent` naming the hole |
| `Splice.TransplantAt` | src/allocator/free_list.cpp:562-573 | the writes of a transplant put the child subtree, whole and correctly linked, into the hole the node leaves, with the path above it and the sentinel intact and no record outside the tree changed |
| `FreeList.FreeListAllocator.InsertNode` | src/allocator/free_list.cpp:461-519 | for every valid tree and fresh block: the content afterwards is the old content with exactly that block in address order, all tree rules hold, nothing outside the tree changes, and the descent takes at most 2*log2(n+1) steps |
| `FreeList.FreeListAllocator.InsertionPoint` | src/allocator/free_list.cpp:482-494 | the descent ends at the one leaf position whose address interval contains the new block, within the height bound |
| `FreeList.FreeListAllocator.RbInsertFixup` | src/allocator/free_list.cpp:521-560 | from a tree whose only fault is a red node below a red parent or a red root, the loop terminates in a red-black tree with the same content and exact maxima |
| `FreeList.FreeListAllocator.LeftRotate` | src/allocator/free_list.cpp:409-433 | the pointer writes realise the rotated tree at the same hole, with exact maxima on the whole path and the same content |
| `FreeList.FreeListAllocator.RightRotate` | src/allocator/free_list.cpp:435-459 | the mirrored rotation |
| `TreeMemory.RotateLeftFacts` | src/allocator/free_list.cpp:409-433 | a right rotation undoes a left one; rotating keeps in-order content, keys, largest size and search order |
| `FreeList.FreeListAllocator.UpdateMaxUpwards` | src/allocator/free_list.cpp:741-752 | a path with stale maxima above x becomes exact at every node, and nothing else changes |
| `FreeList.FreeListAllocator.Successor` | src/allocator/free_list.cpp:729-739 | for the i-th node in address order, the (i+1)-th, or nil at the end |
| `FreeList.FreeListAllocator.Predecessor` | src/allocator/free_list.cpp:717-727 | for the i-th node in address order, the (i-1)-th, or nil at the start |
| `FreeList.FreeListAllocator.Minimum` | src/allocator/free_list.cpp:703-708 | the leftmost node of the subtree |
| `FreeList.FreeListAllocator.Maximum` | src/allocator/free_list.cpp:710-715 | the rightmost node of the subtree |
| `FreeList.FreeListAllocator.FindFirstFit` | src/allocator/free_list.cpp:766-802 | the pruned descent returns what a left-to-right scan for the first block of at least n bytes returns, nil included, in at most 2*log2(n+1) iterations |
| `FreeList.FreeListAllocator.LargestFreeBlock` | src/allocator/free_list.cpp:391-395 | the maximum size over the tree blocks, attained, or 0 for an empty tree |
| `BlockTree.HeightBound` | src/allocator/free_list.cpp:485-494 | the red-black rules bound the height by 2*log2(n+1) for n blocks |
| `BlockTree.MaxSizeIsMaximum` | src/allocator/free_list.cpp:754-764 | the augmented maximum is an upper bound of all block sizes and is attained |
| `BlockSeq.InsertRemove` | src/allocator/free_list.cpp:461-639 | removing an inserted block gives the address-ordered content back |
| `FreeList.FreeListAllocator.Grow` | src/allocator/free_list.cpp:353-354 | enlarging a node in place and walking up keeps the tree valid and changes exactly that block's size |
| `FreeList.FreeListAllocator.constructor` | src/allocator/free_list.cpp:90-133 | a fresh allocator implements the heap of one free block spanning the arena |
| `FreeList.FreeListAllocator.Allocate` | src/allocator/free_list.cpp:148-268 | refinement: new state and result are those of the naive allocator, for every size and alignment; every record left new or changed starts a block that is free after the call, every record dropped one that was free before, with its 48 or 8 bytes inside; failure changes no record; the abort branches and the final tree check cannot fail |
| `FreeList.FreeListAllocator.AllocateFromTree` | src/allocator/free_list.cpp:178-267 | the candidate loop over find-first-fit and successors cuts the lowest block into which the aligned request fits, or reports out of memory when none does |
| `FreeList.FreeListAllocator.NextCandidate` | src/allocator/free_list.cpp:261-264 | no block skipped on the way to the next candidate could have served the request |
| `FreeList.FreeListAllocator.CutBlock` | src/allocator/free_list.cpp:191-258 | gap, live block and remainder go where the naive cut puts them, and both counters follow |
| `FreeList.FreeListAllocator.Deallocate` | src/allocator/free_list.cpp:270-381 | refinement: state and result (null, bad pointer and misaligned cases included) are those of the naive deallocation, with the same confinement of changed and dropped records to free blocks; no abort is reachable |
| `FreeList.ShardHoused` | src/allocator/free_list.hpp:103-114 | in every valid state the records are exactly the sentinel, one 48-byte tree node at the start of each tree block and one 8-byte list node at the start of each listed block |
| `Coupling.LiveRecordsFree` | src/allocator/free_list.cpp:148-381 | any change of records at addresses inside live blocks leaves tree and small lists intact |
| `FreeList.FreeListAllocator.FreeLarge` | src/allocator/free_list.cpp:324-377 | insertion followed by the two conditional merges equals merging with the neighbouring free blocks in the block sequence |
| `FreeList.FreeListAllocator.BytesAllocated` | src/allocator/free_list.cpp:383-385 | the total of live block sizes |
| `FreeList.FreeListAllocator.BytesFree` | src/allocator/free_list.cpp:387-389 | the total of tree and list block sizes |
| `HeapInvariant.InitInv` | src/allocator/free_list.cpp:90-133 | the fresh heap satisfies the invariant (exact tiling, sizes, no adjacent tree blocks, lists matching, counters) with nothing used and every list empty |
| `HeapInvariant.AllocateInv` | src/allocator/free_list.cpp:148-268 | every allocation keeps the invariant |
| `HeapInvariant.DeallocateInv` | src/allocator/free_list.cpp:270-381 | every deallocation of a live block, and every rejected one, keeps the invariant with the exact result; null, outside and misaligned pointers change nothing |
| `HeapTheorems.RunInv` | src/allocator/free_list.cpp:148-381 | every state of every legal run satisfies the invariant |
| `HeapTheorems.TilingExact` | src/allocator/free_list.cpp:148-381 | every byte of the arena lies in exactly one live, tree or list block |
| `HeapTheorems.BlockShape` | src/allocator/free_list.cpp:148-381 | blocks are disjoint, inside the arena, 16-aligned, multiples of 16; tree blocks have at least 48 bytes and list blocks their list's size |
| `HeapTheorems.TreeBlocksApart` | src/allocator/free_list.cpp:324-377 | no tree block ends where another begins, after any completed operation |
| `HeapTheorems.FullyCoalesced` | src/allocator/free_list.cpp:339-377 | with nothing live and all lists empty, one tree block spans the arena |
| `HeapTheorems.BytesConserved` | src/allocator/free_list.cpp:383-389 | `allocated_` is the total of live sizes and `bytes_free` the total of free sizes |
| `HeapTheorems.FreeBlockCount` | src/allocator/free_list.cpp:199-249 | actual free blocks minus `free_blocks_` is the number of gap-cutting allocations (modulo 2^64); exact if and only if that number is 0 modulo 2^64 |
| `HeapTheorems.GapsCounted` | src/allocator/free_list.cpp:198-217 | over every legal run, the number by which the count falls short grows by one for exactly those allocations whose pointer lies strictly inside the tree block that served them |
| `HeapTheorems.CountExactAtLowAlignment` | src/allocator/free_list.cpp:397-399 | on every run with alignments of at most 16, `free_block_count` is exact |
| `HeapTheorems.AllocateChoice` | src/allocator/free_list.cpp:148-267 | with n the least positive multiple of 16 of at least the size and a the larger of alignment and 16: out of memory if and only if the list of size n is empty and no tree block has n bytes from its first multiple of a on; otherwise exactly n bytes, at the list head, or at that first multiple in the lowest such block |
| `HeapTheorems.AllocateLeftovers` | src/allocator/free_list.cpp:159-258 | a success replaces exactly one free block by the live block, a front gap (listed up to 128 bytes, else in the tree) and a remainder (listed below 48 bytes, else in the tree); every other block stays |
| `HeapTheorems.AllocateLives` | src/allocator/free_list.cpp:148-268 | success adds exactly one live block of at least the requested size, disjoint from all live ones; failure changes nothing |
| `HeapTheorems.DeallocateLives` | src/allocator/free_list.cpp:270-381 | freeing removes exactly that live block |
| `HeapTheorems.LargeFreed` | src/allocator/free_list.cpp:324-377 | freeing more than 128 bytes joins the block with exactly the tree blocks that touch it; every other block and every list stays |
| `RoundTrip.AllocateFreeIdentity` | src/allocator/free_list.cpp:148-381 | allocate then free restores every block, list and counter if and only if the block came from a list, or from the tree with size above 128, no gap and remainder 0 or at least 48 |
| `RoundTrip.FreeAllocateIdentity` | src/allocator/free_list.cpp:159-311 | freeing a block of at most 128 bytes and asking for as much again yields the same block and the same state: lists are last in, first out |
| `RoundTrip.AlignmentMet` | src/allocator/free_list.cpp:159-176 | the pointer meets the alignment if and only if it is not a list head that happens to be misaligned |
| `RoundTrip.ListIgnoresAlignment` | src/allocator/free_list.cpp:159-176 | a legal run in which a request for alignment 64 gets a pointer that is not 64-aligned |
| `RoundTrip.SmallNotMergedBack` | src/allocator/free_list.cpp:298-311 | in a fresh arena, allocating 16 bytes and freeing them at once does not restore the state |
| `RoundTrip.GapMiscounted` | src/allocator/free_list.cpp:198-217 | a legal run after which the reported number of free blocks is wrong |
| `RingProtocol.RunInv` | src/tracker/tracker.hpp:27-52 | every interleaving of one producer and one consumer, stale loads included, keeps the protocol invariant |
| `RingProtocol.Fifo` | src/tracker/tracker.hpp:27-52 | accepted items are the popped ones followed by the contents in order, and at most N-1 are held |
| `RingProtocol.NoRace` | src/tracker/tracker.hpp:33-43 | the slot about to be written is never the slot about to be read |
| `RingProtocol.DropMeansFull` | src/tracker/tracker.hpp:31-35 | a push is dropped if and only if the tail it observed shows N-1 held items |
| `RingProtocol.EmptyMeansDrained` | src/tracker/tracker.hpp:39-42 | a pop reports empty if and only if the head it observed equals the number of pops |
| `Tracker.SampledIds` | src/tracker/tracker.hpp:61-104 | after any run with n recorded operations, counted over the steps: drained ids are strictly increasing multiples of s; accepted ids are exactly s, 2s, ..., s*floor(n/s) if and only if no push met a full buffer; drained ids are a prefix, and all once the buffer is empty |
| `Tracker.RecordUndisturbed` | src/tracker/tracker.hpp:61-96 | a recording that nothing interrupts is a run of the protocol whose effect on id counter and contents is the one proved of `Log` |
| `Tracker.RingBuffer.Push` | src/tracker/tracker.hpp:29-36 | appends the item, or drops it when N-1 are held |
| `Tracker.RingBuffer.Pop` | src/tracker/tracker.hpp:38-46 | removes the oldest item; false exactly when there is none, leaving the argument alone |
| `Tracker.LocalTracker.Log` | src/tracker/tracker.hpp:61-96 | counts every operation and appends an event with that id for every s-th one if there is room; its effect on the ids is that of an undisturbed protocol run |
| `Tracker.LocalTracker.DrainTo` | src/tracker/tracker.hpp:99-104 | appends the buffered events in order and empties the buffer |
| `ArenaBytes.EncodeDecode` | src/tracker/block_metadata.hpp:31-37 | an n-byte field reads back its value if and only if the value fits |
| `NodeBytes.NodeReadBack` | src/allocator/free_list.hpp:103-111 | a tree or list node is recovered from its bytes, the sentinel pointer included, whenever its fields fit their words |
| `NodeBytes.WriteThrough` | src/allocator/free_list.cpp:196-244 | after writing the changed records, the bytes hold every current node, and only bytes of current or given-up nodes have changed |
| `BlockHeader.WriteBlockOk` | src/interface/visualization_arena.cpp:457-473 | after writing header, footer, tag and zeroes, every field is in place, the tag bytes are those given, cut after 31 and followed by a zero, and the user bytes are zero: none overwrites another |
| `BlockHeader.WriteBlockInside` | src/interface/visualization_arena.cpp:457-473 | nothing outside the block is written |
| `BlockHeader.ReadBackExact` | src/interface/visualization_arena.cpp:498-511 | the user pointer alone leads back to the raw pointer and `actual_size` |
| `BlockHeader.ClearedNotFound` | src/interface/visualization_arena.cpp:505-509 | after the magic is cleared, freeing the same pointer again finds nothing |
| `BlockHeader.UserAligned` | src/interface/visualization_arena.cpp:413-426 | the user pointer is aligned if and only if the raw pointer is |
| `BlockHeader.OffsetExact` | src/interface/visualization_arena.cpp:413-426 | the offset is the one multiple of the alignment from 60 up to, but not including, 60 plus the alignment; 60 for alignment 0 |
| `ShardedArena.CapacityMultiple` | src/interface/visualization_arena.cpp:189-191 | for pages of any power of two, the least number of bytes that is at least the configured size and divides both into pages and by 16 * 256 |
| `ShardedArena.ShardsManageable` | src/interface/visualization_arena.cpp:213-224 | all 256 shards are arenas the allocator can manage if and only if the capacity is between 256 * 48 bytes and 256 GiB |
| `ShardedArena.OnePageTooSmall` | src/interface/visualization_arena.cpp:189-224 | a configured size that rounds to one page of 4096 bytes yields shards too small to manage |
| `ShardedArena.ShardIndexExact` | src/interface/visualization_arena.cpp:390-399 | every pointer inside shard i maps back to i, with and without the ownership search |
| `ShardedArena.ShardIndexFound` | src/interface/visualization_arena.cpp:390-399 | every pointer into the region maps to a shard that contains it, every other pointer to no shard |
| `ShardedArena.CreateInv` | src/interface/visualization_arena.cpp:213-224 | the created arena satisfies the invariant: 256 valid heaps tile the region, owners match live blocks, headers intact |
| `ShardedArena.RunArenaInv` | src/interface/visualization_arena.cpp:403-547 | every interleaving of attaching, allocating, client writes and both halves of freeing keeps it, whatever the allocators write to nodes of free blocks |
| `ShardedArena.AllocSpares` | src/interface/visualization_arena.cpp:428-434 | an allocation that writes only nodes of blocks free before or after it changes no byte of any live block of any shard |
| `ShardedArena.FreeSpares` | src/interface/visualization_arena.cpp:544-545 | a free that writes only such nodes and the freed block's own node changes no byte of any block that stays live |
| `ArenaNodes.LiveWritesKeepNodes` | src/interface/visualization_arena.cpp:456-473 | no change of bytes inside live blocks, by clients, headers or footers, changes a node of any shard |
| `ArenaNodes.ShardStepKeepsNodes` | src/interface/visualization_arena.cpp:428-434 | a step of one shard keeps the nodes of all others |
| `ShardedArena.AllocExact` | src/interface/visualization_arena.cpp:410-456 | a block from the thread's shard maps back to that shard, so the mismatch abort is dead; metadata and user region fit; no owned block overlaps it |
| `ShardedArena.UserPointerAligned` | src/interface/visualization_arena.cpp:413-456 | the user pointer meets its alignment if and only if it is at most 16 or the block is not a misaligned list head |
| `ShardedArena.ClientWriteInv` | src/interface/visualization_arena.cpp:456-473 | writes inside a user region keep every header, footer, owner and shard |
| `ShardedArena.FreeBeginExact` | src/interface/visualization_arena.cpp:498-511 | in every state, memory and the user pointer identify exactly the held block and its actual size |
| `ShardedArena.FreeEndExact` | src/interface/visualization_arena.cpp:518-545 | the hint is the owning shard, so the fallback search and the abort never fire, and the request satisfies the allocator's precondition |
| `ShardedArena.OwnedApart` | src/interface/visualization_arena.cpp:403-547 | owned blocks of all shards and threads are pairwise disjoint |
| `ShardedArena.TotalsExact` | src/interface/visualization_arena.cpp:581-599 | used plus free is the capacity; the used total is 0 if and only if nothing is owned |
| `ShardedArena.FreeEverything` | src/interface/visualization_arena.cpp:488-547 | from every state, any one thread can free every held block and the used total ends at 0 |
| `ArenaObject.VisualizationArena.constructor` | src/interface/visualization_arena.cpp:189-224 | 256 separate allocator objects, laid out one after the other, in the initial state |
| `ArenaObject.VisualizationArena.InitTlsContext` | src/interface/visualization_arena.cpp:364-388 | the thread gets the shard whose number is the old counter modulo 256, the counter grows by one, no other thread is moved, and the call is the attach step |
| `ShardedArena.ShardsInTurn` | src/interface/visualization_arena.cpp:364-388 | in every run the k-th attaching, from 0, gives its thread shard k modulo 256, whatever happens in between |
| `ArenaObject.VisualizationArena.AllocRaw` | src/interface/visualization_arena.cpp:403-486 | attaches on first use and performs the allocation step in the thread's shard; the user pointer is null exactly if that shard, asked for size plus offset, is out of memory, and otherwise its block start plus the offset, with the stated size, tag and header; at most one fresh held block is added; the bytes hold every allocator's nodes again |
| `ArenaObject.VisualizationArena.ClientWrite` | src/interface/visualization_arena.cpp:456-473 | a store through a user pointer performs its step and keeps the nodes of all allocators |
| `ArenaObject.NodeReadable` | src/allocator/free_list.hpp:103-111 | what an allocator reads from the arena's bytes at a node is exactly the record it works on |
| `ArenaObject.VisualizationArena.BeginFree` | src/interface/visualization_arena.cpp:488-511 | performs the first freeing step from the user pointer alone, after which a second free finds nothing; null and already freed pointers change nothing |
| `ArenaObject.VisualizationArena.EndFree` | src/interface/visualization_arena.cpp:518-547 | performs the second freeing step in the shard found from the pointer and writes its nodes back to the bytes; exactly that owner goes; search and abort branches are unreachable |
| `ArenaObject.VisualizationArena.BytesAllocated` | src/interface/visualization_arena.cpp:581-589 | the sum over the shards, 0 if and only if nothing is owned |
| `ArenaObject.VisualizationArena.BytesFree` | src/interface/visualization_arena.cpp:591-599 | the sum over the shards, which is the capacity minus the used total |
| `ArenaObject.ReachedInv` | src/interface/visualization_arena.cpp:403-547 | every state the object reaches satisfies the arena invariant |
| `CacheAnalyzer.BytesAddUp` | src/interface/cache_analyzer.cpp:86-99 | before clamping, per-line bytes add up to the total of block sizes, for every input |
| `CacheAnalyzer.DisjointExact` | src/interface/cache_analyzer.cpp:98-118 | for disjoint blocks a line's bytes are its number of covered bytes, at most the line size |
| `CacheAnalyzer.DisjointReport` | src/interface/cache_analyzer.cpp:115-132 | for disjoint blocks the clamp changes nothing: used and wasted bytes are covered and uncovered ones |
| `CacheAnalyzer.DisjointAverage` | src/interface/cache_analyzer.cpp:113-147 | for disjoint blocks the used bytes of the report are the blocks' total size, so average utilisation is that size over the bytes of the touched lines |
| `CacheAnalyzer.AverageRange` | src/interface/cache_analyzer.cpp:113-147 | average utilisation lies between 0 and 1 and is 1 if and only if no line wastes a byte |
| `CacheAnalyzer.AverageTimes` | src/interface/cache_analyzer.cpp:113-147 | average utilisation times the bytes of the active lines gives the used bytes |
| `CacheAnalyzer.FullCounted` | src/interface/cache_analyzer.cpp:113-147 | the number of fully used lines counts each line without a wasted byte once |
| `CacheAnalyzer.LineOffset` | src/interface/cache_analyzer.cpp:113-132 | the reported offset is the first byte of the line: exactly the line-size bytes from it on lie on that line |
| `CacheAnalyzer.LinesCover` | src/interface/cache_analyzer.cpp:49-62 | the lines counted for a capacity are exactly those that hold one of its bytes |
| `CacheAnalyzer.StraddleTest` | src/interface/cache_analyzer.cpp:77-84 | the comparison of first and last line holds if and only if the block has bytes on two different lines, blocks of size 0 included |
| `CacheAnalyzer.Analyzer.Accumulate` | src/interface/cache_analyzer.cpp:72-110 | the nested loop yields, per line, exactly the bytes on it, whether a block on it has bytes on another line too, the tags, and the number of blocks with bytes on two lines |
| `CacheAnalyzer.Analyzer.Analyze` | src/interface/cache_analyzer.cpp:49-156 | lines are strictly sorted, exactly the touched ones, each with its meaning; counts are exact; average utilisation is the share of used bytes; empty input gives an empty report |
| `ServerSimulation.ServerSim.HandleRequest` | src/simulation/server_sim.cpp:54-131 | the sizes asked for are the payload, if any, and then the response unless the payload was refused; success if and only if all of them were granted; whatever fails, live buffers stay exactly those of other clients and `stream_buffers_`; status, body, byte metrics and failures agree; nothing is freed twice |
| `ServerSimulation.CountsExact` | src/simulation/server_sim.cpp:54-131 | every handled request is counted once, as a success or as a failure, the successes being those with status Ok |
| `ServerSimulation.ServerSim.CleanupStreams` | src/simulation/server_sim.cpp:133-138 | frees every stream buffer once and leaves exactly the other clients' blocks |
| `ArenaClients.ArenaClient.AllocRaw` | src/interface/visualization_arena.cpp:403-486 | the modelled arena meets the simulator's contract: an allocation fails and changes nothing, or adds exactly one fresh user pointer |
| `ArenaClients.ArenaClient.DeallocRaw` | src/interface/visualization_arena.cpp:488-547 | freeing a live user pointer takes away exactly that pointer |
| `ServerSimulation.RequestGenerator.RunMixed` | src/simulation/request_generator.cpp:147-180 | sends exactly `total_requests` consecutive ids, each with the kind and sizes drawn for it, and terminates for every burst size, 0 included |
| `ServerSimulation.RequestGenerator.RunBurst` | src/simulation/request_generator.cpp:100-119 | sends exactly `total_requests` consecutive ids, each with the kind and sizes drawn for it, whenever bursts are not empty |
| `ServerSimulation.BurstsFinish` | src/simulation/request_generator.cpp:100-119 | the burst loop finishes if and only if there is nothing to send or the burst size is positive |
| `ServerSimulation.RequestGenerator.Run` | src/simulation/request_generator.cpp:184-204 | every pattern sends `total_requests` consecutive ids with their traffic and ends with no buffer of the simulator live |
| `ServerSimulation.HandledAt` | src/simulation/request_generator.cpp:57-97 | every request of a stretch has the id of its position and the kind, payload and response size drawn for that id |

## Left out

- `snapshot_json` heap walk and event replay: the walk steps by user size, and events mix shard-relative with arena-relative offsets; only event ids and order are modelled.
- `padding_report`, `cache_report`, `active_block_count`: stubs. `padding_inspector.hpp`, server, JSON, web client, tools and benchmarks: no allocator logic.
- `mmap`/`munmap`, arena moves, thread start and stop, the PMR adapter, clocks, sleeps, the fragmentation ratio and the debugging operation log. Utilisation is modelled over the reals, without rounding.
- The order of the allocator's byte stores inside one call is not modelled: its records reach the bytes when the call ends, still under the shard's lock. Padding bytes of a node are zero.
- Null-pointer checks of the pointer macros appear as the requirement that a dereferenced address holds a record.
- Memory orders weaker than acquire/release are not modelled; a load may be stale but not torn, and each shard's critical section is one step.
- Event and request ids do not wrap at 2^64.
- `std::sort` is an insertion sort, and iteration over the hash map takes keys in any order.
- ServerSimulation.RequestGenerator.RunBurst: requires a positive burst size or nothing to send, because the code does not terminate otherwise (`BurstsFinish`).
- ServerSimulation.RequestGenerator.Run: the same condition for the burst pattern.
- ArenaObject.VisualizationArena.BeginFree: a pointer that is neither null, nor live, nor marked as freed is outside the contract, as the code then reads arbitrary memory.
- `run_ramp` differs from `run_steady` only in pacing and is represented by the same sending loop.
