# PhysicsGE core, modelled in Dafny

PhysicsGE is a small C++ game-engine course project. It holds three games (pool, asteroids,
bouncing balls) and the engine pieces they share. This Dafny project models, and proves
properties of, the following parts:

- **The allocator family** (`Allocators.hpp`):
  - `FixedAllocator`, a stack of equal buckets;
  - `MemoryPool`, a first-fit boundary-tag pool with coalescing;
  - `PermanentMemoryPool` and `StackAllocator`, bump arenas with checkpoints and their `Guard`;
  - `LabeledBlockAllocator`, equal blocks with free and in-use lists and labels;
  - `ThreadedLabeledBlockAllocator`, per-thread hash-table chains of arenas plus a label pool with its `LabelGuard`.
- **The structure-of-arrays containers** (`SOA.hpp`): the open-addressing `HashMapBase` with its
  two-bit-per-slot bitmap and its iterator, and `ResizableArray`.
- **The task manager** (`TaskManager.hh`): `Job`'s atomic `short` counter, `JobQueue` over a
  bounded FIFO, and `JobScheduler`. The scheduler covers `Init`'s fiber pools, `Do`, `Wait`,
  `DoAndWait`, the notification mask and `WaitForNotification`.
- **The profiler** (`Profiler.hh`, `Profiler.cc`): marker classification, the per-thread ring
  buffer, guard identifiers, `MarkGuard` and the read-index bookkeeping of the drawing code.
- **The three games' logic**:
  - `InputData::ProcessKey`;
  - the pool game's contact grouping and the gathering of groups across threads;
  - the asteroids game's asteroid/bullet/score bookkeeping;
  - the bouncing balls' update and sprites.

State that the source updates in place is a Dafny `class`. That covers the allocators, the hash
map, the resizable array, jobs, queues, the scheduler, the profiler and each game's `GameData`.
Every method's `ensures` ties the new state to a pure function of the old state. The properties
the source promises are proved as lemmas about those functions. Pointers are byte offsets or
block indices (`nat`, with 0 or `None` for null). Machine words are written out where they
matter: 64-bit wrap-around, the `short` counter, the signed-to-unsigned conversion in a
pointer-difference division.

The files are one module each:

- `wrappers.dfy`
- `input.dfy`
- `fixed_allocator.dfy`
- `memory_pool.dfy`
- `bump_arenas.dfy`
- `labeled_blocks.dfy`
- `threaded_allocator.dfy`
- `hash_map.dfy`
- `resizable_array.dfy`
- `jobs.dfy`
- `scheduler.dfy`
- `profiler.dfy`
- `contact_groups.dfy`
- `asteroids.dfy`
- `physics_balls.dfy`

## Model

| member | source | states |
|---|---|---|
| Input.ProcessKey | src/PoolGame/Game.cc:119-131 | DOWN, UP, HOLD and NONE each hold exactly for their pair of key samples, both directions; the state recovers whether the key is down now and was down before |
| FixedAllocators.BucketIndex | src/ClassMaterial/Allocators/Allocators.hpp:48 | the `intptr_t` difference is divided as an unsigned 64-bit word: a non-negative difference gives its quotient; a negative one gives the difference itself for one-byte buckets and `(2^64 + d) / size` otherwise |
| FixedAllocators.NegativeOffsetRefused | src/ClassMaterial/Allocators/Allocators.hpp:48-58 | when the buckets fit in the address space, a pointer below the storage never yields an index in range |
| FixedAllocators.MissingValueShortens | src/ClassMaterial/Allocators/Allocators.hpp:46-59 | pigeonhole: a free stack missing a bucket is shorter than the bucket count, so freeing a handed-out bucket finds `next > 0` |
| FixedAllocators.FixedAllocator.constructor | src/ClassMaterial/Allocators/Allocators.hpp:21-27 | every bucket is free; the free stack is 0, 1, ..., buckets-1 with bucket 0 on top |
| FixedAllocators.FixedAllocator.Alloc | src/ClassMaterial/Allocators/Allocators.hpp:29-44 | pops the top bucket and returns its offset; null exactly when the free stack is empty, with the stack unchanged then |
| FixedAllocators.FixedAllocator.Free | src/ClassMaterial/Allocators/Allocators.hpp:46-59 | succeeds exactly when `BucketIndex` is in range, never for a pointer below the storage; the bucket is then pushed on top of the free stack; otherwise nothing changes |
| FixedAllocators.ExhaustThenReuse | src/ClassMaterial/Allocators/Allocators.hpp:21-59 | a fresh allocator hands out buckets 0..buckets-1 in order, then null; after freeing bucket 0 the next allocation returns bucket 0 |
| MemoryPools.ResizeToMultipleIsLeastMultiple | src/ClassMaterial/Allocators/Allocators.hpp:117-120 | `ResizeToMultiple(size, multiple)` is a multiple of `multiple`, at least `size` and less than `size + multiple` |
| MemoryPools.FirstFit | src/ClassMaterial/Allocators/Allocators.hpp:126-137 | the lowest free node holding `minSize` bytes; None exactly when no free node does |
| MemoryPools.AllocNodesAccounting | src/ClassMaterial/Allocators/Allocators.hpp:139-170 | splitting a node keeps the buffer covered, adds `minSize` used bytes and keeps the node's address |
| MemoryPools.AllocNodesShape | src/ClassMaterial/Allocators/Allocators.hpp:139-170 | splitting keeps sizes positive and leaves no two free nodes adjacent |
| MemoryPools.FreeNodesAccounting | src/ClassMaterial/Allocators/Allocators.hpp:178-233 | freeing keeps the buffer covered and removes the node's bytes from the used total |
| MemoryPools.FreeNodesShape | src/ClassMaterial/Allocators/Allocators.hpp:178-233 | freeing keeps sizes positive and no two free nodes adjacent (all four neighbour cases coalesce) |
| MemoryPools.AllocThenFreeRestores | src/ClassMaterial/Allocators/Allocators.hpp:122-233 | freeing the node an allocation just took gives back exactly the node sequence from before the allocation |
| MemoryPools.MemoryPool.constructor | src/ClassMaterial/Allocators/Allocators.hpp:101-115 | one free node spanning the buffer, nothing used |
| MemoryPools.MemoryPool.Alloc | src/ClassMaterial/Allocators/Allocators.hpp:122-176 | null exactly when `FirstFit` finds nothing, with nothing changed then; otherwise the first fit is split, the pointer is just past its header and inside the pool, and `usedMemory` grows by the reserved size |
| MemoryPools.SearchFreeList | src/ClassMaterial/Allocators/Allocators.hpp:127-133 | the search stops at the `FirstFit` node, with the running sum at its address, or past the last node exactly when there is no fit |
| MemoryPools.MemoryPool.Free | src/ClassMaterial/Allocators/Allocators.hpp:178-233 | the live node behind the pointer becomes free, merged with its free neighbours; its size leaves `usedMemory` |
| MemoryPools.AllocFreeRoundTrip | src/ClassMaterial/Allocators/Allocators.hpp:122-233 | an allocation followed by freeing its pointer leaves the nodes and `usedMemory` as they were |
| BumpArenas.RoundUpIsLeastMultiple | src/ClassMaterial/Allocators/Allocators.hpp:288-291 | the aligned address is a multiple of the alignment, at least the address and less than one alignment above it |
| BumpArenas.Bump | src/ClassMaterial/Allocators/Allocators.hpp:538-555 | fails exactly when the aligned block would end past the buffer; otherwise the pointer is aligned, within one alignment of the end, and the new offset is its end, within the buffer |
| BumpArenas.PermanentMemoryPool.constructor | src/ClassMaterial/Allocators/Allocators.hpp:280-283 | the given buffer and size, offset 0 |
| BumpArenas.PermanentMemoryPool.AllocObject | src/ClassMaterial/Allocators/Allocators.hpp:286-302 | one aligned object at the current end as `Bump` says; null with the offset unchanged when it does not fit |
| BumpArenas.PermanentMemoryPool.AllocBytes | src/ClassMaterial/Allocators/Allocators.hpp:304-317 | `nbytes` unaligned bytes at the current end; null with the offset unchanged when they would pass the end |
| BumpArenas.ResizeLast | src/ClassMaterial/Allocators/Allocators.hpp:560-576 | in-place resize fails exactly when the block would pass the buffer end; otherwise same pointer, offset moved by the size difference |
| BumpArenas.NullBlockResizesInPlaceAsWritten | src/ClassMaterial/Allocators/Allocators.hpp:558-587 | as written, reallocating the null block while `lastAlloc` is null takes the in-place branch and returns a null pointer claiming 16 bytes |
| BumpArenas.ReallocNullAfterPush | src/ClassMaterial/Allocators/Allocators.hpp:558-597 | with the non-null guard, reallocating `{nullptr, 0}` right after `Push` gives a fresh block past the checkpoint word: non-null exactly when N elements fit there, then inside the arena with N elements' size, and it becomes the last block |
| BumpArenas.PushKeepsChain | src/ClassMaterial/Allocators/Allocators.hpp:590-597 | `Push` extends a valid checkpoint chain by the word it writes |
| BumpArenas.PopKeepsChain | src/ClassMaterial/Allocators/Allocators.hpp:599-606 | `Pop` leaves the valid chain of the checkpoints below the one it closes, with the saved offsets restored |
| BumpArenas.StackAllocator.constructor | src/ClassMaterial/Allocators/Allocators.hpp:533 | nothing allocated, no checkpoint, null last block |
| BumpArenas.StackAllocator.Alloc | src/ClassMaterial/Allocators/Allocators.hpp:538-555 | N aligned objects as `Bump` says, which become the last block (pointer and size); on overflow `{nullptr, 0}` and nothing changes |
| BumpArenas.StackAllocator.Push | src/ClassMaterial/Allocators/Allocators.hpp:590-597 | saves `lastOffset` in a word placed at the aligned end; `lastOffset` becomes the old end and the last block is null |
| BumpArenas.StackAllocator.Pop | src/ClassMaterial/Allocators/Allocators.hpp:599-606 | both offsets return to what the matching `Push` saved; the chain loses its top checkpoint |
| BumpArenas.StackAllocator.ReallocArray | src/ClassMaterial/Allocators/Allocators.hpp:558-587 | the most recent non-null block is resized in place; any other block, the null block included, is moved to a fresh block that receives the leading elements when the two share no byte; only the new block's bytes change; a non-null result becomes the last block |
| BumpArenas.StackAllocator.ResizeLastBlock | src/ClassMaterial/Allocators/Allocators.hpp:560-573 | the last block keeps its pointer and takes the new size, the offset moving by the difference, exactly when it still fits; otherwise null and nothing changes |
| BumpArenas.StackAllocator.MoveToFresh | src/ClassMaterial/Allocators/Allocators.hpp:574-585 | an allocation as `Alloc` makes it; on success the leading elements are copied when the blocks share no byte and only the new block's bytes change; on failure memory is untouched |
| BumpArenas.CopyPrefix | src/ClassMaterial/Allocators/Allocators.hpp:578-583 | element i is copied while i < N and i * sizeof(T) is below the old size; only the destination's bytes change |
| BumpArenas.Guard.constructor | src/ClassMaterial/Allocators/Allocators.hpp:612 | constructing a guard pushes one checkpoint |
| BumpArenas.Guard.Move | src/ClassMaterial/Allocators/Allocators.hpp:615 | the new guard takes over the allocator; the old one owns nothing |
| BumpArenas.Guard.Destroy | src/ClassMaterial/Allocators/Allocators.hpp:616 | a live guard pops exactly once; a moved-from one does nothing |
| BumpArenas.PushAllocPop | src/ClassMaterial/Allocators/Allocators.hpp:590-606 | `Push`, any allocations, then `Pop`: both offsets and the chain come back to their values before `Push` |
| BumpArenas.GuardChainPopsOnce | src/ClassMaterial/Allocators/Allocators.hpp:608-617 | a guard moved into another pops once in all, restoring the offsets |
| LabeledBlocks.BlocksCount | src/ClassMaterial/Allocators/Allocators.hpp:348-353 | the block multiset `lo..hi-1` holds each index of the range once and nothing else |
| LabeledBlocks.RangeBlocks | src/ClassMaterial/Allocators/Allocators.hpp:348-353 | the constructor's list 0..n-1 is exactly the blocks 0..n-1 |
| LabeledBlocks.SplitByLabel | src/ClassMaterial/Allocators/Allocators.hpp:449-469 | `Free` splits the in-use list into kept and released blocks, with every block in exactly one |
| LabeledBlocks.KeptMembers | src/ClassMaterial/Allocators/Allocators.hpp:449-469 | the kept blocks are exactly those whose label differs |
| LabeledBlocks.MatchingMembers | src/ClassMaterial/Allocators/Allocators.hpp:449-469 | the released blocks are exactly those with the label |
| LabeledBlocks.FreeUndoesGet | src/ClassMaterial/Allocators/Allocators.hpp:356-371 | taking a block with a fresh label and freeing that label releases exactly that block and keeps the rest |
| LabeledBlocks.ReleaseLabel | src/ClassMaterial/Allocators/Allocators.hpp:449-469 | the walk unlinks the labelled blocks and pushes them on the free list; the results are `Kept` and the reversed `Matching` prepended to the free list |
| LabeledBlocks.FindNeighbour | src/ClassMaterial/Allocators/Allocators.hpp:489-509 | the first free block adjacent to the run, unlinked from the free list; None exactly when no free block is adjacent |
| LabeledBlocks.GatherRun | src/ClassMaterial/Allocators/Allocators.hpp:373-447 | the search succeeds exactly when the free list holds n consecutive blocks; it then returns a run `first..first+n-1` of free blocks, all stamped with the label and taken off the free list, the set-aside candidates back on it; no block outside the original free list is relabelled |
| LabeledBlocks.CountBlocks | src/ClassMaterial/Allocators/Allocators.hpp:332-345 | the largest block count not above `size / BlockSize` whose blocks end before their control blocks |
| LabeledBlocks.LabeledBlockAllocator.constructor | src/ClassMaterial/Allocators/Allocators.hpp:327-354 | the blocks that fit, all free, block 0 at the head |
| LabeledBlocks.LabeledBlockAllocator.GetBlock | src/ClassMaterial/Allocators/Allocators.hpp:356-371 | null exactly when the free list is empty; otherwise the head free block moves to the in-use head, stamped with the label |
| LabeledBlocks.LabeledBlockAllocator.Free | src/ClassMaterial/Allocators/Allocators.hpp:449-469 | every in-use block with the label goes back to the free list; the others stay in order; every block remains on exactly one list |
| LabeledBlocks.LabeledBlockAllocator.GetConsecutiveBlocks | src/ClassMaterial/Allocators/Allocators.hpp:373-447 | a run is returned exactly when the free list holds n consecutive blocks: n consecutive blocks labelled alike, taken off the free list (`freeBlocks` down by n) and linked at the in-use head in index order, returning the lowest; otherwise None and nothing changes |
| LabeledBlocks.ReleaseKeepsPartition | src/ClassMaterial/Allocators/Allocators.hpp:449-469 | freeing a label keeps every block on exactly one list |
| LabeledBlocks.RunKeepsPartition | src/ClassMaterial/Allocators/Allocators.hpp:425-445 | moving a run of free blocks to the in-use list keeps every block on exactly one list |
| LabeledBlocks.GetThenFree | src/ClassMaterial/Allocators/Allocators.hpp:356-469 | `GetBlock` then `Free` of a label not in use restores the free-block count |
| LabeledBlocks.KeptAllWhenNoneMatch | src/ClassMaterial/Allocators/Allocators.hpp:449-469 | freeing a label no block carries keeps the whole in-use list |
| ThreadedAllocators.NumBlocksIsCeiling | src/ClassMaterial/Allocators/Allocators.hpp:819-829 | `NumBlocks`, the large branch's `(bytes - 1) / BlockSize + 1`, holds the request, and one block fewer does not |
| ThreadedAllocators.NumBlocksIsLeast | src/ClassMaterial/Allocators/Allocators.hpp:819-829 | no smaller number of blocks holds the request |
| ThreadedAllocators.RouteOf | src/ClassMaterial/Allocators/Allocators.hpp:650-661 | requests below one block go to the arena, larger ones to a run of at least two blocks covering them |
| ThreadedAllocators.ArenaAllocInside | src/ClassMaterial/Allocators/Allocators.hpp:538-555 | the arena keeps its buffer and its offset never drops; a non-null block is aligned, of the requested size, inside the arena and ends at the new offset |
| ThreadedAllocators.FreshArenaServes | src/ClassMaterial/Allocators/Allocators.hpp:873-881 | a fresh arena over an aligned block serves any request of at most one block |
| ThreadedAllocators.EmptyArenaRefuses | src/ClassMaterial/Allocators/Allocators.hpp:713 | the arena reset by `Free` refuses every request, so the next one refills it |
| ThreadedAllocators.Find | src/ClassMaterial/Allocators/Allocators.hpp:833-853 | the first table of the chain holding the label; None exactly when no table does |
| ThreadedAllocators.FirstRoom | src/ClassMaterial/Allocators/Allocators.hpp:856-866 | the first table with room, or the chain length when none has |
| ThreadedAllocators.StoreKeeps | src/ClassMaterial/Allocators/Allocators.hpp:873-881 | replacing a held label's arena keeps the chain invariant; that label gets the new arena and every other label keeps its arena |
| ThreadedAllocators.ExtendedKeeps | src/ClassMaterial/Allocators/Allocators.hpp:856-866 | appending an empty table to a full chain keeps the invariant and all lookups |
| ThreadedAllocators.ReservedKeeps | src/ClassMaterial/Allocators/Allocators.hpp:856-866 | reserving an absent label in the first table with room keeps the invariant and finds it there with its arena |
| ThreadedAllocators.Locate | src/ClassMaterial/Allocators/Allocators.hpp:831-871 | stops at the table holding the label, or extends the chain as needed and returns the first table with room |
| ThreadedAllocators.ResetAll | src/ClassMaterial/Allocators/Allocators.hpp:698-722 | every thread's chain has the label's arena replaced by the empty one |
| ThreadedAllocators.ResetKeeps | src/ClassMaterial/Allocators/Allocators.hpp:698-722 | resetting a label keeps the chain invariant and every lookup |
| ThreadedAllocators.LargeReallocAsWrittenOverruns | src/ClassMaterial/Allocators/Allocators.hpp:672 | as written, every request larger than one block keeps the old pointer whatever the old block's size; the corrected plan moves a block no larger than one block |
| ThreadedAllocators.LargeReallocStaysInside | src/ClassMaterial/Allocators/Allocators.hpp:664-696 | with the old count from the old size, a block stays in place only when a run of at least two blocks still holds it |
| ThreadedAllocators.ServeStepServes | src/ClassMaterial/Allocators/Allocators.hpp:795-816 | a non-null block is the arena's last block; the label's own arena serves without rebuilding; otherwise a fresh arena on the next block serves |
| ThreadedAllocators.InnerStepServes | src/ClassMaterial/Allocators/Allocators.hpp:795-816 | `InnerAlloc` keeps the chain invariant, leaves the label held in its table or the first with room, and keeps every other label |
| ThreadedAllocators.InnerStepNonNull | src/ClassMaterial/Allocators/Allocators.hpp:810-813 | with a free block left and a compatible alignment, `InnerAlloc` never returns null, as the source asserts |
| ThreadedAllocators.RunBlockTookRun | src/ClassMaterial/Allocators/Allocators.hpp:819-829 | a consecutive-block result makes the reported block span the whole run |
| ThreadedAllocators.ThreadedAllocator.constructor | src/ClassMaterial/Allocators/Allocators.hpp:642-647 | the block allocator over the buffer with its first block as the internal arena; no tables, no labels |
| ThreadedAllocators.ThreadedAllocator.GetUnusedLabel | src/ClassMaterial/Allocators/Allocators.hpp:724-752 | a new label (never the internal label) when no record is free, its record taken by `InternalAlloc` (refilling the internal arena from a block when full); else the head free record's label with no allocation; the record moves to the used list |
| ThreadedAllocators.ThreadedAllocator.ReturnLabel | src/ClassMaterial/Allocators/Allocators.hpp:754-767 | the used list's head record, stamped with the label, is pushed on the free list |
| ThreadedAllocators.ThreadedAllocator.GetUnusedLabelWithGuard | src/ClassMaterial/Allocators/Allocators.hpp:785-789 | a label as `GetUnusedLabel` gives it, with the same internal-arena effect, and a live guard owning it |
| ThreadedAllocators.ThreadedAllocator.Free | src/ClassMaterial/Allocators/Allocators.hpp:698-722 | the label's blocks are freed and each thread's arena for it becomes the empty arena |
| ThreadedAllocators.ThreadedAllocator.GetStackAllocator | src/ClassMaterial/Allocators/Allocators.hpp:831-871 | the table holding the label, with nothing allocated; or, after `InternalAlloc` of a `PerThreadInfo` (when a table is linked) and of the `StackAllocator`, each refilling the internal arena when it is full, the label reserved over a fresh arena on the next free block in the first table with room |
| ThreadedAllocators.ThreadedAllocator.InnerAlloc | src/ClassMaterial/Allocators/Allocators.hpp:795-816 | the internal records are drawn as `InternalPlan` says, blocks going to the internal label; then the result and the thread's chain are those of `InnerStep`, and at most two more blocks go to the label, from the head of the free list |
| ThreadedAllocators.ThreadedAllocator.InternalAlloc | src/ClassMaterial/Allocators/Allocators.hpp:884-899 | the internal arena serves the record when it has room; otherwise it is rebuilt over the head free block, now labelled internal, and serves from that; the result is never null |
| ThreadedAllocators.ThreadedAllocator.InternalAllocs | src/ClassMaterial/Allocators/Allocators.hpp:884-899 | a series of `InternalAlloc`s leaves the internal arena and the count of blocks drawn that `InternalPlan` gives, all drawn from the head of the free list for the internal label |
| ThreadedAllocators.InternalPlan | src/ClassMaterial/Allocators/Allocators.hpp:884-899 | a series of internal allocations draws at most one block per allocation; an arena without room and an empty free list mean the refill loop never ends |
| ThreadedAllocators.InternalPlanFits | src/ClassMaterial/Allocators/Allocators.hpp:884-899 | with a free block for each internal allocation, each at most a block, the refill loop always ends |
| ThreadedAllocators.ThreadedAllocator.ReserveFresh | src/ClassMaterial/Allocators/Allocators.hpp:856-881 | the absent label is reserved in the first table with room over a fresh arena on the head free block, which moves to the in-use list with the label |
| ThreadedAllocators.ThreadedAllocator.ServeFromArena | src/ClassMaterial/Allocators/Allocators.hpp:802-815 | the label's arena serves the request when it can; otherwise `RefillAllocator` rebuilds it on the head free block and it serves again; the chain gets the new arena |
| ThreadedAllocators.ThreadedAllocator.LargeAlloc | src/ClassMaterial/Allocators/Allocators.hpp:819-829 | a run of the least number (at least two) of consecutive blocks, reported with the whole run's size |
| ThreadedAllocators.ThreadedAllocator.Alloc | src/ClassMaterial/Allocators/Allocators.hpp:650-661 | routes as `RouteOf` says, to `InnerAlloc` or `LargeAlloc` |
| ThreadedAllocators.ThreadedAllocator.ReallocLarge | src/ClassMaterial/Allocators/Allocators.hpp:664-696 | a block of the same block count (at least two, counted from the old size) stays in place with the new size and no list or label changes; otherwise a fresh run of the least block count taken under the label |
| ThreadedAllocators.LabelGuard.constructor | src/ClassMaterial/Allocators/Allocators.hpp:773 | the guard holds the label and the allocator it was given |
| ThreadedAllocators.LabelGuard.Move | src/ClassMaterial/Allocators/Allocators.hpp:776 | the new guard takes over the label; the old one owns nothing |
| ThreadedAllocators.LabelGuard.Destroy | src/ClassMaterial/Allocators/Allocators.hpp:778 | a live guard does what `Free` does (the label's in-use blocks prepended to the free list in reverse, the others kept in order, every thread's arena for the label reset, names and the internal arena kept) and then returns the label once; a moved-from one does nothing |
| ThreadedAllocators.ReturnThenReuse | src/ClassMaterial/Allocators/Allocators.hpp:724-767 | a label given back is the next one handed out, and no label is minted for it |
| ThreadedAllocators.GuardChainReturnsOnce | src/ClassMaterial/Allocators/Allocators.hpp:769-789 | a guard moved into another returns the label exactly once; the used list is as before |
| HashMaps.PassThrough | src/ClassMaterial/Allocators/SOA.hpp:9-11 | the key itself as an unsigned 64-bit word |
| HashMaps.LabelHash | src/ClassMaterial/Allocators/Allocators.hpp:901-903 | the label times 17 in 64-bit unsigned arithmetic |
| HashMaps.ComputeActiveElementsSize | src/ClassMaterial/Allocators/SOA.hpp:18-21 | for a real table, the least number of 64-bit words holding two bits per slot |
| HashMaps.SetBitOnly | src/ClassMaterial/Allocators/SOA.hpp:141-152 | writing one bit leaves every other bit unchanged |
| HashMaps.ActivatedOnly | src/ClassMaterial/Allocators/SOA.hpp:141-146 | `SetActive(i)` makes i active and not deleted; every other slot keeps both bits |
| HashMaps.MarkedDeletedOnly | src/ClassMaterial/Allocators/SOA.hpp:147-152 | `SetDeleted(i)` makes i deleted and not active; every other slot keeps both bits |
| HashMaps.ZeroedBitmap | src/ClassMaterial/Allocators/SOA.hpp:128 | a zeroed bitmap has no active and no deleted slot |
| HashMaps.ProbeLands | src/ClassMaterial/Allocators/SOA.hpp:154-164 | a probe for a stored key stops exactly at its slot; for an absent key it stops at a slot that is not active |
| HashMaps.OpenSlotExists | src/ClassMaterial/Allocators/SOA.hpp:159-162 | the probe always has a slot to stop at when the key is stored or the table is not full |
| HashMaps.SetKeeps | src/ClassMaterial/Allocators/SOA.hpp:25-35 | `Set` keeps the table invariant; the map gains the key with the new value |
| HashMaps.ReserveKeeps | src/ClassMaterial/Allocators/SOA.hpp:86-95 | `Reserve` of an absent key keeps the invariant; the key gains the slot's value |
| HashMaps.NextActive | src/ClassMaterial/Allocators/SOA.hpp:37-73 | the first active slot at or after i, or the table size when there is none |
| HashMaps.VisitsActiveInOrder | src/ClassMaterial/Allocators/SOA.hpp:37-59 | iterating from a position visits exactly the active slots from there on, in increasing order |
| HashMaps.BeginVisitsAll | src/ClassMaterial/Allocators/SOA.hpp:61-73 | `begin()` to `end()` visits exactly the active slots in increasing order |
| HashMaps.HashMapBase.constructor | src/ClassMaterial/Allocators/SOA.hpp:121-129 | tables of the given size with a zeroed bitmap; the map is empty |
| HashMaps.HashMapBase.IsActive | src/ClassMaterial/Allocators/SOA.hpp:133-136 | bit 2i of the bitmap |
| HashMaps.HashMapBase.IsDeleted | src/ClassMaterial/Allocators/SOA.hpp:137-140 | bit 2i+1 of the bitmap |
| HashMaps.HashMapBase.SetActive | src/ClassMaterial/Allocators/SOA.hpp:141-146 | the bitmap becomes `Activated(i)` |
| HashMaps.HashMapBase.SetDeleted | src/ClassMaterial/Allocators/SOA.hpp:147-152 | the bitmap becomes `MarkedDeleted(i)` |
| HashMaps.HashMapBase.GetHashIndex | src/ClassMaterial/Allocators/SOA.hpp:154-164 | the probe from the home slot stops at the first slot that is not deleted and either free or holding the key |
| HashMaps.HashMapBase.Set | src/ClassMaterial/Allocators/SOA.hpp:25-35 | the key's value becomes `data`; the active count grows by one exactly when the key was absent |
| HashMaps.HashMapBase.Reserve | src/ClassMaterial/Allocators/SOA.hpp:86-95 | the returned slot is where the probe from the key's home stops; it becomes active and holds the key in the names table, the key maps to that slot and its value is the slot's payload, and the count grows by one |
| HashMaps.HashMapBase.Get | src/ClassMaterial/Allocators/SOA.hpp:97-106 | the key's value when it is stored, null otherwise, with the probe's slot |
| HashMaps.HashMapBase.GetNumActiveElements | src/ClassMaterial/Allocators/SOA.hpp:23 | the number of stored keys |
| HashMaps.HashMapBase.Begin | src/ClassMaterial/Allocators/SOA.hpp:61-69 | the first active slot, or `end()` |
| HashMaps.HashMapBase.Advance | src/ClassMaterial/Allocators/SOA.hpp:44-52 | the next active slot after the position, or `end()` |
| HashMaps.SetThenGet | src/ClassMaterial/Allocators/SOA.hpp:25-106 | `Get` returns the value `Set` stored; setting the same key again keeps the count |
| ResizableArrays.GrownCapacity | src/ClassMaterial/Allocators/SOA.hpp:228-231 | doubled in 64-bit arithmetic when full, unchanged otherwise; for a positive capacity not below the size the result exceeds the size |
| ResizableArrays.ResizableArray.constructor | src/ClassMaterial/Allocators/SOA.hpp:205-209 | storage for the initial capacity, no elements |
| ResizableArrays.ResizableArray.Resize | src/ClassMaterial/Allocators/SOA.hpp:214-224 | the capacity becomes the new capacity and the elements in use are kept |
| ResizableArrays.ResizableArray.Push | src/ClassMaterial/Allocators/SOA.hpp:226-235 | appends the element, doubling the capacity first when full |
| ResizableArrays.PushAll | src/ClassMaterial/Allocators/SOA.hpp:226-235 | pushing a sequence appends it in order |
| Jobs.ShortDecrement | src/PoolGame/TaskManager.hh:133 | one less on a `short`, wrapping from the minimum to the maximum |
| Jobs.AfterFinishedCounts | src/PoolGame/TaskManager.hh:133-135 | after k <= n finished tasks of n, n-k are pending; `Job.HasFinished` holds exactly when k == n |
| Jobs.Job.constructor | src/PoolGame/TaskManager.hh:139-145 | all fields set from the arguments, `numTasks` pending |
| Jobs.Job.Copy | src/PoolGame/TaskManager.hh:126-127 | every field copied from the other job |
| Jobs.Job.TaskFinished | src/PoolGame/TaskManager.hh:133 | the pending count becomes `ShortDecrement` of itself |
| Jobs.FinishAll | src/PoolGame/TaskManager.hh:133-135 | running every task of a job leaves it finished |
| Jobs.TasksOf | src/PoolGame/TaskManager.hh:283-292 | the tasks `begin..end-1` of the job, in index order |
| Jobs.TasksOfSplit | src/PoolGame/TaskManager.hh:283-292 | enqueuing `a..b-1` then `b..c-1` enqueues `a..c-1`, each once |
| Jobs.JobQueue.AddJob | src/PoolGame/TaskManager.hh:283-292 | appends tasks `begin..r-1` in order; it stops short of `end` only when the queue is full |
| Jobs.JobQueue.GetPendingTask | src/PoolGame/TaskManager.hh:295-305 | false exactly on an empty queue, out-parameters untouched; otherwise the front task's job and index, removed |
| Jobs.AddThenTakeAll | src/PoolGame/TaskManager.hh:283-305 | an empty queue fed a job's tasks `begin..end-1` hands back exactly those indices, in increasing order, and is empty again |
| Scheduler.ClearedBit | src/PoolGame/TaskManager.hh:359-363 | bit t cleared, every other bit kept |
| Scheduler.InitialContext | src/PoolGame/TaskManager.hh:177-190 | fiber i's context names fiber i, no thread, no job, task 0, and waits for nothing |
| Scheduler.WorkersTake | src/PoolGame/TaskManager.hh:205-210 | the workers take k tasks, or all there are, from the front of the queue |
| Scheduler.RetryRound | src/PoolGame/TaskManager.hh:202-212 | one retry round keeps the queue equal to the untaken part of the tasks enqueued so far |
| Scheduler.PushRange | src/PoolGame/TaskManager.hh:177-190 | pushes fiber indices `lo..lo+count-1` in order |
| Scheduler.JobScheduler.constructor | src/PoolGame/TaskManager.hh:155-160 | empty queues and pools, running, nobody idle, an empty mask |
| Scheduler.JobScheduler.Init | src/PoolGame/TaskManager.hh:163-193 | fibers 0..127 go on the small pool and 128..159 on the large pool, in order; every context is reset |
| Scheduler.JobScheduler.NotifyWaitingThreads | src/PoolGame/TaskManager.hh:244-253 | every thread's notification bit is set and the idle threads are woken |
| Scheduler.JobScheduler.FinishTasks | src/PoolGame/TaskManager.hh:259 | the run flag becomes false |
| Scheduler.JobScheduler.Do | src/PoolGame/TaskManager.hh:196-214 | all tasks 0..n-1 are enqueued on the job's priority queue, in order, each once, behind what the workers took meanwhile |
| Scheduler.JobScheduler.YieldAndRetry | src/PoolGame/TaskManager.hh:201-210 | one pass of the retry loop: the caller's context waits for its own job, the workers take what `drain` allows from the front, and the tasks from `index` are offered again up to the first one refused, which is only refused at a full queue |
| Scheduler.JobScheduler.Wait | src/PoolGame/TaskManager.hh:217-228 | a finished job is not waited for; otherwise the caller's context records the job |
| Scheduler.JobScheduler.DoAndWait | src/PoolGame/TaskManager.hh:230-241 | a single-task job with a context runs inline and touches no queue or context; otherwise `Do` then `Wait`: the job's tasks 0..n-1 appended to its priority's queue in order (less what the workers took meanwhile), the mask set, and the caller waiting on the job unless it has finished |
| Scheduler.JobScheduler.CompareExchange | src/PoolGame/TaskManager.hh:359-363 | succeeds and stores `desired` exactly when the mask equals `expected`; returns the mask it found |
| Scheduler.JobScheduler.WaitForNotification | src/PoolGame/TaskManager.hh:347-365 | the thread sleeps when its bit is clear, then clears its own bit, keeping the others |
| Profiling.MarkerClassification | src/PoolGame/Profiler.hh:70-73 | every marker is exactly one of begin, end or function mark; idle marks are one begin and one end |
| Profiling.NextWriteIndex | src/PoolGame/Profiler.cc:11-20 | the successor modulo the buffer size, always a valid index |
| Profiling.Profiler.AddProfileMark | src/PoolGame/Profiler.cc:11-20 | when recording, writes the marker at the thread's index and advances it modulo the buffer; nothing else changes |
| Profiling.Profiler.CreateProfileMarkGuard | src/PoolGame/Profiler.cc:23-30 | a fresh identifier above every earlier one, a BEGIN_FUNCTION with it, and a live guard carrying it |
| Profiling.Profiler.DrawProfiler | src/PoolGame/Profiler.cc:300-320 | an open window's "Record" checkbox sets the recording flag; while recording, each of the first `numThreads` read indices takes its write index; the other read indices stay |
| Profiling.MarkGuard.Move | src/PoolGame/Profiler.hh:45 | the new guard takes over; the old one has no profiler |
| Profiling.MarkGuard.Destroy | src/PoolGame/Profiler.hh:48-54 | a live guard records one END_FUNCTION with its identifier at its thread's write index and advances that index when recording, and leaves the index and the slot as they were when not; other threads' indices and every other slot are kept; a moved-from one does nothing |
| Profiling.GuardChainEmitsOneEnd | src/PoolGame/Profiler.hh:35-55 | creating a guard, moving it into another and destroying both writes exactly two markers in consecutive slots: a BEGIN_FUNCTION and one END_FUNCTION, both with the new identifier |
| Profiling.Profiler.constructor | src/PoolGame/Profiler.hh:77-79 | every write and read index 0, recording on |
| Profiling.MarkGuard.constructor | src/PoolGame/Profiler.hh:42 | the guard holds the profiler, thread and identifier it was given |
| ContactGroups.Grouped | src/PoolGame/Game.cc:212-283 | the corrected grouping of one contact keeps the arrays' shape (row entries are -1 or groups of the vector; the count is within it) |
| ContactGroups.GroupedKeeps | src/PoolGame/Game.cc:212-283 | grouping keeps the counted groups a partition of the grouped objects and adds exactly one contact to them |
| ContactGroups.AsWrittenDropsNewGroup | src/PoolGame/Game.cc:228-237 | as written, in the first frame the new group is appended but never counted, so its contact is lost |
| ContactGroups.AsWrittenMisroutesReusedGroup | src/PoolGame/Game.cc:221-237 | as written, reusing a stale slot maps the objects to the last slot instead |
| ContactGroups.AsWrittenBreaksPartition | src/PoolGame/Game.cc:221-237 | as written, opening a group keeps the counted groups a partition exactly when one stale group was left over |
| ContactGroups.GroupedAsWritten | src/PoolGame/Game.cc:212-283 | the as-written grouping of one contact keeps the arrays' shape |
| ContactGroups.GameData.constructor | src/PoolGame/Game.cc:64-65 | one empty group vector and a zero count per thread, as the fill at Game.cc:353 sets the counts |
| ContactGroups.MergedLength | src/PoolGame/Game.cc:431-436 | the gathered vector has one entry per counted group |
| ContactGroups.MergedAt | src/PoolGame/Game.cc:431-436 | thread i's counted group g sits after the counted groups of the threads before it |
| ContactGroups.MoveObjects | src/PoolGame/Game.cc:270-275 | group B's objects other than `a` are appended and each is remapped to group A |
| ContactGroups.AppendContacts | src/PoolGame/Game.cc:266-267 | group B's contacts are appended to group A's, in order |
| ContactGroups.GenerateContactGroups | src/PoolGame/Game.cc:212-283 | thread t's row, groups and count become `Grouped` of the old ones; other threads are untouched |
| ContactGroups.MergeContactGroups | src/PoolGame/Game.cc:431-436 | the counted groups of all threads, in thread order |
| Asteroids.Decremented | src/Asteroids/Game.cc:40-46 | one level down, except that level 0 stays at level 0; never NONE |
| Asteroids.DecrementedTimesFloors | src/Asteroids/Game.cc:40-46 | k decrements from a level give the level minus k, floored at SMALL |
| Asteroids.Weight | src/Asteroids/Game.cc:241-256 | a larger asteroid takes one hit plus the hits of two asteroids a level down |
| Asteroids.TotalWeightAppend | src/Asteroids/Game.cc:241-256 | the hits a list takes add up over a concatenation |
| Asteroids.VisibleHide | src/Asteroids/Game.cc:236-238 | hiding a bullet in flight takes exactly one bullet out of flight |
| Asteroids.FirstHit | src/Asteroids/Game.cc:229-237 | the first bullet slot in flight that collides with the asteroid; None exactly when no such slot exists |
| Asteroids.AfterHit | src/Asteroids/Game.cc:239-258 | a small asteroid is erased; a larger one goes a level down and a visible copy of that level is appended |
| Asteroids.AfterHitWeight | src/Asteroids/Game.cc:229-260 | each hit takes exactly one from the hits the list still takes, and every level stays real |
| Asteroids.HiddenWeight | src/Asteroids/Game.cc:222-226 | hiding an asteroid keeps the hits the list takes |
| Asteroids.Dealt | src/Asteroids/Game.cc:62-76 | `count` visible asteroids, each with its random body and level `rand() % MAX`, so every level is real |
| Asteroids.Refilled | src/Asteroids/Game.cc:149-168 | 22 visible asteroids with real levels, which take at least 22 hits |
| Asteroids.AtLeastOneHitEach | src/Asteroids/Game.cc:238-258 | every asteroid takes at least one hit, so a list takes at least as many hits as its length |
| Asteroids.VisitKeepsSums | src/Asteroids/Game.cc:217-260 | one visit (`Visit`, the loop body for slot i) keeps the levels real and keeps score plus hits left and score plus bullets in flight; a hit takes a bullet out of flight, no hit keeps the length, only a hit erases, a hidden player stays hidden |
| Asteroids.ProcessedKeepsSums | src/Asteroids/Game.cc:170-262 | the whole asteroid loop (`Processed`, from slot i to the end) keeps both sums and the levels real, whatever collides; a hidden player stays hidden |
| Asteroids.ScoreBounded | src/Asteroids/Game.cc:170-262 | the score one pass of the loop adds is at most the hits the asteroids take and at most the bullets in flight |
| Asteroids.GameData.Init | src/Asteroids/Game.cc:48-88 | `new GameData` then `InitGamedata`: 15 dealt asteroids, every bullet slot empty, the player visible, score 0 |
| Asteroids.GameData.RefillIfEmpty | src/Asteroids/Game.cc:149-168 | an empty list becomes `Refilled`; a non-empty one stays |
| Asteroids.GameData.CheckBullets | src/Asteroids/Game.cc:229-260 | the `FirstHit` bullet is hidden, the score rises by one and the list becomes `AfterHit`; no hit changes nothing |
| Asteroids.GameData.TouchPlayer | src/Asteroids/Game.cc:217-222 | an asteroid touching the player is hidden and the player with it; otherwise the list and the player flag stay |
| Asteroids.GameData.VisitAsteroid | src/Asteroids/Game.cc:217-260 | the new asteroids, bullets, score and player flag are those `Visit` gives, with whether slot `i` was erased |
| Asteroids.GameData.ProcessAsteroids | src/Asteroids/Game.cc:149-262 | refills an empty list, then ends in the state `Processed` gives from slot 0 |
| PhysicsBalls.BallNext | src/Physics/Game.cc:65-83 | position advanced by velocity times dt; a velocity component reverses exactly when that axis is out of the window; scale 50 |
| PhysicsBalls.BallNextBounces | src/Physics/Game.cc:65-83 | speed per axis is kept; a ball that crossed a wall moving outwards moves inwards; a ball inside keeps its velocity |
| PhysicsBalls.SpriteOf | src/Physics/Game.cc:85-95 | a white BALL sprite at the ball's position, sized by its scale |
| PhysicsBalls.GameData.constructor | src/Physics/Game.cc:22-38 | ten balls of scale 50, velocities in [-100, 100), positions in the source's `rand() % half - half / 4` range |
| PhysicsBalls.Update | src/Physics/Game.cc:63-98 | `prevBalls` is the old balls; each ball becomes `BallNext` of its old self; one sprite per ball, in order |

## Left out

- Threads, atomics, mutexes and fibers. The model is sequential. Atomics are plain fields, and a
  mutex section is one method.
- Fiber creation and switching, `RunScheduler`, `WorkerFiber`, `GetFiberData`, `SwitchToFiber`
  and `DoTask`. A job's work is the subclass's own code.
- `Scheduler.JobScheduler.Do`: the yield is a parameter `drain` that says how many tasks the
  workers take meanwhile. The model requires `drain(k) >= 1`, because a full queue always drains
  while the caller is parked.
- `Scheduler.JobScheduler.DoAndWait`: a caller without a context must pass a job with no task
  pending (`context.None? ==> job.numPendingTasks == 0`). This mirrors `Wait`'s
  `assert(context != nullptr)` (TaskManager.hh:221): with tasks pending and no worker running in
  the sequential model, the job cannot have finished when `Wait` runs. The inline path does not
  call `TaskFinished`, as in the source.
- `Scheduler.JobScheduler.WaitForNotification`: the condition variable is modelled by the mask
  other threads leave (`maskAfterWait`) and a wake-up count.
- `SpinlockQueue<Task, 1024>` and `LockfreeStack`: their source is not part of this model. They
  are a bounded queue and a stack with the obvious contracts and a capacity of 1024.
- `HashMapBase::Delete` (SOA.hpp:108-113): it calls `isActive`, which does not exist, so the
  template would not compile if instantiated. `SetDeleted` is modelled.
- `HashMapBase::Occupancy` and the allocator's `Occupancy() < 0.66f`: float division. They are
  modelled by the integer predicate `HasRoom`.
- `HashMaps.HashMapBase.GetHashIndex`: the `uint_fast16_t` cast is not modelled (tables are
  assumed to have fewer than 65536 slots). Its requires that some slot is open stands for the
  source's probe loop, which never ends on a table with no open slot (SOA.hpp:154-164).
- Bitmap words are sequences of 64 booleans, not integers with shift-and-mask.
- `ThreadedAllocators.ThreadedAllocator.Alloc` takes the request in bytes and an alignment
  instead of a type.
- `ThreadedAllocators.ThreadedAllocator.InternalAlloc`: the records it places (label records,
  `PerThreadInfo` tables, `StackAllocator`s) are fields of the model, not bytes in the internal
  arena; only the arena's offset and its refills from the free list are modelled. The
  small-request branch of `reallocArray` (delegating to `StackAllocator::reallocArray`) is left
  to `BumpArenas`.
- `ThreadedAllocators.ThreadedAllocator.GetStackAllocator`: the `PerThreadInfo` linked at
  Allocators.hpp:865 comes from `InternalAlloc` without a placement new, so its fields are never
  constructed in the source; the model treats it as an empty table.
- `LabeledBlocks.LabeledBlockAllocator.GetConsecutiveBlocks`: when no run exists the source runs
  the free list dry and then dereferences a null head in `FindNeightbourBlock`
  (Allocators.hpp:488) before the assertion at 393 can fail; the model returns None with
  nothing changed.
- `LabeledBlocks.LabeledBlockAllocator.GetConsecutiveBlocks`: after a run is taken, the new free
  list is stated as a multiset (the old free blocks less the run), not in the order the source
  leaves it, with the set-aside candidates re-linked ahead of the unsearched rest
  (Allocators.hpp:431-435). So which block the next `GetBlock` returns is not stated.
- The placement-new arena reset in `Free` (Allocators.hpp:713) is modelled as the empty arena
  value.
- `ThreadedAllocators.RouteOf`: a request of exactly `BlockSize` bytes fails an assertion in the
  source. It is excluded by a requires.
- `ResizableArrays.ResizableArray.Resize`: fresh storage is a new Dafny array, so a null result
  from the stack allocator is not modelled. The `(int)size` cast is not modelled.
- `MemoryPool`'s tails and free-list links are derived from the node sequence and not stored in
  bytes.
- `StackAllocator::reallocArray`'s element copy works on a memory map of integers, not on bytes.
- `ThreadedAllocators.ThreadedAllocator.ReallocLarge`: it takes the old block count from
  `oldBlock.size`, the corrected count of the second "## Findings" row, not from `N` as
  Allocators.hpp:671-672 does. The element move into a fresh run (Allocators.hpp:688-691) is not
  modelled: the threaded allocator's model holds addresses and labels, not the bytes of its buffer.
- `BumpArenas.StackAllocator.ReallocArray`: the copied contents are stated only when the old and
  the new block share no byte. An overlapping old block (one the caller passes from above the
  current offset, as the threaded allocator's arenas may) is allowed, but what the source's
  element-by-element move leaves in it is not stated.
- `BumpArenas.StackAllocator.ReallocArray`: the in-place test is the corrected one, which also
  requires a non-null pointer (see the first finding); the as-written test is
  `ResizesInPlaceAsWritten`.
- `Asteroids.GameData.Init`: `GameData`'s own constructor leaves the bullets and the player
  indeterminate; `InitGamedata` sets them straight after, so the two are modelled together.
- `ContactGroups.GameData.constructor`: `contactGroupsSizes` is uninitialised in the source
  until the fill at Game.cc:353; the model starts it at the zeros that fill writes.
- `BumpArenas.StackAllocator.constructor`: the source leaves `lastAlloc` uninitialised
  (Allocators.hpp:530-533); the model starts it at null, the value `Push` and `Pop` give it.
- Alignment uses integer round-up. That the source's bitmask form equals it for powers of two is
  not proved.
- The asteroids game:
  - float positions, speeds, sizes and rotations, and the random size re-rolled on a split (the
    model keeps an abstract `body`);
  - asteroid motion and render data;
  - the player and bullet processing after the asteroid loop (Game.cc:266-313);
  - the `++curBullet = curBullet % MAX_BULLETS` expression, whose effect depends on evaluation
    order;
  - texts.
- The bouncing-balls game:
  - `double` arithmetic is exact `real` arithmetic;
  - `rand()` and the window size are parameters;
  - the sprites' float conversion is not modelled.
- The pool game:
  - float physics, the sort-and-sweep broad phase and the contact solver;
  - rendering;
  - `GenerateContactGroups` is modelled as evidently intended, with the as-written branch kept
    for the finding below.
- `DrawProfilerToImGUI`'s layout and drawing: only its read-index bookkeeping is modelled. The
  clock is a parameter.
- Rendering, windows, OpenGL, ImGui, file and keyboard I/O.

## Findings

| source | as written | input that shows it | evidently intended | confidence | as-written member | corrected member |
|---|---|---|---|---|---|---|
| src/ClassMaterial/Allocators/Allocators.hpp:558-587 | `reallocArray` resizes in place whenever the block's pointer equals `lastAlloc`, and `Push`/`Pop` leave `lastAlloc` null | just after `Push`; `reallocArray({nullptr, 0}, 16)` returns a null pointer claiming 16 bytes and moves the offset by 16 | only a real, non-null most recent block is resized in place; a null block gets a fresh allocation | not executed | BumpArenas.NullBlockResizesInPlaceAsWritten | BumpArenas.StackAllocator.ReallocArray, BumpArenas.ReallocNullAfterPush |
| src/ClassMaterial/Allocators/Allocators.hpp:672 | the large branch computes the old block count from the new request N, not from the old block's size | a 16-byte arena block grown to three 4096-byte blocks keeps its pointer and reports 12288 bytes | the old block count comes from `oldBlock.size`, so a small block moves | not executed | ThreadedAllocators.LargeReallocAsWrittenOverruns | ThreadedAllocators.LargeReallocStaysInside, ThreadedAllocators.ThreadedAllocator.ReallocLarge |
| src/PoolGame/Game.cc:221-237 | the append path never increments `contactGroupsSizes`, and both paths map the objects to `size() - 1` | first frame, one contact (0, 1): the group is appended but the count stays 0, so the contact is never solved | the new group is counted and both objects map to the slot it was written to | not executed | ContactGroups.AsWrittenDropsNewGroup, ContactGroups.AsWrittenBreaksPartition | ContactGroups.GroupedKeeps |
