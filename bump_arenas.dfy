/**
 * The two bump arenas of the allocator family. `PermanentMemoryPool` only ever moves its offset
 * forward; `StackAllocator` also resizes its most recent block in place and saves and restores
 * its offsets through checkpoints kept inside the arena itself (`Push`/`Pop`, and the RAII
 * `Guard` that pairs them).
 *
 * Addresses are naturals; `base` is the address of the arena's buffer and the address 0 plays
 * the null pointer. Aligning an address up is rounding it up to a multiple of the alignment.
 * Arena memory is a map from address to the value stored there; an address never written reads 0.
 */
module BumpArenas {
  import opened Wrappers

  /** `(x + a - 1) & ~(a - 1)`: `x` rounded up to a multiple of `a`. */
  function RoundUp(x: nat, a: nat): nat
    requires a >= 1
  {
    ((x + a - 1) / a) * a
  }

  lemma RoundUpIsLeastMultiple(x: nat, a: nat)
    requires a >= 1
    ensures RoundUp(x, a) % a == 0
    ensures x <= RoundUp(x, a) < x + a
  {
    var q := (x + a - 1) / a;
    assert q * a <= x + a - 1 < q * a + a;
    MultipleMod(q, a);
  }

  /**
   * One bump step shared by both arenas: align the current end up to `align` and take `bytes`
   * more. The result is the aligned address and the new offset, or None when the block would
   * end past the arena.
   */
  function Bump(base: nat, size: nat, offset: nat, align: nat, bytes: nat): (r: Option<(nat, nat)>)
    requires align >= 1
    ensures r.None? <==> RoundUp(base + offset, align) + bytes > base + size
    ensures r.Some? ==> var (ptr, newOffset) := r.value;
      && ptr % align == 0
      && base + offset <= ptr < base + offset + align
      && ptr + bytes == base + newOffset
      && offset <= newOffset <= size
  {
    RoundUpIsLeastMultiple(base + offset, align);
    var ptr := RoundUp(base + offset, align);
    if ptr + bytes > base + size then None else Some((ptr, ptr + bytes - base))
  }

  /**
   * `r` and `newOffset` are what a bump of `n` elements of `elemSize` bytes from `offset` gives:
   * the aligned block and its end, or `{nullptr, 0}` and the unchanged offset when it does not fit.
   */
  ghost predicate BumpedTo(base: nat, size: nat, offset: nat, align: nat, elemSize: nat, n: nat, r: MemoryBlock, newOffset: nat)
    requires align >= 1
  {
    match Bump(base, size, offset, align, elemSize * n)
    case None => r == MemoryBlock(0, 0) && newOffset == offset
    case Some((ptr, end)) => r == MemoryBlock(ptr, elemSize * n) && newOffset == end
  }

  /** `PermanentMemoryPool`: a forward-only arena; failure returns null (a debug build asserts). */
  class PermanentMemoryPool {
    const base: nat
    const size: nat
    var currentOffset: nat

    ghost predicate Valid()
      reads this
    {
      currentOffset <= size
    }

    constructor (base: nat, size: nat)
      ensures Valid() && this.base == base && this.size == size && currentOffset == 0
    {
      this.base := base;
      this.size := size;
      currentOffset := 0;
    }

    /** `alloc<T>()`: one `elemSize`-byte object aligned to `elemAlign`. */
    method AllocObject(elemSize: nat, elemAlign: nat) returns (r: Option<nat>)
      requires Valid() && elemAlign >= 1
      modifies this
      ensures Valid()
      ensures Bump(base, size, old(currentOffset), elemAlign, elemSize).None? ==>
        r == None && currentOffset == old(currentOffset)
      ensures Bump(base, size, old(currentOffset), elemAlign, elemSize).Some? ==>
        r == Some(Bump(base, size, old(currentOffset), elemAlign, elemSize).value.0)
        && currentOffset == Bump(base, size, old(currentOffset), elemAlign, elemSize).value.1
    {
      var ptr := base + currentOffset;
      var finalPtr := RoundUp(ptr, elemAlign);
      if finalPtr + elemSize > base + size {
        r := None;
      } else {
        currentOffset := finalPtr + elemSize - base;
        r := Some(finalPtr);
      }
    }

    /** `alloc(nbytes)`: `nbytes` unaligned bytes at the current end. */
    method AllocBytes(nbytes: nat) returns (r: Option<nat>)
      requires Valid()
      modifies this
      ensures Valid()
      ensures old(currentOffset) + nbytes > size ==> r == None && currentOffset == old(currentOffset)
      ensures old(currentOffset) + nbytes <= size ==>
        r == Some(base + old(currentOffset)) && currentOffset == old(currentOffset) + nbytes
    {
      var ptr := base + currentOffset;
      if ptr + nbytes > base + size {
        r := None;
      } else {
        currentOffset := currentOffset + nbytes;
        r := Some(ptr);
      }
    }
  }

  /** `MemoryBlock<T>`: a pointer (0 for null) and a size in bytes. */
  datatype MemoryBlock = MemoryBlock(ptr: nat, size: nat)

  /** `sizeof(size_t)` and `alignof(size_t)`: the checkpoint word `Push` stores. */
  const WordSize: nat := 8

  /** A checkpoint left by `Push`: the offsets it saved and the address of the word it wrote. */
  datatype Frame = Frame(savedCurrent: nat, savedLast: nat, slot: nat)

  /** The address of element j of an array of `elemSize`-byte elements at `ptr`. */
  function ElemAddr(ptr: nat, j: nat, elemSize: nat): nat {
    ptr + j * elemSize
  }

  /** The value stored at an address; never-written memory reads 0. */
  function Load(mem: map<nat, int>, addr: nat): int {
    if addr in mem then mem[addr] else 0
  }

  /**
   * The in-place branch of `reallocArray` on the most recent block, as a function of the state:
   * the block keeps its address and the offset moves by the size difference; None when the
   * resized block would end past the arena.
   */
  function ResizeLast(base: nat, size: nat, currentOffset: nat, lastAlloc: nat, oldSize: nat, bytes: nat): (r: Option<(MemoryBlock, int)>)
    ensures r.None? <==> lastAlloc + bytes > base + size
    ensures r.Some? ==> r.value.0 == MemoryBlock(lastAlloc, bytes) && r.value.1 == currentOffset + bytes - oldSize
  {
    if lastAlloc + bytes > base + size then None
    else if bytes > oldSize then Some((MemoryBlock(lastAlloc, bytes), currentOffset + (bytes - oldSize)))
    else Some((MemoryBlock(lastAlloc, bytes), currentOffset - (oldSize - bytes)))
  }

  /** As written: `reallocArray` resizes in place whenever the block's pointer equals `lastAlloc`. */
  predicate ResizesInPlaceAsWritten(oldPtr: nat, lastAlloc: nat) {
    oldPtr == lastAlloc
  }

  /** Corrected: only a real (non-null) most recent block is resized in place. */
  predicate ResizesInPlace(oldPtr: nat, lastAlloc: nat) {
    oldPtr != 0 && oldPtr == lastAlloc
  }

  /**
   * The defect: after `Push` or `Pop` (which null `lastAlloc`), reallocating the null block takes
   * the in-place branch and returns a null pointer that claims 16 bytes, while the offset moves
   * 16 bytes past the arena's checkpoint word.
   */
  lemma NullBlockResizesInPlaceAsWritten()
    ensures ResizesInPlaceAsWritten(0, 0)
    ensures ResizeLast(4096, 1024, 8, 0, 0, 16) == Some((MemoryBlock(0, 16), 24))
    ensures !ResizesInPlace(0, 0)
  {
  }

  /** Two blocks that share no byte. */
  predicate Apart(a: MemoryBlock, b: MemoryBlock) {
    a.ptr + a.size <= b.ptr || b.ptr + b.size <= a.ptr
  }

  /** Each checkpoint word sits at the word-aligned address of the offset its `Push` saved. */
  ghost predicate SlotsAligned(frames: seq<Frame>, base: nat) {
    forall i :: 0 <= i < |frames| ==> frames[i].slot == RoundUp(base + frames[i].savedCurrent, WordSize)
  }

  /**
   * The checkpoint chain: every open checkpoint word holds the `lastOffset` its `Push` saved,
   * lies below the current end and below every later checkpoint, each saved `lastOffset` is the
   * offset the previous `Push` saved, and `lastOffset` is the offset the newest `Push` saved.
   */
  ghost predicate FramesValid(frames: seq<Frame>, mem: map<nat, int>, base: nat, currentOffset: nat, lastOffset: nat) {
    && SlotsAligned(frames, base)
    && (forall i :: 0 <= i < |frames| ==>
          && frames[i].slot + WordSize <= base + currentOffset
          && Load(mem, frames[i].slot) == frames[i].savedLast)
    && (forall i, j :: 0 <= i < j < |frames| ==> frames[i].slot + WordSize <= base + frames[j].savedCurrent)
    && (forall i :: 0 < i < |frames| ==> frames[i].savedLast == frames[i - 1].savedCurrent)
    && (frames != [] ==> lastOffset == frames[|frames| - 1].savedCurrent)
  }

  /** `Push` extends a valid chain by the checkpoint it writes. */
  lemma PushKeepsChain(frames: seq<Frame>, mem: map<nat, int>, base: nat, currentOffset: nat, lastOffset: nat)
    requires FramesValid(frames, mem, base, currentOffset, lastOffset)
    ensures var slot := RoundUp(base + currentOffset, WordSize);
      FramesValid(frames + [Frame(currentOffset, lastOffset, slot)], mem[slot := lastOffset],
                  base, slot + WordSize - base, currentOffset)
  {
    RoundUpIsLeastMultiple(base + currentOffset, WordSize);
    var slot := RoundUp(base + currentOffset, WordSize);
    var fs := frames + [Frame(currentOffset, lastOffset, slot)];
    var m := mem[slot := lastOffset];
    assert SlotsAligned(fs, base) by {
      forall i | 0 <= i < |fs|
        ensures fs[i].slot == RoundUp(base + fs[i].savedCurrent, WordSize)
      {
        if i < |frames| {
          assert fs[i] == frames[i];
        }
      }
    }
    forall i | 0 <= i < |fs|
      ensures fs[i].slot + WordSize <= base + (slot + WordSize - base) && Load(m, fs[i].slot) == fs[i].savedLast
    {
      if i < |frames| {
        assert fs[i] == frames[i];
      }
    }
    forall i, j | 0 <= i < j < |fs|
      ensures fs[i].slot + WordSize <= base + fs[j].savedCurrent
    {
      assert fs[i] == frames[i];
      if j < |frames| {
        assert fs[j] == frames[j];
      }
    }
    forall i | 0 < i < |fs|
      ensures fs[i].savedLast == fs[i - 1].savedCurrent
    {
      assert fs[i - 1] == frames[i - 1];
      if i < |frames| {
        assert fs[i] == frames[i];
      }
    }
  }

  /** `Pop` leaves the chain of the checkpoints below the one it closes. */
  lemma PopKeepsChain(frames: seq<Frame>, mem: map<nat, int>, base: nat, currentOffset: nat, lastOffset: nat)
    requires FramesValid(frames, mem, base, currentOffset, lastOffset) && frames != []
    ensures var top := frames[|frames| - 1];
      && top.savedCurrent <= currentOffset
      && Load(mem, RoundUp(base + top.savedCurrent, WordSize)) == top.savedLast
      && FramesValid(frames[..|frames| - 1], mem, base, top.savedCurrent, top.savedLast)
  {
    var top := frames[|frames| - 1];
    RoundUpIsLeastMultiple(base + top.savedCurrent, WordSize);
    var fs := frames[..|frames| - 1];
    assert SlotsAligned(fs, base) by {
      forall i | 0 <= i < |fs|
        ensures fs[i].slot == RoundUp(base + fs[i].savedCurrent, WordSize)
      {
        assert fs[i] == frames[i];
      }
    }
    forall i | 0 <= i < |fs|
      ensures fs[i].slot + WordSize <= base + top.savedCurrent
    {
      assert fs[i] == frames[i];
    }
  }

  class StackAllocator {
    const base: nat
    const size: nat
    var currentOffset: nat
    var lastOffset: nat
    /** The most recent block (0 after `Push`/`Pop`, and before the first allocation). */
    var lastAlloc: nat
    var mem: map<nat, int>
    /** The open checkpoints, oldest first. */
    ghost var frames: seq<Frame>
    /** The size of the block at `lastAlloc`. */
    ghost var lastAllocSize: nat

    ghost predicate Valid()
      reads this
    {
      && base > 0
      && currentOffset <= size
      && (lastAlloc != 0 ==>
            && base <= lastAlloc
            && lastAlloc - base + lastAllocSize == currentOffset
            && (frames != [] ==> lastAlloc >= frames[|frames| - 1].slot + WordSize))
      && FramesValid(frames, mem, base, currentOffset, lastOffset)
    }

    /** The constructor over a buffer at `base` of `size` bytes: nothing allocated, no checkpoint. */
    constructor (base: nat, size: nat)
      requires base > 0
      ensures Valid() && this.base == base && this.size == size
      ensures currentOffset == 0 && lastOffset == 0 && lastAlloc == 0 && frames == []
    {
      this.base := base;
      this.size := size;
      currentOffset := 0;
      lastOffset := 0;
      lastAlloc := 0;
      mem := map[];
      frames := [];
      lastAllocSize := 0;
    }

    /**
     * `alloc<T>(N)`: N objects of `elemSize` bytes aligned to `elemAlign`, which become the most
     * recent block; on overflow `{nullptr, 0}` and nothing changes.
     */
    method Alloc(elemSize: nat, elemAlign: nat, n: nat) returns (r: MemoryBlock)
      requires Valid() && elemAlign >= 1
      modifies this
      ensures Valid() && frames == old(frames) && mem == old(mem) && lastOffset == old(lastOffset)
      ensures BumpedTo(base, size, old(currentOffset), elemAlign, elemSize, n, r, currentOffset)
      ensures lastAlloc == if r.ptr == 0 then old(lastAlloc) else r.ptr
      ensures lastAllocSize == if r.ptr == 0 then old(lastAllocSize) else r.size
    {
      var ptr := base + currentOffset;
      RoundUpIsLeastMultiple(ptr, elemAlign);
      var finalPtr := RoundUp(ptr, elemAlign);
      MulIncreases(0, elemSize, n);
      var bytes: nat := elemSize * n;
      var ptr2 := finalPtr + bytes;
      if ptr2 > base + size {
        r := MemoryBlock(0, 0);
      } else {
        assert base <= ptr <= finalPtr <= ptr2;
        currentOffset := ptr2 - base;
        lastAlloc := finalPtr;
        lastAllocSize := bytes;
        r := MemoryBlock(finalPtr, bytes);
      }
    }

    /**
     * `Push`: saves `lastOffset` in a word allocated at the current end and makes the offset
     * before that word the new `lastOffset`. The source writes through the word's pointer
     * unchecked, so the word must fit.
     */
    method Push()
      requires Valid()
      requires RoundUp(base + currentOffset, WordSize) + WordSize <= base + size
      modifies this
      ensures Valid()
      ensures frames == old(frames) + [Frame(old(currentOffset), old(lastOffset), RoundUp(base + old(currentOffset), WordSize))]
      ensures currentOffset == RoundUp(base + old(currentOffset), WordSize) + WordSize - base
      ensures lastOffset == old(currentOffset) && lastAlloc == 0
    {
      PushKeepsChain(frames, mem, base, currentOffset, lastOffset);
      var savedOffset := currentOffset;
      RoundUpIsLeastMultiple(base + currentOffset, WordSize);
      var slot := RoundUp(base + currentOffset, WordSize);
      currentOffset := slot + WordSize - base;
      mem := mem[slot := lastOffset];
      frames := frames + [Frame(savedOffset, lastOffset, slot)];
      lastOffset := savedOffset;
      lastAlloc := 0;
    }

    /**
     * `Pop`: returns the offset to the last checkpoint and reloads the `lastOffset` saved in its
     * word. A `Pop` without a matching `Push` would read an arbitrary word, so one must be open.
     */
    method Pop()
      requires Valid() && frames != []
      modifies this
      ensures Valid() && mem == old(mem)
      ensures frames == old(frames)[..|old(frames)| - 1]
      ensures currentOffset == old(frames)[|old(frames)| - 1].savedCurrent
      ensures lastOffset == old(frames)[|old(frames)| - 1].savedLast
      ensures lastAlloc == 0
    {
      ghost var top := frames[|frames| - 1];
      PopKeepsChain(frames, mem, base, currentOffset, lastOffset);
      currentOffset := lastOffset;
      var slot := RoundUp(base + currentOffset, WordSize);
      lastOffset := Load(mem, slot);
      frames := frames[..|frames| - 1];
      lastAlloc := 0;
      assert currentOffset == top.savedCurrent && lastOffset == top.savedLast && currentOffset <= size;
      assert FramesValid(frames, mem, base, currentOffset, lastOffset);
    }

    /**
     * `reallocArray(oldBlock, N)`: the most recent block is resized in place (same pointer, the
     * offset shifted by the size difference); any other block is moved to a fresh allocation that
     * receives the first elements, as many as both blocks hold. A non-null result becomes the
     * most recent block. Resizing in place is limited to a non-null block, the corrected test
     * (see `NullBlockResizesInPlaceAsWritten`), so the null block always gets a fresh allocation.
     */
    method ReallocArray(oldBlock: MemoryBlock, elemSize: nat, elemAlign: nat, n: nat) returns (r: MemoryBlock)
      requires Valid() && elemSize >= 1 && elemAlign >= 1
      requires ResizesInPlace(oldBlock.ptr, lastAlloc) ==> oldBlock.size == lastAllocSize
      modifies this
      ensures Valid() && frames == old(frames) && lastOffset == old(lastOffset)
      ensures lastAlloc == if r.ptr == 0 then old(lastAlloc) else r.ptr
      ensures lastAllocSize == if r.ptr == 0 then old(lastAllocSize) else r.size
      ensures ResizesInPlace(oldBlock.ptr, old(lastAlloc)) ==>
        var resized := ResizeLast(base, size, old(currentOffset), old(lastAlloc), oldBlock.size, elemSize * n);
        && mem == old(mem)
        && (resized.None? ==> r == MemoryBlock(0, 0) && currentOffset == old(currentOffset))
        && (resized.Some? ==> r == resized.value.0 && currentOffset == resized.value.1)
      ensures !ResizesInPlace(oldBlock.ptr, old(lastAlloc)) ==>
        && BumpedTo(base, size, old(currentOffset), elemAlign, elemSize, n, r, currentOffset)
        && (r.ptr == 0 ==> mem == old(mem))
      ensures !ResizesInPlace(oldBlock.ptr, old(lastAlloc)) && r.ptr != 0 ==>
        && (Apart(oldBlock, r) ==> forall j: nat :: j < n && j * elemSize < oldBlock.size ==>
              Load(mem, ElemAddr(r.ptr, j, elemSize)) == Load(old(mem), ElemAddr(oldBlock.ptr, j, elemSize)))
        && (forall a: nat :: a < r.ptr || r.ptr + r.size <= a ==> Load(mem, a) == Load(old(mem), a))
    {
      if ResizesInPlace(oldBlock.ptr, lastAlloc) {
        r := ResizeLastBlock(oldBlock.size, elemSize * n);
      } else {
        r := MoveToFresh(oldBlock, elemSize, elemAlign, n);
      }
    }

    /** The in-place branch of `reallocArray`: the block at `lastAlloc` takes `bytes` bytes. */
    method ResizeLastBlock(oldSize: nat, bytes: nat) returns (r: MemoryBlock)
      requires Valid() && lastAlloc != 0 && oldSize == lastAllocSize
      modifies this
      ensures Valid() && frames == old(frames) && lastOffset == old(lastOffset) && mem == old(mem)
      ensures lastAlloc == old(lastAlloc)
      ensures lastAllocSize == if r.ptr == 0 then old(lastAllocSize) else r.size
      ensures var resized := ResizeLast(base, size, old(currentOffset), old(lastAlloc), oldSize, bytes);
        && (resized.None? ==> r == MemoryBlock(0, 0) && currentOffset == old(currentOffset))
        && (resized.Some? ==> r == resized.value.0 && currentOffset == resized.value.1)
    {
      if lastAlloc + bytes > base + size {
        r := MemoryBlock(0, 0);
      } else {
        if bytes > oldSize {
          currentOffset := currentOffset + (bytes - oldSize);
        } else {
          currentOffset := currentOffset - (oldSize - bytes);
        }
        lastAllocSize := bytes;
        r := MemoryBlock(lastAlloc, bytes);
      }
    }

    /** The moving branch of `reallocArray`: a fresh block that receives the leading elements. */
    method MoveToFresh(oldBlock: MemoryBlock, elemSize: nat, elemAlign: nat, n: nat) returns (r: MemoryBlock)
      requires Valid() && elemSize >= 1 && elemAlign >= 1
      modifies this
      ensures Valid() && frames == old(frames) && lastOffset == old(lastOffset)
      ensures BumpedTo(base, size, old(currentOffset), elemAlign, elemSize, n, r, currentOffset)
      ensures lastAlloc == if r.ptr == 0 then old(lastAlloc) else r.ptr
      ensures lastAllocSize == if r.ptr == 0 then old(lastAllocSize) else r.size
      ensures r.ptr == 0 ==> mem == old(mem)
      ensures r.ptr != 0 ==>
        && (Apart(oldBlock, r) ==> forall j: nat :: j < n && j * elemSize < oldBlock.size ==>
              Load(mem, ElemAddr(r.ptr, j, elemSize)) == Load(old(mem), ElemAddr(oldBlock.ptr, j, elemSize)))
        && (forall a: nat :: a < r.ptr || r.ptr + r.size <= a ==> Load(mem, a) == Load(old(mem), a))
    {
      ghost var end := base + currentOffset;
      assert forall i :: 0 <= i < |frames| ==> frames[i].slot + WordSize <= end;
      r := Alloc(elemSize, elemAlign, n);
      assert BumpedTo(base, size, old(currentOffset), elemAlign, elemSize, n, r, currentOffset);
      if r.ptr != 0 {
        assert end <= r.ptr && r.size == elemSize * n;
        var copied := CopyPrefix(mem, oldBlock, r, elemSize, n);
        WritesAboveKeepChain(frames, mem, copied, base, currentOffset, lastOffset, r.ptr);
        mem := copied;
      }
    }
  }

  /**
   * The copy loop of `reallocArray` over arena memory: element i moves from `from` to `to` while
   * i < N and i * sizeof(T) is below the old block's size, reading memory as the loop leaves it.
   * Only the new block `to` (N elements) is written; when the two blocks share no byte, the new
   * block starts with the old block's leading elements.
   */
  method CopyPrefix(mem: map<nat, int>, from: MemoryBlock, to: MemoryBlock, elemSize: nat, n: nat) returns (m: map<nat, int>)
    requires elemSize >= 1 && to.size == elemSize * n
    ensures Apart(from, to) ==> forall j: nat :: j < n && j * elemSize < from.size ==>
      Load(m, ElemAddr(to.ptr, j, elemSize)) == Load(mem, ElemAddr(from.ptr, j, elemSize))
    ensures forall a: nat :: a < to.ptr || to.ptr + to.size <= a ==> Load(m, a) == Load(mem, a)
  {
    m := mem;
    var i := 0;
    while i < n && i * elemSize < from.size
      invariant 0 <= i <= n
      invariant forall a: nat :: a < to.ptr || to.ptr + to.size <= a ==> Load(m, a) == Load(mem, a)
      invariant forall j :: 0 <= j < i ==> j * elemSize < from.size
      invariant Apart(from, to) ==>
        forall j :: 0 <= j < i ==> Load(m, ElemAddr(to.ptr, j, elemSize)) == Load(mem, ElemAddr(from.ptr, j, elemSize))
    {
      forall j | 0 <= j < i
        ensures ElemAddr(to.ptr, j, elemSize) < ElemAddr(to.ptr, i, elemSize)
      {
        MulStrictlyIncreases(j, i, elemSize);
      }
      MulStrictlyIncreases(i, n, elemSize);
      assert Apart(from, to) ==> Load(m, ElemAddr(from.ptr, i, elemSize)) == Load(mem, ElemAddr(from.ptr, i, elemSize));
      m := m[ElemAddr(to.ptr, i, elemSize) := Load(m, ElemAddr(from.ptr, i, elemSize))];
      i := i + 1;
    }
    if i < n {
      forall j | i <= j
        ensures j * elemSize >= from.size
      {
        MulIncreases(i, j, elemSize);
      }
    }
  }

  /** Writing only at or above an address that every checkpoint word lies below keeps the chain. */
  lemma WritesAboveKeepChain(frames: seq<Frame>, mem: map<nat, int>, mem': map<nat, int>, base: nat, currentOffset: nat, lastOffset: nat, limit: nat)
    requires FramesValid(frames, mem, base, currentOffset, lastOffset)
    requires forall i :: 0 <= i < |frames| ==> frames[i].slot + WordSize <= limit
    requires forall a: nat :: a < limit ==> Load(mem', a) == Load(mem, a)
    ensures FramesValid(frames, mem', base, currentOffset, lastOffset)
  {
  }

  /**
   * `Guard`: pushes a checkpoint on construction and pops it exactly once when destroyed; the
   * guard it is moved from pops nothing.
   */
  class Guard {
    var allocator: StackAllocator?

    constructor (a: StackAllocator)
      requires a.Valid() && RoundUp(a.base + a.currentOffset, WordSize) + WordSize <= a.base + a.size
      modifies a
      ensures allocator == a && a.Valid()
      ensures a.frames == old(a.frames) + [Frame(old(a.currentOffset), old(a.lastOffset), RoundUp(a.base + old(a.currentOffset), WordSize))]
      ensures a.lastOffset == old(a.currentOffset)
    {
      a.Push();
      allocator := a;
    }

    /** The move constructor: takes over `other`'s allocator and leaves `other` empty. */
    constructor Move(other: Guard)
      modifies other
      ensures allocator == old(other.allocator) && other.allocator == null
    {
      allocator := other.allocator;
      new;
      other.allocator := null;
    }

    /** The destructor: pops once if this guard still owns its checkpoint. */
    method Destroy()
      requires allocator != null ==> allocator.Valid() && allocator.frames != []
      modifies this, allocator
      ensures allocator == null
      ensures old(allocator) != null ==>
        && old(allocator).Valid()
        && old(allocator).frames == old(allocator.frames)[..|old(allocator.frames)| - 1]
        && old(allocator).currentOffset == old(allocator.frames)[|old(allocator.frames)| - 1].savedCurrent
        && old(allocator).lastOffset == old(allocator.frames)[|old(allocator.frames)| - 1].savedLast
    {
      if allocator != null {
        allocator.Pop();
      }
      allocator := null;
    }
  }

  /**
   * `Push`, any allocations, then `Pop`: both offsets come back to their values before `Push`,
   * however much was allocated in between.
   */
  method PushAllocPop(a: StackAllocator, elemSize: nat, elemAlign: nat, counts: seq<nat>)
    requires a.Valid() && elemAlign >= 1
    requires RoundUp(a.base + a.currentOffset, WordSize) + WordSize <= a.base + a.size
    modifies a
    ensures a.Valid() && a.frames == old(a.frames)
    ensures a.currentOffset == old(a.currentOffset) && a.lastOffset == old(a.lastOffset)
  {
    a.Push();
    var i := 0;
    while i < |counts|
      invariant a.Valid() && a.frames == old(a.frames) + [Frame(old(a.currentOffset), old(a.lastOffset), RoundUp(a.base + old(a.currentOffset), WordSize))]
    {
      var _ := a.Alloc(elemSize, elemAlign, counts[i]);
      i := i + 1;
    }
    a.Pop();
  }

  /**
   * The corrected `reallocArray` on the null block `{nullptr, 0}` right after `Push` (which nulls
   * `lastAlloc`): it is not resized in place but bump-allocated past the checkpoint word, so it
   * is non-null and inside the arena exactly when N elements fit there, and it becomes the most
   * recent block.
   */
  method ReallocNullAfterPush(a: StackAllocator, elemSize: nat, elemAlign: nat, n: nat) returns (r: MemoryBlock)
    requires a.Valid() && elemSize >= 1 && elemAlign >= 1
    requires RoundUp(a.base + a.currentOffset, WordSize) + WordSize <= a.base + a.size
    modifies a
    ensures var mark := RoundUp(a.base + old(a.currentOffset), WordSize) + WordSize;
      && (r.ptr != 0 <==> RoundUp(mark, elemAlign) + elemSize * n <= a.base + a.size)
      && (r.ptr != 0 ==> mark <= r.ptr && r.ptr + r.size <= a.base + a.size && r.size == elemSize * n)
    ensures r.ptr != 0 ==> a.lastAlloc == r.ptr && a.currentOffset == r.ptr + r.size - a.base
    ensures r.ptr == 0 ==> a.lastAlloc == 0
  {
    a.Push();
    assert !ResizesInPlace(0, a.lastAlloc);
    r := a.ReallocArray(MemoryBlock(0, 0), elemSize, elemAlign, n);
  }

  /** A guard chain: the guard moved from pops nothing, the last owner pops exactly once. */
  method GuardChainPopsOnce(a: StackAllocator)
    requires a.Valid() && RoundUp(a.base + a.currentOffset, WordSize) + WordSize <= a.base + a.size
    modifies a
    ensures a.Valid() && a.frames == old(a.frames)
    ensures a.currentOffset == old(a.currentOffset) && a.lastOffset == old(a.lastOffset)
  {
    var g := new Guard(a);
    var h := new Guard.Move(g);
    g.Destroy();
    h.Destroy();
  }
}
