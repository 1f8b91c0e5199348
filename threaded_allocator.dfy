/**
 * The sequential logic of `ThreadedLabeledBlockAllocator<BlockLabelType, BlockSize, MaxNumThreads>`:
 * a `LabeledBlockAllocator` underneath, a per-thread chain of tables mapping a label to the
 * `StackAllocator` arena that serves that label's small requests, large requests routed straight
 * to runs of consecutive blocks, and a pool of label records that hands labels out and takes them
 * back.
 *
 * An arena is the value of its three offsets (its buffer address, its size and its current
 * offset); a per-thread table is a map from label to arena, its slot count being `TableSize`;
 * the linked `PerThreadInfo` chain of a thread is the sequence of its tables. The label record
 * lists are sequences, head first. The mutex changes nothing in a sequential reading.
 */
module ThreadedAllocators {
  import opened Wrappers
  import opened BumpArenas
  import opened LabeledBlocks

  /** `InternalDataLabel`: the value-initialised label, kept for the allocator's own records. */
  const InternalDataLabel: int := 0

  /** The slot count of each per-thread table (`HashMap<BlockLabelType, StackAllocator*, 63, ...>`). */
  const TableSize: nat := 63

  // ---------------------------------------------------------------- block arithmetic and routing

  /** `(requestedSize - 1) / BlockSize + 1`: the number of blocks a large request takes. */
  function NumBlocks(bytes: nat, blockSize: nat): nat
    requires bytes >= 1 && blockSize >= 1
  {
    (bytes - 1) / blockSize + 1
  }

  /**
   * `NumBlocks` is the ceiling of `bytes / blockSize`: the fewest blocks that hold the request.
   * These are the assertions `LargeAlloc` makes about it; it exceeds 1 exactly when the request
   * is larger than one block.
   */
  lemma NumBlocksIsCeiling(bytes: nat, blockSize: nat)
    requires bytes >= 1 && blockSize >= 1
    ensures blockSize * (NumBlocks(bytes, blockSize) - 1) < bytes <= blockSize * NumBlocks(bytes, blockSize)
    ensures NumBlocks(bytes, blockSize) > 1 <==> bytes > blockSize
  {
    var q := (bytes - 1) / blockSize;
    assert q * blockSize <= bytes - 1 < q * blockSize + blockSize;
    assert blockSize * (NumBlocks(bytes, blockSize) - 1) == q * blockSize;
    assert blockSize * NumBlocks(bytes, blockSize) == q * blockSize + blockSize;
    if q >= 1 {
      assert q * blockSize >= blockSize;
    }
  }

  /** No smaller number of blocks holds the request. */
  lemma NumBlocksIsLeast(bytes: nat, blockSize: nat, k: nat)
    requires bytes >= 1 && blockSize >= 1
    requires blockSize * k >= bytes
    ensures k >= NumBlocks(bytes, blockSize)
  {
    NumBlocksIsCeiling(bytes, blockSize);
    if k < NumBlocks(bytes, blockSize) {
      MulMonotone(k, NumBlocks(bytes, blockSize) - 1, blockSize);
    }
  }

  lemma MulMonotone(i: nat, j: nat, m: nat)
    requires i <= j
    ensures m * i <= m * j
  {
    assert m * j == m * i + m * (j - i);
  }

  /** Where `alloc` sends a request: the thread's arena for its label, or a run of blocks. */
  datatype Route = ThreadArena | ConsecutiveBlocks(count: nat)

  /**
   * The routing of `alloc`: below one block to the arena, above it to as many whole blocks as
   * the request needs. A request of exactly one block fails an assertion of `LargeAlloc`.
   */
  function RouteOf(bytes: nat, blockSize: nat): (r: Route)
    requires blockSize >= 1 && bytes != blockSize
    ensures r == ThreadArena <==> bytes < blockSize
    ensures r.ConsecutiveBlocks? ==>
      && r.count >= 2
      && blockSize * (r.count - 1) < bytes <= blockSize * r.count
  {
    if bytes < blockSize then ThreadArena
    else
      NumBlocksIsCeiling(bytes, blockSize);
      ConsecutiveBlocks(NumBlocks(bytes, blockSize))
  }

  // ---------------------------------------------------------------- arenas

  /** A `StackAllocator` as the thread tables see it: buffer address, size, current offset. */
  datatype ArenaState = ArenaState(base: nat, size: nat, offset: nat)

  /** `StackAllocator(nullptr, 0)`: what `Free` leaves in place of a label's arena. */
  const EmptyArena := ArenaState(0, 0, 0)

  /**
   * `StackAllocator::alloc`: the aligned block and the arena after it, or `{nullptr, 0}` and
   * the arena unchanged when the request does not fit.
   */
  function ArenaAlloc(a: ArenaState, align: nat, bytes: nat): (r: (MemoryBlock, ArenaState))
    requires align >= 1
  {
    match Bump(a.base, a.size, a.offset, align, bytes)
    case None => (MemoryBlock(0, 0), a)
    case Some((ptr, end)) => (MemoryBlock(ptr, bytes), a.(offset := end))
  }

  /**
   * A non-null block from an arena lies inside the arena, is aligned, and is the arena's most
   * recent block; a null result leaves the arena as it was or (from a null arena) only moves
   * its offset.
   */
  lemma ArenaAllocInside(a: ArenaState, align: nat, bytes: nat)
    requires align >= 1
    ensures var (p, a') := ArenaAlloc(a, align, bytes);
      && a'.base == a.base && a'.size == a.size && a.offset <= a'.offset
      && (p.ptr != 0 ==>
            && p.size == bytes && p.ptr % align == 0
            && a.base + a.offset <= p.ptr && p.ptr + bytes == a.base + a'.offset && a'.offset <= a.size)
  {
  }

  /** `StackAllocator(block, BlockSize)` over the block `GetBlock` returned (null when none). */
  function FreshArena(block: Option<int>, buffer: nat, blockSize: nat): ArenaState
    requires block.Some? ==> block.value >= 0
  {
    ArenaState(if block.None? then 0 else buffer + block.value * blockSize, blockSize, 0)
  }

  /**
   * A fresh arena over an aligned block serves any request of at most one block: the source's
   * assertion after `RefillAllocator` holds whenever the free list still had a block.
   */
  lemma FreshArenaServes(b: nat, buffer: nat, blockSize: nat, align: nat, bytes: nat)
    requires align >= 1 && buffer >= 1 && bytes <= blockSize
    requires buffer % align == 0 && blockSize % align == 0
    ensures var (p, a') := ArenaAlloc(FreshArena(Some(b), buffer, blockSize), align, bytes);
      p == MemoryBlock(buffer + b * blockSize, bytes) && a'.offset == bytes
  {
    var addr := buffer + b * blockSize;
    AlignedSum(buffer, b, blockSize, align);
    RoundUpOfMultiple(addr, align);
  }

  lemma AlignedSum(buffer: nat, b: nat, blockSize: nat, align: nat)
    requires align >= 1 && buffer % align == 0 && blockSize % align == 0
    ensures (buffer + b * blockSize) % align == 0
  {
    var p := buffer / align;
    var q := blockSize / align;
    assert buffer == p * align;
    assert blockSize == q * align;
    assert b * blockSize == (b * q) * align;
    assert buffer + b * blockSize == (p + b * q) * align;
    MultipleMod(p + b * q, align);
  }

  lemma RoundUpOfMultiple(x: nat, a: nat)
    requires a >= 1 && x % a == 0
    ensures RoundUp(x, a) == x
  {
    RoundUpIsLeastMultiple(x, a);
    var r := RoundUp(x, a);
    var k := r / a;
    var m := x / a;
    assert r == k * a && x == m * a;
    if k > m {
      MulMonotone(m + 1, k, a);
    } else if k < m {
      MulMonotone(k + 1, m, a);
    }
  }

  /** After `Free`, the reset arena refuses every request, so the next one refills it. */
  lemma EmptyArenaRefuses(align: nat, bytes: nat)
    requires align >= 1
    ensures ArenaAlloc(EmptyArena, align, bytes).0.ptr == 0
  {
  }

  // ---------------------------------------------------------------- per-thread table chains

  /** One `PerThreadInfo`'s `memoryAllocators` table: label to arena. */
  type Table = map<int, ArenaState>

  /** `Occupancy() < 0.66f` for a table holding `count` labels out of `TableSize` slots. */
  predicate HasRoom(count: nat) {
    count * 100 < 66 * TableSize
  }

  /** The first table of the chain that holds `label`. */
  function Find(chain: seq<Table>, blockLabel: int): (r: Option<nat>)
    ensures r.Some? ==> r.value < |chain| && blockLabel in chain[r.value]
    ensures forall i :: 0 <= i < |chain| && (r.None? || i < r.value) ==> blockLabel !in chain[i]
  {
    if chain == [] then None
    else if blockLabel in chain[0] then Some(0)
    else match Find(chain[1..], blockLabel)
      case None => None
      case Some(k) => Some(k + 1)
  }

  /** The first table of the chain with room for one more label (`|chain|` when none has). */
  function FirstRoom(chain: seq<Table>): (r: nat)
    ensures r <= |chain|
    ensures r < |chain| ==> HasRoom(|chain[r]|)
    ensures forall i :: 0 <= i < r ==> !HasRoom(|chain[i]|)
  {
    if chain == [] then 0
    else if HasRoom(|chain[0]|) then 0
    else FirstRoom(chain[1..]) + 1
  }

  /**
   * The chain's invariant: a table got its last label while it still had room; a table holds
   * labels only once all tables before it are out of room; no label is in two tables; the
   * internal label is never a key.
   */
  ghost predicate ChainValid(chain: seq<Table>) {
    && (forall i :: 0 <= i < |chain| ==> |chain[i]| == 0 || HasRoom(|chain[i]| - 1))
    && (forall i, j :: 0 <= i < j < |chain| && |chain[j]| > 0 ==> !HasRoom(|chain[i]|))
    && (forall i, j, l :: 0 <= i < j < |chain| && l in chain[j] ==> l !in chain[i])
    && (forall i, l :: 0 <= i < |chain| && l in chain[i] ==> l != InternalDataLabel)
  }

  /** The arena of a label the chain holds. */
  function ArenaOf(chain: seq<Table>, blockLabel: int): ArenaState
    requires Find(chain, blockLabel).Some?
  {
    chain[Find(chain, blockLabel).value][blockLabel]
  }

  /** The chain with the arena of a label it holds replaced. */
  function Store(chain: seq<Table>, blockLabel: int, a: ArenaState): seq<Table>
    requires Find(chain, blockLabel).Some?
  {
    var i := Find(chain, blockLabel).value;
    chain[i := chain[i][blockLabel := a]]
  }

  /** `PerThreadInfo` appended when every table is out of room (an empty table). */
  function Extended(chain: seq<Table>): seq<Table> {
    if FirstRoom(chain) < |chain| then chain else chain + [map[]]
  }

  /** `Reserve(label)` in the first table with room, holding the arena `a`. */
  function Reserved(chain: seq<Table>, blockLabel: int, a: ArenaState): seq<Table> {
    var c := Extended(chain);
    var i := FirstRoom(chain);
    c[i := c[i][blockLabel := a]]
  }

  /** Two chains whose tables have the same keys find every label in the same table. */
  lemma {:induction false} SameKeysSameFind(c1: seq<Table>, c2: seq<Table>, blockLabel: int)
    requires |c1| == |c2|
    requires forall i :: 0 <= i < |c1| ==> c1[i].Keys == c2[i].Keys
    ensures Find(c1, blockLabel) == Find(c2, blockLabel)
  {
    if c1 != [] {
      SameKeysSameFind(c1[1..], c2[1..], blockLabel);
    }
  }

  /** Tables with the same keys as those of a valid chain make a valid chain. */
  lemma SameKeysValid(c1: seq<Table>, c2: seq<Table>)
    requires ChainValid(c1) && |c1| == |c2|
    requires forall i :: 0 <= i < |c1| ==> c1[i].Keys == c2[i].Keys
    ensures ChainValid(c2)
  {
    forall i | 0 <= i < |c1| ensures |c2[i]| == |c1[i]| {
      assert |c2[i]| == |c2[i].Keys| && |c1[i]| == |c1[i].Keys|;
    }
    forall i, j, l | 0 <= i < j < |c2| && l in c2[j] ensures l !in c2[i] {
      assert l in c1[j];
    }
  }

  /**
   * Replacing the arena of a held label keeps the chain's invariant and every lookup; the label
   * then has the new arena and every other label its old one.
   */
  lemma StoreKeeps(chain: seq<Table>, blockLabel: int, a: ArenaState)
    requires ChainValid(chain) && Find(chain, blockLabel).Some?
    ensures ChainValid(Store(chain, blockLabel, a))
    ensures forall l :: Find(Store(chain, blockLabel, a), l) == Find(chain, l)
    ensures ArenaOf(Store(chain, blockLabel, a), blockLabel) == a
    ensures forall l :: l != blockLabel && Find(chain, l).Some? ==> ArenaOf(Store(chain, blockLabel, a), l) == ArenaOf(chain, l)
  {
    var c := Store(chain, blockLabel, a);
    var i := Find(chain, blockLabel).value;
    assert c[i].Keys == chain[i].Keys;
    assert forall k :: 0 <= k < |chain| ==> c[k].Keys == chain[k].Keys;
    SameKeysValid(chain, c);
    forall l ensures Find(c, l) == Find(chain, l) {
      SameKeysSameFind(c, chain, l);
    }
  }

  /**
   * Appending an empty table to a chain with no room keeps its invariant and its lookups; the
   * first table with room is then the same index, and every table after it is empty.
   */
  lemma ExtendedKeeps(chain: seq<Table>)
    requires ChainValid(chain)
    ensures ChainValid(Extended(chain))
    ensures forall l :: Find(Extended(chain), l) == Find(chain, l)
    ensures FirstRoom(chain) < |Extended(chain)| && |Extended(chain)| <= |chain| + 1
    ensures Extended(chain)[..|chain|] == chain
    ensures HasRoom(|Extended(chain)[FirstRoom(chain)]|)
    ensures forall j :: FirstRoom(chain) < j < |Extended(chain)| ==> Extended(chain)[j] == map[]
  {
    var c := Extended(chain);
    var i := FirstRoom(chain);
    if i == |chain| {
      AppendEmptyKeeps(chain);
    } else {
      assert forall j :: i < j < |c| ==> |c[j]| == 0;
    }
  }

  /** A chain with an empty table appended is valid and finds every label where it was. */
  lemma AppendEmptyKeeps(chain: seq<Table>)
    requires ChainValid(chain)
    ensures ChainValid(chain + [map[]])
    ensures forall l :: Find(chain + [map[]], l) == Find(chain, l)
  {
    var c := chain + [map[]];
    AppendEmptyValid(chain);
    forall l ensures Find(c, l) == Find(chain, l) {
      match Find(chain, l)
      case Some(k) => FindIn(c, l, k);
      case None => FindNone(c, l);
    }
  }

  lemma AppendEmptyValid(chain: seq<Table>)
    requires ChainValid(chain)
    ensures ChainValid(chain + [map[]])
  {
    var c := chain + [map[]];
    assert forall k :: 0 <= k < |chain| ==> c[k] == chain[k];
  }

  /**
   * Adding an absent label to the first table with room of a chain whose later tables are
   * empty keeps the chain's invariant.
   */
  lemma InsertKeeps(c: seq<Table>, i: nat, blockLabel: int, a: ArenaState)
    requires ChainValid(c) && i < |c| && HasRoom(|c[i]|)
    requires forall k :: 0 <= k < i ==> !HasRoom(|c[k]|)
    requires forall j :: i < j < |c| ==> c[j] == map[]
    requires forall k :: 0 <= k < |c| ==> blockLabel !in c[k]
    requires blockLabel != InternalDataLabel
    ensures ChainValid(c[i := c[i][blockLabel := a]])
  {
    var r := c[i := c[i][blockLabel := a]];
    assert |r[i]| == |c[i]| + 1;
    forall k, j | 0 <= k < j < |r| && |r[j]| > 0 ensures !HasRoom(|r[k]|) {
      assert j <= i;
    }
    forall k, j, l | 0 <= k < j < |r| && l in r[j] ensures l !in r[k] {
      assert j <= i;
      if j < i {
        assert l in c[j];
      }
    }
  }

  /**
   * Reserving an absent label in the first table with room keeps the chain's invariant, finds
   * the label in that table with the arena `a`, and keeps every other label where it was. The
   * table had fewer than four fifths of its slots taken, as `Reserve` asserts.
   */
  lemma ReservedKeeps(chain: seq<Table>, blockLabel: int, a: ArenaState)
    requires ChainValid(chain) && Find(chain, blockLabel).None? && blockLabel != InternalDataLabel
    ensures |Extended(chain)[FirstRoom(chain)]| < TableSize * 4 / 5
    ensures ChainValid(Reserved(chain, blockLabel, a))
    ensures Find(Reserved(chain, blockLabel, a), blockLabel) == Some(FirstRoom(chain))
    ensures ArenaOf(Reserved(chain, blockLabel, a), blockLabel) == a
    ensures forall l :: l != blockLabel ==> Find(Reserved(chain, blockLabel, a), l) == Find(chain, l)
    ensures forall l :: l != blockLabel && Find(chain, l).Some? ==> ArenaOf(Reserved(chain, blockLabel, a), l) == ArenaOf(chain, l)
  {
    var c := Extended(chain);
    var i := FirstRoom(chain);
    var r := Reserved(chain, blockLabel, a);
    ExtendedKeeps(chain);
    assert forall k :: 0 <= k < |c| ==> blockLabel !in c[k] by {
      assert Find(c, blockLabel).None?;
    }
    InsertKeeps(c, i, blockLabel, a);
    FindIn(r, blockLabel, i);
    forall l | l != blockLabel
      ensures Find(r, l) == Find(chain, l)
      ensures Find(chain, l).Some? ==> ArenaOf(r, l) == ArenaOf(chain, l)
    {
      FindAdded(chain, blockLabel, a, l);
      if Find(chain, l).Some? {
        ReservedArenaOf(chain, blockLabel, a, l);
      }
    }
  }

  /** Reserving one label leaves the arena of another label, found in the same table, as it was. */
  lemma ReservedArenaOf(chain: seq<Table>, blockLabel: int, a: ArenaState, l: int)
    requires l != blockLabel && Find(chain, l).Some?
    requires Find(Reserved(chain, blockLabel, a), l) == Find(chain, l)
    ensures ArenaOf(Reserved(chain, blockLabel, a), l) == ArenaOf(chain, l)
  {
    var j := Find(chain, l).value;
    var c := Extended(chain);
    if FirstRoom(chain) == |chain| {
      assert c[j] == (chain + [map[]])[j] == chain[j];
    }
  }

  /** A label in table i and in no table before it is found in table i. */
  lemma {:induction false} FindIn(chain: seq<Table>, blockLabel: int, i: nat)
    requires i < |chain| && blockLabel in chain[i]
    requires forall k :: 0 <= k < i ==> blockLabel !in chain[k]
    ensures Find(chain, blockLabel) == Some(i)
  {
    if i > 0 {
      FindIn(chain[1..], blockLabel, i - 1);
    }
  }

  /** A label absent from every table is found nowhere. */
  lemma {:induction false} FindNone(chain: seq<Table>, blockLabel: int)
    requires forall k :: 0 <= k < |chain| ==> blockLabel !in chain[k]
    ensures Find(chain, blockLabel) == None
  {
    if chain != [] {
      FindNone(chain[1..], blockLabel);
    }
  }

  /** Adding one label to a table with room, all later tables empty, moves no other label. */
  lemma FindAdded(chain: seq<Table>, blockLabel: int, a: ArenaState, l: int)
    requires l != blockLabel
    requires FirstRoom(chain) < |Extended(chain)|
    requires forall j :: FirstRoom(chain) < j < |Extended(chain)| ==> Extended(chain)[j] == map[]
    ensures Find(Reserved(chain, blockLabel, a), l) == Find(chain, l)
  {
    var c := Extended(chain);
    var i := FirstRoom(chain);
    var r := Reserved(chain, blockLabel, a);
    match Find(chain, l)
    case Some(k) =>
      assert l in r[k];
      FindIn(r, l, k);
    case None =>
      forall k | 0 <= k < |r| ensures l !in r[k] {
        if k < |chain| {
          assert l !in chain[k];
        }
      }
      FindNone(r, l);
  }

  /**
   * The table search of `GetStackAllocator`: walk the chain and stop at the table holding
   * `label`, or at the first table with room to reserve it in; an empty chain, or one whose
   * last table is out of room, gets an empty table appended.
   */
  method Locate(chain: seq<Table>, blockLabel: int) returns (chain': seq<Table>, i: nat, found: bool)
    requires ChainValid(chain)
    ensures found <==> Find(chain, blockLabel).Some?
    ensures found ==> chain' == chain && i == Find(chain, blockLabel).value
    ensures !found ==> chain' == Extended(chain) && i == FirstRoom(chain) && i < |chain'|
  {
    chain' := chain;
    i := 0;
    while true
      invariant chain' == chain && i <= |chain|
      invariant forall k :: 0 <= k < i ==> blockLabel !in chain[k] && !HasRoom(|chain[k]|)
      decreases |chain| - i
    {
      if i == |chain'| {
        chain' := chain' + [map[]];
      }
      if blockLabel in chain'[i] {
        FindIn(chain, blockLabel, i);
        return chain', i, true;
      }
      if HasRoom(|chain'[i]|) {
        FirstRoomAt(chain', i);
        if i < |chain| {
          assert forall k :: i < k < |chain| ==> |chain[k]| == 0;
          FirstRoomAt(chain, i);
        }
        FindNone(chain, blockLabel);
        return chain', i, false;
      }
      i := i + 1;
    }
  }

  /** With no room before table i and room in it, `FirstRoom` is i. */
  lemma {:induction false} FirstRoomAt(chain: seq<Table>, i: nat)
    requires i < |chain| && HasRoom(|chain[i]|)
    requires forall k :: 0 <= k < i ==> !HasRoom(|chain[k]|)
    ensures FirstRoom(chain) == i
  {
    if i > 0 {
      FirstRoomAt(chain[1..], i - 1);
    }
  }

  /** An arena of a held label is replaced by the empty one; other chains are returned as they are. */
  function Reset(chain: seq<Table>, blockLabel: int): seq<Table> {
    if Find(chain, blockLabel).Some? then Store(chain, blockLabel, EmptyArena) else chain
  }

  /** The chain search of `Free`: the first table holding the label gets the empty arena. */
  method ResetIn(chain: seq<Table>, blockLabel: int) returns (chain': seq<Table>)
    ensures chain' == Reset(chain, blockLabel)
  {
    chain' := chain;
    var i := 0;
    while i < |chain|
      invariant i <= |chain| && chain' == chain
      invariant forall k :: 0 <= k < i ==> blockLabel !in chain[k]
    {
      if blockLabel in chain[i] {
        FindIn(chain, blockLabel, i);
        chain' := chain[i := chain[i][blockLabel := EmptyArena]];
        return;
      }
      i := i + 1;
    }
    FindNone(chain, blockLabel);
  }

  /** The thread loop of `Free`: every thread's chain is reset for the label. */
  method ResetAll(chains: seq<seq<Table>>, blockLabel: int) returns (chains': seq<seq<Table>>)
    ensures |chains'| == |chains|
    ensures forall t :: 0 <= t < |chains| ==> chains'[t] == Reset(chains[t], blockLabel)
  {
    chains' := chains;
    for t := 0 to |chains|
      invariant |chains'| == |chains|
      invariant forall u :: 0 <= u < t ==> chains'[u] == Reset(chains[u], blockLabel)
      invariant forall u :: t <= u < |chains| ==> chains'[u] == chains[u]
    {
      var c := ResetIn(chains'[t], blockLabel);
      chains' := chains'[t := c];
    }
  }

  /** Resetting a label keeps the chain's invariant and every lookup. */
  lemma ResetKeeps(chain: seq<Table>, blockLabel: int)
    requires ChainValid(chain)
    ensures ChainValid(Reset(chain, blockLabel))
    ensures forall l :: Find(Reset(chain, blockLabel), l) == Find(chain, l)
    ensures Find(chain, blockLabel).Some? ==> ArenaOf(Reset(chain, blockLabel), blockLabel) == EmptyArena
  {
    if Find(chain, blockLabel).Some? {
      StoreKeeps(chain, blockLabel, EmptyArena);
    }
  }

  /** Every label other than `blockLabel` is found where it was, with the arena it had. */
  ghost predicate OthersKept(c: seq<Table>, c': seq<Table>, blockLabel: int) {
    forall l :: l != blockLabel ==> Find(c', l) == Find(c, l) && (Find(c, l).Some? ==> ArenaOf(c', l) == ArenaOf(c, l))
  }

  /**
   * The block lists after k calls of `GetBlock(blockLabel)` that all found a free block: the
   * first k free blocks moved, most recent first, to the head of the in-use list, each stamped
   * with the label, and nothing else changed.
   */
  ghost predicate Drew(free: seq<int>, used: seq<int>, names: seq<int>,
                       free': seq<int>, used': seq<int>, names': seq<int>, blockLabel: int) {
    && |free'| <= |free|
    && var k := |free| - |free'|;
    && free' == free[k..]
    && used' == Reverse(free[..k]) + used
    && |names'| == |names|
    && forall b :: 0 <= b < |names| ==> names'[b] == if b in free[..k] then blockLabel else names[b]
  }

  lemma DrewNothing(free: seq<int>, used: seq<int>, names: seq<int>, blockLabel: int)
    ensures Drew(free, used, names, free, used, names, blockLabel)
  {
    assert free[..0] == [] && free[0..] == free;
  }

  /** One more successful `GetBlock` after a run of them. */
  lemma DrewOneMore(free: seq<int>, used: seq<int>, names: seq<int>,
                    free': seq<int>, used': seq<int>, names': seq<int>, blockLabel: int)
    requires Drew(free, used, names, free', used', names', blockLabel)
    requires free' != [] && 0 <= free'[0] < |names'|
    ensures Drew(free, used, names, free'[1..], [free'[0]] + used', names'[free'[0] := blockLabel], blockLabel)
  {
    var k := |free| - |free'|;
    var x := free'[0];
    assert free[k] == x;
    assert free[..k + 1] == free[..k] + [x];
    assert free[..k + 1][..k] == free[..k];
    assert free[k + 1..] == free'[1..];
    forall b | 0 <= b < |names| ensures names'[x := blockLabel][b] == if b in free[..k + 1] then blockLabel else names[b] {
      assert b in free[..k + 1] <==> b in free[..k] || b == x;
    }
  }

  /** A `GetBlock` that `take` lets through, after a run of successful ones. */
  lemma TookHeadDrew(free: seq<int>, used: seq<int>, names: seq<int>,
                     free': seq<int>, used': seq<int>, names': seq<int>,
                     free'': seq<int>, used'': seq<int>, names'': seq<int>, blockLabel: int, take: bool)
    requires Drew(free, used, names, free', used', names', blockLabel)
    requires TookHead(free', used', names', free'', used'', names'', blockLabel, take)
    ensures Drew(free, used, names, free'', used'', names'', blockLabel)
    ensures free'' == Rest(free', take)
  {
    if take && free' != [] {
      DrewOneMore(free, used, names, free', used', names', blockLabel);
    }
  }

  /** A record of the label pool: the label and the system it was handed out to. */
  datatype LabelRecord = LabelRecord(blockLabel: int, systemName: string)

  /** The in-place test of the large branch of `reallocArray`. */
  datatype ReallocPlan = InPlace | Move

  /**
   * The large branch of `reallocArray` as written: the old block count is computed from the
   * new request rather than from the old block, so the test only looks at the new size.
   */
  function LargeReallocPlanAsWritten(oldSize: nat, bytes: nat, blockSize: nat): ReallocPlan
    requires blockSize >= 1 && bytes >= blockSize
  {
    var oldNumBlocks := NumBlocks(bytes, blockSize);
    var numBlocks := NumBlocks(bytes, blockSize);
    if oldNumBlocks > 1 && oldNumBlocks == numBlocks then InPlace else Move
  }

  /**
   * As written, every request larger than one block keeps the old pointer, whatever the old
   * block's size: a 16-byte arena block grown to three 4096-byte blocks stays where it is and
   * is reported as 12288 bytes, overrunning the 16 bytes it owns. The corrected plan moves
   * any block no larger than one block.
   */
  lemma LargeReallocAsWrittenOverruns(oldSize: nat, bytes: nat, blockSize: nat)
    requires blockSize >= 1 && bytes > blockSize
    ensures LargeReallocPlanAsWritten(oldSize, bytes, blockSize) == InPlace
    ensures oldSize <= blockSize ==> LargeReallocPlan(oldSize, bytes, blockSize) == Move
  {
    NumBlocksIsCeiling(bytes, blockSize);
    LargeReallocStaysInside(oldSize, bytes, blockSize);
  }

  /** The large branch with the old block count taken from the old block's size. */
  function LargeReallocPlan(oldSize: nat, bytes: nat, blockSize: nat): ReallocPlan
    requires blockSize >= 1 && bytes >= blockSize
  {
    if oldSize >= 1 && NumBlocks(oldSize, blockSize) > 1 && NumBlocks(oldSize, blockSize) == NumBlocks(bytes, blockSize)
    then InPlace else Move
  }

  /**
   * The corrected branch keeps a block in place only when it came from a run of at least two
   * blocks the new size still fits in: a block `LargeAlloc` returned (its size a whole number
   * of blocks) is never overrun, and an arena block always moves.
   */
  lemma LargeReallocStaysInside(oldSize: nat, bytes: nat, blockSize: nat)
    requires blockSize >= 1 && bytes >= blockSize
    ensures LargeReallocPlan(oldSize, bytes, blockSize) == InPlace ==>
      oldSize > blockSize && bytes <= blockSize * NumBlocks(oldSize, blockSize)
    ensures LargeReallocPlan(oldSize, bytes, blockSize) == InPlace && oldSize % blockSize == 0 ==> bytes <= oldSize
    ensures oldSize <= blockSize ==> LargeReallocPlan(oldSize, bytes, blockSize) == Move
  {
    if oldSize >= 1 {
      NumBlocksIsCeiling(oldSize, blockSize);
      NumBlocksIsCeiling(bytes, blockSize);
      if LargeReallocPlan(oldSize, bytes, blockSize) == InPlace && oldSize % blockSize == 0 {
        var q := oldSize / blockSize;
        assert oldSize == q * blockSize;
        assert (oldSize - 1) / blockSize == q - 1 by {
          DivOfBounded(oldSize - 1, blockSize, q - 1);
        }
      }
    }
  }

  /** The quotient of n by a is the q with q * a <= n < q * a + a. */
  lemma DivOfBounded(n: nat, a: nat, q: nat)
    requires a >= 1 && q * a <= n < q * a + a
    ensures n / a == q
  {
    var d := n / a;
    var r := n % a;
    assert n == d * a + r && 0 <= r < a;
    if d < q {
      MulMonotone(d + 1, q, a);
    } else if d > q {
      MulMonotone(q + 1, d, a);
    }
  }

  /** Every block index on the list is a natural number. */
  predicate NonNegative(free: seq<int>) {
    forall i :: 0 <= i < |free| ==> free[i] >= 0
  }

  /** What `GetBlock` returns for a free list: its head, or null. */
  function Head(free: seq<int>): (r: Option<int>)
    ensures r.None? <==> free == []
  {
    if free == [] then None else Some(free[0])
  }

  /**
   * The block lists after `GetBlock(blockLabel)` when `take` holds, unchanged otherwise: the
   * head of the free list, if any, moves to the head of the in-use list with the label.
   */
  ghost predicate TookHead(free: seq<int>, used: seq<int>, names: seq<int>,
                           free': seq<int>, used': seq<int>, names': seq<int>, blockLabel: int, take: bool) {
    if take && free != [] then
      && 0 <= free[0] < |names|
      && free' == free[1..] && used' == [free[0]] + used && names' == names[free[0] := blockLabel]
    else
      free' == free && used' == used && names' == names
  }

  /**
   * The chain after `GetStackAllocator`: as it was when it holds the label, else with the label
   * reserved over a fresh arena on `next`, the block `GetBlock` hands out.
   */
  function Located(chain: seq<Table>, blockLabel: int, next: Option<int>, buffer: nat, blockSize: nat): seq<Table>
    requires next.Some? ==> next.value >= 0
  {
    if Find(chain, blockLabel).Some? then chain
    else Reserved(chain, blockLabel, FreshArena(next, buffer, blockSize))
  }

  /**
   * The arena step of `InnerAlloc` on the label's arena `a`, with `next` the block `GetBlock`
   * would hand out: `a`'s own block when it is not null; otherwise the block of the arena
   * rebuilt over `next`. Also the arena afterwards and whether it was rebuilt.
   */
  function ServeStep(a: ArenaState, next: Option<int>, buffer: nat, blockSize: nat, align: nat, bytes: nat): (MemoryBlock, ArenaState, bool)
    requires align >= 1 && (next.Some? ==> next.value >= 0)
  {
    var (p, a1) := ArenaAlloc(a, align, bytes);
    if p.ptr != 0 then (p, a1, false)
    else
      var (p2, a2) := ArenaAlloc(FreshArena(next, buffer, blockSize), align, bytes);
      (p2, a2, true)
  }

  /** The free list after `GetBlock` when `take` holds. */
  function Rest(free: seq<int>, take: bool): seq<int> {
    if take && free != [] then free[1..] else free
  }

  /**
   * `InternalAlloc<T>()` for each size in turn, starting from the internal arena `a` and the free
   * list: the internal arena afterwards and the number of blocks drawn for the internal label
   * (one for each allocation the arena refuses). None when an allocation finds neither room
   * nor a free block: the source's refill loop then never ends.
   */
  function InternalPlan(a: ArenaState, free: seq<int>, sizes: seq<nat>, buffer: nat, blockSize: nat): (r: Option<(ArenaState, nat)>)
    requires NonNegative(free)
    ensures r.Some? ==> r.value.1 <= |free| && r.value.1 <= |sizes|
    ensures sizes != [] && free == [] && ArenaAlloc(a, WordSize, sizes[0]).0.ptr == 0 ==> r == None
    decreases |sizes|
  {
    if sizes == [] then Some((a, 0))
    else
      var (p, a1, refilled) := ServeStep(a, Head(free), buffer, blockSize, WordSize, sizes[0]);
      var free1 := Rest(free, refilled);
      if p.ptr == 0 then None
      else match InternalPlan(a1, free1, sizes[1..], buffer, blockSize)
        case None => None
        case Some((a2, k)) => Some((a2, k + (|free| - |free1|)))
  }

  /** A plan's outcome with `d` more blocks drawn. */
  function Shifted(plan: (ArenaState, nat), d: int): (ArenaState, nat)
    requires plan.1 + d >= 0
  {
    (plan.0, plan.1 + d)
  }

  /**
   * Part of a plan has run, leaving the arena `a` and the free list `free` with `rest` still to
   * allocate: the rest ends, and where it ends, with the blocks drawn so far counted from a list
   * of `n0` blocks, is `plan0`.
   */
  ghost predicate PlanLeft(plan0: (ArenaState, nat), n0: int, a: ArenaState, free: seq<int>, rest: seq<nat>, buffer: nat, blockSize: nat)
  {
    && NonNegative(free)
    && InternalPlan(a, free, rest, buffer, blockSize).Some?
    && InternalPlan(a, free, rest, buffer, blockSize).value.1 + (n0 - |free|) >= 0
    && plan0 == Shifted(InternalPlan(a, free, rest, buffer, blockSize).value, n0 - |free|)
  }

  /**
   * A plan that ends, after its first allocation has left the arena `a'` and the free list
   * `free'`: that allocation succeeds, and the rest of the plan ends where the whole plan does.
   */
  lemma PlanAfterStep(plan0: (ArenaState, nat), n0: int, a: ArenaState, free: seq<int>, sizes: seq<nat>, buffer: nat, blockSize: nat,
                      a': ArenaState, free': seq<int>, rest: seq<nat>)
    requires PlanLeft(plan0, n0, a, free, sizes, buffer, blockSize) && sizes != [] && rest == sizes[1..]
    requires var (_, a1, refilled) := ServeStep(a, Head(free), buffer, blockSize, WordSize, sizes[0]);
      a' == a1 && free' == Rest(free, refilled)
    ensures ServeStep(a, Head(free), buffer, blockSize, WordSize, sizes[0]).0.ptr != 0
    ensures PlanLeft(plan0, n0, a', free', rest, buffer, blockSize)
  {
  }

  /**
   * With a free block for every internal allocation, each of at most one block, in a buffer whose
   * blocks are word-aligned, the refill loop always ends.
   */
  lemma {:induction false} InternalPlanFits(a: ArenaState, free: seq<int>, sizes: seq<nat>, buffer: nat, blockSize: nat)
    requires NonNegative(free) && |sizes| <= |free|
    requires buffer >= 1 && buffer % WordSize == 0 && blockSize % WordSize == 0
    requires forall j :: 0 <= j < |sizes| ==> sizes[j] <= blockSize
    ensures InternalPlan(a, free, sizes, buffer, blockSize).Some?
    decreases |sizes|
  {
    if sizes != [] {
      ServeStepServes(a, Head(free), buffer, blockSize, WordSize, sizes[0]);
      var (p, a1, refilled) := ServeStep(a, Head(free), buffer, blockSize, WordSize, sizes[0]);
      InternalPlanFits(a1, Rest(free, refilled), sizes[1..], buffer, blockSize);
    }
  }

  /**
   * The whole of `InnerAlloc` on values, for a thread's chain and the free list: the block
   * returned and the chain afterwards.
   */
  function InnerStep(chain: seq<Table>, blockLabel: int, free: seq<int>, buffer: nat, blockSize: nat, align: nat, bytes: nat): (MemoryBlock, seq<Table>)
    requires ChainValid(chain) && blockLabel != InternalDataLabel && align >= 1 && NonNegative(free)
  {
    var reserve := Find(chain, blockLabel).None?;
    var chain1 := Located(chain, blockLabel, Head(free), buffer, blockSize);
    var free1 := Rest(free, reserve);
    assert Find(chain1, blockLabel).Some? by {
      if reserve {
        ReservedKeeps(chain, blockLabel, FreshArena(Head(free), buffer, blockSize));
      }
    }
    var (r, a, _) := ServeStep(ArenaOf(chain1, blockLabel), Head(free1), buffer, blockSize, align, bytes);
    (r, Store(chain1, blockLabel, a))
  }

  /** `InnerStep` as the two steps it is made of, with `free1` the free list between them. */
  lemma InnerStepSplits(chain: seq<Table>, blockLabel: int, free: seq<int>, free1: seq<int>, buffer: nat, blockSize: nat, align: nat, bytes: nat)
    requires ChainValid(chain) && blockLabel != InternalDataLabel && align >= 1 && NonNegative(free)
    requires free1 == Rest(free, Find(chain, blockLabel).None?)
    ensures NonNegative(free1) && Find(Located(chain, blockLabel, Head(free), buffer, blockSize), blockLabel).Some?
    ensures var chain1 := Located(chain, blockLabel, Head(free), buffer, blockSize);
      var (r, a, _) := ServeStep(ArenaOf(chain1, blockLabel), Head(free1), buffer, blockSize, align, bytes);
      InnerStep(chain, blockLabel, free, buffer, blockSize, align, bytes) == (r, Store(chain1, blockLabel, a))
  {
    if Find(chain, blockLabel).None? {
      ReservedKeeps(chain, blockLabel, FreshArena(Head(free), buffer, blockSize));
    }
  }

  /**
   * A non-null block from the arena step is the most recent block of the arena afterwards; when
   * the label's arena serves the request itself nothing is rebuilt; with a block `next` and an
   * alignment the blocks keep, the result is never null.
   */
  lemma ServeStepServes(a: ArenaState, next: Option<int>, buffer: nat, blockSize: nat, align: nat, bytes: nat)
    requires align >= 1 && (next.Some? ==> next.value >= 0)
    ensures var (r, a', refilled) := ServeStep(a, next, buffer, blockSize, align, bytes);
      && (r.ptr != 0 ==> LastBlockOf(a', r, align, bytes))
      && (!refilled <==> ArenaAlloc(a, align, bytes).0.ptr != 0)
      && (!refilled ==> r == ArenaAlloc(a, align, bytes).0)
      && (next.Some? && buffer >= 1 && bytes <= blockSize && buffer % align == 0 && blockSize % align == 0 ==> r.ptr != 0)
  {
    ArenaAllocInside(a, align, bytes);
    ArenaAllocInside(FreshArena(next, buffer, blockSize), align, bytes);
    if next.Some? && buffer >= 1 && bytes <= blockSize && buffer % align == 0 && blockSize % align == 0 {
      FreshArenaServes(next.value, buffer, blockSize, align, bytes);
    }
  }

  /**
   * `InnerAlloc` keeps the chain's invariant and leaves the label in its chain: in the table it
   * was in, or in the first table with room. Every other label keeps its table and its arena,
   * and a non-null block is the most recent block of the label's arena.
   */
  lemma InnerStepServes(chain: seq<Table>, blockLabel: int, free: seq<int>, buffer: nat, blockSize: nat, align: nat, bytes: nat)
    requires ChainValid(chain) && blockLabel != InternalDataLabel && align >= 1 && NonNegative(free)
    ensures var (r, chain') := InnerStep(chain, blockLabel, free, buffer, blockSize, align, bytes);
      && ChainValid(chain') && Find(chain', blockLabel).Some?
      && Find(chain', blockLabel).value == (if Find(chain, blockLabel).Some? then Find(chain, blockLabel).value else FirstRoom(chain))
      && OthersKept(chain, chain', blockLabel)
      && (r.ptr != 0 ==> LastBlockOf(ArenaOf(chain', blockLabel), r, align, bytes))
  {
    var reserve := Find(chain, blockLabel).None?;
    var chain1 := Located(chain, blockLabel, Head(free), buffer, blockSize);
    var free1 := Rest(free, reserve);
    if reserve {
      ReservedKeeps(chain, blockLabel, FreshArena(Head(free), buffer, blockSize));
    }
    var a := ArenaOf(chain1, blockLabel);
    ServeStepServes(a, Head(free1), buffer, blockSize, align, bytes);
    var (r, a', _) := ServeStep(a, Head(free1), buffer, blockSize, align, bytes);
    KeptAfterStore(chain, chain1, blockLabel, a');
  }

  /**
   * With a block left on the free list and an alignment the buffer and the block size keep,
   * `InnerAlloc` never returns null, as the source asserts: a fresh arena over a whole block
   * serves any request no larger than a block.
   */
  lemma InnerStepNonNull(chain: seq<Table>, blockLabel: int, free: seq<int>, buffer: nat, blockSize: nat, align: nat, bytes: nat)
    requires ChainValid(chain) && blockLabel != InternalDataLabel && align >= 1 && NonNegative(free)
    requires free != [] && buffer >= 1 && bytes <= blockSize && buffer % align == 0 && blockSize % align == 0
    ensures InnerStep(chain, blockLabel, free, buffer, blockSize, align, bytes).0.ptr != 0
  {
    var reserve := Find(chain, blockLabel).None?;
    var chain1 := Located(chain, blockLabel, Head(free), buffer, blockSize);
    var free1 := Rest(free, reserve);
    var fresh0 := FreshArena(Head(free), buffer, blockSize);
    FreshArenaServes(free[0], buffer, blockSize, align, bytes);
    if reserve {
      ReservedKeeps(chain, blockLabel, fresh0);
      assert ArenaOf(chain1, blockLabel) == fresh0;
      assert ArenaAlloc(fresh0, align, bytes).0.ptr != 0;
    } else {
      assert Head(free1) == Head(free);
    }
  }

  /** `r` is the most recent block of the arena `a`: aligned, inside it and ending at its offset. */
  ghost predicate LastBlockOf(a: ArenaState, r: MemoryBlock, align: nat, bytes: nat)
    requires align >= 1
  {
    && r.size == bytes && r.ptr % align == 0
    && a.base <= r.ptr && r.ptr + bytes == a.base + a.offset && a.offset <= a.size
  }

  /** The in-use list is the old one with a run of n consecutive blocks linked in front. */
  ghost predicate RunAtHead(used: seq<int>, used0: seq<int>, n: nat) {
    && |used| >= n && n >= 1
    && used == Range(used[0], used[0] + n) + used0
  }

  /**
   * The block lists after `GetConsecutiveBlocks(blockLabel, n)` handed out the block `r`: unchanged
   * when `r` is null; otherwise a run of n consecutive blocks, now named by the label, left the
   * free list and was linked in front of the in-use list, and `r` starts at its first block.
   */
  ghost predicate TookRun(r: MemoryBlock, n: nat, buffer: nat, blockSize: nat,
                          free0: seq<int>, used0: seq<int>, names0: seq<int>,
                          free: seq<int>, used: seq<int>, names: seq<int>, blockLabel: int) {
    if r.ptr == 0 then
      free == free0 && used == used0 && names == names0
    else
      && RunAtHead(used, used0, n)
      && r.ptr == buffer + used[0] * blockSize
      && RunTaken(used[0], n, free, free0)
      && 0 <= used[0] && used[0] + n <= |names|
      && forall b :: used[0] <= b < used[0] + n ==> names[b] == blockLabel
  }

  /** The block `LargeAlloc` reports for the first block of a run of n blocks, or null. */
  function RunBlock(first: Option<int>, buffer: nat, blockSize: nat, n: nat): MemoryBlock
    requires first.Some? ==> first.value >= 0
  {
    if first.None? then MemoryBlock(0, blockSize * n)
    else MemoryBlock(buffer + first.value * blockSize, blockSize * n)
  }

  /** What `GetConsecutiveBlocks` promises makes the reported block satisfy `TookRun`. */
  lemma RunBlockTookRun(first: Option<int>, n: nat, buffer: nat, blockSize: nat,
                        free0: seq<int>, used0: seq<int>, names0: seq<int>,
                        free: seq<int>, used: seq<int>, names: seq<int>, blockLabel: int)
    requires buffer >= 1 && n >= 1
    requires first == None ==> free == free0 && used == used0 && names == names0
    requires first != None ==>
      && 0 <= first.value && first.value + n <= |names|
      && used == Range(first.value, first.value + n) + used0
      && RunTaken(first.value, n, free, free0)
      && (forall i :: first.value <= i < first.value + n ==> names[i] == blockLabel)
    ensures first == None <==> RunBlock(first, buffer, blockSize, n).ptr == 0
    ensures TookRun(RunBlock(first, buffer, blockSize, n), n, buffer, blockSize, free0, used0, names0, free, used, names, blockLabel)
  {
    if first != None {
      RangeIndex(first.value, first.value + n);
    }
  }

  /** Storing a new arena for a label after other labels were kept keeps them still. */
  lemma KeptAfterStore(c0: seq<Table>, c1: seq<Table>, blockLabel: int, a: ArenaState)
    requires OthersKept(c0, c1, blockLabel) && ChainValid(c1) && Find(c1, blockLabel).Some?
    ensures OthersKept(c0, Store(c1, blockLabel, a), blockLabel)
    ensures ChainValid(Store(c1, blockLabel, a)) && Find(Store(c1, blockLabel, a), blockLabel).Some?
    ensures ArenaOf(Store(c1, blockLabel, a), blockLabel) == a
  {
    StoreKeeps(c1, blockLabel, a);
  }

  // ---------------------------------------------------------------- the allocator

  class ThreadedAllocator {
    const blockSize: nat
    /** The address of the buffer: block b starts at `buffer + b * blockSize`. */
    const buffer: nat
    const maxNumThreads: nat
    const base: LabeledBlockAllocator
    /** `sizeof` of a `FreeLabel`, a `PerThreadInfo` and a `StackAllocator`, all word-aligned. */
    const recordSize: nat
    const infoSize: nat
    const arenaSize: nat
    /** `internalMemoryAllocator`: the arena that holds the allocator's own records. */
    var internalArena: ArenaState
    /** `perThreadInfo`: each thread's chain of tables. */
    var chains: seq<seq<Table>>
    /** The lists at `firstFreeLabel` and `firstUsedLabel`, head first. */
    var freeLabels: seq<LabelRecord>
    var usedLabels: seq<LabelRecord>
    var lastUsedLabel: int

    /**
     * The block allocator is valid, every thread has a valid chain, and each label minted so far
     * has one record, on one of the two label lists.
     */
    ghost predicate Valid()
      reads this, base
    {
      && blockSize >= 1 && buffer >= 1
      && base.Valid()
      && |chains| == maxNumThreads
      && (forall t :: 0 <= t < |chains| ==> ChainValid(chains[t]))
      && InternalDataLabel <= lastUsedLabel
      && |freeLabels| + |usedLabels| == lastUsedLabel
    }

    /**
     * The constructor: the block allocator over the buffer, whose first block becomes the
     * internal arena; no thread has a table yet and no label has been minted.
     */
    constructor (buffer: nat, size: nat, blockSize: nat, cbSize: nat, cbAlign: nat, maxNumThreads: nat,
                 recordSize: nat, infoSize: nat, arenaSize: nat)
      requires buffer >= 1 && blockSize >= 1 && cbAlign >= 1 && cbSize >= cbAlign
      requires Fits(buffer, size, blockSize, cbSize, cbAlign, 1)
      ensures Valid() && fresh(base)
      ensures this.buffer == buffer && this.blockSize == blockSize && this.maxNumThreads == maxNumThreads
      ensures this.recordSize == recordSize && this.infoSize == infoSize && this.arenaSize == arenaSize
      ensures internalArena == FreshArena(Some(0), buffer, blockSize)
      ensures base.usedList == [0] && base.freeBlocks == base.numBlocks - 1
      ensures |chains| == maxNumThreads && forall t :: 0 <= t < maxNumThreads ==> chains[t] == []
      ensures freeLabels == [] && usedLabels == [] && lastUsedLabel == InternalDataLabel
    {
      var b := new LabeledBlockAllocator(buffer, size, blockSize, cbSize, cbAlign);
      var blk := b.GetBlock(InternalDataLabel);
      this.buffer := buffer;
      this.blockSize := blockSize;
      this.maxNumThreads := maxNumThreads;
      this.recordSize := recordSize;
      this.infoSize := infoSize;
      this.arenaSize := arenaSize;
      base := b;
      internalArena := FreshArena(blk, buffer, blockSize);
      chains := seq(maxNumThreads, _ => []);
      freeLabels := [];
      usedLabels := [];
      lastUsedLabel := InternalDataLabel;
    }

    /**
     * `GetUnusedLabel`: with no free record, a new record, taken from `InternalAlloc`, with the
     * next label (never the internal label); otherwise the head free record, its label
     * unchanged. Either way the record, naming the system, goes to the head of the used list.
     */
    method GetUnusedLabel(systemName: string) returns (r: int)
      requires Valid()
      requires freeLabels == [] ==> ServeFits(recordSize)
      modifies this, base
      ensures Valid() && chains == old(chains)
      ensures old(freeLabels) == [] ==>
        && r == old(lastUsedLabel) + 1 && r != InternalDataLabel && lastUsedLabel == r
        && freeLabels == [] && usedLabels == [LabelRecord(r, systemName)] + old(usedLabels)
        && var (_, a, refilled) := ServeStep(old(internalArena), Head(old(base.freeList)), buffer, blockSize, WordSize, recordSize);
           && internalArena == a
           && TookHead(old(base.freeList), old(base.usedList), old(base.names), base.freeList, base.usedList, base.names,
                       InternalDataLabel, refilled)
      ensures old(freeLabels) != [] ==>
        && r == old(freeLabels)[0].blockLabel && lastUsedLabel == old(lastUsedLabel)
        && freeLabels == old(freeLabels)[1..]
        && usedLabels == [LabelRecord(r, systemName)] + old(usedLabels)
        && internalArena == old(internalArena)
        && base.freeList == old(base.freeList) && base.usedList == old(base.usedList) && base.names == old(base.names)
    {
      if freeLabels == [] {
        var _ := InternalAlloc(recordSize);
        lastUsedLabel := lastUsedLabel + 1;
        r := lastUsedLabel;
        usedLabels := [LabelRecord(r, systemName)] + usedLabels;
      } else {
        var record := freeLabels[0];
        freeLabels := freeLabels[1..];
        r := record.blockLabel;
        usedLabels := [record.(systemName := systemName)] + usedLabels;
      }
    }

    /**
     * `ReturnLabel(blockLabel)`: the head record of the used list (whichever label it had) is
     * stamped with `blockLabel` and pushed on the free list. The source asserts there is one.
     */
    method ReturnLabel(blockLabel: int)
      requires Valid() && usedLabels != []
      modifies this
      ensures Valid() && chains == old(chains) && internalArena == old(internalArena)
      ensures lastUsedLabel == old(lastUsedLabel)
      ensures usedLabels == old(usedLabels)[1..]
      ensures freeLabels == [old(usedLabels)[0].(blockLabel := blockLabel)] + old(freeLabels)
    {
      var record := usedLabels[0];
      usedLabels := usedLabels[1..];
      freeLabels := [record.(blockLabel := blockLabel)] + freeLabels;
    }

    /** `GetUnusedLabelWithGuard`: a label as `GetUnusedLabel` gives it and the guard that gives it back. */
    method GetUnusedLabelWithGuard(systemName: string) returns (g: LabelGuard)
      requires Valid()
      requires freeLabels == [] ==> ServeFits(recordSize)
      modifies this, base
      ensures Valid() && chains == old(chains)
      ensures fresh(g) && g.allocator == this && usedLabels != [] && g.blockLabel == usedLabels[0].blockLabel
      ensures old(freeLabels) == [] ==>
        && g.blockLabel == old(lastUsedLabel) + 1 && lastUsedLabel == g.blockLabel
        && freeLabels == [] && usedLabels == [LabelRecord(g.blockLabel, systemName)] + old(usedLabels)
        && var (_, a, refilled) := ServeStep(old(internalArena), Head(old(base.freeList)), buffer, blockSize, WordSize, recordSize);
           && internalArena == a
           && TookHead(old(base.freeList), old(base.usedList), old(base.names), base.freeList, base.usedList, base.names,
                       InternalDataLabel, refilled)
      ensures old(freeLabels) != [] ==>
        && g.blockLabel == old(freeLabels)[0].blockLabel && lastUsedLabel == old(lastUsedLabel)
        && freeLabels == old(freeLabels)[1..]
        && usedLabels == [LabelRecord(g.blockLabel, systemName)] + old(usedLabels)
        && internalArena == old(internalArena)
        && base.freeList == old(base.freeList) && base.usedList == old(base.usedList) && base.names == old(base.names)
    {
      var l := GetUnusedLabel(systemName);
      g := new LabelGuard(l, this);
    }

    /**
     * `Free(blockLabel)`: the block allocator frees the label's blocks, and in every thread the
     * label's arena, if it has one, becomes the empty arena. The source asserts the label is
     * not the internal one.
     */
    method Free(blockLabel: int)
      requires Valid() && blockLabel != InternalDataLabel
      modifies this, base
      ensures Valid()
      ensures freeLabels == old(freeLabels) && usedLabels == old(usedLabels) && lastUsedLabel == old(lastUsedLabel)
      ensures internalArena == old(internalArena)
      ensures base.usedList == Kept(old(base.usedList), old(base.names), blockLabel)
      ensures base.freeList == Reverse(Matching(old(base.usedList), old(base.names), blockLabel)) + old(base.freeList)
      ensures base.names == old(base.names)
      ensures |chains| == |old(chains)|
      ensures forall t :: 0 <= t < |chains| ==> chains[t] == Reset(old(chains)[t], blockLabel)
    {
      base.Free(blockLabel);
      var c := ResetAll(chains, blockLabel);
      forall t | 0 <= t < |chains| ensures ChainValid(c[t]) {
        ResetKeeps(chains[t], blockLabel);
      }
      chains := c;
    }

    /**
     * The objects `GetStackAllocator` takes from `InternalAlloc` for a label the chain does not
     * hold: a `PerThreadInfo` when a table has to be linked, then the label's `StackAllocator`.
     */
    function TableDraws(chain: seq<Table>, blockLabel: int): seq<nat> {
      if Find(chain, blockLabel).Some? then []
      else (if FirstRoom(chain) == |chain| then [infoSize] else []) + [arenaSize]
    }

    /**
     * `InternalAlloc<T>()` for an object of `bytes` bytes: the internal arena serves it when it
     * has room; otherwise the arena is rebuilt over a block drawn for the internal label, and
     * serves from that. The source repeats the rebuild for as long as the arena refuses, so the
     * caller must leave an arena with room or a free block.
     */
    method InternalAlloc(bytes: nat) returns (p: nat)
      requires Valid()
      requires ServeFits(bytes)
      modifies this, base
      ensures Valid() && chains == old(chains)
      ensures freeLabels == old(freeLabels) && usedLabels == old(usedLabels) && lastUsedLabel == old(lastUsedLabel)
      ensures var (r, a, refilled) := ServeStep(old(internalArena), Head(old(base.freeList)), buffer, blockSize, WordSize, bytes);
        && p == r.ptr && p != 0 && internalArena == a
        && TookHead(old(base.freeList), old(base.usedList), old(base.names), base.freeList, base.usedList, base.names,
                    InternalDataLabel, refilled)
    {
      FreeListNonNegative();
      var res := ArenaAlloc(internalArena, WordSize, bytes);
      ghost var refilled := false;
      while res.0.ptr == 0
        invariant Valid() && chains == old(chains)
        invariant freeLabels == old(freeLabels) && usedLabels == old(usedLabels) && lastUsedLabel == old(lastUsedLabel)
        invariant res.0.ptr == 0 ==> !refilled
        invariant !refilled ==>
          && internalArena == old(internalArena) && res == ArenaAlloc(old(internalArena), WordSize, bytes)
          && base.freeList == old(base.freeList) && base.usedList == old(base.usedList) && base.names == old(base.names)
        invariant refilled ==>
          && ArenaAlloc(old(internalArena), WordSize, bytes).0.ptr == 0
          && res == ArenaAlloc(FreshArena(Head(old(base.freeList)), buffer, blockSize), WordSize, bytes)
          && TookHead(old(base.freeList), old(base.usedList), old(base.names), base.freeList, base.usedList, base.names,
                      InternalDataLabel, true)
        decreases if refilled then 0 else 1
      {
        var blk := base.GetBlock(InternalDataLabel);
        internalArena := FreshArena(blk, buffer, blockSize);
        res := ArenaAlloc(internalArena, WordSize, bytes);
        refilled := true;
      }
      internalArena := res.1;
      p := res.0.ptr;
    }

    /** `InternalAlloc` of `bytes` bytes ends: the internal arena has room, or a block is free. */
    ghost predicate ServeFits(bytes: nat)
      reads this, base
      requires Valid()
    {
      FreeListNonNegative();
      ServeStep(internalArena, Head(base.freeList), buffer, blockSize, WordSize, bytes).0.ptr != 0
    }

    /** `InternalAlloc` for each size in turn: the internal arena and the block lists follow `InternalPlan`. */
    method InternalAllocs(sizes: seq<nat>)
      requires Valid()
      requires InternalPlanEnds(sizes)
      modifies this, base
      ensures Valid() && chains == old(chains)
      ensures freeLabels == old(freeLabels) && usedLabels == old(usedLabels) && lastUsedLabel == old(lastUsedLabel)
      ensures NonNegative(old(base.freeList))
      ensures var (a, k) := InternalPlan(old(internalArena), old(base.freeList), sizes, buffer, blockSize).value;
        internalArena == a && |old(base.freeList)| - |base.freeList| == k
      ensures Drew(old(base.freeList), old(base.usedList), old(base.names), base.freeList, base.usedList, base.names, InternalDataLabel)
    {
      FreeListNonNegative();
      DrewNothing(base.freeList, base.usedList, base.names, InternalDataLabel);
      var j := 0;
      assert sizes[0..] == sizes;
      ghost var plan0 := InternalPlan(internalArena, base.freeList, sizes, buffer, blockSize).value;
      ghost var n0 := |base.freeList|;
      assert PlanLeft(plan0, n0, internalArena, base.freeList, sizes[j..], buffer, blockSize);
      while j < |sizes|
        invariant j <= |sizes| && Valid() && chains == old(chains)
        invariant freeLabels == old(freeLabels) && usedLabels == old(usedLabels) && lastUsedLabel == old(lastUsedLabel)
        invariant Drew(old(base.freeList), old(base.usedList), old(base.names), base.freeList, base.usedList, base.names, InternalDataLabel)
        invariant n0 == |old(base.freeList)| && plan0 == InternalPlan(old(internalArena), old(base.freeList), sizes, buffer, blockSize).value
        invariant PlanLeft(plan0, n0, internalArena, base.freeList, sizes[j..], buffer, blockSize)
      {
        ghost var a1, free1, used1, names1 := internalArena, base.freeList, base.usedList, base.names;
        ghost var step := ServeStep(a1, Head(free1), buffer, blockSize, WordSize, sizes[j]);
        ghost var refilled := step.2;
        assert sizes[j..][0] == sizes[j];
        assert sizes[j..][1..] == sizes[j + 1..];
        PlanAfterStep(plan0, n0, a1, free1, sizes[j..], buffer, blockSize, step.1, Rest(free1, refilled), sizes[j + 1..]);
        var _ := InternalAlloc(sizes[j]);
        TookHeadDrew(old(base.freeList), old(base.usedList), old(base.names), free1, used1, names1,
                     base.freeList, base.usedList, base.names, InternalDataLabel, refilled);
        assert internalArena == step.1 && base.freeList == Rest(free1, refilled);
        j := j + 1;
      }
    }

    /** The refill loop ends for each of the sizes. */
    ghost predicate InternalPlanEnds(sizes: seq<nat>)
      reads this, base
      requires Valid()
    {
      FreeListNonNegative();
      InternalPlan(internalArena, base.freeList, sizes, buffer, blockSize).Some?
    }

    /**
     * `GetStackAllocator(blockLabel, threadId)`: the table of the thread's chain that holds the
     * label; when none does, the records it needs come from `InternalAlloc` (`TableDraws`: a
     * `PerThreadInfo` for a newly linked table, then the `StackAllocator`), and the label is
     * reserved in the first table with room over a fresh arena on a block drawn for the label
     * (`RefillAllocator`). The block lists after the internal draws are `free1`, `used1`,
     * `names1`. The source asserts the label is not the internal one and the thread index is in
     * range.
     */
    method GetStackAllocator(blockLabel: int, t: nat) returns (i: nat, ghost free1: seq<int>, ghost used1: seq<int>, ghost names1: seq<int>)
      requires Valid() && blockLabel != InternalDataLabel && t < maxNumThreads
      requires InternalPlanEnds(TableDraws(chains[t], blockLabel))
      modifies this, base
      ensures Valid()
      ensures freeLabels == old(freeLabels) && usedLabels == old(usedLabels) && lastUsedLabel == old(lastUsedLabel)
      ensures NonNegative(old(base.freeList)) && NonNegative(free1)
      ensures var (a, k) := InternalPlan(old(internalArena), old(base.freeList), TableDraws(old(chains)[t], blockLabel), buffer, blockSize).value;
        && internalArena == a && |old(base.freeList)| - |free1| == k
        && Drew(old(base.freeList), old(base.usedList), old(base.names), free1, used1, names1, InternalDataLabel)
      ensures chains == old(chains)[t := Located(old(chains)[t], blockLabel, Head(free1), buffer, blockSize)]
      ensures Find(chains[t], blockLabel) == Some(i)
      ensures TookHead(free1, used1, names1, base.freeList, base.usedList, base.names,
                       blockLabel, Find(old(chains)[t], blockLabel).None?)
    {
      FreeListNonNegative();
      var chain, k, found := Locate(chains[t], blockLabel);
      if found {
        DrewNothing(base.freeList, base.usedList, base.names, InternalDataLabel);
        return k, base.freeList, base.usedList, base.names;
      }
      InternalAllocs(TableDraws(chains[t], blockLabel));
      free1, used1, names1 := base.freeList, base.usedList, base.names;
      ReserveFresh(blockLabel, t);
      i := k;
    }

    /**
     * The reserving end of `GetStackAllocator` for a label the thread's chain does not hold:
     * the label is reserved in the first table with room over a fresh arena on the block
     * `RefillAllocator` draws for it.
     */
    method ReserveFresh(blockLabel: int, t: nat)
      requires Valid() && blockLabel != InternalDataLabel && t < maxNumThreads
      requires Find(chains[t], blockLabel).None?
      modifies this, base
      ensures Valid() && internalArena == old(internalArena)
      ensures freeLabels == old(freeLabels) && usedLabels == old(usedLabels) && lastUsedLabel == old(lastUsedLabel)
      ensures NonNegative(old(base.freeList))
      ensures chains == old(chains)[t := Located(old(chains)[t], blockLabel, Head(old(base.freeList)), buffer, blockSize)]
      ensures Find(chains[t], blockLabel) == Some(FirstRoom(old(chains)[t]))
      ensures TookHead(old(base.freeList), old(base.usedList), old(base.names), base.freeList, base.usedList, base.names,
                       blockLabel, true)
    {
      FreeListNonNegative();
      var blk := base.GetBlock(blockLabel);
      var arena := FreshArena(blk, buffer, blockSize);
      ReservedKeeps(chains[t], blockLabel, arena);
      chains := chains[t := Reserved(chains[t], blockLabel, arena)];
    }

    /** The blocks on the free list are indices, so never negative. */
    lemma FreeListNonNegative()
      requires Valid()
      ensures NonNegative(base.freeList)
    {
    }

    /**
     * The allocation step of `InnerAlloc` on a thread whose chain holds the label: the arena's
     * own `alloc` when it returns a block, else `RefillAllocator` and `alloc` again.
     */
    method ServeFromArena(blockLabel: int, t: nat, align: nat, bytes: nat) returns (r: MemoryBlock)
      requires Valid() && t < maxNumThreads && align >= 1
      requires Find(chains[t], blockLabel).Some?
      modifies this, base
      ensures Valid()
      ensures freeLabels == old(freeLabels) && usedLabels == old(usedLabels) && lastUsedLabel == old(lastUsedLabel)
      ensures internalArena == old(internalArena)
      ensures var (p, a, refilled) := ServeStep(ArenaOf(old(chains)[t], blockLabel), Head(old(base.freeList)), buffer, blockSize, align, bytes);
        && r == p
        && chains == old(chains)[t := Store(old(chains)[t], blockLabel, a)]
        && TookHead(old(base.freeList), old(base.usedList), old(base.names), base.freeList, base.usedList, base.names, blockLabel, refilled)
    {
      FreeListNonNegative();
      StoreKeeps(chains[t], blockLabel, ServeStep(ArenaOf(chains[t], blockLabel), Head(base.freeList), buffer, blockSize, align, bytes).1);
      var i := Find(chains[t], blockLabel).value;
      var a := chains[t][i][blockLabel];
      var res := ArenaAlloc(a, align, bytes);
      if res.0.ptr == 0 {
        var blk := base.GetBlock(blockLabel);
        var res2 := ArenaAlloc(FreshArena(blk, buffer, blockSize), align, bytes);
        chains := chains[t := Store(chains[t], blockLabel, res2.1)];
        r := res2.0;
      } else {
        chains := chains[t := Store(chains[t], blockLabel, res.1)];
        r := res.0;
      }
    }

    /**
     * `InnerAlloc` with `StackAllocator::alloc`: `GetStackAllocator`, then the arena step. The
     * internal records come first, as `InternalPlan` says, leaving the block lists `free1`,
     * `used1`, `names1`; from there the result and the thread's chain are those of `InnerStep`,
     * and the block lists lose at most two more blocks, to the label, each drawn from the head of
     * the free list.
     */
    method InnerAlloc(blockLabel: int, t: nat, align: nat, bytes: nat)
      returns (r: MemoryBlock, ghost free1: seq<int>, ghost used1: seq<int>, ghost names1: seq<int>)
      requires Valid() && blockLabel != InternalDataLabel && t < maxNumThreads && align >= 1
      requires InternalPlanEnds(TableDraws(chains[t], blockLabel))
      modifies this, base
      ensures Valid()
      ensures freeLabels == old(freeLabels) && usedLabels == old(usedLabels) && lastUsedLabel == old(lastUsedLabel)
      ensures NonNegative(old(base.freeList)) && NonNegative(free1)
      ensures var (a, k) := InternalPlan(old(internalArena), old(base.freeList), TableDraws(old(chains)[t], blockLabel), buffer, blockSize).value;
        && internalArena == a && |old(base.freeList)| - |free1| == k
        && Drew(old(base.freeList), old(base.usedList), old(base.names), free1, used1, names1, InternalDataLabel)
      ensures var (p, chain) := InnerStep(old(chains)[t], blockLabel, free1, buffer, blockSize, align, bytes);
        r == p && chains == old(chains)[t := chain]
      ensures Drew(free1, used1, names1, base.freeList, base.usedList, base.names, blockLabel)
      ensures |free1| - |base.freeList| <= 2
    {
      ghost var chain0 := chains[t];
      var i;
      i, free1, used1, names1 := GetStackAllocator(blockLabel, t);
      ghost var free2, used2, names2, chain1 := base.freeList, base.usedList, base.names, chains[t];
      DrewNothing(free1, used1, names1, blockLabel);
      TookHeadDrew(free1, used1, names1, free1, used1, names1, free2, used2, names2,
                   blockLabel, Find(chain0, blockLabel).None?);
      FreeListNonNegative();
      ghost var chains1 := chains;
      ghost var step := ServeStep(ArenaOf(chain1, blockLabel), Head(free2), buffer, blockSize, align, bytes);
      ghost var refilled := step.2;
      InnerStepSplits(chain0, blockLabel, free1, free2, buffer, blockSize, align, bytes);
      assert InnerStep(chain0, blockLabel, free1, buffer, blockSize, align, bytes) == (step.0, Store(chain1, blockLabel, step.1));
      r := ServeFromArena(blockLabel, t, align, bytes);
      assert chains == chains1[t := Store(chain1, blockLabel, step.1)];
      assert chains == old(chains)[t := Store(chain1, blockLabel, step.1)];
      TookHeadDrew(free1, used1, names1, free2, used2, names2, base.freeList, base.usedList, base.names,
                   blockLabel, refilled);
    }

    /**
     * `LargeAlloc`: a run of as many consecutive blocks as the request needs (at least two),
     * reported with the size of the whole run. The source asserts the request is larger than a
     * block. A null pointer when the block allocator finds no run.
     */
    method LargeAlloc(blockLabel: int, bytes: nat) returns (r: MemoryBlock)
      requires Valid() && blockSize < bytes
      modifies base
      ensures Valid()
      ensures r.size == blockSize * NumBlocks(bytes, blockSize) && NumBlocks(bytes, blockSize) >= 2
      ensures old(base.freeList) == [] ==> r.ptr == 0
      ensures TookRun(r, NumBlocks(bytes, blockSize), buffer, blockSize, old(base.freeList), old(base.usedList), old(base.names),
                      base.freeList, base.usedList, base.names, blockLabel)
    {
      var n := NumBlocks(bytes, blockSize);
      NumBlocksIsCeiling(bytes, blockSize);
      var first := base.GetConsecutiveBlocks(blockLabel, n);
      r := RunBlock(first, buffer, blockSize, n);
      RunBlockTookRun(first, n, buffer, blockSize, old(base.freeList), old(base.usedList), old(base.names),
                      base.freeList, base.usedList, base.names, blockLabel);
    }

    /**
     * `alloc<T>(N)`, with `bytes` the request `sizeof(T) * N` and `align` the type's alignment:
     * requests below one block go to the label's arena on the thread, larger ones to a run of
     * whole blocks; the thread tables are then untouched. The source asserts, in
     * `InnerAlloc` and `LargeAlloc`, what the requires say.
     */
    method Alloc(blockLabel: int, t: nat, align: nat, bytes: nat)
      returns (r: MemoryBlock, ghost free1: seq<int>, ghost used1: seq<int>, ghost names1: seq<int>)
      requires Valid() && align >= 1 && bytes != blockSize
      requires bytes < blockSize ==> blockLabel != InternalDataLabel && t < maxNumThreads && InternalPlanEnds(TableDraws(chains[t], blockLabel))
      modifies this, base
      ensures Valid()
      ensures freeLabels == old(freeLabels) && usedLabels == old(usedLabels) && lastUsedLabel == old(lastUsedLabel)
      ensures NonNegative(free1)
      ensures RouteOf(bytes, blockSize) == ThreadArena ==>
        && NonNegative(old(base.freeList))
        && (var (a, k) := InternalPlan(old(internalArena), old(base.freeList), TableDraws(old(chains)[t], blockLabel), buffer, blockSize).value;
            && internalArena == a && |old(base.freeList)| - |free1| == k
            && Drew(old(base.freeList), old(base.usedList), old(base.names), free1, used1, names1, InternalDataLabel))
        && (var (p, chain) := InnerStep(old(chains)[t], blockLabel, free1, buffer, blockSize, align, bytes);
            r == p && chains == old(chains)[t := chain])
      ensures RouteOf(bytes, blockSize).ConsecutiveBlocks? ==>
        && chains == old(chains) && internalArena == old(internalArena)
        && r.size == blockSize * RouteOf(bytes, blockSize).count
        && TookRun(r, RouteOf(bytes, blockSize).count, buffer, blockSize, old(base.freeList), old(base.usedList), old(base.names),
                   base.freeList, base.usedList, base.names, blockLabel)
    {
      if bytes < blockSize {
        assert RouteOf(bytes, blockSize) == ThreadArena;
        r, free1, used1, names1 := InnerAlloc(blockLabel, t, align, bytes);
      } else {
        assert RouteOf(bytes, blockSize) == ConsecutiveBlocks(NumBlocks(bytes, blockSize));
        FreeListNonNegative();
        free1, used1, names1 := base.freeList, base.usedList, base.names;
        r := LargeAlloc(blockLabel, bytes);
      }
    }

    /**
     * The large branch of `reallocArray<T>(oldBlock, N)`, with the old block count taken from the
     * old block: a block spanning the same number (two or more) of blocks is returned in place
     * with the new size; otherwise a new run is taken. The element copy is not modelled.
     */
    method ReallocLarge(blockLabel: int, oldBlock: MemoryBlock, bytes: nat) returns (r: MemoryBlock)
      requires Valid() && blockSize < bytes
      modifies base
      ensures Valid()
      ensures LargeReallocPlan(oldBlock.size, bytes, blockSize) == InPlace ==>
        && r == MemoryBlock(oldBlock.ptr, bytes)
        && base.freeList == old(base.freeList) && base.usedList == old(base.usedList) && base.names == old(base.names)
      ensures LargeReallocPlan(oldBlock.size, bytes, blockSize) == Move ==>
        && r.size == blockSize * NumBlocks(bytes, blockSize)
        && TookRun(r, NumBlocks(bytes, blockSize), buffer, blockSize, old(base.freeList), old(base.usedList), old(base.names),
                   base.freeList, base.usedList, base.names, blockLabel)
    {
      if LargeReallocPlan(oldBlock.size, bytes, blockSize) == InPlace {
        r := MemoryBlock(oldBlock.ptr, bytes);
      } else {
        r := LargeAlloc(blockLabel, bytes);
      }
    }
  }

  /**
   * `LabelGuard`: owns a label; destroying a live guard frees the label's blocks and arenas and
   * gives the label back; a guard moved from owns nothing.
   */
  class LabelGuard {
    var blockLabel: int
    var allocator: ThreadedAllocator?

    constructor (blockLabel: int, allocator: ThreadedAllocator?)
      ensures this.blockLabel == blockLabel && this.allocator == allocator
    {
      this.blockLabel := blockLabel;
      this.allocator := allocator;
    }

    /** The move constructor: takes over `other`'s label and allocator and leaves `other` empty. */
    constructor Move(other: LabelGuard)
      modifies other
      ensures blockLabel == old(other.blockLabel) && allocator == old(other.allocator)
      ensures other.blockLabel == InternalDataLabel && other.allocator == null
    {
      blockLabel := other.blockLabel;
      allocator := other.allocator;
      new;
      other.blockLabel := InternalDataLabel;
      other.allocator := null;
    }

    /** The destructor: `Free` then `ReturnLabel` once, if this guard still owns its label. */
    method Destroy()
      requires allocator != null ==> allocator.Valid() && blockLabel != InternalDataLabel && allocator.usedLabels != []
      modifies this, if allocator != null then {allocator, allocator.base} else {}
      ensures allocator == null
      ensures old(allocator) != null ==>
        && old(allocator).Valid()
        && old(allocator).base.usedList == Kept(old(allocator.base.usedList), old(allocator.base.names), old(blockLabel))
        && old(allocator).base.freeList ==
             Reverse(Matching(old(allocator.base.usedList), old(allocator.base.names), old(blockLabel))) + old(allocator.base.freeList)
        && old(allocator).base.names == old(allocator.base.names)
        && old(allocator).internalArena == old(allocator.internalArena)
        && |old(allocator).chains| == |old(allocator.chains)|
        && (forall t :: 0 <= t < |old(allocator).chains| ==> old(allocator).chains[t] == Reset(old(allocator.chains)[t], old(blockLabel)))
        && old(allocator).usedLabels == old(allocator.usedLabels)[1..]
        && old(allocator).freeLabels == [old(allocator.usedLabels)[0].(blockLabel := old(blockLabel))] + old(allocator.freeLabels)
        && old(allocator).lastUsedLabel == old(allocator.lastUsedLabel)
    {
      if allocator != null {
        allocator.Free(blockLabel);
        allocator.ReturnLabel(blockLabel);
      }
      allocator := null;
    }
  }

  /**
   * A label given back is the next one handed out, and no new label is minted for it.
   */
  method ReturnThenReuse(a: ThreadedAllocator, systemName: string) returns (x: int, y: int)
    requires a.Valid()
    requires a.freeLabels == [] ==> a.ServeFits(a.recordSize)
    modifies a, a.base
    ensures a.Valid() && y == x
    ensures a.lastUsedLabel == old(a.lastUsedLabel) + (if old(a.freeLabels) == [] then 1 else 0)
    ensures a.freeLabels == if old(a.freeLabels) == [] then [] else old(a.freeLabels)[1..]
  {
    x := a.GetUnusedLabel(systemName);
    a.ReturnLabel(x);
    y := a.GetUnusedLabel(systemName);
  }

  /**
   * A guard chain: the guard moved from gives nothing back; the last owner frees the label's
   * blocks and gives the label back exactly once, so the used list is as before.
   */
  method GuardChainReturnsOnce(a: ThreadedAllocator, systemName: string)
    requires a.Valid()
    requires forall i :: 0 <= i < |a.freeLabels| ==> a.freeLabels[i].blockLabel != InternalDataLabel
    requires a.freeLabels == [] ==> a.ServeFits(a.recordSize)
    modifies a, a.base
    ensures a.Valid()
    ensures a.usedLabels == old(a.usedLabels)
    ensures |a.freeLabels| == |old(a.freeLabels)| || |a.freeLabels| == |old(a.freeLabels)| + 1
  {
    var g := a.GetUnusedLabelWithGuard(systemName);
    var h := new LabelGuard.Move(g);
    g.Destroy();
    h.Destroy();
  }
}
