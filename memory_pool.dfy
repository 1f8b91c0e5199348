/**
 * `MemoryPool<poolSize, align, partitionSize>`: a boundary-tag pool. The buffer is cut into nodes
 * laid end to end; each node is either free or in use, and every node carries its size in its
 * header and its free flag in both header and tail. Free nodes are linked in a list that the
 * allocator keeps in address order, and `free` coalesces a node with address-adjacent free
 * neighbours.
 *
 * The model keeps the nodes as a sequence in address order; a node's address is the sum of the
 * sizes before it. The free list is the subsequence of free nodes (the source's relinking keeps it
 * in exactly that order), so its links are not stored separately.
 */
module MemoryPools {
  import opened Wrappers

  /** `sizeof(Node)`: a `size_t` and a `bool`, padded to 16 bytes. */
  const NodeSize: nat := 16
  /** `sizeof(Tail)`: a `bool` and a pointer, padded to 16 bytes. */
  const TailSize: nat := 16

  datatype Node = Node(size: nat, isFreeNode: bool)

  /**
   * `ResizeToMultiple(size, multiple)`: the least multiple of `multiple` that is at least `size`
   * (for `size` >= 1; at 0 the source's `size - 1` wraps around).
   */
  function ResizeToMultiple(size: nat, multiple: nat): (r: nat)
    requires size >= 1 && multiple >= 1
  {
    ((size - 1) / multiple + 1) * multiple
  }

  lemma ResizeToMultipleIsLeastMultiple(size: nat, multiple: nat)
    requires size >= 1 && multiple >= 1
    ensures ResizeToMultiple(size, multiple) % multiple == 0
    ensures size <= ResizeToMultiple(size, multiple) < size + multiple
  {
    var q := (size - 1) / multiple;
    var r := ResizeToMultiple(size, multiple);
    assert r == q * multiple + multiple;
    assert q * multiple <= size - 1 < q * multiple + multiple;
    MultipleMod(q + 1, multiple);
  }

  /** Total size of a run of nodes. */
  function Sum(ns: seq<Node>): nat {
    if ns == [] then 0 else Sum(ns[..|ns| - 1]) + ns[|ns| - 1].size
  }

  /** Total size of the nodes in use in a run. */
  function UsedSum(ns: seq<Node>): nat {
    if ns == [] then 0
    else UsedSum(ns[..|ns| - 1]) + (if ns[|ns| - 1].isFreeNode then 0 else ns[|ns| - 1].size)
  }

  lemma {:induction false} SumConcat(a: seq<Node>, b: seq<Node>)
    ensures Sum(a + b) == Sum(a) + Sum(b)
    ensures UsedSum(a + b) == UsedSum(a) + UsedSum(b)
    decreases |b|
  {
    if b == [] {
      assert a + b == a;
    } else {
      assert (a + b)[..|a + b| - 1] == a + b[..|b| - 1];
      assert (a + b)[|a + b| - 1] == b[|b| - 1];
      SumConcat(a, b[..|b| - 1]);
    }
  }

  /** Byte offset of node k from the start of the buffer. */
  function Offset(ns: seq<Node>, k: nat): nat
    requires k <= |ns|
  {
    Sum(ns[..k])
  }

  predicate PositiveSizes(ns: seq<Node>) {
    forall i :: 0 <= i < |ns| ==> ns[i].size > 0
  }

  /** Coalescing leaves no two address-adjacent free nodes. */
  predicate NoAdjacentFree(ns: seq<Node>) {
    forall i :: 0 <= i < |ns| - 1 ==> !(ns[i].isFreeNode && ns[i + 1].isFreeNode)
  }

  /** With positive sizes, later nodes sit at strictly higher addresses. */
  lemma {:induction false} OffsetsIncrease(ns: seq<Node>, i: nat, j: nat)
    requires PositiveSizes(ns) && i < j <= |ns|
    ensures Offset(ns, i) < Offset(ns, j)
    decreases j - i
  {
    assert ns[..j][..j - 1] == ns[..j - 1];
    if i < j - 1 {
      OffsetsIncrease(ns, i, j - 1);
    }
  }

  /**
   * First fit: the lowest-addressed free node of at least `minSize` bytes, which is the first
   * node of the address-ordered free list that the source's search loop stops at.
   */
  function FirstFit(ns: seq<Node>, minSize: nat): (r: Option<nat>)
    ensures r.Some? ==> r.value < |ns| && ns[r.value].isFreeNode && ns[r.value].size >= minSize
    ensures r.Some? ==> forall i :: 0 <= i < r.value ==> !(ns[i].isFreeNode && ns[i].size >= minSize)
    ensures r.None? <==> forall i :: 0 <= i < |ns| ==> !(ns[i].isFreeNode && ns[i].size >= minSize)
  {
    if ns == [] then None
    else if ns[0].isFreeNode && ns[0].size >= minSize then Some(0)
    else match FirstFit(ns[1..], minSize)
      case None => None
      case Some(k) => Some(k + 1)
  }

  /** The node sequence after `alloc` takes `minSize` bytes from the front of free node k. */
  function AllocNodes(ns: seq<Node>, k: nat, minSize: nat): seq<Node>
    requires k < |ns| && ns[k].isFreeNode && ns[k].size >= minSize
  {
    ns[..k]
    + ([Node(minSize, false)] + (if ns[k].size != minSize then [Node(ns[k].size - minSize, true)] else []))
    + ns[k + 1..]
  }

  /** The first node that `free` of node k merges: the previous node when it is free. */
  function MergeLo(ns: seq<Node>, k: nat): nat
    requires k < |ns|
  {
    if k > 0 && ns[k - 1].isFreeNode then k - 1 else k
  }

  /** One past the last node that `free` of node k merges: past the next node when it is free. */
  function MergeHi(ns: seq<Node>, k: nat): nat
    requires k < |ns|
  {
    if k + 1 < |ns| && ns[k + 1].isFreeNode then k + 2 else k + 1
  }

  /**
   * The size of the free node `free` of node k leaves behind: node k's size plus the sizes of
   * the free neighbours it merges with (the four cases of the source).
   */
  function MergedSize(ns: seq<Node>, k: nat): nat
    requires k < |ns|
  {
    (if k > 0 && ns[k - 1].isFreeNode then ns[k - 1].size else 0)
    + ns[k].size
    + (if k + 1 < |ns| && ns[k + 1].isFreeNode then ns[k + 1].size else 0)
  }

  /** The node sequence after `free` of the in-use node k: the merged run becomes one free node. */
  function FreeNodes(ns: seq<Node>, k: nat): seq<Node>
    requires k < |ns| && !ns[k].isFreeNode
  {
    ns[..MergeLo(ns, k)] + [Node(MergedSize(ns, k), true)] + ns[MergeHi(ns, k)..]
  }

  /** Replacing a middle run of nodes changes the totals by the difference of the runs. */
  lemma ReplaceRun(pre: seq<Node>, mid: seq<Node>, mid': seq<Node>, post: seq<Node>)
    ensures Sum(pre + mid' + post) + Sum(mid) == Sum(pre + mid + post) + Sum(mid')
    ensures UsedSum(pre + mid' + post) + UsedSum(mid) == UsedSum(pre + mid + post) + UsedSum(mid')
  {
    SumConcat(pre + mid, post);
    SumConcat(pre, mid);
    SumConcat(pre + mid', post);
    SumConcat(pre, mid');
  }

  lemma SumOne(n: Node)
    ensures Sum([n]) == n.size
    ensures UsedSum([n]) == if n.isFreeNode then 0 else n.size
  {
    assert [n][..0] == [];
  }

  /** Splitting a free node keeps the buffer covered and adds `minSize` used bytes. */
  lemma AllocNodesAccounting(ns: seq<Node>, k: nat, minSize: nat)
    requires k < |ns| && ns[k].isFreeNode && ns[k].size >= minSize > 0
    ensures Sum(AllocNodes(ns, k, minSize)) == Sum(ns)
    ensures UsedSum(AllocNodes(ns, k, minSize)) == UsedSum(ns) + minSize
    ensures Offset(AllocNodes(ns, k, minSize), k) == Offset(ns, k)
  {
    var pre, post := ns[..k], ns[k + 1..];
    var rest := if ns[k].size != minSize then [Node(ns[k].size - minSize, true)] else [];
    var taken := [Node(minSize, false)] + rest;
    var r := AllocNodes(ns, k, minSize);
    assert ns == pre + [ns[k]] + post;
    ReplaceRun(pre, [ns[k]], taken, post);
    SumOne(ns[k]);
    SumOne(Node(minSize, false));
    SumConcat([Node(minSize, false)], rest);
    if rest != [] {
      SumOne(rest[0]);
    }
    AllocNodesPrefix(ns, k, minSize);
  }

  /** The nodes before the split one are untouched. */
  lemma AllocNodesPrefix(ns: seq<Node>, k: nat, minSize: nat)
    requires k < |ns| && ns[k].isFreeNode && ns[k].size >= minSize
    ensures AllocNodes(ns, k, minSize)[..k] == ns[..k]
  {
  }

  /** Splitting a free node keeps sizes positive and no two free nodes adjacent. */
  lemma AllocNodesShape(ns: seq<Node>, k: nat, minSize: nat)
    requires k < |ns| && ns[k].isFreeNode && ns[k].size >= minSize > 0
    requires PositiveSizes(ns) && NoAdjacentFree(ns)
    ensures PositiveSizes(AllocNodes(ns, k, minSize)) && NoAdjacentFree(AllocNodes(ns, k, minSize))
  {
    var rest := if ns[k].size != minSize then [Node(ns[k].size - minSize, true)] else [];
    var r := AllocNodes(ns, k, minSize);
    forall i | 0 <= i < |r| - 1
      ensures !(r[i].isFreeNode && r[i + 1].isFreeNode)
    {
      if i + 1 < k {
        assert r[i] == ns[i] && r[i + 1] == ns[i + 1];
      } else if i + 1 == k {
        assert r[i + 1] == Node(minSize, false);
      } else if i >= k + |rest| + 1 {
        assert r[i] == ns[i - |rest|] && r[i + 1] == ns[i + 1 - |rest|];
      } else if i == k + |rest| && rest != [] {
        assert r[i + 1] == ns[k + 1];
        assert r[i] == rest[0];
        assert !ns[k + 1].isFreeNode;
      }
    }
  }

  /** The merged size is the total of the merged run, and node k holds all of its used bytes. */
  lemma MergedRunSums(ns: seq<Node>, k: nat)
    requires k < |ns| && !ns[k].isFreeNode
    ensures Sum(ns[MergeLo(ns, k)..MergeHi(ns, k)]) == MergedSize(ns, k)
    ensures UsedSum(ns[MergeLo(ns, k)..MergeHi(ns, k)]) == ns[k].size
  {
    var lo, hi := MergeLo(ns, k), MergeHi(ns, k);
    var mid := ns[lo..hi];
    SumOne(ns[k]);
    if lo < k && hi > k + 1 {
      assert mid == [ns[k - 1]] + [ns[k]] + [ns[k + 1]];
      SumConcat([ns[k - 1]] + [ns[k]], [ns[k + 1]]);
      SumConcat([ns[k - 1]], [ns[k]]);
      SumOne(ns[k - 1]);
      SumOne(ns[k + 1]);
    } else if lo < k {
      assert mid == [ns[k - 1]] + [ns[k]];
      SumConcat([ns[k - 1]], [ns[k]]);
      SumOne(ns[k - 1]);
    } else if hi > k + 1 {
      assert mid == [ns[k]] + [ns[k + 1]];
      SumConcat([ns[k]], [ns[k + 1]]);
      SumOne(ns[k + 1]);
    } else {
      assert mid == [ns[k]];
    }
  }

  /** A sequence is the concatenation of its three parts around `lo` and `hi`. */
  lemma SplitThree(ns: seq<Node>, lo: nat, hi: nat)
    requires lo <= hi <= |ns|
    ensures ns == ns[..lo] + ns[lo..hi] + ns[hi..]
  {
  }

  /** Replacing a run by one free node of the run's size keeps the total and drops the run's used bytes. */
  lemma MergeRunAccounting(ns: seq<Node>, pre: seq<Node>, mid: seq<Node>, post: seq<Node>, merged: Node)
    requires ns == pre + mid + post
    requires merged.isFreeNode && merged.size == Sum(mid)
    ensures Sum(pre + [merged] + post) == Sum(ns)
    ensures UsedSum(pre + [merged] + post) == UsedSum(ns) - UsedSum(mid)
  {
    ReplaceRun(pre, mid, [merged], post);
    SumOne(merged);
  }

  /** Freeing keeps the buffer covered and removes node k's bytes from the used total. */
  lemma FreeNodesAccounting(ns: seq<Node>, k: nat)
    requires k < |ns| && !ns[k].isFreeNode
    ensures Sum(FreeNodes(ns, k)) == Sum(ns)
    ensures UsedSum(FreeNodes(ns, k)) == UsedSum(ns) - ns[k].size
  {
    var lo, hi := MergeLo(ns, k), MergeHi(ns, k);
    SplitThree(ns, lo, hi);
    MergedRunSums(ns, k);
    MergeRunAccounting(ns, ns[..lo], ns[lo..hi], ns[hi..], Node(MergedSize(ns, k), true));
  }

  /** Freeing keeps sizes positive and leaves no two free nodes adjacent. */
  lemma FreeNodesShape(ns: seq<Node>, k: nat)
    requires k < |ns| && !ns[k].isFreeNode
    requires PositiveSizes(ns) && NoAdjacentFree(ns)
    ensures PositiveSizes(FreeNodes(ns, k)) && NoAdjacentFree(FreeNodes(ns, k))
  {
    var lo, hi := MergeLo(ns, k), MergeHi(ns, k);
    var pre, post := ns[..lo], ns[hi..];
    var merged := Node(MergedSize(ns, k), true);
    var r := pre + [merged] + post;
    assert FreeNodes(ns, k) == r;
    forall i | 0 <= i < |r|
      ensures r[i].size > 0
    {
      if i < lo {
        assert r[i] == ns[i];
      } else if i > lo {
        assert r[i] == post[i - lo - 1] == ns[i - lo - 1 + hi];
      }
    }
    forall i | 0 <= i < |r| - 1
      ensures !(r[i].isFreeNode && r[i + 1].isFreeNode)
    {
      if i + 1 < lo {
        assert r[i] == ns[i] && r[i + 1] == ns[i + 1];
      } else if i + 1 == lo {
        assert r[i] == ns[lo - 1];
        assert !ns[lo - 1].isFreeNode;
      } else if i == lo {
        assert r[i + 1] == ns[hi];
        assert !ns[hi].isFreeNode;
      } else {
        assert r[i] == post[i - lo - 1] && r[i + 1] == post[i - lo];
        assert post[i - lo - 1] == ns[i - lo - 1 + hi] && post[i - lo] == ns[i - lo + hi];
      }
    }
  }

  /**
   * Round trip: in a coalesced pool, freeing the node an allocation has just taken gives back
   * exactly the nodes before the allocation (the split-off remainder is merged back).
   */
  lemma AllocThenFreeRestores(ns: seq<Node>, k: nat, minSize: nat)
    requires k < |ns| && ns[k].isFreeNode && ns[k].size >= minSize > 0
    requires NoAdjacentFree(ns)
    ensures k < |AllocNodes(ns, k, minSize)| && !AllocNodes(ns, k, minSize)[k].isFreeNode
    ensures FreeNodes(AllocNodes(ns, k, minSize), k) == ns
  {
    var r := AllocNodes(ns, k, minSize);
    assert r[k] == Node(minSize, false);
    assert r[..k] == ns[..k];
    if k > 0 {
      assert r[k - 1] == ns[k - 1];
      assert !ns[k - 1].isFreeNode;
    }
    if ns[k].size != minSize {
      assert r[k + 1] == Node(ns[k].size - minSize, true);
      assert r[k + 2..] == ns[k + 1..];
    } else {
      assert r[k + 1..] == ns[k + 1..];
      if k + 1 < |ns| {
        assert !ns[k + 1].isFreeNode;
      }
    }
  }

  class MemoryPool {
    const poolSize: nat
    const align: nat
    const partitionSize: nat
    /** The nodes of the buffer, in address order. */
    var nodes: seq<Node>
    var usedMemory: int

    /** `ResizeToMultiple(sizeof(Node), align)`: the header that precedes every user pointer. */
    function Header(): nat
      reads this
      requires align >= 1
    {
      ResizeToMultiple(NodeSize, align)
    }

    /** The number of bytes `alloc(size)` reserves. */
    function MinSize(size: nat): nat
      reads this
      requires align >= 1 && partitionSize >= 1
    {
      ResizeToMultiple(size + Header() + TailSize, partitionSize)
    }

    ghost predicate Valid()
      reads this
    {
      && align >= 1 && partitionSize >= 1 && partitionSize % align == 0
      && Sum(nodes) == poolSize
      && PositiveSizes(nodes)
      && NoAdjacentFree(nodes)
      && usedMemory == UsedSum(nodes)
    }

    /** A pointer `alloc` returned and `free` has not yet taken back: the header of an in-use node. */
    ghost predicate LivePointer(ptr: int)
      reads this
      requires Valid()
    {
      exists k :: 0 <= k < |nodes| && Offset(nodes, k) + Header() == ptr && !nodes[k].isFreeNode
    }

    /** The constructor: one free node spanning the whole buffer, nothing used. */
    constructor (poolSize: nat, align: nat, partitionSize: nat)
      requires poolSize > 0 && align >= 1 && partitionSize >= 1 && partitionSize % align == 0
      ensures Valid()
      ensures this.poolSize == poolSize && this.align == align && this.partitionSize == partitionSize
      ensures nodes == [Node(poolSize, true)] && usedMemory == 0
    {
      this.poolSize := poolSize;
      this.align := align;
      this.partitionSize := partitionSize;
      nodes := [Node(poolSize, true)];
      usedMemory := 0;
      new;
      assert nodes[..0] == [];
    }

    /**
     * `alloc`: `MinSize(size)` bytes from the first free node that holds them, split when larger;
     * null when none does. The result points just past the node's header.
     */
    method Alloc(size: nat) returns (r: Option<nat>)
      requires Valid()
      modifies this
      ensures Valid()
      ensures FirstFit(old(nodes), MinSize(size)).None? ==> r == None && nodes == old(nodes) && usedMemory == old(usedMemory)
      ensures FirstFit(old(nodes), MinSize(size)).Some? ==>
        var k := FirstFit(old(nodes), MinSize(size)).value;
        && r == Some(Offset(old(nodes), k) + Header())
        && nodes == AllocNodes(old(nodes), k, MinSize(size))
        && usedMemory == old(usedMemory) + MinSize(size)
      ensures r.Some? ==> 0 < r.value && r.value + size < poolSize
    {
      var minSize := MinSize(size);
      assert size + Header() + TailSize <= minSize by {
        ResizeToMultipleIsLeastMultiple(size + Header() + TailSize, partitionSize);
      }
      assert Header() >= 1 by {
        ResizeToMultipleIsLeastMultiple(NodeSize, align);
      }
      var ns := nodes;
      var i, offset := SearchFreeList(ns, minSize);
      if i == |ns| {
        return None;
      }
      FitsInPool(ns, i);
      AllocNodesAccounting(ns, i, minSize);
      AllocNodesShape(ns, i, minSize);
      nodes := AllocNodes(ns, i, minSize);
      usedMemory := usedMemory + minSize;
      r := Some(offset + Header());
    }

    /**
     * `free`: the node whose header precedes `ptr` becomes free again, merged with a free
     * neighbour on either side; its size leaves `usedMemory`. The pointer is resolved to its
     * node by walking the nodes in address order.
     */
    method Free(ptr: int) returns (ghost k: nat)
      requires Valid() && LivePointer(ptr)
      modifies this
      ensures Valid()
      ensures k < |old(nodes)| && !old(nodes)[k].isFreeNode && Offset(old(nodes), k) + Header() == ptr
      ensures nodes == FreeNodes(old(nodes), k)
      ensures usedMemory == old(usedMemory) - old(nodes)[k].size
    {
      var ns := nodes;
      ghost var target: nat :| target < |ns| && Offset(ns, target) + Header() == ptr && !ns[target].isFreeNode;
      var i := 0;
      var offset := 0;
      while offset + Header() != ptr
        invariant i <= target && offset == Offset(ns, i)
        decreases target - i
      {
        if i == target {
          assert false;
        }
        assert ns[..i + 1][..i] == ns[..i];
        offset := offset + ns[i].size;
        i := i + 1;
      }
      OffsetsIncreaseUnique(ns, i, target);
      k := i;
      FreeNodesAccounting(ns, i);
      FreeNodesShape(ns, i);
      usedMemory := usedMemory - ns[i].size;
      nodes := FreeNodes(ns, i);
    }
  }

  /** An allocation followed by freeing the pointer it returned leaves the pool as it was. */
  method AllocFreeRoundTrip(pool: MemoryPool, size: nat) returns (r: Option<nat>)
    requires pool.Valid()
    modifies pool
    ensures pool.Valid() && pool.nodes == old(pool.nodes) && pool.usedMemory == old(pool.usedMemory)
  {
    ghost var before := pool.nodes;
    ghost var m := pool.MinSize(size);
    ghost var h := pool.Header();
    assert m > 0 by {
      ResizeToMultipleIsLeastMultiple(size + pool.Header() + TailSize, pool.partitionSize);
    }
    r := pool.Alloc(size);
    assert pool.Header() == h && pool.MinSize(size) == m;
    if r.Some? {
      ghost var k := FirstFit(before, m).value;
      ghost var mid := pool.nodes;
      assert mid == AllocNodes(before, k, m) && r.value == Offset(before, k) + h;
      AllocThenFreeRestores(before, k, m);
      AllocNodesAccounting(before, k, m);
      assert 0 <= k < |mid| && Offset(mid, k) + h == r.value && !mid[k].isFreeNode;
      assert pool.LivePointer(r.value);
      ghost var j := pool.Free(r.value);
      OffsetsIncreaseUnique(mid, j, k);
    }
  }

  /**
   * `alloc`'s search: walks the nodes in address order, summing their sizes, and stops at the
   * first free node of at least `minSize` bytes, or after the last node when there is none.
   */
  method SearchFreeList(ns: seq<Node>, minSize: nat) returns (i: nat, offset: nat)
    ensures i <= |ns| && offset == Offset(ns, i)
    ensures FirstFit(ns, minSize) == if i == |ns| then None else Some(i)
  {
    i, offset := 0, 0;
    while i < |ns| && !(ns[i].isFreeNode && ns[i].size >= minSize)
      invariant i <= |ns| && offset == Offset(ns, i)
      invariant forall j :: 0 <= j < i ==> !(ns[j].isFreeNode && ns[j].size >= minSize)
    {
      assert ns[..i + 1][..i] == ns[..i];
      offset := offset + ns[i].size;
      i := i + 1;
    }
  }

  /** A node ends inside the buffer. */
  lemma FitsInPool(ns: seq<Node>, i: nat)
    requires PositiveSizes(ns) && i < |ns|
    ensures Offset(ns, i) + ns[i].size <= Sum(ns)
  {
    assert ns[..i + 1][..i] == ns[..i];
    assert ns[..|ns|] == ns;
    if i + 1 < |ns| {
      OffsetsIncrease(ns, i + 1, |ns|);
    }
  }

  /** Distinct nodes have distinct addresses. */
  lemma OffsetsIncreaseUnique(ns: seq<Node>, i: nat, j: nat)
    requires PositiveSizes(ns) && i < |ns| && j < |ns|
    requires Offset(ns, i) == Offset(ns, j)
    ensures i == j
  {
    if i < j {
      OffsetsIncrease(ns, i, j);
    } else if j < i {
      OffsetsIncrease(ns, j, i);
    }
  }
}
