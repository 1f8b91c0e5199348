/**
 * `LabeledBlockAllocator<BlockLabelType, BlockSize>`: a buffer cut into equal blocks, each
 * described by a control block kept at the end of the buffer. Control blocks are linked into a
 * free list and an in-use list; taking a block stamps its control block with a label, and
 * `Free(blockLabel)` returns every in-use block carrying that label at once.
 *
 * A block is named by its index (its address is `buffer + index * BlockSize`); each linked list
 * becomes the sequence of the indices it links, head first, and the `name` fields of the
 * control blocks become the sequence `names`, indexed by block. Labels are integers.
 */
module LabeledBlocks {
  import opened Wrappers
  import opened BumpArenas

  /** Every element of `s` is a block index below `n`. */
  predicate Below(s: seq<int>, n: int) {
    forall i :: 0 <= i < |s| ==> 0 <= s[i] < n
  }

  /** The block indices `lo`, ..., `hi - 1`, each once. */
  ghost function Blocks(lo: int, hi: int): multiset<int>
    decreases hi - lo
  {
    if lo >= hi then multiset{} else multiset{lo} + Blocks(lo + 1, hi)
  }

  /** Each index of `lo..hi-1` occurs once in `Blocks(lo, hi)`, and no other index occurs. */
  lemma {:induction false} BlocksCount(lo: int, hi: int, x: int)
    ensures Blocks(lo, hi)[x] == if lo <= x < hi then 1 else 0
    decreases hi - lo
  {
    if lo < hi {
      BlocksCount(lo + 1, hi, x);
    }
  }

  /** Growing `lo..hi-1` by one index at either end adds that index. */
  lemma {:induction false} BlocksGrow(lo: int, hi: int)
    requires lo <= hi
    ensures Blocks(lo - 1, hi) == multiset{lo - 1} + Blocks(lo, hi)
    ensures Blocks(lo, hi + 1) == Blocks(lo, hi) + multiset{hi}
    decreases hi - lo
  {
    if lo < hi {
      BlocksGrow(lo + 1, hi);
    }
  }

  /** `Range(lo, hi)` lists the blocks `lo..hi-1`. */
  lemma {:induction false} RangeBlocks(lo: int, hi: int)
    requires lo <= hi
    ensures multiset(Range(lo, hi)) == Blocks(lo, hi)
    ensures |Blocks(lo, hi)| == hi - lo
    decreases hi - lo
  {
    if lo < hi {
      RangeBlocks(lo + 1, hi);
      assert Range(lo, hi) == [lo] + Range(lo + 1, hi);
    }
  }

  /** The free list `free` and the in-use list `used` hold each block `0..n-1` exactly once between them. */
  ghost predicate Partition(free: seq<int>, used: seq<int>, n: nat) {
    && multiset(free) + multiset(used) == Blocks(0, n)
    && Below(free, n) && Below(used, n)
  }

  /** Two sequences that together make up the blocks `0..n-1` are disjoint and hold indices only. */
  lemma Partitioned(a: seq<int>, b: seq<int>, n: nat)
    requires multiset(a) + multiset(b) == Blocks(0, n)
    ensures Partition(a, b, n)
    ensures forall x :: x in a ==> x !in b
  {
    forall i | 0 <= i < |a|
      ensures 0 <= a[i] < n
    {
      assert a[i] in multiset(a);
      BlocksCount(0, n, a[i]);
    }
    forall i | 0 <= i < |b|
      ensures 0 <= b[i] < n
    {
      assert b[i] in multiset(b);
      BlocksCount(0, n, b[i]);
    }
    forall x | x in a
      ensures x !in b
    {
      assert multiset(a)[x] >= 1;
      BlocksCount(0, n, x);
    }
  }

  // ---------------------------------------------------------------- Free(blockLabel)

  /** The blocks of `s` not labelled `blockLabel`, in their order in `s`. */
  function Kept(s: seq<int>, names: seq<int>, blockLabel: int): seq<int>
    requires Below(s, |names|)
  {
    if s == [] then []
    else
      var b := s[|s| - 1];
      Kept(s[..|s| - 1], names, blockLabel) + (if names[b] != blockLabel then [b] else [])
  }

  /** The blocks of `s` labelled `blockLabel`, in their order in `s`. */
  function Matching(s: seq<int>, names: seq<int>, blockLabel: int): seq<int>
    requires Below(s, |names|)
  {
    if s == [] then []
    else
      var b := s[|s| - 1];
      Matching(s[..|s| - 1], names, blockLabel) + (if names[b] == blockLabel then [b] else [])
  }

  function Reverse(s: seq<int>): seq<int>
  {
    if s == [] then [] else [s[|s| - 1]] + Reverse(s[..|s| - 1])
  }

  lemma {:induction false} ReverseKeepsBlocks(s: seq<int>)
    ensures multiset(Reverse(s)) == multiset(s)
  {
    if s != [] {
      ReverseKeepsBlocks(s[..|s| - 1]);
      assert s == s[..|s| - 1] + [s[|s| - 1]];
    }
  }

  /** One more block at the end of `s` lands at the end of `Kept` or of `Matching`. */
  lemma LabelStep(s: seq<int>, b: int, names: seq<int>, blockLabel: int)
    requires Below(s, |names|) && 0 <= b < |names|
    ensures Below(s + [b], |names|)
    ensures Kept(s + [b], names, blockLabel) == Kept(s, names, blockLabel) + (if names[b] != blockLabel then [b] else [])
    ensures Matching(s + [b], names, blockLabel) == Matching(s, names, blockLabel) + (if names[b] == blockLabel then [b] else [])
  {
    assert (s + [b])[..|s|] == s;
  }

  lemma ReverseSnoc(s: seq<int>, x: int)
    ensures Reverse(s + [x]) == [x] + Reverse(s)
  {
    assert (s + [x])[..|s|] == s;
  }

  /** `Kept` and `Matching` split `s` by label: every block lands in exactly one of them. */
  lemma {:induction false} SplitByLabel(s: seq<int>, names: seq<int>, blockLabel: int)
    requires Below(s, |names|)
    ensures multiset(Kept(s, names, blockLabel)) + multiset(Matching(s, names, blockLabel)) == multiset(s)
  {
    if s != [] {
      var init := s[..|s| - 1];
      var b := s[|s| - 1];
      SplitByLabel(init, names, blockLabel);
      assert s == init + [b];
      if names[b] != blockLabel {
        assert Kept(s, names, blockLabel) == Kept(init, names, blockLabel) + [b];
        assert Matching(s, names, blockLabel) == Matching(init, names, blockLabel);
      } else {
        assert Kept(s, names, blockLabel) == Kept(init, names, blockLabel);
        assert Matching(s, names, blockLabel) == Matching(init, names, blockLabel) + [b];
      }
    }
  }

  /** `Kept` holds exactly the blocks of `s` whose label differs from `blockLabel`. */
  lemma {:induction false} KeptMembers(s: seq<int>, names: seq<int>, blockLabel: int)
    requires Below(s, |names|)
    ensures forall b :: b in Kept(s, names, blockLabel) <==> b in s && names[b] != blockLabel
  {
    if s != [] {
      var init := s[..|s| - 1];
      KeptMembers(init, names, blockLabel);
      assert s == init + [s[|s| - 1]];
    }
  }

  /** `Matching` holds exactly the blocks of `s` labelled `blockLabel`. */
  lemma {:induction false} MatchingMembers(s: seq<int>, names: seq<int>, blockLabel: int)
    requires Below(s, |names|)
    ensures forall b :: b in Matching(s, names, blockLabel) <==> b in s && names[b] == blockLabel
  {
    if s != [] {
      var init := s[..|s| - 1];
      MatchingMembers(init, names, blockLabel);
      assert s == init + [s[|s| - 1]];
    }
  }

  /**
   * Taking one more block `b` labelled `blockLabel` and then freeing `blockLabel` gives back exactly `b`
   * when no block in use carried `blockLabel` before: the in-use list is as it was.
   */
  lemma {:induction false} FreeUndoesGet(s: seq<int>, names: seq<int>, b: int, blockLabel: int)
    requires Below(s, |names|) && 0 <= b < |names| && b !in s
    requires forall i :: 0 <= i < |s| ==> names[s[i]] != blockLabel
    ensures Kept([b] + s, names[b := blockLabel], blockLabel) == s
    ensures Matching([b] + s, names[b := blockLabel], blockLabel) == [b]
  {
    var names' := names[b := blockLabel];
    if s == [] {
      assert ([b] + s)[..0] == [];
    } else {
      var init := s[..|s| - 1];
      var x := s[|s| - 1];
      FreeUndoesGet(init, names, b, blockLabel);
      assert ([b] + s)[..|s|] == [b] + init;
      assert names'[x] == names[x];
      assert s == init + [x];
    }
  }

  /**
   * The walk of `Free` over the in-use list: blocks labelled `blockLabel` are unlinked and pushed onto
   * the free list one by one, so the last one found ends up at its head.
   */
  method ReleaseLabel(used: seq<int>, free: seq<int>, names: seq<int>, blockLabel: int) returns (used': seq<int>, free': seq<int>, released: nat)
    requires Below(used, |names|)
    ensures used' == Kept(used, names, blockLabel)
    ensures free' == Reverse(Matching(used, names, blockLabel)) + free
    ensures released == |Matching(used, names, blockLabel)|
  {
    used' := [];
    free' := free;
    released := 0;
    var i := 0;
    assert used[..0] == [];
    while i < |used|
      invariant 0 <= i <= |used|
      invariant used' == Kept(used[..i], names, blockLabel)
      invariant free' == Reverse(Matching(used[..i], names, blockLabel)) + free
      invariant released == |Matching(used[..i], names, blockLabel)|
    {
      var b := used[i];
      ghost var pre := used[..i];
      ghost var m := Matching(pre, names, blockLabel);
      assert used[..i + 1] == pre + [b];
      LabelStep(pre, b, names, blockLabel);
      if names[b] == blockLabel {
        ReverseSnoc(m, b);
        assert [b] + (Reverse(m) + free) == Reverse(m + [b]) + free;
        free' := [b] + free';
        released := released + 1;
      } else {
        assert m + [] == m;
        used' := used' + [b];
      }
      i := i + 1;
    }
    assert used[..|used|] == used;
  }

  // ---------------------------------------------------------------- GetConsecutiveBlocks

  /** Block `b` extends the run `first..last` by one at either end. */
  predicate Adjacent(b: int, first: int, last: int) {
    b == first - 1 || b == last + 1
  }

  /**
   * `FindNeightbourBlock`: the first free block adjacent to the run `first..last`, unlinked from
   * the free list; None (null) when there is none. An empty free list has none.
   */
  method FindNeighbour(free: seq<int>, first: int, last: int) returns (p: Option<nat>, rest: seq<int>)
    ensures p.Some? ==> p.value < |free| && rest == free[..p.value] + free[p.value + 1..]
    ensures p.Some? ==> Adjacent(free[p.value], first, last)
    ensures p.Some? ==> forall k :: 0 <= k < p.value ==> !Adjacent(free[k], first, last)
    ensures p.None? ==> rest == free && forall k :: 0 <= k < |free| ==> !Adjacent(free[k], first, last)
  {
    var i := 0;
    while i < |free|
      invariant 0 <= i <= |free|
      invariant forall k :: 0 <= k < i ==> !Adjacent(free[k], first, last)
    {
      if Adjacent(free[i], first, last) {
        return Some(i), free[..i] + free[i + 1..];
      }
      i := i + 1;
    }
    return None, free;
  }

  /** The run `first..last`, the set-aside runs and the rest of the free list hold the blocks of `free0`. */
  ghost predicate Conserved(first: int, last: int, failed: seq<int>, free: seq<int>, free0: seq<int>)
    requires first <= last
  {
    Blocks(first, last + 1) + multiset(failed) + multiset(free) == multiset(free0)
  }

  /** Moving the adjacent free block `free[p]` onto the run keeps every block accounted for. */
  lemma ExtendRun(first: int, last: int, failed: seq<int>, free: seq<int>, free0: seq<int>, p: nat) returns (first': int, last': int)
    requires first <= last && p < |free| && Adjacent(free[p], first, last)
    requires Conserved(first, last, failed, free, free0)
    ensures free[p] in free0
    ensures free[p] == first - 1 ==> first' == free[p] && last' == last
    ensures free[p] != first - 1 ==> first' == first && last' == free[p]
    ensures first' <= last' && Conserved(first', last', failed, free[..p] + free[p + 1..], free0)
  {
    var x := free[p];
    var rest := free[..p] + free[p + 1..];
    assert free == free[..p] + [x] + free[p + 1..];
    assert multiset(free) == multiset(rest) + multiset{x};
    assert x in multiset(free0);
    BlocksGrow(first, last + 1);
    if x == first - 1 {
      first', last' := x, last;
    } else {
      first', last' := first, x;
    }
  }

  /** Setting the run aside and starting afresh from the head of the free list. */
  lemma RestartRun(first: int, last: int, failed: seq<int>, free: seq<int>, free0: seq<int>)
    requires first <= last && free != []
    requires Conserved(first, last, failed, free, free0)
    ensures free[0] in free0
    ensures Conserved(free[0], free[0], Range(first, last + 1) + failed, free[1..], free0)
  {
    assert free == [free[0]] + free[1..];
    RangeBlocks(first, last + 1);
    assert free[0] in multiset(free0);
  }

  /** `free` is what is left of the free list `free0` once the blocks `first..first+n-1` are taken. */
  ghost predicate RunTaken(first: int, n: nat, free: seq<int>, free0: seq<int>) {
    Blocks(first, first + n) + multiset(free) == multiset(free0)
  }

  /** Once the run holds n blocks, the set-aside runs rejoin the free list. */
  lemma FinishRun(first: int, last: int, failed: seq<int>, free: seq<int>, free0: seq<int>, n: nat)
    requires first <= last && last + 1 == first + n
    requires Conserved(first, last, failed, free, free0)
    ensures RunTaken(first, n, failed + free, free0)
  {
  }

  /**
   * The labels during the search: the run `first..last` carries `blockLabel`, and only blocks of
   * the original free list `free0` have been relabelled.
   */
  ghost predicate Stamped(names: seq<int>, names0: seq<int>, free0: seq<int>, first: int, last: int, blockLabel: int) {
    && |names| == |names0|
    && (forall i :: first <= i <= last ==> 0 <= i < |names| && names[i] == blockLabel)
    && (forall i :: 0 <= i < |names| && i !in free0 ==> names[i] == names0[i])
  }

  /** Stamping one more free block `x` keeps `Stamped` for a run that grew by at most `x`. */
  lemma StampBlock(names: seq<int>, names0: seq<int>, free0: seq<int>, first: int, last: int, first': int, last': int, x: int, blockLabel: int)
    requires Stamped(names, names0, free0, first, last, blockLabel)
    requires x in free0 && 0 <= x < |names| && 0 <= first' && last' < |names|
    requires || (first' == x && last' == x)
             || (first' == x == first - 1 && last' == last)
             || (first' == first && last' == x == last + 1)
    ensures Stamped(names[x := blockLabel], names0, free0, first', last', blockLabel)
  {
    var names' := names[x := blockLabel];
    forall i | first' <= i <= last'
      ensures 0 <= i < |names'| && names'[i] == blockLabel
    {
      if i != x {
        assert first <= i <= last;
      }
    }
  }

  /**
   * The state of the search: the run `first..last` (shorter than n + 1), the set-aside runs
   * `failed` and the rest of the free list `free` hold the blocks of `free0`; the run carries
   * `blockLabel`.
   */
  ghost predicate Searching(first: int, last: int, failed: seq<int>, free: seq<int>, names: seq<int>,
                            free0: seq<int>, names0: seq<int>, blockLabel: int, n: nat)
  {
    && 0 <= first <= last < |names0| && (last + 1) - first <= n
    && Conserved(first, last, failed, free, free0)
    && Below(failed, |names0|) && Below(free, |names0|)
    && Stamped(names, names0, free0, first, last, blockLabel)
  }

  /** Setting the run aside keeps the search's state, with the head of the free list as the new run. */
  lemma RestartKeepsSearching(first: int, last: int, failed: seq<int>, free: seq<int>, names: seq<int>,
                              free0: seq<int>, names0: seq<int>, blockLabel: int, n: nat)
    requires Searching(first, last, failed, free, names, free0, names0, blockLabel, n)
    requires (last + 1) - first < n && free != []
    ensures Searching(free[0], free[0], Range(first, last + 1) + failed, free[1..], names[free[0] := blockLabel],
                      free0, names0, blockLabel, n)
  {
    RestartRun(first, last, failed, free, free0);
    RangeIndex(first, last + 1);
    StampBlock(names, names0, free0, first, last, free[0], free[0], free[0], blockLabel);
  }

  /** Growing the run by the adjacent free block `free[p]` keeps the search's state. */
  lemma ExtendKeepsSearching(first: int, last: int, failed: seq<int>, free: seq<int>, names: seq<int>,
                             free0: seq<int>, names0: seq<int>, blockLabel: int, n: nat, p: nat)
    returns (first': int, last': int)
    requires Searching(first, last, failed, free, names, free0, names0, blockLabel, n)
    requires (last + 1) - first < n && p < |free| && Adjacent(free[p], first, last)
    ensures free[p] == first - 1 ==> first' == free[p] && last' == last
    ensures free[p] != first - 1 ==> first' == first && last' == free[p]
    ensures Searching(first', last', failed, free[..p] + free[p + 1..], names[free[p] := blockLabel],
                      free0, names0, blockLabel, n)
  {
    var rest := free[..p] + free[p + 1..];
    first', last' := ExtendRun(first, last, failed, free, free0, p);
    assert Below(rest, |names0|) by {
      forall k | 0 <= k < |rest| ensures 0 <= rest[k] < |names0| {
        if k < p { assert rest[k] == free[k]; } else { assert rest[k] == free[k + 1]; }
      }
    }
    StampBlock(names, names0, free0, first, last, first', last', free[p], blockLabel);
  }

  /** The blocks `d..d+n-1` are all on the free list `free`: a run the search could return. */
  ghost predicate FreeStretch(free: seq<int>, d: int, n: nat) {
    forall i :: d <= i < d + n ==> i in free
  }

  /** None of the blocks `d..d+n-1` has been set aside in `failed`. */
  ghost predicate NoneFailed(failed: seq<int>, d: int, n: nat) {
    forall i :: d <= i < d + n ==> i !in failed
  }

  /** `Range(lo, hi)` holds exactly the integers `lo..hi-1`. */
  lemma RangeMembers(lo: int, hi: int)
    requires lo <= hi
    ensures forall x :: x in Range(lo, hi) <==> lo <= x < hi
  {
    RangeIndex(lo, hi);
    forall x | lo <= x < hi
      ensures x in Range(lo, hi)
    {
      assert Range(lo, hi)[x - lo] == x;
    }
  }

  /**
   * A block of the original free list that is neither set aside nor in the run is still on the
   * free list.
   */
  lemma StillFree(first: int, last: int, failed: seq<int>, free: seq<int>, free0: seq<int>, j: int)
    requires first <= last && Conserved(first, last, failed, free, free0)
    requires j in free0 && j !in failed && !(first <= j <= last)
    ensures j in free
  {
    assert multiset(free0)[j] >= 1;
    BlocksCount(first, last + 1, j);
  }

  /**
   * When no free block is adjacent to a run shorter than n, the run lies outside every stretch
   * of n free blocks none of which has been set aside, and the free list still holds that
   * stretch, so it is not empty.
   */
  lemma NoNeighbourMissesStretch(first: int, last: int, failed: seq<int>, free: seq<int>, free0: seq<int>, d: int, n: nat)
    requires first <= last && (last + 1) - first < n
    requires Conserved(first, last, failed, free, free0)
    requires FreeStretch(free0, d, n) && NoneFailed(failed, d, n)
    requires forall k :: 0 <= k < |free| ==> !Adjacent(free[k], first, last)
    ensures last < d || d + n <= first
    ensures free != []
  {
    if !(last < d || d + n <= first) {
      var j := if first - 1 >= d then first - 1 else last + 1;
      assert d <= j < d + n && Adjacent(j, first, last);
      StillFree(first, last, failed, free, free0, j);
      assert false;
    }
    StillFree(first, last, failed, free, free0, d);
  }

  /**
   * Setting aside a run that has no free neighbour keeps every block of the stretch `d..d+n-1`
   * out of the set-aside runs, and there is a free block to restart from.
   */
  lemma RestartSparesStretch(first: int, last: int, failed: seq<int>, free: seq<int>, free0: seq<int>, d: int, n: nat)
    requires first <= last && (last + 1) - first < n
    requires Conserved(first, last, failed, free, free0)
    requires FreeStretch(free0, d, n) && NoneFailed(failed, d, n)
    requires forall k :: 0 <= k < |free| ==> !Adjacent(free[k], first, last)
    ensures free != [] && NoneFailed(Range(first, last + 1) + failed, d, n)
  {
    NoNeighbourMissesStretch(first, last, failed, free, free0, d, n);
    RangeMembers(first, last + 1);
  }

  /** The blocks of a taken run were all on the original free list. */
  lemma RunIsStretch(first: int, n: nat, free: seq<int>, free0: seq<int>)
    requires RunTaken(first, n, free, free0)
    ensures FreeStretch(free0, first, n)
  {
    forall i | first <= i < first + n
      ensures i in free0
    {
      BlocksCount(first, first + n, i);
      assert multiset(free0)[i] >= 1;
    }
  }

  /**
   * One round of the do-while loop of `GetConsecutiveBlocks`: grow the run by an adjacent free
   * block, or, when there is none, set the run aside and start a new one at the head of the free
   * list. `stuck` when there is neither: the source then calls `FindNeightbourBlock` on an empty
   * free list. While a stretch `d..d+n-1` of free blocks none of which was set aside exists
   * (`avail`), the search never gets stuck and never sets a block of it aside.
   */
  method SearchStep(first: int, last: int, failed: seq<int>, free: seq<int>, names: seq<int>,
                    ghost free0: seq<int>, ghost names0: seq<int>, blockLabel: int, n: nat,
                    ghost d: int, ghost avail: bool)
    returns (stuck: bool, first': int, last': int, failed': seq<int>, free': seq<int>, names': seq<int>)
    requires Searching(first, last, failed, free, names, free0, names0, blockLabel, n)
    requires (last + 1) - first < n
    requires avail ==> FreeStretch(free0, d, n) && NoneFailed(failed, d, n)
    ensures stuck ==> free == []
    ensures avail ==> !stuck && NoneFailed(failed', d, n)
    ensures !stuck ==> Searching(first', last', failed', free', names', free0, names0, blockLabel, n)
    ensures !stuck ==> |free'| < |free|
  {
    var p, rest := FindNeighbour(free, first, last);
    if p.None? {
      if avail {
        RestartSparesStretch(first, last, failed, free, free0, d, n);
      }
      if free == [] {
        return true, first, last, failed, free, names;
      }
      RestartKeepsSearching(first, last, failed, free, names, free0, names0, blockLabel, n);
      return false, free[0], free[0], Range(first, last + 1) + failed, free[1..], names[free[0] := blockLabel];
    }
    var x := free[p.value];
    ghost var f, l := ExtendKeepsSearching(first, last, failed, free, names, free0, names0, blockLabel, n, p.value);
    if x == first - 1 {
      first', last' := x, last;
    } else {
      first', last' := first, x;
    }
    return false, first', last', failed, rest, names[x := blockLabel];
  }

  /**
   * The do-while search of `GetConsecutiveBlocks` over the free list: the head of the free list
   * starts a run, which grows by adjacent free blocks at either end; when no free block is
   * adjacent the run is set aside and the next free block starts a new one. It ends once the
   * run holds n blocks, and the set-aside runs go back in front of the free list. `ok` is false
   * where the source cannot go on: no adjacent block and the free list exhausted. The search
   * succeeds exactly when the free list holds some n consecutive blocks: a run set aside has no
   * free neighbour and is shorter than n, so it never overlaps such a stretch.
   */
  method GatherRun(free0: seq<int>, names0: seq<int>, blockLabel: int, n: nat) returns (ok: bool, first: int, free: seq<int>, names: seq<int>)
    requires free0 != [] && n >= 2
    requires Below(free0, |names0|)
    ensures ok <==> exists d :: FreeStretch(free0, d, n)
    ensures ok ==> RunTaken(first, n, free, free0)
    ensures ok ==> Below(free, |names0|) && 0 <= first && first + n <= |names0|
    ensures ok ==> |names| == |names0| && forall i :: first <= i < first + n ==> names[i] == blockLabel
    ensures ok ==> forall i :: 0 <= i < |names| && i !in free0 ==> names[i] == names0[i]
  {
    first := free0[0];
    var last := first;
    var failed: seq<int> := [];
    free := free0[1..];
    names := names0[first := blockLabel];
    assert free0 == [first] + free;
    ghost var avail := exists d :: FreeStretch(free0, d, n);
    ghost var d: int := 0;
    if avail {
      d :| FreeStretch(free0, d, n);
    }
    while (last + 1) - first < n
      invariant Searching(first, last, failed, free, names, free0, names0, blockLabel, n)
      invariant avail ==> FreeStretch(free0, d, n) && NoneFailed(failed, d, n)
      decreases |free|
    {
      var stuck;
      stuck, first, last, failed, free, names := SearchStep(first, last, failed, free, names, free0, names0, blockLabel, n, d, avail);
      if stuck {
        return false, first, free, names;
      }
    }
    FinishRun(first, last, failed, free, free0, n);
    RunIsStretch(first, n, failed + free, free0);
    free := failed + free;
    ok := true;
  }

  // ---------------------------------------------------------------- the allocator

  /** `(end + align - 1) & ~(align - 1)`, stepped back one control block if past the end. */
  function LastControl(end: nat, cbSize: nat, cbAlign: nat): (r: int)
    requires cbAlign >= 1 && cbSize >= cbAlign
    ensures r <= end
  {
    RoundUpIsLeastMultiple(end, cbAlign);
    var r := RoundUp(end, cbAlign);
    if r > end then r - cbSize else r
  }

  /** k blocks of `blockSize` bytes from `buffer` end at or before the first of k control blocks. */
  predicate Fits(buffer: nat, size: nat, blockSize: nat, cbSize: nat, cbAlign: nat, k: int)
    requires cbAlign >= 1 && cbSize >= cbAlign
  {
    buffer + k * blockSize <= LastControl(buffer + size, cbSize, cbAlign) - k * cbSize
  }

  /**
   * The constructor's block count: start from `size / BlockSize` and drop blocks until the blocks
   * end before their control blocks begin. The source asserts that one block is left.
   */
  method CountBlocks(buffer: nat, size: nat, blockSize: nat, cbSize: nat, cbAlign: nat) returns (k: nat)
    requires blockSize >= 1 && cbAlign >= 1 && cbSize >= cbAlign
    requires Fits(buffer, size, blockSize, cbSize, cbAlign, 1)
    ensures 1 <= k <= size / blockSize
    ensures Fits(buffer, size, blockSize, cbSize, cbAlign, k)
    ensures forall j :: k < j <= size / blockSize ==> !Fits(buffer, size, blockSize, cbSize, cbAlign, j)
  {
    assert blockSize <= size;
    DivAtLeastOne(size, blockSize);
    k := size / blockSize;
    while !Fits(buffer, size, blockSize, cbSize, cbAlign, k)
      invariant 1 <= k <= size / blockSize
      invariant forall j :: k < j <= size / blockSize ==> !Fits(buffer, size, blockSize, cbSize, cbAlign, j)
      decreases k
    {
      k := k - 1;
    }
  }

  lemma DivAtLeastOne(a: nat, b: nat)
    requires 1 <= b <= a
    ensures a / b >= 1
  {
  }

  class LabeledBlockAllocator {
    const numBlocks: nat
    var freeList: seq<int>
    var usedList: seq<int>
    var names: seq<int>
    var freeBlocks: int

    /** Every block is on exactly one of the two lists, and `freeBlocks` counts the free list. */
    ghost predicate Valid()
      reads this
    {
      && |names| == numBlocks
      && Partition(freeList, usedList, numBlocks)
      && freeBlocks == |freeList|
    }

    /**
     * The constructor: the blocks that fit, all free, block 0 at the head of the free list. The
     * source's assertion that the buffer is aligned to `BlockSize` guards no computation.
     */
    constructor (buffer: nat, size: nat, blockSize: nat, cbSize: nat, cbAlign: nat)
      requires blockSize >= 1 && cbAlign >= 1 && cbSize >= cbAlign
      requires Fits(buffer, size, blockSize, cbSize, cbAlign, 1)
      ensures Valid()
      ensures 1 <= numBlocks && Fits(buffer, size, blockSize, cbSize, cbAlign, numBlocks)
      ensures forall j :: numBlocks < j <= size / blockSize ==> !Fits(buffer, size, blockSize, cbSize, cbAlign, j)
      ensures freeList == Range(0, numBlocks) && usedList == [] && freeBlocks == numBlocks
    {
      var k := CountBlocks(buffer, size, blockSize, cbSize, cbAlign);
      RangeIndex(0, k);
      RangeBlocks(0, k);
      numBlocks := k;
      freeList := Range(0, k);
      usedList := [];
      names := seq(k, _ => 0);
      freeBlocks := k;
    }

    /**
     * `GetBlock(blockLabel)`: null when the free list is empty; otherwise the head of the free list
     * moves to the head of the in-use list, stamped with `blockLabel`.
     */
    method GetBlock(blockLabel: int) returns (r: Option<int>)
      requires Valid()
      modifies this
      ensures Valid()
      ensures old(freeList) == [] <==> r == None
      ensures r == None ==> freeList == old(freeList) && usedList == old(usedList) && names == old(names) && freeBlocks == old(freeBlocks)
      ensures r != None ==>
        && r.value == old(freeList)[0]
        && freeList == old(freeList)[1..]
        && usedList == [r.value] + old(usedList)
        && names == old(names)[r.value := blockLabel]
        && freeBlocks == old(freeBlocks) - 1
    {
      if freeList == [] {
        return None;
      }
      var b := freeList[0];
      assert freeList == [b] + freeList[1..];
      freeBlocks := freeBlocks - 1;
      freeList := freeList[1..];
      usedList := [b] + usedList;
      names := names[b := blockLabel];
      r := Some(b);
    }

    /**
     * `Free(blockLabel)`: every in-use block labelled `blockLabel` goes back to the free list (pushed on
     * its head one by one, in in-use order); the other in-use blocks keep their order.
     */
    method Free(blockLabel: int)
      requires Valid()
      modifies this
      ensures Valid()
      ensures usedList == Kept(old(usedList), names, blockLabel)
      ensures freeList == Reverse(Matching(old(usedList), names, blockLabel)) + old(freeList)
      ensures names == old(names)
      ensures freeBlocks == old(freeBlocks) + |Matching(old(usedList), names, blockLabel)|
    {
      var used, free, released := ReleaseLabel(usedList, freeList, names, blockLabel);
      ReleaseKeepsPartition(freeList, usedList, names, blockLabel, numBlocks);
      usedList := used;
      freeList := free;
      freeBlocks := freeBlocks + released;
    }

    /**
     * `GetConsecutiveBlocks(blockLabel, n)` for n >= 2: n blocks with consecutive indices, all labelled
     * `blockLabel`, linked at the head of the in-use list in index order; the first of them is
     * returned. A run is found exactly when the free list holds n consecutive blocks. None when
     * the free list is empty (the source's null) and when it holds no such run, where the source
     * runs the free list dry and dereferences its null head in `FindNeightbourBlock`; in both
     * cases nothing changes here.
     */
    method GetConsecutiveBlocks(blockLabel: int, n: nat) returns (r: Option<int>)
      requires Valid() && n >= 2
      modifies this
      ensures Valid()
      ensures old(freeList) == [] ==> r == None
      ensures r != None <==> exists d :: FreeStretch(old(freeList), d, n)
      ensures r == None ==> freeList == old(freeList) && usedList == old(usedList) && names == old(names) && freeBlocks == old(freeBlocks)
      ensures r != None ==>
        && 0 <= r.value && r.value + n <= numBlocks
        && usedList == Range(r.value, r.value + n) + old(usedList)
        && RunTaken(r.value, n, freeList, old(freeList))
        && freeBlocks == old(freeBlocks) - n
        && (forall i :: r.value <= i < r.value + n ==> names[i] == blockLabel)
        && (forall b :: b in old(usedList) ==> names[b] == old(names)[b])
        && (forall i :: 0 <= i < numBlocks && i !in old(freeList) ==> names[i] == old(names)[i])
    {
      if freeList == [] {
        forall d: int
          ensures !FreeStretch(freeList, d, n)
        {
          assert d !in freeList;
        }
        return None;
      }
      var ok, first, free, names' := GatherRun(freeList, names, blockLabel, n);
      if !ok {
        return None;
      }
      RunKeepsPartition(freeList, usedList, free, first, n, numBlocks);
      var run := Range(first, first + n);
      usedList := run + usedList;
      freeList := free;
      names := names';
      freeBlocks := freeBlocks - n;
      r := Some(first);
    }
  }

  /** Freeing a label keeps every block on exactly one list. */
  lemma ReleaseKeepsPartition(free: seq<int>, used: seq<int>, names: seq<int>, blockLabel: int, n: nat)
    requires Partition(free, used, n) && Below(used, |names|)
    ensures Partition(Reverse(Matching(used, names, blockLabel)) + free, Kept(used, names, blockLabel), n)
    ensures |Reverse(Matching(used, names, blockLabel)) + free| == |free| + |Matching(used, names, blockLabel)|
  {
    var m := Matching(used, names, blockLabel);
    SplitByLabel(used, names, blockLabel);
    ReverseKeepsBlocks(m);
    assert |Reverse(m)| == |multiset(Reverse(m))| == |m|;
    Partitioned(Reverse(m) + free, Kept(used, names, blockLabel), n);
  }

  /** Moving a run of n free blocks to the in-use list keeps every block on exactly one list. */
  lemma RunKeepsPartition(free: seq<int>, used: seq<int>, free': seq<int>, first: int, n: nat, numBlocks: nat)
    requires Partition(free, used, numBlocks)
    requires RunTaken(first, n, free', free)
    ensures Partition(free', Range(first, first + n) + used, numBlocks)
    ensures |free'| == |free| - n
    ensures forall b :: b in used ==> b !in free
  {
    RangeBlocks(first, first + n);
    assert |multiset(free)| == n + |multiset(free')|;
    Partitioned(free', Range(first, first + n) + used, numBlocks);
    Partitioned(free, used, numBlocks);
  }

  /**
   * `GetBlock(blockLabel)` followed by `Free(blockLabel)` restores `freeBlocks` when no block in use
   * carried `blockLabel` before.
   */
  method GetThenFree(a: LabeledBlockAllocator, blockLabel: int)
    requires a.Valid()
    requires forall i :: 0 <= i < |a.usedList| ==> a.names[a.usedList[i]] != blockLabel
    modifies a
    ensures a.Valid() && a.freeBlocks == old(a.freeBlocks) && a.usedList == old(a.usedList)
  {
    var r := a.GetBlock(blockLabel);
    if r != None {
      Partitioned(old(a.freeList), old(a.usedList), a.numBlocks);
      assert r.value in old(a.freeList);
      FreeUndoesGet(old(a.usedList), old(a.names), r.value, blockLabel);
    } else {
      KeptAllWhenNoneMatch(a.usedList, a.names, blockLabel);
      SplitByLabel(a.usedList, a.names, blockLabel);
    }
    a.Free(blockLabel);
  }

  /** When no block of `s` is labelled `blockLabel`, freeing `blockLabel` keeps all of `s`. */
  lemma {:induction false} KeptAllWhenNoneMatch(s: seq<int>, names: seq<int>, blockLabel: int)
    requires Below(s, |names|)
    requires forall i :: 0 <= i < |s| ==> names[s[i]] != blockLabel
    ensures Kept(s, names, blockLabel) == s
  {
    if s != [] {
      KeptAllWhenNoneMatch(s[..|s| - 1], names, blockLabel);
    }
  }
}
