/**
 * `FixedAllocator<size, align, buckets>`: `buckets` equal buckets of `size` bytes handed out from a
 * stack of free bucket indices. `freeBuckets[next..]` is the free stack (its top is
 * `freeBuckets[next]`); the prefix below `next` holds stale entries and means nothing.
 * A pointer is modelled as its byte offset from the start of the bucket storage.
 */
module FixedAllocators {
  import opened Wrappers

  predicate Distinct(s: seq<int>) {
    forall i, j :: 0 <= i < j < |s| ==> s[i] != s[j]
  }

  predicate AllBelow(s: seq<int>, n: int) {
    forall i :: 0 <= i < |s| ==> 0 <= s[i] < n
  }

  /** The most negative `intptr_t` is -Half and the largest is Half - 1. */
  const Half: int := Word / 2

  /** Whole multiples of s up to x: at least b of them when b * s <= x. */
  lemma QuotientAtLeast(x: nat, s: nat, b: nat)
    requires s >= 1 && b * s <= x
    ensures b <= x / s
  {
    var q := x / s;
    assert x == q * s + x % s;
    if q < b {
      MulIncreases(q + 1, b, s);
      assert false;
    }
  }

  /** A quotient by at least one is at most the dividend. */
  lemma QuotientAtMost(x: nat, s: nat)
    requires s >= 1
    ensures x / s <= x
  {
    var q := x / s;
    assert x == q * s + x % s;
    MulIncreases(1, s, q);
  }

  /** Dividing a 64-bit word by at least two leaves a non-negative `intptr_t`. */
  lemma QuotientBelowHalf(x: nat, s: nat)
    requires s >= 1 && x < Word
    ensures s >= 2 ==> x / s < Half
  {
    if s >= 2 {
      var q := x / s;
      assert x == q * s + x % s;
      MulIncreases(2, s, q);
    }
  }

  /** A negative `intptr_t` read as an unsigned word. */
  lemma WrapNegative(offset: int)
    ensures -Half <= offset < 0 ==> Wrap64(offset) == Word + offset
  {
    if -Half <= offset < 0 {
      assert offset == -1 * Word + (Word + offset);
    }
  }

  /**
   * The bucket index of `free`: the pointer difference is a signed `intptr_t`, but `sizeof` is
   * an unsigned `size_t`, so the difference is converted to an unsigned 64-bit word before the
   * division, and the quotient is stored back into a signed `intptr_t`. A non-negative
   * difference divides as usual; a negative one becomes a huge index (or, for one-byte buckets,
   * the difference itself).
   */
  function BucketIndex(offset: int, size: nat): (index: int)
    requires size >= 1
    ensures -Half <= index < Half
    ensures 0 <= offset < Half ==> index == offset / size
    ensures -Half <= offset < 0 && size == 1 ==> index == offset
    ensures -Half <= offset < 0 && size >= 2 ==> index == (Word + offset) / size
  {
    var w := Wrap64(offset);
    var q := w / size;
    QuotientAtMost(w, size);
    QuotientBelowHalf(w, size);
    WrapNegative(offset);
    if q < Half then q else q - Word
  }

  /**
   * When the bucket storage fits in the address space, a pointer below the storage never gives
   * an index in range, so `free` takes its refusing path.
   */
  lemma NegativeOffsetRefused(offset: int, size: nat, buckets: nat)
    requires size >= 1 && size * buckets <= Half
    requires -Half <= offset < 0
    ensures !(0 <= BucketIndex(offset, size) < buckets)
  {
    if size >= 2 {
      QuotientAtLeast(Word + offset, size, buckets);
    }
  }

  /** A sequence without repetitions has as many elements as the set of its elements. */
  lemma {:induction false} DistinctSetSize(s: seq<int>)
    requires Distinct(s)
    ensures |set i | i in s| == |s|
  {
    if s != [] {
      DistinctSetSize(s[1..]);
      assert (set i | i in s) == (set i | i in s[1..]) + {s[0]};
      assert s[0] !in s[1..];
    }
  }

  /**
   * Pigeonhole: a repetition-free sequence of values below n that misses some value below n is
   * shorter than n. It is why freeing a handed-out bucket always finds `next > 0`.
   */
  lemma MissingValueShortens(s: seq<int>, n: nat, v: int)
    requires Distinct(s) && AllBelow(s, n)
    requires 0 <= v < n && v !in s
    ensures |s| < n
  {
    var elems := set i | i in s;
    var below := set i | i in Range(0, n);
    DistinctSetSize(s);
    RangeIndex(0, n);
    DistinctSetSize(Range(0, n));
    forall x | x in elems
      ensures x in below - {v}
    {
      var k :| 0 <= k < |s| && s[k] == x;
      assert Range(0, n)[x] == x;
    }
    assert v in below by { assert Range(0, n)[v] == v; }
    assert |below - {v}| == n - 1;
    assert |(below - {v}) - elems| == |below - {v}| - |elems|;
  }

  class FixedAllocator {
    const size: nat
    const buckets: nat
    var freeBuckets: array<int>
    var next: nat

    ghost function FreeStack(): seq<int>
      reads this, freeBuckets
      requires next <= freeBuckets.Length
    {
      freeBuckets[next..]
    }

    ghost predicate Valid()
      reads this, freeBuckets
    {
      && size > 0
      && buckets <= 256
      && size * buckets <= Half
      && freeBuckets.Length == buckets
      && next <= buckets
      && Distinct(FreeStack())
      && AllBelow(FreeStack(), buckets)
    }

    /** A bucket is handed out when it is not on the free stack. */
    ghost predicate HandedOut(index: int)
      reads this, freeBuckets
      requires Valid()
    {
      0 <= index < buckets && index !in FreeStack()
    }

    /** The constructor: every bucket is free, bucket 0 on top. */
    constructor (size: nat, buckets: nat)
      requires size > 0 && buckets <= 256 && size * buckets <= Half
      ensures Valid() && fresh(freeBuckets)
      ensures this.size == size && this.buckets == buckets
      ensures FreeStack() == Range(0, buckets)
    {
      var stack := new int[buckets];
      for i := 0 to buckets
        invariant forall k :: 0 <= k < i ==> stack[k] == k
      {
        stack[i] := i;
      }
      this.size := size;
      this.buckets := buckets;
      freeBuckets := stack;
      next := 0;
      RangeIndex(0, buckets);
      assert stack[0..] == stack[..];
    }

    /** `alloc`: pops the free stack; when it is empty (`buckets` allocations outstanding) returns null. */
    method Alloc() returns (r: Option<nat>)
      requires Valid()
      modifies this
      ensures Valid() && freeBuckets == old(freeBuckets) && unchanged(freeBuckets)
      ensures old(FreeStack()) == [] ==> r == None && FreeStack() == []
      ensures old(FreeStack()) != [] ==> r == Some(old(FreeStack())[0] * size) && FreeStack() == old(FreeStack())[1..]
    {
      if next < buckets {
        var index := freeBuckets[next];
        next := next + 1;
        r := Some(index * size);
      } else {
        r := None;
      }
    }

    /**
     * `free`: the offset (an `intptr_t` pointer difference) is turned back into a bucket index by
     * `BucketIndex`. An index out of range, which includes every pointer below the storage, is
     * refused; a handed-out bucket is pushed back on top of the free stack, so the next `Alloc`
     * returns it again.
     */
    method Free(offset: int) returns (ok: bool)
      requires Valid() && -Half <= offset < Half
      requires 0 <= BucketIndex(offset, size) < buckets ==>
        offset == BucketIndex(offset, size) * size && HandedOut(BucketIndex(offset, size))
      modifies this, freeBuckets
      ensures Valid() && freeBuckets == old(freeBuckets)
      ensures ok <==> 0 <= BucketIndex(offset, size) < buckets
      ensures offset < 0 ==> !ok
      ensures ok ==> FreeStack() == [BucketIndex(offset, size)] + old(FreeStack())
      ensures !ok ==> next == old(next) && unchanged(freeBuckets)
    {
      if offset < 0 {
        NegativeOffsetRefused(offset, size, buckets);
      }
      var index := BucketIndex(offset, size);
      if 0 <= index < buckets {
        MissingValueShortens(FreeStack(), buckets, index);
        next := next - 1;
        freeBuckets[next] := index;
        assert FreeStack() == [index] + old(FreeStack());
        ok := true;
      } else {
        ok := false;
      }
    }
  }

  /**
   * A fresh allocator hands out the buckets 0, 1, ..., `buckets` - 1 in order, then returns null;
   * freeing the first of them makes the next allocation return that same bucket.
   */
  method ExhaustThenReuse(size: nat, buckets: nat) returns (offsets: seq<nat>, last: Option<nat>, reused: Option<nat>)
    requires size > 0 && 0 < buckets <= 256 && size * buckets <= Half
    ensures |offsets| == buckets
    ensures forall i :: 0 <= i < |offsets| ==> offsets[i] == i * size
    ensures last == None
    ensures reused == Some(0)
  {
    var a := new FixedAllocator(size, buckets);
    RangeIndex(0, buckets);
    offsets := [];
    while |offsets| < buckets
      invariant a.Valid() && a.size == size && a.buckets == buckets && fresh(a.freeBuckets)
      invariant |offsets| <= buckets
      invariant a.FreeStack() == Range(0, buckets)[|offsets|..]
      invariant forall i :: 0 <= i < |offsets| ==> offsets[i] == i * size
      decreases buckets - |offsets|
    {
      ghost var top := Range(0, buckets)[|offsets|];
      var r := a.Alloc();
      assert r == Some(top * size) && top == |offsets|;
      offsets := offsets + [r.value];
    }
    assert a.FreeStack() == [];
    last := a.Alloc();
    assert BucketIndex(0, size) == 0;
    assert a.HandedOut(0);
    var ok := a.Free(0);
    assert a.FreeStack() == [0];
    reused := a.Alloc();
  }
}
