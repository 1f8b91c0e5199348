/** Small helper datatypes shared by the model: a value that may be absent (a null pointer). */
module Wrappers {

  /** `None` plays the part of a null pointer or of a failed lookup. */
  datatype Option<+T> = None | Some(value: T)

  /** The machine word used for sizes, offsets and labels (`size_t`, `uint64_t`). */
  const Word: nat := 0x1_0000_0000_0000_0000

  /** Unsigned 64-bit wrap-around of an integer. */
  function Wrap64(x: int): (r: nat)
    ensures r < Word
    ensures 0 <= x < Word ==> r == x
  {
    x % Word
  }

  /** The integers `lo`, `lo + 1`, ..., `hi - 1`, in order. */
  function Range(lo: int, hi: int): (r: seq<int>)
    requires lo <= hi
    ensures |r| == hi - lo
    decreases hi - lo
  {
    if lo == hi then [] else [lo] + Range(lo + 1, hi)
  }

  /** Element k of `Range(lo, hi)` is `lo + k`. */
  lemma {:induction false} RangeIndex(lo: int, hi: int)
    requires lo <= hi
    ensures forall k :: 0 <= k < hi - lo ==> Range(lo, hi)[k] == lo + k
    decreases hi - lo
  {
    if lo < hi {
      RangeIndex(lo + 1, hi);
    }
  }

  /** Multiplying by a positive factor keeps a strict order. */
  lemma MulStrictlyIncreases(j: nat, i: nat, m: nat)
    requires j < i && m >= 1
    ensures j * m < i * m
  {
    assert i * m == j * m + (i - j) * m;
  }

  /** Multiplying by a factor keeps the order. */
  lemma MulIncreases(i: nat, j: nat, m: nat)
    requires i <= j
    ensures i * m <= j * m
  {
    assert j * m == i * m + (j - i) * m;
  }

  /** A multiple of m leaves no remainder. */
  lemma MultipleMod(n: nat, m: nat)
    requires m >= 1
    ensures (n * m) % m == 0
  {
    var x := n * m;
    var d := n - x / m;
    assert x == (x / m) * m + x % m;
    assert d * m == x % m;
  }
}
