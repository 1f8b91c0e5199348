/**
 * `HashMapBase<K, T, KeyHasher>`: an open-addressing table of `tableSize` slots with linear
 * probing. Each slot has a key in `namesTable`, a value in `payload`, and two bits in the
 * `activeElements` bitmap: bit 2i says slot i is active, bit 2i+1 that it was deleted. Keys are
 * integers; the hasher is a function from keys to machine words (`PassThrough` is the default
 * hasher, `LabelHash` the one the threaded allocator gives its per-thread tables).
 *
 * The abstract state is `contents`, the map from the keys of the active slots to their values,
 * and `slotOf`, the slot each key sits in. `Delete` is not modelled (see README), so no slot is
 * ever marked deleted.
 */
module HashMaps {
  import opened Wrappers

  /** The default `PassThroughHasher`: the key itself, as an unsigned machine word. */
  function PassThrough(k: int): (r: nat)
    ensures r < Word && (0 <= k < Word ==> r == k)
  {
    Wrap64(k)
  }

  /** The threaded allocator's hasher: the label times 17, in 64-bit unsigned arithmetic. */
  function LabelHash(k: int): (r: nat)
    ensures r < Word && (0 <= k && 17 * k < Word ==> r == 17 * k)
  {
    Wrap64(Wrap64(k) * 17)
  }

  /**
   * `ComputeActiveElementsSize(n)`: how many 64-bit words hold two bits for each of n slots,
   * in `size_t` arithmetic. For a real table it is the least number of words with at least 2n
   * bits.
   */
  function ComputeActiveElementsSize(numElements: nat): (r: nat)
    requires numElements < Word
    ensures 1 <= numElements < Word / 2 ==> (r - 1) * 64 < 2 * numElements <= r * 64
  {
    Wrap64(Wrap64(numElements * 2) - 1) / 64 + 1
  }

  // ---------------------------------------------------------------- the bitmap

  /** A 64-bit word of the bitmap, as its bits: bit b is the one `1ULL << b` selects. */
  type Bits64 = w: seq<bool> | |w| == 64 witness seq(64, _ => false)

  /** The zero word. */
  const ZeroWord: Bits64 := seq(64, _ => false)

  /** Bit k of an array of words: bit k % 64 of word k / 64. */
  predicate Bit(words: seq<Bits64>, k: nat)
    requires k < 64 * |words|
  {
    words[k / 64][k % 64]
  }

  /** The array with bit k set to v (`|= 1ULL << b` for true, `&= ~(1ULL << b)` for false). */
  function SetBit(words: seq<Bits64>, k: nat, v: bool): (r: seq<Bits64>)
    requires k < 64 * |words|
    ensures |r| == |words|
  {
    words[k / 64 := words[k / 64][k % 64 := v]]
  }

  /** Writing bit k changes exactly that bit: every other bit keeps its value. */
  lemma SetBitOnly(words: seq<Bits64>, k: nat, v: bool, j: nat)
    requires k < 64 * |words| && j < 64 * |words|
    ensures Bit(SetBit(words, k, v), j) == if j == k then v else Bit(words, j)
  {
    if j / 64 == k / 64 {
      assert j % 64 == k % 64 <==> j == k;
    }
  }

  /** Writing bits k and k + 1 in turn changes exactly those two bits. */
  lemma SetPairOnly(words: seq<Bits64>, k: nat, v: bool, v': bool, j: nat)
    requires k + 1 < 64 * |words| && j < 64 * |words|
    ensures Bit(SetBit(SetBit(words, k, v), k + 1, v'), j) == if j == k then v else if j == k + 1 then v' else Bit(words, j)
  {
    SetBitOnly(words, k, v, j);
    SetBitOnly(SetBit(words, k, v), k + 1, v', j);
  }

  /** The bitmap has the two bits of each of n slots. */
  predicate Sized(words: seq<Bits64>, n: nat) {
    2 * n <= 64 * |words|
  }

  /** `IsActive(i)`: bit 2i. */
  predicate Active(words: seq<Bits64>, i: nat)
    requires 2 * i + 1 < 64 * |words|
  {
    Bit(words, 2 * i)
  }

  /** `IsDeleted(i)`: bit 2i + 1. */
  predicate Deleted(words: seq<Bits64>, i: nat)
    requires 2 * i + 1 < 64 * |words|
  {
    Bit(words, 2 * i + 1)
  }

  /** The bitmap after `SetActive(i)`: active bit set, deleted bit cleared. */
  function Activated(words: seq<Bits64>, i: nat): seq<Bits64>
    requires 2 * i + 1 < 64 * |words|
  {
    SetBit(SetBit(words, 2 * i, true), 2 * i + 1, false)
  }

  /** The bitmap after `SetDeleted(i)`: active bit cleared, deleted bit set. */
  function MarkedDeleted(words: seq<Bits64>, i: nat): seq<Bits64>
    requires 2 * i + 1 < 64 * |words|
  {
    SetBit(SetBit(words, 2 * i, false), 2 * i + 1, true)
  }

  /**
   * `SetActive(i)` makes slot i active and not deleted and leaves the two bits of every other
   * slot as they were.
   */
  lemma ActivatedOnly(words: seq<Bits64>, i: nat, j: nat)
    requires 2 * i + 1 < 64 * |words| && 2 * j + 1 < 64 * |words|
    ensures |Activated(words, i)| == |words|
    ensures Active(Activated(words, i), j) <==> j == i || Active(words, j)
    ensures Deleted(Activated(words, i), j) <==> j != i && Deleted(words, j)
  {
    SetPairOnly(words, 2 * i, true, false, 2 * j);
    SetPairOnly(words, 2 * i, true, false, 2 * j + 1);
  }

  /**
   * `SetDeleted(i)` makes slot i deleted and not active and leaves the two bits of every other
   * slot as they were.
   */
  lemma MarkedDeletedOnly(words: seq<Bits64>, i: nat, j: nat)
    requires 2 * i + 1 < 64 * |words| && 2 * j + 1 < 64 * |words|
    ensures |MarkedDeleted(words, i)| == |words|
    ensures Active(MarkedDeleted(words, i), j) <==> j != i && Active(words, j)
    ensures Deleted(MarkedDeleted(words, i), j) <==> j == i || Deleted(words, j)
  {
    SetPairOnly(words, 2 * i, false, true, 2 * j);
    SetPairOnly(words, 2 * i, false, true, 2 * j + 1);
  }

  /** A zeroed bitmap (the constructor's `memset`) has no active and no deleted slot. */
  lemma ZeroedBitmap(words: seq<Bits64>, k: nat)
    requires k < 64 * |words|
    requires forall w :: 0 <= w < |words| ==> words[w] == ZeroWord
    ensures !Bit(words, k)
  {
  }

  // ---------------------------------------------------------------- probing

  /** The slot `hash(k) % n` where the probe for key k starts. */
  function Home(hash: int -> nat, k: int, n: nat): (r: nat)
    requires n >= 1
    ensures r < n
  {
    hash(k) % n
  }

  /** The slot d steps after `home`, wrapping round the table. */
  function Offset(home: nat, d: nat, n: nat): (r: nat)
    requires home < n && d < n
    ensures r < n
  {
    if home + d < n then home + d else home + d - n
  }

  /** How many steps the probe from `home` takes to reach slot x. */
  function Dist(home: nat, x: nat, n: nat): (r: nat)
    requires home < n && x < n
    ensures r < n && Offset(home, r, n) == x
  {
    if home <= x then x - home else x + n - home
  }

  /** The probe's step `(index + 1) % tableSize` is one step further from the home slot, until it wraps back. */
  lemma StepFurther(home: nat, x: nat, n: nat)
    requires home < n && x < n && Dist(home, x, n) + 1 < n
    ensures Dist(home, (x + 1) % n, n) == Dist(home, x, n) + 1
  {
    NextSlot(x, n);
    if x + 1 == n {
      assert home > 0 && Dist(home, 0, n) == n - home;
    }
  }

  /** The slot after x, wrapping round the table. */
  lemma NextSlot(x: nat, n: nat)
    requires x < n
    ensures (x + 1) % n == if x + 1 < n then x + 1 else 0
  {
  }

  /**
   * A probe for `name` may stop at slot i: it is not deleted and it is either free or holds
   * `name` (the negation of `GetHashIndex`'s loop condition).
   */
  predicate Open(words: seq<Bits64>, names: seq<int>, i: nat, name: int)
    requires i < |names| && Sized(words, |names|)
  {
    !((Active(words, i) && names[i] != name) || Deleted(words, i))
  }

  /**
   * What `GetHashIndex` promises: `index` is a slot where the probe for `name` may stop, and
   * every slot the probe passed on the way from the home slot is one where it may not.
   */
  predicate ProbedTo(words: seq<Bits64>, names: seq<int>, home: nat, name: int, index: nat)
    requires Sized(words, |names|)
  {
    && home < |names| && index < |names|
    && Open(words, names, index, name)
    && forall d :: 0 <= d < Dist(home, index, |names|) ==> !Open(words, names, Offset(home, d, |names|), name)
  }

  /** One step of the probe: a slot where it may not stop extends the stretch it has passed. */
  lemma ProbeStep(words: seq<Bits64>, names: seq<int>, home: nat, name: int, index: nat)
    requires Sized(words, |names|) && home < |names| && index < |names|
    requires Dist(home, index, |names|) + 1 < |names| && !Open(words, names, index, name)
    requires forall d :: 0 <= d < Dist(home, index, |names|) ==> !Open(words, names, Offset(home, d, |names|), name)
    ensures Dist(home, (index + 1) % |names|, |names|) == Dist(home, index, |names|) + 1
    ensures forall d :: 0 <= d < Dist(home, (index + 1) % |names|, |names|) ==> !Open(words, names, Offset(home, d, |names|), name)
  {
    var n := |names|;
    StepFurther(home, index, n);
    forall d | 0 <= d < Dist(home, (index + 1) % n, n)
      ensures !Open(words, names, Offset(home, d, n), name)
    {
      if d == Dist(home, index, n) {
        assert Offset(home, d, n) == index;
      }
    }
  }

  /**
   * The invariant of the table, on values: `slotOf` and the active slots are in one-to-one
   * correspondence, each active slot holds its key and its value from `contents`, no slot is
   * deleted, and the probe path from a key's home slot to its slot runs over active slots only.
   */
  ghost predicate Layout<T>(words: seq<Bits64>, names: seq<int>, payload: seq<T>, contents: map<int, T>, slotOf: map<int, nat>,
                         hash: int -> nat)
  {
    && |names| >= 1 && Sized(words, |names|) && |payload| == |names|
    && contents.Keys == slotOf.Keys
    && (forall i :: 0 <= i < |names| ==> !Deleted(words, i))
    && (forall k :: k in slotOf ==>
          && slotOf[k] < |names| && Active(words, slotOf[k])
          && names[slotOf[k]] == k && payload[slotOf[k]] == contents[k])
    && (forall i :: 0 <= i < |names| && Active(words, i) ==> names[i] in slotOf && slotOf[names[i]] == i)
    && (forall k, d :: k in slotOf && 0 <= d < Dist(Home(hash, k, |names|), slotOf[k], |names|) ==>
          Active(words, Offset(Home(hash, k, |names|), d, |names|)))
  }

  /**
   * `GetHashIndex` finds a key's slot: when the key is in the table the probe stops exactly at
   * its slot, and when it is not the probe stops at a slot that is not active.
   */
  lemma ProbeLands<T>(words: seq<Bits64>, names: seq<int>, payload: seq<T>, contents: map<int, T>, slotOf: map<int, nat>,
                      hash: int -> nat, name: int, index: nat)
    requires Layout(words, names, payload, contents, slotOf, hash)
    requires ProbedTo(words, names, Home(hash, name, |names|), name, index)
    ensures name in slotOf <==> Active(words, index)
    ensures name in slotOf ==> index == slotOf[name]
  {
    var n := |names|;
    var home := Home(hash, name, n);
    if name in slotOf {
      var s := slotOf[name];
      assert Dist(home, index, n) == Dist(home, s, n);
    }
  }

  /** The keys of the first m slots, all active, are m distinct keys of the table. */
  lemma {:induction false} ActiveKeysCount<T>(words: seq<Bits64>, names: seq<int>, payload: seq<T>, contents: map<int, T>,
                                              slotOf: map<int, nat>, hash: int -> nat, m: nat)
    requires Layout(words, names, payload, contents, slotOf, hash)
    requires m <= |names| && forall i :: 0 <= i < m ==> Active(words, i)
    ensures (set i | 0 <= i < m :: names[i]) <= slotOf.Keys
    ensures |set i | 0 <= i < m :: names[i]| == m
  {
    if m > 0 {
      ActiveKeysCount(words, names, payload, contents, slotOf, hash, m - 1);
      var before := set i | 0 <= i < m - 1 :: names[i];
      assert (set i | 0 <= i < m :: names[i]) == before + {names[m - 1]};
      assert names[m - 1] !in before;
    }
  }

  /** A table whose first m slots are all active holds at least m keys. */
  lemma ActiveKeysAtLeast<T>(words: seq<Bits64>, names: seq<int>, payload: seq<T>, contents: map<int, T>,
                             slotOf: map<int, nat>, hash: int -> nat, m: nat)
    requires Layout(words, names, payload, contents, slotOf, hash)
    requires m <= |names| && forall i :: 0 <= i < m ==> Active(words, i)
    ensures |slotOf| >= m
  {
    ActiveKeysCount(words, names, payload, contents, slotOf, hash, m);
    var image := set i | 0 <= i < m :: names[i];
    assert |slotOf.Keys - image| == |slotOf.Keys| - |image|;
  }

  /**
   * A probe always finds a slot to stop at when the key is in the table or the table is not
   * full: a full table of distinct keys would hold as many keys as slots.
   */
  lemma OpenSlotExists<T>(words: seq<Bits64>, names: seq<int>, payload: seq<T>, contents: map<int, T>, slotOf: map<int, nat>,
                          hash: int -> nat, name: int)
    requires Layout(words, names, payload, contents, slotOf, hash)
    requires name in slotOf || |slotOf| < |names|
    ensures exists j :: 0 <= j < |names| && Open(words, names, j, name)
  {
    if name in slotOf {
      assert Open(words, names, slotOf[name], name);
    } else if forall i :: 0 <= i < |names| ==> Active(words, i) {
      ActiveKeysAtLeast(words, names, payload, contents, slotOf, hash, |names|);
      assert false;
    } else {
      var j :| 0 <= j < |names| && !Active(words, j);
      assert Open(words, names, j, name);
    }
  }

  /**
   * `Set(name, data)` keeps the invariant: the probe's slot gets the key and the value, and is
   * activated when the key was not in the table. The map gains `name` with `data`.
   */
  lemma SetKeeps<T>(words: seq<Bits64>, names: seq<int>, payload: seq<T>, contents: map<int, T>, slotOf: map<int, nat>,
                    hash: int -> nat, name: int, data: T, index: nat,
                    words': seq<Bits64>, names': seq<int>, payload': seq<T>, contents': map<int, T>, slotOf': map<int, nat>)
    requires Layout(words, names, payload, contents, slotOf, hash)
    requires ProbedTo(words, names, Home(hash, name, |names|), name, index)
    requires words' == (if name in slotOf then words else Activated(words, index))
    requires names' == names[index := name] && payload' == payload[index := data]
    requires contents' == contents[name := data] && slotOf' == slotOf[name := index]
    ensures Layout(words', names', payload', contents', slotOf', hash)
    ensures |contents'| == |contents| + (if name in contents then 0 else 1)
  {
    StoreKeeps(words, names, payload, contents, slotOf, hash, name, data, index);
  }

  /** `SetKeeps` on the values it computes. */
  lemma StoreKeeps<T>(words: seq<Bits64>, names: seq<int>, payload: seq<T>, contents: map<int, T>, slotOf: map<int, nat>,
                      hash: int -> nat, name: int, data: T, index: nat)
    requires Layout(words, names, payload, contents, slotOf, hash)
    requires ProbedTo(words, names, Home(hash, name, |names|), name, index)
    ensures Layout(if name in slotOf then words else Activated(words, index), names[index := name], payload[index := data],
                   contents[name := data], slotOf[name := index], hash)
  {
    ProbeLands(words, names, payload, contents, slotOf, hash, name, index);
    if name !in slotOf {
      var n := |names|;
      var words' := Activated(words, index);
      forall j | 0 <= j < n
        ensures Active(words', j) <==> j == index || Active(words, j)
        ensures Deleted(words', j) <==> j != index && Deleted(words, j)
      {
        ActivatedOnly(words, index, j);
      }
      var home := Home(hash, name, n);
      forall d | 0 <= d < Dist(home, index, n)
        ensures Active(words, Offset(home, d, n))
      {
        assert !Open(words, names, Offset(home, d, n), name);
      }
    }
  }

  /**
   * `Reserve(name)` on a key that is not in the table keeps the invariant: the probe's slot is
   * activated and gets the key, and the map gains `name` with whatever value the slot held.
   */
  lemma ReserveKeeps<T>(words: seq<Bits64>, names: seq<int>, payload: seq<T>, contents: map<int, T>, slotOf: map<int, nat>,
                        hash: int -> nat, name: int, index: nat)
    requires Layout(words, names, payload, contents, slotOf, hash)
    requires ProbedTo(words, names, Home(hash, name, |names|), name, index) && name !in slotOf
    ensures Layout(Activated(words, index), names[index := name], payload, contents[name := payload[index]], slotOf[name := index], hash)
  {
    assert payload[index := payload[index]] == payload;
    SetKeeps(words, names, payload, contents, slotOf, hash, name, payload[index], index,
             Activated(words, index), names[index := name], payload, contents[name := payload[index]], slotOf[name := index]);
  }

  /** The invariant depends only on the values it is given. */
  lemma SameLayout<T>(words: seq<Bits64>, names: seq<int>, payload: seq<T>, contents: map<int, T>, slotOf: map<int, nat>,
                      words': seq<Bits64>, names': seq<int>, payload': seq<T>, contents': map<int, T>, slotOf': map<int, nat>,
                      hash: int -> nat)
    requires Layout(words, names, payload, contents, slotOf, hash)
    requires words' == words && names' == names && payload' == payload && contents' == contents && slotOf' == slotOf
    ensures Layout(words', names', payload', contents', slotOf', hash)
  {
  }

  // ---------------------------------------------------------------- iteration

  /**
   * The first active slot at or after i, or n when there is none: where `begin()` (from 0) and
   * `operator++` (from the next slot) stop.
   */
  function NextActive(words: seq<Bits64>, n: nat, i: nat): (r: nat)
    requires Sized(words, n) && i <= n
    ensures i <= r <= n
    ensures r < n ==> Active(words, r)
    ensures forall j :: i <= j < r ==> !Active(words, j)
    decreases n - i
  {
    if i == n then n
    else if Active(words, i) then i
    else NextActive(words, n, i + 1)
  }

  /** The slots an iterator at position i visits before it reaches `end()`. */
  function Visits(words: seq<Bits64>, n: nat, i: nat): seq<nat>
    requires Sized(words, n) && i <= n
    decreases n - i
  {
    if i == n then [] else [i] + Visits(words, n, NextActive(words, n, i + 1))
  }

  /**
   * Iterating from an iterator position (an active slot or `end()`) visits exactly the active
   * slots from there on, in strictly increasing order.
   */
  lemma {:induction false} VisitsActiveInOrder(words: seq<Bits64>, n: nat, i: nat)
    requires Sized(words, n) && i <= n && (i < n ==> Active(words, i))
    ensures forall j :: j in Visits(words, n, i) <==> i <= j < n && Active(words, j)
    ensures forall p, q :: 0 <= p < q < |Visits(words, n, i)| ==> Visits(words, n, i)[p] < Visits(words, n, i)[q]
    ensures forall p :: 0 <= p < |Visits(words, n, i)| ==> i <= Visits(words, n, i)[p]
    decreases n - i
  {
    if i < n {
      var next := NextActive(words, n, i + 1);
      VisitsActiveInOrder(words, n, next);
      assert Visits(words, n, i) == [i] + Visits(words, n, next);
    }
  }

  /** A range-for over the table, `begin()` to `end()`, visits exactly its active slots in increasing order. */
  lemma BeginVisitsAll(words: seq<Bits64>, n: nat)
    requires Sized(words, n)
    ensures forall j :: j in Visits(words, n, NextActive(words, n, 0)) <==> 0 <= j < n && Active(words, j)
    ensures forall p, q :: 0 <= p < q < |Visits(words, n, NextActive(words, n, 0))| ==>
      Visits(words, n, NextActive(words, n, 0))[p] < Visits(words, n, NextActive(words, n, 0))[q]
  {
    VisitsActiveInOrder(words, n, NextActive(words, n, 0));
  }

  // ---------------------------------------------------------------- the table

  class HashMapBase<T(0)> {
    const tableSize: nat
    const hash: int -> nat
    const namesTable: array<int>
    const payload: array<T>
    const activeElements: array<Bits64>
    var numActiveElements: nat
    ghost var contents: map<int, T>
    ghost var slotOf: map<int, nat>

    ghost predicate Valid()
      reads this, namesTable, payload, activeElements
    {
      && 1 <= tableSize < 0x1_0000_0000
      && namesTable.Length == tableSize && payload as object != namesTable && payload as object != activeElements
      && activeElements.Length == ComputeActiveElementsSize(tableSize)
      && Layout(activeElements[..], namesTable[..], payload[..], contents, slotOf, hash)
      && numActiveElements == |contents|
    }

    /**
     * The `HashMap<K, T, Size>` constructor with `HashMapBase`'s: tables of `tableSize` slots and
     * a zeroed bitmap, so the map starts empty.
     */
    constructor (tableSize: nat, hash: int -> nat)
      requires 1 <= tableSize < 0x1_0000_0000
      ensures Valid() && this.tableSize == tableSize && this.hash == hash
      ensures contents == map[] && numActiveElements == 0
    {
      this.tableSize := tableSize;
      this.hash := hash;
      namesTable := new int[tableSize];
      payload := new T[tableSize];
      activeElements := new Bits64[ComputeActiveElementsSize(tableSize)](_ => ZeroWord);
      numActiveElements := 0;
      contents := map[];
      slotOf := map[];
      new;
      forall i | 0 <= i < tableSize
        ensures !Active(activeElements[..], i) && !Deleted(activeElements[..], i)
      {
        ZeroedBitmap(activeElements[..], 2 * i);
        ZeroedBitmap(activeElements[..], 2 * i + 1);
      }
    }

    /** `IsActive(i)`: bit 2i of the bitmap. */
    predicate IsActive(index: nat)
      reads this, activeElements
      requires 2 * index + 1 < 64 * activeElements.Length
      ensures IsActive(index) == Active(activeElements[..], index)
    {
      activeElements[(index * 2) / 64][(index * 2) % 64]
    }

    /** `IsDeleted(i)`: bit 2i + 1 of the bitmap. */
    predicate IsDeleted(index: nat)
      reads this, activeElements
      requires 2 * index + 1 < 64 * activeElements.Length
      ensures IsDeleted(index) == Deleted(activeElements[..], index)
    {
      activeElements[(index * 2 + 1) / 64][(index * 2 + 1) % 64]
    }

    /** `SetActive(i)`: sets bit 2i and clears bit 2i + 1. The source asserts the slot was not active. */
    method SetActive(index: nat)
      requires 2 * index + 1 < 64 * activeElements.Length && !IsActive(index)
      modifies activeElements
      ensures activeElements[..] == Activated(old(activeElements[..]), index)
    {
      activeElements[(index * 2) / 64] := activeElements[(index * 2) / 64][(index * 2) % 64 := true];
      activeElements[(index * 2 + 1) / 64] := activeElements[(index * 2 + 1) / 64][(index * 2 + 1) % 64 := false];
    }

    /** `SetDeleted(i)`: clears bit 2i and sets bit 2i + 1. The source asserts the slot is not active. */
    method SetDeleted(index: nat)
      requires 2 * index + 1 < 64 * activeElements.Length && !IsActive(index)
      modifies activeElements
      ensures activeElements[..] == MarkedDeleted(old(activeElements[..]), index)
    {
      activeElements[(index * 2) / 64] := activeElements[(index * 2) / 64][(index * 2) % 64 := false];
      activeElements[(index * 2 + 1) / 64] := activeElements[(index * 2 + 1) / 64][(index * 2 + 1) % 64 := true];
    }

    /**
     * `GetHashIndex(name)`: linear probing from `hash(name) % tableSize` past every slot that is
     * active with another key or deleted. The source's loop ends only when such a stopping slot
     * exists, which the requires says.
     */
    method GetHashIndex(name: int) returns (index: nat)
      requires Valid()
      requires exists j :: 0 <= j < tableSize && Open(activeElements[..], namesTable[..], j, name)
      ensures ProbedTo(activeElements[..], namesTable[..], Home(hash, name, tableSize), name, index)
    {
      ghost var words, names := activeElements[..], namesTable[..];
      ghost var target :| 0 <= target < tableSize && Open(words, names, target, name);
      ghost var home := Home(hash, name, tableSize);
      index := hash(name) % tableSize;
      while (IsActive(index) && namesTable[index] != name) || IsDeleted(index)
        invariant index < tableSize && Dist(home, index, tableSize) <= Dist(home, target, tableSize)
        invariant forall d :: 0 <= d < Dist(home, index, tableSize) ==> !Open(words, names, Offset(home, d, tableSize), name)
        decreases Dist(home, target, tableSize) - Dist(home, index, tableSize)
      {
        assert index != target;
        ProbeStep(words, names, home, name, index);
        index := (index + 1) % tableSize;
      }
    }

    /**
     * `Set(name, data)`: the value for `name` becomes `data`; the count of active slots grows by
     * one exactly when `name` was not in the table. The source's probe ends only when the key is
     * present or a slot is free, which the requires says.
     */
    method Set(name: int, data: T)
      requires Valid()
      requires name in contents || numActiveElements < tableSize
      modifies this, namesTable, payload, activeElements
      ensures Valid()
      ensures contents == old(contents)[name := data]
      ensures numActiveElements == old(numActiveElements) + (if name in old(contents) then 0 else 1)
    {
      ghost var words, names, values := activeElements[..], namesTable[..], payload[..];
      OpenSlotExists(words, names, values, contents, slotOf, hash, name);
      var index := GetHashIndex(name);
      ProbeLands(words, names, values, contents, slotOf, hash, name, index);
      ghost var contents0, slotOf0 := contents, slotOf;
      if !IsActive(index) {
        numActiveElements := numActiveElements + 1;
        SetActive(index);
      }
      WriteSlot(index, name, data);
      SetKeeps(words, names, values, contents0, slotOf0, hash, name, data, index,
               activeElements[..], namesTable[..], payload[..], contents, slotOf);
    }

    /** The tail of `Set`: the slot gets the key and the value, and the map follows. */
    method WriteSlot(index: nat, name: int, data: T)
      requires index < namesTable.Length && index < payload.Length && payload as object != namesTable
      requires payload as object != activeElements
      modifies this, namesTable, payload
      ensures namesTable[..] == old(namesTable[..])[index := name] && payload[..] == old(payload[..])[index := data]
      ensures contents == old(contents)[name := data] && slotOf == old(slotOf)[name := index]
      ensures numActiveElements == old(numActiveElements) && activeElements[..] == old(activeElements[..])
    {
      namesTable[index] := name;
      payload[index] := data;
      contents := contents[name := data];
      slotOf := slotOf[name := index];
    }

    /**
     * `Reserve(name)`: activates the probe's slot for a key that is not in the table and returns
     * the slot, whose value is then the key's. The source asserts the table is below four
     * fifths full (in 32-bit arithmetic) and that the slot found is not active, which is the
     * key being absent.
     */
    method Reserve(name: int) returns (index: nat)
      requires Valid()
      requires numActiveElements < (tableSize * 4) % 0x1_0000_0000 / 5
      requires name !in contents
      modifies this, namesTable, activeElements
      ensures Valid()
      ensures index < tableSize
      ensures ProbedTo(old(activeElements[..]), old(namesTable[..]), Home(hash, name, tableSize), name, index)
      ensures activeElements[..] == Activated(old(activeElements[..]), index)
      ensures namesTable[..] == old(namesTable[..])[index := name] && payload[..] == old(payload[..])
      ensures contents == old(contents)[name := payload[index]] && slotOf == old(slotOf)[name := index]
      ensures numActiveElements == old(numActiveElements) + 1
    {
      ghost var words, names, values := activeElements[..], namesTable[..], payload[..];
      OpenSlotExists(words, names, values, contents, slotOf, hash, name);
      index := GetHashIndex(name);
      ProbeLands(words, names, values, contents, slotOf, hash, name, index);
      ReserveKeeps(words, names, values, contents, slotOf, hash, name, index);
      numActiveElements := numActiveElements + 1;
      SetActive(index);
      namesTable[index] := name;
      contents := contents[name := payload[index]];
      slotOf := slotOf[name := index];
    }

    /**
     * `Get(name)`: the key's value when it is in the table, `None` (a null payload) when it is
     * not, with the slot the probe stopped at.
     */
    method Get(name: int) returns (r: Option<T>, index: nat)
      requires Valid()
      requires name in contents || numActiveElements < tableSize
      ensures r == (if name in contents then Some(contents[name]) else None)
      ensures index < tableSize && (name in contents ==> index == slotOf[name])
    {
      OpenSlotExists(activeElements[..], namesTable[..], payload[..], contents, slotOf, hash, name);
      index := GetHashIndex(name);
      ProbeLands(activeElements[..], namesTable[..], payload[..], contents, slotOf, hash, name, index);
      r := if IsActive(index) then Some(payload[index]) else None;
    }

    /** `GetNumActiveElements()`: the number of keys in the table. */
    function GetNumActiveElements(): (r: nat)
      reads this, namesTable, payload, activeElements
      requires Valid()
      ensures r == |contents|
    {
      numActiveElements
    }

    /** `begin()`: the first active slot, or `tableSize` (`end()`) when there is none. */
    method Begin() returns (index: nat)
      requires Valid()
      ensures index == NextActive(activeElements[..], tableSize, 0)
    {
      index := 0;
      while index < tableSize && !IsActive(index)
        invariant index <= tableSize
        invariant NextActive(activeElements[..], tableSize, index) == NextActive(activeElements[..], tableSize, 0)
      {
        index := index + 1;
      }
    }

    /** `ConstIterator::operator++`: the next active slot after `index`, or `tableSize`. */
    method Advance(index: nat) returns (next: nat)
      requires Valid() && index < tableSize
      ensures next == NextActive(activeElements[..], tableSize, index + 1)
    {
      next := index + 1;
      while next < tableSize && !IsActive(next)
        invariant index + 1 <= next <= tableSize
        invariant NextActive(activeElements[..], tableSize, next) == NextActive(activeElements[..], tableSize, index + 1)
      {
        next := next + 1;
      }
    }
  }

  /**
   * A value stored with `Set` is the one `Get` returns, and storing it again under the same key
   * leaves the count as it was.
   */
  method SetThenGet<T(0)>(m: HashMapBase<T>, name: int, data: T) returns (r: Option<T>, again: Option<T>)
    requires m.Valid() && (name in m.contents || m.numActiveElements < m.tableSize)
    modifies m, m.namesTable, m.payload, m.activeElements
    ensures r == Some(data) && again == Some(data)
    ensures m.numActiveElements == old(m.numActiveElements) + (if name in old(m.contents) then 0 else 1)
  {
    m.Set(name, data);
    var index;
    r, index := m.Get(name);
    m.Set(name, data);
    again, index := m.Get(name);
  }
}
