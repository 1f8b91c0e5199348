/**
 * `ResizableArray<T>`: a growable array whose storage comes from a stack allocator. `ptr` is the
 * storage, `capacity` the number of elements the owner believes it holds and `size` the number
 * in use. `size_t` is 64 bits wide, so doubling the capacity wraps around modulo 2^64.
 */
module ResizableArrays {
  import opened Wrappers

  /**
   * The capacity `Push` works with: doubled (in 64-bit arithmetic) when the array is full,
   * unchanged otherwise. The source then asserts `size < capacity`; that assertion holds
   * whenever the array is non-empty in capacity, not overfull and below 2^63 elements.
   */
  function GrownCapacity(capacity: nat, size: nat): (r: nat)
    ensures size == capacity ==> r == Wrap64(2 * capacity)
    ensures size != capacity ==> r == capacity
    ensures 0 < capacity && size <= capacity && 2 * size < Word ==> size < r
    ensures capacity == 0 && size == 0 ==> r == 0
  {
    if size == capacity then Wrap64(capacity * 2) else capacity
  }

  class ResizableArray<T(0)> {
    var ptr: array<T>
    var capacity: nat
    var size: nat

    /**
     * The storage always covers both the capacity and the elements in use; `Resize` can leave
     * `capacity` below `size`, so the two are not ordered.
     */
    ghost predicate Valid()
      reads this
    {
      capacity <= ptr.Length && size <= ptr.Length && capacity < Word
    }

    /** The elements in use, `ptr[0]` .. `ptr[size - 1]`. */
    ghost function Elements(): (r: seq<T>)
      reads this, ptr
      requires Valid()
      ensures |r| == size
    {
      ptr[..size]
    }

    /** The constructor: storage for `initialCapacity` elements, none in use. */
    constructor (initialCapacity: nat)
      requires initialCapacity < Word
      ensures Valid() && fresh(ptr)
      ensures Elements() == [] && capacity == initialCapacity
    {
      ptr := new T[initialCapacity];
      capacity := initialCapacity;
      size := 0;
    }

    /**
     * `Resize(newCapacity)`: growing moves the elements in use into fresh storage of
     * `newCapacity` elements; in every case the capacity becomes `newCapacity`, even below `size`.
     * Growing to a capacity still below `size` would copy past the new storage, so the requires
     * rules that out.
     */
    method Resize(newCapacity: nat)
      requires Valid() && newCapacity < Word
      requires newCapacity > capacity ==> size <= newCapacity
      modifies this
      ensures Valid() && capacity == newCapacity && size == old(size)
      ensures Elements() == old(Elements())
      ensures newCapacity > old(capacity) ==> fresh(ptr) && ptr.Length == newCapacity
      ensures newCapacity <= old(capacity) ==> ptr == old(ptr)
    {
      if newCapacity > capacity {
        var aux := new T[newCapacity];
        for i := 0 to size
          invariant aux[..i] == ptr[..i]
          modifies aux
        {
          aux[i] := ptr[i];
        }
        ptr := aux;
      }
      capacity := newCapacity;
    }

    /**
     * `Push(element)`: appends `element`, first doubling the capacity when the array is full.
     * The requires is the source's assertion that the slot exists after that.
     */
    method Push(element: T)
      requires Valid() && size < GrownCapacity(capacity, size)
      modifies this, ptr
      ensures Valid()
      ensures Elements() == old(Elements()) + [element]
      ensures capacity == GrownCapacity(old(capacity), old(size))
      ensures ptr == old(ptr) || fresh(ptr)
    {
      if size == capacity {
        Resize(capacity * 2 % Word);
      }
      ptr[size] := element;
      size := size + 1;
    }
  }

  /**
   * Pushing a sequence onto an array that is not overfull and has room for at least one element
   * appends it in order, and the array stays not overfull.
   */
  method PushAll<T(0)>(a: ResizableArray<T>, xs: seq<T>)
    requires a.Valid() && 0 < a.capacity && a.size <= a.capacity
    requires 2 * (a.size + |xs|) < Word
    modifies a, a.ptr
    ensures a.Valid() && 0 < a.capacity && a.size <= a.capacity
    ensures a.Elements() == old(a.Elements()) + xs
  {
    var i := 0;
    while i < |xs|
      invariant 0 <= i <= |xs|
      invariant a.Valid() && 0 < a.capacity && a.size <= a.capacity
      invariant a.size == old(a.size) + i
      invariant a.ptr == old(a.ptr) || fresh(a.ptr)
      invariant a.Elements() == old(a.Elements()) + xs[..i]
    {
      a.Push(xs[i]);
      assert xs[..i + 1] == xs[..i] + [xs[i]];
      i := i + 1;
    }
    assert xs[..i] == xs;
  }
}
