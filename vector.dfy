/** The growable sequence container: one RawMemory plus a live count. Slots
    [0, size) hold the elements; slots [size, capacity) are raw. Positions
    (iterators in the original) are indices; moving an element is modelled as
    copying its value. */
module Vectors {
  import opened RawStorage
  import opened VectorSpec

  /** Relocates `count` slots of `src` starting at `from` into `dst` starting at
      `to` (uninitialized_copy_n, uninitialized_move_n and copy_n). */
  method CopyN<T>(src: array?<T>, from: nat, dst: array?<T>, to: nat, count: nat)
    requires count > 0 ==> src != null && dst != null && src != dst
    requires count > 0 ==> from + count <= src.Length && to + count <= dst.Length
    modifies dst
    ensures count > 0 ==> dst[..] == old(dst[..to]) + src[from..from + count] + old(dst[to + count..])
    ensures count == 0 && dst != null ==> dst[..] == old(dst[..])
  {
    var i := 0;
    while i < count
      invariant i <= count
      invariant 0 < i ==> forall k :: to <= k < to + i ==> dst[k] == src[k - to + from]
      invariant dst != null ==> forall k :: 0 <= k < dst.Length && !(to <= k < to + i) ==> dst[k] == old(dst[k])
    {
      dst[to + i] := src[from + i];
      i := i + 1;
    }
    if count > 0 {
      assert dst[..] == old(dst[..to]) + src[from..from + count] + old(dst[to + count..]) by {
        forall k | 0 <= k < dst.Length
          ensures dst[k] == (old(dst[..to]) + src[from..from + count] + old(dst[to + count..]))[k]
        {
        }
      }
    }
  }

  /** Fills a fresh block on the growth path of Emplace: `x` goes to index `n`
      first, then the elements before it and the elements after it are relocated
      around it. `s` is the live prefix of `src`. */
  method BuildAround<T>(src: array?<T>, size: nat, ghost s: seq<T>, n: nat, x: T, dst: array?<T>)
    requires |s| == size && n <= size && dst != null && size < dst.Length
    requires size > 0 ==> src != null && src != dst && size <= src.Length && src[..size] == s
    modifies dst
    ensures dst[..size + 1] == Inserted(s, n, x)
  {
    var after := size - n;
    assert size > 0 ==> src[0..n] == s[..n] && src[n..n + after] == s[n..];
    dst[n] := x;
    CopyN(src, 0, dst, 0, n);
    assert dst[..n] == s[..n] && dst[n] == x;
    CopyN(src, n, dst, n + 1, after);
    assert dst[..n] == s[..n] && dst[n] == x && dst[n + 1..size + 1] == s[n..];
    assert dst[..size + 1] == dst[..n] + [dst[n]] + dst[n + 1..size + 1];
  }

  /** Fills a fresh block on the growth path of EmplaceBack: `x` goes to index
      `size` first, then the `size` elements are relocated before it. `s` is the
      live prefix of `src`. */
  method BuildAppended<T>(src: array?<T>, size: nat, ghost s: seq<T>, x: T, dst: array?<T>)
    requires |s| == size && dst != null && size < dst.Length
    requires size > 0 ==> src != null && src != dst && size <= src.Length && src[..size] == s
    modifies dst
    ensures dst[..size + 1] == s + [x]
  {
    dst[size] := x;
    CopyN(src, 0, dst, 0, size);
    assert dst[..size] == s && dst[size] == x;
    assert dst[..size + 1] == dst[..size] + [dst[size]];
  }

  /** The element copies of copy assignment in place: `rsize` elements `r` of
      `src` replace the `size` live ones of `dst`; with fewer live slots than
      `rsize`, the live ones are assigned and the remaining elements copied into
      raw slots. */
  method AssignElements<T>(src: array?<T>, rsize: nat, ghost r: seq<T>, dst: array?<T>, size: nat)
    requires |r| == rsize
    requires rsize > 0 ==> src != null && dst != null && src != dst
    requires rsize > 0 ==> rsize <= src.Length && rsize <= dst.Length && src[..rsize] == r
    modifies dst
    ensures rsize > 0 ==> dst[..rsize] == r
  {
    if size >= rsize {
      CopyN(src, 0, dst, 0, rsize);
      assert rsize > 0 ==> dst[..rsize] == src[..rsize];
    } else {
      CopyN(src, 0, dst, 0, size);
      assert dst[..size] == src[..size];
      CopyN(src, size, dst, size, rsize - size);
      assert dst[..size] == src[..size] && dst[size..rsize] == src[size..rsize];
      assert dst[..rsize] == dst[..size] + dst[size..rsize];
      assert src[..rsize] == src[..size] + src[size..rsize];
    }
  }

  /** The slot work of the in-place path of Emplace on a block whose first
      `size` slots hold `s` and which has a free slot after them. */
  method ShiftAndPlace<T>(buf: array?<T>, size: nat, ghost s: seq<T>, n: nat, x: T)
    requires buf != null && |s| == size && n <= size < buf.Length && buf[..size] == s
    modifies buf
    ensures buf[..size + 1] == Inserted(s, n, x)
  {
    var temp := x;
    // only an insertion before the end has a last element to move back
    if n < size {
      buf[size] := buf[size - 1];
      MoveBackward(buf, n, size - 1, size);
      assert buf[..n] == s[..n] && buf[n + 1..size + 1] == s[n..];
    }
    buf[n] := temp;
    assert buf[..n] == s[..n] && buf[n + 1..size + 1] == s[n..];
    assert buf[..size + 1] == buf[..n] + [buf[n]] + buf[n + 1..size + 1];
  }

  /** Moves the slots [first, last) so that they end just before `dLast`,
      working from the back (std::move_backward); the destination ends at or
      after the source, so overlapping ranges are safe. */
  method MoveBackward<T>(a: array<T>, first: nat, last: nat, dLast: nat)
    requires first <= last <= dLast <= a.Length
    modifies a
    ensures forall k :: 0 <= k < dLast - (last - first) ==> a[k] == old(a[k])
    ensures forall k :: dLast - (last - first) <= k < dLast ==> a[k] == old(a[k - (dLast - last)])
    ensures forall k :: dLast <= k < a.Length ==> a[k] == old(a[k])
  {
    var i, j := last, dLast;
    while i > first
      invariant first <= i <= last && j == dLast - (last - i)
      invariant forall k :: 0 <= k < j ==> a[k] == old(a[k])
      invariant forall k :: j <= k < dLast ==> a[k] == old(a[k - (dLast - last)])
      invariant forall k :: dLast <= k < a.Length ==> a[k] == old(a[k])
    {
      i, j := i - 1, j - 1;
      a[j] := a[i];
    }
  }

  /** Gives `count` slots from `from` on the value `value`
      (uninitialized_value_construct_n, `value` standing for T()). */
  method ValueConstructN<T>(a: array?<T>, from: nat, count: nat, value: T)
    requires count > 0 ==> a != null && from + count <= a.Length
    modifies a
    ensures count > 0 ==> forall k :: from <= k < from + count ==> a[k] == value
    ensures a != null ==> forall k :: 0 <= k < a.Length && !(from <= k < from + count) ==> a[k] == old(a[k])
  {
    var i := 0;
    while i < count
      invariant i <= count
      invariant 0 < i ==> forall k :: from <= k < from + i ==> a[k] == value
      invariant a != null ==> forall k :: 0 <= k < a.Length && !(from <= k < from + i) ==> a[k] == old(a[k])
    {
      a[from + i] := value;
      i := i + 1;
    }
  }

  class Vector<T(0)> {
    const data: RawMemory<T>
    var size: nat
    ghost var Contents: seq<T>

    /** The objects this container owns. */
    ghost function Repr(): set<object>
      reads this, data
    {
      {this, data} + if data.buffer == null then {} else var b: array<T> := data.buffer; {b}
    }

    /** 0 <= size <= capacity, and Contents is the live prefix of the slots. */
    ghost predicate Valid()
      reads this, data, data.buffer
    {
      data.Valid() && size <= data.capacity && Contents == data.Slots()[..size]
    }

    /** Default construction: no elements, capacity 0, nothing allocated. */
    constructor ()
      ensures Valid() && fresh(Repr())
      ensures Contents == [] && Capacity() == 0
    {
      data := new RawMemory<T>();
      size := 0;
      Contents := [];
    }

    /** Vector(n): storage for exactly `n` slots, all holding the value-initialised element. */
    constructor WithSize(n: nat, value: T)
      ensures Valid() && fresh(Repr())
      ensures Contents == seq(n, _ => value) && Capacity() == n
    {
      data := new RawMemory<T>.WithCapacity(n);
      size := n;
      Contents := seq(n, _ => value);
      new;
      ValueConstructN(data.buffer, 0, n, value);
      assert forall k :: 0 <= k < n ==> data.Slots()[k] == Contents[k];
    }

    /** Copy construction: an element-wise equal sequence in fresh storage sized
        exactly for it. */
    constructor Copy(other: Vector<T>)
      requires other.Valid()
      ensures Valid() && fresh(Repr())
      ensures Contents == other.Contents && Capacity() == other.size
    {
      data := new RawMemory<T>.WithCapacity(other.size);
      size := other.size;
      Contents := other.Contents;
      new;
      CopyN(other.data.buffer, 0, data.buffer, 0, other.size);
      assert forall k :: 0 <= k < size ==> data.Slots()[k] == Contents[k];
    }

    /** Move construction: takes over the storage and elements of `other`, which
        is left with no elements and capacity 0. */
    constructor MoveFrom(other: Vector<T>)
      requires other.Valid()
      modifies other, other.data
      ensures Valid() && other.Valid()
      ensures Contents == old(other.Contents) && Capacity() == old(other.data.capacity)
      ensures fresh(data) && data.buffer == old(other.data.buffer)
      ensures other.Contents == [] && other.Capacity() == 0 && other.data.buffer == null
    {
      data := new RawMemory<T>.MoveFrom(other.data);
      size := other.size;
      Contents := other.Contents;
      new;
      other.size := 0;
      other.Contents := [];
    }

    /** The number of elements. */
    function Size(): (n: nat)
      reads this, data, data.buffer
      ensures Valid() ==> n == |Contents|
    {
      size
    }

    /** The number of slots; it holds every element, and it is 0 only when no
        storage is allocated. */
    function Capacity(): (c: nat)
      reads this, data, data.buffer
      ensures Valid() ==> |Contents| <= c && (c == 0 <==> data.buffer == null)
    {
      data.Capacity()
    }

    /** operator[] read: the element at `index`, which must be below the size. */
    method Get(index: nat) returns (x: T)
      requires Valid() && index < size
      ensures x == Contents[index]
    {
      x := data.Get(index);
    }

    /** operator[] write: replaces the element at `index`, which must be below the size. */
    method Set(index: nat, x: T)
      requires Valid() && index < size
      modifies this, data.buffer
      ensures Valid() && Capacity() == old(Capacity())
      ensures Contents == old(Contents)[index := x]
    {
      data.Set(index, x);
      Contents := Contents[index := x];
    }

    /** Appends `x`; a full container first doubles its capacity (1 when empty).
        Returns the index of the new element. */
    method EmplaceBack(x: T) returns (pos: nat)
      requires Valid()
      modifies this, data, data.buffer
      ensures Valid() && fresh(Repr() - old(Repr()))
      ensures Contents == old(Contents) + [x]
      ensures pos == old(size) && Contents[pos] == x
      ensures Capacity() == CapacityAfterGrowth(old(Capacity()), old(size))
      ensures old(size) < old(Capacity()) ==> data.buffer == old(data.buffer)
    {
      if size == data.capacity {
        var newCapacity := if size == 0 then 1 else size * 2;
        var newData := new RawMemory<T>.WithCapacity(newCapacity);
        BuildAppended(data.buffer, size, Contents, x, newData.buffer);
        data.Swap(newData);
      } else {
        data.buffer[size] := x;
        assert data.buffer[..size + 1] == Contents + [x];
      }
      size := size + 1;
      Contents := Contents + [x];
      pos := size - 1;
    }

    /** Appends `x` (both PushBack overloads). */
    method PushBack(x: T)
      requires Valid()
      modifies this, data, data.buffer
      ensures Valid() && fresh(Repr() - old(Repr()))
      ensures Contents == old(Contents) + [x]
      ensures Capacity() == CapacityAfterGrowth(old(Capacity()), old(size))
      ensures old(size) < old(Capacity()) ==> data.buffer == old(data.buffer)
    {
      var _ := EmplaceBack(x);
    }

    /** Removes the last element; the container must not be empty. */
    method PopBack()
      requires Valid() && size > 0
      modifies this
      ensures Valid() && Capacity() == old(Capacity())
      ensures Contents == old(Contents)[..old(size) - 1]
    {
      size := size - 1;
      Contents := Contents[..size];
    }

    /** Inserts `x` at index `pos` (0 <= pos <= size) and returns `pos`. A full
        container first doubles its capacity (1 when empty) and relocates the
        elements around the new one; otherwise the later elements shift back by
        one slot in place. */
    method Emplace(pos: nat, x: T) returns (it: nat)
      requires Valid() && pos <= size
      modifies this, data, data.buffer
      ensures Valid() && fresh(Repr() - old(Repr()))
      ensures Contents == Inserted(old(Contents), pos, x) && it == pos
      ensures Capacity() == CapacityAfterGrowth(old(Capacity()), old(size))
      ensures old(size) < old(Capacity()) ==> data.buffer == old(data.buffer)
    {
      var n := pos;
      if size == data.capacity {
        EmplaceWithGrowth(n, x);
      } else {
        EmplaceInPlace(n, x);
      }
      it := n;
    }

    /** The growth path of Emplace: `x` is placed at its final index in a fresh
        block of twice the size (1 when empty), the elements before and after it
        are relocated around it, and the blocks are swapped. */
    method EmplaceWithGrowth(n: nat, x: T)
      requires Valid() && n <= size == data.capacity
      modifies this, data
      ensures Valid() && fresh(Repr() - old(Repr()))
      ensures Contents == Inserted(old(Contents), n, x)
      ensures Capacity() == if old(size) == 0 then 1 else 2 * old(size)
    {
      var newCapacity := if size == 0 then 1 else size * 2;
      var newData := new RawMemory<T>.WithCapacity(newCapacity);
      BuildAround(data.buffer, size, Contents, n, x, newData.buffer);
      data.Swap(newData);
      size := size + 1;
      Contents := Inserted(Contents, n, x);
    }

    /** The in-place path of Emplace: when `n` is before the end, the last element
        moves into the free slot and [n, size - 1) moves back by one; then `x` is
        assigned at `n`. */
    method EmplaceInPlace(n: nat, x: T)
      requires Valid() && n <= size < data.capacity
      modifies this, data.buffer
      ensures Valid() && data.buffer == old(data.buffer)
      ensures Contents == Inserted(old(Contents), n, x)
    {
      ShiftAndPlace(data.buffer, size, Contents, n, x);
      size := size + 1;
      Contents := Inserted(Contents, n, x);
    }

    /** Inserts `x` at index `pos` (both Insert overloads). */
    method Insert(pos: nat, x: T) returns (it: nat)
      requires Valid() && pos <= size
      modifies this, data, data.buffer
      ensures Valid() && fresh(Repr() - old(Repr()))
      ensures Contents == Inserted(old(Contents), pos, x) && it == pos
      ensures Capacity() == CapacityAfterGrowth(old(Capacity()), old(size))
      ensures old(size) < old(Capacity()) ==> data.buffer == old(data.buffer)
    {
      it := Emplace(pos, x);
    }

    /** Removes the element at index `pos` (0 <= pos < size), shifting the later
        ones forward; storage is untouched. Returns `pos`, now the index of the
        element that followed the removed one. */
    method Erase(pos: nat) returns (it: nat)
      requires Valid() && pos < size
      modifies this, data.buffer
      ensures Valid() && data.buffer == old(data.buffer) && Capacity() == old(Capacity())
      ensures Contents == Erased(old(Contents), pos) && it == pos
    {
      var n := pos;
      var i := n + 1;
      while i < size
        invariant n + 1 <= i <= size
        invariant forall k :: 0 <= k < n ==> data.buffer[k] == Contents[k]
        invariant forall k :: n <= k < i - 1 ==> data.buffer[k] == Contents[k + 1]
        invariant forall k :: i <= k < size ==> data.buffer[k] == Contents[k]
        modifies data.buffer
      {
        data.buffer[i - 1] := data.buffer[i];
        i := i + 1;
      }
      size := size - 1;
      Contents := Erased(Contents, n);
      assert forall k :: 0 <= k < size ==> data.Slots()[k] == Contents[k];
      it := n;
    }

    /** Grows the storage to exactly `newCapacity` slots, keeping the elements; a
        request that does not exceed the capacity changes nothing. */
    method Reserve(newCapacity: nat)
      requires Valid()
      modifies data
      ensures Valid() && fresh(Repr() - old(Repr()))
      ensures Contents == old(Contents)
      ensures data.buffer != old(data.buffer) ==> data.buffer != null && fresh(data.buffer)
      ensures newCapacity <= old(Capacity()) ==> data.buffer == old(data.buffer) && Capacity() == old(Capacity())
      ensures newCapacity > old(Capacity()) ==> Capacity() == newCapacity
    {
      if newCapacity <= data.capacity {
        return;
      }
      var newData := new RawMemory<T>.WithCapacity(newCapacity);
      CopyN(data.buffer, 0, newData.buffer, 0, size);
      data.Swap(newData);
      assert forall k :: 0 <= k < size ==> data.Slots()[k] == Contents[k];
    }

    /** Makes the size `newSize`: shrinking drops the trailing elements, growing
        reserves room for `newSize` and appends copies of `value` (standing for
        T()). */
    method Resize(newSize: nat, value: T)
      requires Valid()
      modifies this, data, data.buffer
      ensures Valid() && fresh(Repr() - old(Repr()))
      ensures Contents == Resized(old(Contents), newSize, value)
      ensures Capacity() == if newSize > old(Capacity()) then newSize else old(Capacity())
      ensures newSize <= old(Capacity()) ==> data.buffer == old(data.buffer)
    {
      if newSize > size {
        Reserve(newSize);
        ValueConstructN(data.buffer, size, newSize - size, value);
      }
      size := newSize;
      Contents := Resized(Contents, newSize, value);
      assert forall k :: 0 <= k < size ==> data.Slots()[k] == Contents[k];
    }

    /** Exchanges the storage and elements of the two containers. */
    method Swap(other: Vector<T>)
      requires Valid() && other.Valid()
      requires this == other || Repr() !! other.Repr()
      modifies this, data, other, other.data
      ensures Valid() && other.Valid()
      ensures Contents == old(other.Contents) && other.Contents == old(Contents)
      ensures Capacity() == old(other.Capacity()) && other.Capacity() == old(Capacity())
      ensures data.buffer == old(other.data.buffer) && other.data.buffer == old(data.buffer)
    {
      data.Swap(other.data);
      var s := size;
      size := other.size;
      other.size := s;
      ghost var c := Contents;
      Contents := other.Contents;
      other.Contents := c;
    }

    /** Move assignment: takes over the storage and elements of `rhs`, which is
        left with no elements and capacity 0; assigning to itself changes nothing. */
    method MoveAssign(rhs: Vector<T>)
      requires Valid() && rhs.Valid()
      requires this == rhs || Repr() !! rhs.Repr()
      modifies this, data, rhs, rhs.data
      ensures Valid() && rhs.Valid()
      ensures this == rhs ==> Contents == old(Contents) && Capacity() == old(Capacity())
      ensures this != rhs ==> Contents == old(rhs.Contents) && Capacity() == old(rhs.Capacity())
      ensures this != rhs ==> rhs.Contents == [] && rhs.Capacity() == 0 && rhs.data.buffer == null
      ensures data.buffer == if this == rhs then old(data.buffer) else old(rhs.data.buffer)
    {
      if this != rhs {
        data.MoveAssign(rhs.data);
        size := rhs.size;
        Contents := rhs.Contents;
        rhs.size := 0;
        rhs.Contents := [];
      }
    }

    /** Copy assignment: afterwards the elements equal those of `rhs`. When the
        capacity is too small a full copy of `rhs` is swapped in, so the capacity
        becomes rhs's size; otherwise the elements are copied into the current
        storage, whose capacity is kept. */
    method CopyAssign(rhs: Vector<T>)
      requires Valid() && rhs.Valid()
      requires this == rhs || Repr() !! rhs.Repr()
      modifies this, data, data.buffer
      ensures Valid() && fresh(Repr() - old(Repr()))
      ensures rhs.Valid() && rhs.Contents == old(rhs.Contents)
      ensures Contents == old(rhs.Contents)
      ensures old(Capacity()) >= old(rhs.size) ==> Capacity() == old(Capacity()) && data.buffer == old(data.buffer)
      ensures old(Capacity()) < old(rhs.size) ==> Capacity() == old(rhs.size)
    {
      if this != rhs {
        if data.capacity < rhs.size {
          var rhsCopy := new Vector<T>.Copy(rhs);
          Swap(rhsCopy);
        } else {
          AssignInPlace(rhs);
        }
      }
    }

    /** The in-place cases of copy assignment, when the capacity holds rhs's
        elements: with at least as many elements as `rhs`, the first rhs.size are
        overwritten and the rest dropped; with fewer, the existing ones are
        overwritten and the remaining ones of `rhs` copied into raw slots. */
    method AssignInPlace(rhs: Vector<T>)
      requires Valid() && rhs.Valid() && Repr() !! rhs.Repr()
      requires rhs.size <= data.capacity
      modifies this, data.buffer
      ensures Valid() && data.buffer == old(data.buffer)
      ensures Contents == rhs.Contents
    {
      AssignElements(rhs.data.buffer, rhs.size, rhs.Contents, data.buffer, size);
      size := rhs.size;
      Contents := rhs.Contents;
    }
  }
}
