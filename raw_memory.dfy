/** Raw storage: an owned block of element slots that never takes part in
    element lifetime. Capacity 0 means that no block is allocated. */
module RawStorage {

  class RawMemory<T(0)> {
    // the allocated block (null when nothing is allocated) and its slot count
    var buffer: array?<T>
    var capacity: nat

    /** Capacity 0 holds no block; otherwise the block has exactly `capacity` slots. */
    ghost predicate Valid()
      reads this
    {
      if capacity == 0 then buffer == null else buffer != null && buffer.Length == capacity
    }

    /** The slots of the block, in order (empty when nothing is allocated). */
    ghost function Slots(): (s: seq<T>)
      reads this, buffer
      ensures Valid() ==> |s| == capacity
    {
      if buffer == null then [] else buffer[..]
    }

    /** The default state: no block, capacity 0. */
    constructor ()
      ensures Valid() && buffer == null && capacity == 0
    {
      buffer := null;
      capacity := 0;
    }

    /** Acquires a fresh block for exactly `capacity` slots; none at all for capacity 0. */
    constructor WithCapacity(capacity: nat)
      ensures Valid() && this.capacity == capacity
      ensures buffer != null ==> fresh(buffer)
    {
      this.capacity := capacity;
      if capacity != 0 {
        buffer := new T[capacity];
      } else {
        buffer := null;
      }
    }

    /** Move construction: takes over the block of `other`, which is left empty. */
    constructor MoveFrom(other: RawMemory<T>)
      requires other.Valid()
      modifies other
      ensures Valid() && other.Valid()
      ensures buffer == old(other.buffer) && capacity == old(other.capacity)
      ensures other.buffer == null && other.capacity == 0
    {
      buffer := other.buffer;
      capacity := other.capacity;
      new;
      other.buffer := null;
      other.capacity := 0;
    }

    /** Move assignment: releases the current block (release is not modelled), takes
        over the block of `rhs` and leaves `rhs` empty; assigning to itself changes nothing. */
    method MoveAssign(rhs: RawMemory<T>)
      requires Valid() && rhs.Valid()
      modifies this, rhs
      ensures Valid() && rhs.Valid()
      ensures rhs == this ==> buffer == old(buffer) && capacity == old(capacity)
      ensures rhs != this ==> buffer == old(rhs.buffer) && capacity == old(rhs.capacity)
      ensures rhs != this ==> rhs.buffer == null && rhs.capacity == 0
    {
      if this != rhs {
        buffer := rhs.buffer;
        capacity := rhs.capacity;
        rhs.buffer := null;
        rhs.capacity := 0;
      }
    }

    /** Exchanges the blocks and capacities of the two instances. */
    method Swap(other: RawMemory<T>)
      modifies this, other
      ensures buffer == old(other.buffer) && capacity == old(other.capacity)
      ensures other.buffer == old(buffer) && other.capacity == old(capacity)
    {
      var b, c := buffer, capacity;
      buffer, capacity := other.buffer, other.capacity;
      other.buffer, other.capacity := b, c;
    }

    /** The slot count; it is 0 exactly when no block is held. */
    function Capacity(): (c: nat)
      reads this
      ensures Valid() ==> (c == 0 <==> buffer == null)
    {
      capacity
    }

    /** Reads slot `index`; the index must lie below the capacity. */
    method Get(index: nat) returns (x: T)
      requires Valid() && index < capacity
      ensures x == Slots()[index]
    {
      x := buffer[index];
    }

    /** Writes slot `index`; the index must lie below the capacity. */
    method Set(index: nat, x: T)
      requires Valid() && index < capacity
      modifies buffer
      ensures Valid() && Slots() == old(Slots())[index := x]
    {
      buffer[index] := x;
    }
  }
}
