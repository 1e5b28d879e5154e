# Advanced vector in Dafny

This project models `advanced-vector/vector.h`, a growable array container in
two layers:

- `RawMemory<T>` owns a block of uninitialised slots and never constructs or
  destroys elements. Capacity 0 means that no block is allocated.
- `Vector<T>` owns one `RawMemory<T>` and a live count `size`. Slots
  `[0, size)` hold the elements and slots `[size, capacity)` are raw. It
  appends with doubling growth, inserts and erases at any index, reserves and
  resizes, and supports copy and move construction and assignment and swap.

Files:

- `raw_memory.dfy` (module `RawStorage`): class `RawMemory`. Its `buffer` is
  `array?<T>`, `null` exactly when the capacity is 0.
- `vector.dfy` (module `Vectors`): class `Vector` and the slot algorithms the
  header calls from the standard library (`uninitialized_copy_n`/`_move_n`,
  `copy_n`, `move_backward`, `uninitialized_value_construct_n`).
  - `data` is a `const RawMemory`: the C++ member subobject keeps its identity
    while moves and swaps change its fields.
  - The ghost `Contents` is the element sequence. `Valid()` ties it to
    `data.Slots()[..size]` and states `size <= capacity`.
  - Every operation is specified by its effect on `Contents` and on the
    capacity.
- `vector_spec.dfy` (module `VectorSpec`): the sequence effects (`Inserted`,
  `Erased`, `Resized`) and the growth policy (`CapacityAfterGrowth`,
  `CapacityAfterAppends`), with the lemmas about them.
- `in_place_emplace.dfy` (module `InPlaceEmplace`): the in-place branch of
  `Emplace` as written, with moved-from values explicit, against the corrected
  branch (see Findings).
- `resize_shrink.dfy` (module `ResizeShrink`): the slot range that `Resize`
  destroys when it shrinks, as written against the intended range (see Findings).
- `scenarios.dfy` (module `VectorScenarios`): clients that use only the
  contracts. They cover the append, erase and insert scenarios, the
  insert-then-erase round trip on the class, and traversal.

Modelling choices:

- Positions (the header's iterators, raw pointers) are indices: `begin()` is
  0 and `end()` is `size`.
- Relocating an element by move is modelled as copying its value. Outside
  `InPlaceEmplace`, the moved-from state of the source is not represented.
- The header's value-initialised element `T()` (in `Vector(n)` and `Resize`)
  is a caller-supplied `value: T`. A generic Dafny type has no specified
  default value.
- Operations on two containers (`Swap`, `MoveAssign`, `CopyAssign`) require
  that the two are the same object or own disjoint storage
  (`Repr() !! other.Repr()`). This is the exclusive ownership the container
  relies on.
- The work on the slots of the growth and in-place paths sits in module-level
  helpers (`BuildAround`, `BuildAppended`, `ShiftAndPlace`, `AssignElements`).
  `BuildAround`, `BuildAppended` and `AssignElements` perform the header's steps in
  the header's order. `ShiftAndPlace` performs the corrected in-place branch: at the
  end of the vector it skips the move and the backward shift (see Findings).

## Model

| member | source | states |
|---|---|---|
| `RawStorage.RawMemory.constructor` | advanced-vector/vector.h:12 | default state: no block and capacity 0 |
| `RawStorage.RawMemory.WithCapacity` | advanced-vector/vector.h:34-37 | allocates a fresh block of exactly `capacity` slots, and none at all when the capacity is 0 |
| `RawStorage.RawMemory.MoveFrom` | advanced-vector/vector.h:15-20 | takes over the block and capacity of `other`, which is left with no block and capacity 0 |
| `RawStorage.RawMemory.MoveAssign` | advanced-vector/vector.h:21-32 | takes over the block of `rhs` and leaves `rhs` empty; self-assignment changes nothing |
| `RawStorage.RawMemory.Swap` | advanced-vector/vector.h:62-65 | exchanges the blocks and capacities of the two instances |
| `RawStorage.RawMemory.Capacity` | advanced-vector/vector.h:75-77 | the slot count, which is 0 exactly when no block is held |
| `RawStorage.RawMemory.Slots` | advanced-vector/vector.h:90-91 | the slots of the block; there are exactly `capacity` of them |
| `RawStorage.RawMemory.Get` | advanced-vector/vector.h:57-60 | reads slot `index`; the index must be below the capacity |
| `RawStorage.RawMemory.Set` | advanced-vector/vector.h:57-60 | writes slot `index` and no other; the index must be below the capacity |
| `Vectors.Vector.constructor` | advanced-vector/vector.h:187 | an empty vector with capacity 0 |
| `Vectors.Vector.WithSize` | advanced-vector/vector.h:191-196 | `n` value-initialised elements in storage of capacity exactly `n` |
| `Vectors.Vector.Copy` | advanced-vector/vector.h:220-227 | the copy is element-wise equal to `other`, its capacity is `other.size`, and its storage is fresh (independent of `other`) |
| `Vectors.Vector.MoveFrom` | advanced-vector/vector.h:228-232 | elements, capacity and block come from `other`, held through a fresh storage object of its own; `other` is left with no elements, capacity 0 and no block |
| `Vectors.Vector.Size` | advanced-vector/vector.h:203-205 | the number of elements |
| `Vectors.Vector.Capacity` | advanced-vector/vector.h:207-209 | the capacity holds every element, and it is 0 exactly when no storage is allocated |
| `Vectors.Vector.Get` | advanced-vector/vector.h:215-218 | operator[] returns the element at `index < size` |
| `Vectors.Vector.Set` | advanced-vector/vector.h:215-218 | writing through operator[] replaces exactly the element at `index < size` |
| `Vectors.Vector.EmplaceBack` | advanced-vector/vector.h:312-332 | the new element is last and the earlier ones are unchanged; the capacity grows to 1 or to `2*size` only when the vector was full, and otherwise the block is kept (the element is built in place); the returned position is the new element |
| `Vectors.Vector.PushBack` | advanced-vector/vector.h:300-305 | appends exactly as EmplaceBack does, keeping the block when the vector is not full |
| `Vectors.Vector.PopBack` | advanced-vector/vector.h:307-310 | requires a non-empty vector; drops only the last element and keeps the capacity |
| `Vectors.Vector.Emplace` | advanced-vector/vector.h:121-160 | for `pos <= size` the sequence becomes `s[..pos] + [x] + s[pos..]` and the result is `pos`; the capacity doubles (or becomes 1) only when the vector was full, and otherwise the block is kept |
| `Vectors.Vector.EmplaceWithGrowth` | advanced-vector/vector.h:124-142 | growth path: the new capacity is 1 or `2*size`, and the sequence gains `x` at `n` |
| `Vectors.Vector.EmplaceInPlace` | advanced-vector/vector.h:143-158 | in-place path: the block is kept, and the sequence gains `x` at `n` |
| `Vectors.Vector.Insert` | advanced-vector/vector.h:181-186 | inserts exactly as Emplace does, keeping the block when the vector is not full |
| `Vectors.Vector.Erase` | advanced-vector/vector.h:161-180 | for `pos < size` the sequence becomes `s[..pos] + s[pos+1..]`, the block and capacity are unchanged, and the result is `pos` |
| `Vectors.Vector.Reserve` | advanced-vector/vector.h:271-286 | no-op when the request does not exceed the capacity; otherwise the capacity becomes exactly the request; the elements are kept either way |
| `Vectors.Vector.Resize` | advanced-vector/vector.h:288-299 | size becomes `newSize`, the first `min(size, newSize)` elements are kept, new trailing elements are the value-initialised one, and the capacity becomes `max(capacity, newSize)`; a new size within the capacity keeps the block |
| `Vectors.Vector.Swap` | advanced-vector/vector.h:243-246 | exchanges the element sequences, capacities and blocks of the two vectors |
| `Vectors.Vector.MoveAssign` | advanced-vector/vector.h:234-241 | takes over the elements, capacity and block of `rhs` and leaves `rhs` with no elements, capacity 0 and no block; self-assignment changes nothing |
| `Vectors.Vector.CopyAssign` | advanced-vector/vector.h:248-269 | the elements equal those of `rhs`, which is unchanged; the capacity is kept (and the block too) when it holds `rhs.size`, and otherwise becomes `rhs.size` (copy-and-swap) |
| `Vectors.Vector.AssignInPlace` | advanced-vector/vector.h:254-266 | in-place cases of copy assignment: the block is kept and the elements become those of `rhs` |
| `Vectors.CopyN` | advanced-vector/vector.h:278-281 | the destination range receives the source range and every other destination slot is unchanged |
| `Vectors.MoveBackward` | advanced-vector/vector.h:154 | `[first, last)` ends up just before `dLast`; the slots outside the destination are unchanged |
| `Vectors.ValueConstructN` | advanced-vector/vector.h:296 | the `count` slots from `from` hold the value-initialised element; the others are unchanged |
| `Vectors.BuildAround` | advanced-vector/vector.h:126-136 | the new block's first `size+1` slots are the old elements with `x` inserted at `n` |
| `Vectors.BuildAppended` | advanced-vector/vector.h:316-322 | the new block's first `size+1` slots are the old elements followed by `x` |
| `Vectors.ShiftAndPlace` | advanced-vector/vector.h:144-155 | after the in-place shift, the first `size+1` slots are the old elements with `x` inserted at `n` |
| `Vectors.AssignElements` | advanced-vector/vector.h:255-264 | both in-place cases leave the first `rhs.size` slots equal to rhs's elements |
| `VectorSpec.Inserted` | advanced-vector/vector.h:153-156 | the splice: the new element is at `n`, elements before it keep their index, and later elements move up by one |
| `VectorSpec.Erased` | advanced-vector/vector.h:164-177 | removal: one element fewer, earlier elements keep their index, and later elements move down by one |
| `VectorSpec.Resized` | advanced-vector/vector.h:288-299 | length is `k`, the common prefix is kept, and the extension holds the value-initialised element |
| `VectorSpec.EraseUndoesInsert` | advanced-vector/vector.h:161-186 | Insert at p followed by Erase at p restores the sequence |
| `VectorSpec.InsertUndoesErase` | advanced-vector/vector.h:161-186 | re-inserting the erased element at its index restores the sequence |
| `VectorSpec.CapacityAfterGrowth` | advanced-vector/vector.h:314-315 | making room for one more element leaves room for it and never shrinks the capacity; it changes the capacity only when the vector is full, and then to 1 or `2*size` |
| `VectorSpec.CapacityAfterAppends` | advanced-vector/vector.h:312-332 | after `k` appends from empty the capacity holds `k` elements |
| `VectorSpec.AppendsCapacityIsTightPowerOfTwo` | advanced-vector/vector.h:314-315 | doubling growth: after `k > 0` appends from empty the capacity is a power of two in `[k, 2k)` |
| `VectorSpec.AppendCapacitiesFromEmpty` | advanced-vector/vector.h:312-332 | appending five elements from empty passes through capacities 1, 2, 4, 4, 8 |
| `InPlaceEmplace.AsWritten` | advanced-vector/vector.h:143-158 | the in-place branch as written fails exactly on an empty vector (it reads before the buffer); otherwise `x` lands at `n` |
| `InPlaceEmplace.Corrected` | advanced-vector/vector.h:143-158 | the corrected in-place branch keeps the slot count |
| `InPlaceEmplace.AsWrittenBeforeEnd` | advanced-vector/vector.h:144-157 | before the end of a non-empty vector, the branch as written inserts correctly |
| `InPlaceEmplace.AsWrittenAtEndLosesLast` | advanced-vector/vector.h:145-155 | at the end of a non-empty vector, the branch as written leaves the old last element moved-from |
| `InPlaceEmplace.AsWrittenAtEndCounterexample` | advanced-vector/vector.h:145-155 | `[1, 2]` plus two free slots, insert 3 at the end: `[1, m, 3]` instead of `[1, 2, 3]` |
| `InPlaceEmplace.AsWrittenOnEmptyCounterexample` | advanced-vector/vector.h:146 | an empty vector with a free slot: the branch as written reads before the buffer |
| `InPlaceEmplace.CorrectedInserts` | advanced-vector/vector.h:143-158 | the corrected branch inserts correctly for every index up to the size, whatever value a move leaves behind |
| `ResizeShrink.DestroyedAsWritten` | advanced-vector/vector.h:291 | the range destroyed on a shrink as written starts at the old size and spans as many slots as elements are dropped |
| `ResizeShrink.DestroyedOnShrink` | advanced-vector/vector.h:288-298 | the intended range ends at the old size and spans the dropped elements |
| `ResizeShrink.AsWrittenMissesDroppedElements` | advanced-vector/vector.h:291 | no dropped element lies in the range as written, and that range runs past the live elements |
| `ResizeShrink.AsWrittenShrinkCounterexample` | advanced-vector/vector.h:291 | three elements in a three-slot block shrunk to one: slots [3, 5) are destroyed, past the block, instead of [1, 3) |
| `ResizeShrink.ShrinkDestroysExactlyDropped` | advanced-vector/vector.h:288-298 | the intended range holds exactly the elements the shrink drops: the kept elements followed by that range give back the old elements |
| `VectorScenarios.AppendZeroToFour` | advanced-vector/vector.h:300-332 | pushing 0..4 from empty gives capacities 1, 2, 4, 4, 8 and elements `[0, 1, 2, 3, 4]` |
| `VectorScenarios.EraseThenInsert` | advanced-vector/vector.h:161-186 | erasing index 2 of `[0..4]` gives `[0, 1, 3, 4]`; inserting 99 at 2 then gives `[0, 1, 99, 3, 4]` |
| `VectorScenarios.InsertThenErase` | advanced-vector/vector.h:161-186 | on a real vector, Insert at p and then Erase at the returned position restore the elements |
| `VectorScenarios.MoveAssignThenWrite` | advanced-vector/vector.h:234-241 | after a move assignment the target owns the source's old block: a write through it changes only that block, the source is drained and an unrelated vector is unchanged |
| `VectorScenarios.Elements` | advanced-vector/vector.h:102-107 | traversing `[begin, end)` with operator[] yields exactly the element sequence |

## Left out

- Allocation and release of raw memory (`operator new`/`operator delete`), placement new, `std::destroy_n`, destructors and `~Vector` (vector.h:198-201). Object lifetime is not expressible. Slots are plain array values, a released block is simply dropped, and a destroyed element is a slot past `size`.
- Exceptions and the strong exception-safety guarantee. Dafny has no exceptions. The order that guarantee relies on is kept in the bodies: the new element is placed in the new block before relocation (vector.h:129, 317).
- The compile-time choice between move and copy relocation (`is_nothrow_move_constructible`, `is_copy_constructible`, `is_move_assignable`). Both branches have the same effect on values, so there is one path.
- Iterators as raw pointers, `RawMemory::operator+` and `GetAddress` (vector.h:43-51, 67-73). Positions are indices and the model indexes the block directly. The `offset <= capacity` assertion of `operator+` is carried by the requires clauses of the slot helpers.
- The const overloads, `cbegin`/`cend` (vector.h:49-55, 108-119, 211-213).
- The private helpers `DestroyN`, `CopyConstruct` and `Destroy` (vector.h:337-351). No public member of the header calls them.
- `size_t` overflow of `2 * size` and of the capacity. Capacities are unbounded `nat`.
- Returned references are positions: `EmplaceBack` returns the index of the new element, and `operator=` does not return `*this` for chaining.
- Vectors.Vector.WithSize and Vectors.Vector.Resize take the value-initialised element `T()` as a parameter `value`. Dafny has no way to name `T()` for a generic `T`.
- Vectors.Vector.Swap, Vectors.Vector.MoveAssign and Vectors.Vector.CopyAssign require the two vectors to be the same object or to own disjoint storage. Two distinct vectors sharing a block cannot arise in the header. `Swap` with itself and self-assignment are modelled.
- Vectors.Vector.Resize does not model the destruction done by the shrinking branch (vector.h:291), only its logical effect `size = new_size` (vector.h:298). The slot range it destroys is modelled apart in `ResizeShrink`; see Findings.
- Vectors.Vector.MoveAssign does not model the release of the old block of `*this`. `RawMemory`'s move assignment deallocates it (vector.h:23, reached from :236) without destroying the live elements in it first. Like the Resize shrink, this is a defect of object lifetime, which the model of slot values cannot express.
- Vectors.Vector.Emplace models the corrected in-place branch, not the code as written; see Findings.

## Findings

| source | as written | input that shows it | evidently intended | confidence | as-written member | corrected member |
|---|---|---|---|---|---|---|
| advanced-vector/vector.h:146,150 | the in-place branch moves or copies `*(end() - 1)` into `end()` even when the vector is empty | `Reserve(4)` on an empty vector, then `Insert(begin(), x)`: `end() - 1` lies before the buffer | an empty vector with a free slot constructs `x` in slot 0 | high, not executed | `InPlaceEmplace.AsWrittenOnEmptyCounterexample` | `Vectors.Vector.Emplace` (with `InPlaceEmplace.CorrectedInserts`) |
| advanced-vector/vector.h:146,154 | with `pos == end()` on a non-empty vector, the last element is moved into the free slot, `move_backward` gets the reversed range `[end(), end() - 1)`, and `x` is then assigned over the moved element | `[a, b]` of `std::string` with capacity 4, `Insert(end(), c)`: the move branch leaves `b` moved-from, giving `[a, <moved-from>, c]` | insertion at the end constructs `x` in the free slot and moves nothing | medium (depends on the moved-from state; a reversed range is a precondition violation of `move_backward`), not executed | `InPlaceEmplace.AsWrittenAtEndCounterexample` | `Vectors.Vector.Emplace` (with `InPlaceEmplace.CorrectedInserts`) |
| advanced-vector/vector.h:291 | shrinking destroys `[size, size + (size - new_size))`, the slots after the live elements | a vector built with three elements (capacity 3) and `Resize(1)`: slots 3 and 4 lie past the block and are destroyed, while the elements in slots 1 and 2 are never destroyed | destroy `[new_size, size)`, the elements that stop being live | high, not executed; the as-written half concerns object lifetime only, which the model of slot values cannot express, so only the index ranges are modelled | `ResizeShrink.AsWrittenShrinkCounterexample` | `ResizeShrink.ShrinkDestroysExactlyDropped` |
