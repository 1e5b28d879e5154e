/** Clients of Vector that use only its contracts. */
module VectorScenarios {
  import opened VectorSpec
  import opened Vectors

  /** Appending 0..4 to an empty vector: the capacity after each append is
      1, 2, 4, 4, 8 and the elements end up as [0, 1, 2, 3, 4]. */
  method AppendZeroToFour() returns (capacities: seq<nat>, elements: seq<int>)
    ensures capacities == [1, 2, 4, 4, 8]
    ensures elements == [0, 1, 2, 3, 4]
  {
    var v;
    v, capacities := AppendedZeroToFour();
    elements := Elements(v);
  }

  /** A fresh vector holding 0..4, appended one by one, and its capacity after each append. */
  method AppendedZeroToFour() returns (v: Vector<int>, capacities: seq<nat>)
    ensures v.Valid() && fresh(v.Repr())
    ensures v.Contents == [0, 1, 2, 3, 4]
    ensures capacities == [1, 2, 4, 4, 8]
  {
    var c0, c1, c2;
    v, c0, c1, c2 := AppendedZeroToTwo();
    v.PushBack(3);
    var c3 := v.Capacity();
    assert v.Contents == [0, 1, 2, 3];
    v.PushBack(4);
    capacities := [c0, c1, c2, c3, v.Capacity()];
  }

  /** A fresh vector holding 0..2, appended one by one, and its capacity after each append. */
  method AppendedZeroToTwo() returns (v: Vector<int>, c0: nat, c1: nat, c2: nat)
    ensures v.Valid() && fresh(v.Repr())
    ensures v.Contents == [0, 1, 2] && v.Capacity() == 4
    ensures c0 == 1 && c1 == 2 && c2 == 4
  {
    v := new Vector<int>();
    v.PushBack(0);
    c0 := v.Capacity();
    v.PushBack(1);
    c1 := v.Capacity();
    v.PushBack(2);
    c2 := v.Capacity();
  }

  /** Erasing index 2 of [0, 1, 2, 3, 4] gives [0, 1, 3, 4]; inserting 99 at
      index 2 then gives [0, 1, 99, 3, 4]. */
  method EraseThenInsert() returns (afterErase: seq<int>, afterInsert: seq<int>)
    ensures afterErase == [0, 1, 3, 4]
    ensures afterInsert == [0, 1, 99, 3, 4]
  {
    var v, _ := AppendedZeroToFour();
    var it := v.Erase(2);
    assert v.Contents == [0, 1] + [3, 4];
    afterErase := Elements(v);
    it := v.Insert(2, 99);
    assert v.Contents == [0, 1] + [99] + [3, 4];
    afterInsert := Elements(v);
  }

  /** Inserting at `pos` and then erasing at the returned position restores the
      elements of the vector. */
  method InsertThenErase<T(0)>(v: Vector<T>, pos: nat, x: T)
    requires v.Valid() && pos <= v.size
    modifies v, v.data, v.data.buffer
    ensures v.Valid() && v.Contents == old(v.Contents)
  {
    var it := v.Insert(pos, x);
    it := v.Erase(it);
    EraseUndoesInsert(old(v.Contents), pos, x);
  }

  /** After a move assignment from `w`, `v` holds `w`'s old block and elements,
      so writing through `v` touches only that block and leaves a third vector
      `u` unchanged. */
  method MoveAssignThenWrite(v: Vector<int>, w: Vector<int>, u: Vector<int>)
    requires v.Valid() && w.Valid() && u.Valid() && w.size > 0
    requires v.Repr() !! w.Repr() && u.Repr() !! (v.Repr() + w.Repr())
    modifies v, v.data, w, w.data, w.data.buffer
    ensures v.Valid() && v.Contents == old(w.Contents)[0 := 42]
    ensures w.Contents == [] && u.Contents == old(u.Contents)
  {
    v.MoveAssign(w);
    v.Set(0, 42);
  }

  /** The elements of `v`, read one by one with operator[]. */
  method Elements<T(0)>(v: Vector<T>) returns (s: seq<T>)
    requires v.Valid()
    ensures s == v.Contents
  {
    s := [];
    var i := 0;
    while i < v.Size()
      invariant i <= v.size && s == v.Contents[..i]
    {
      var x := v.Get(i);
      s := s + [x];
      i := i + 1;
    }
  }
}
