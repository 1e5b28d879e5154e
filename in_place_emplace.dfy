/** The in-place branch of Emplace (a free slot is available), on the slot
    sequence of the buffer. Here a move is not a copy: it leaves its source slot
    holding `moved`, the valid but unspecified value of a moved-from element. */
module InPlaceEmplace {
  import opened VectorSpec

  datatype Option<T> = None | Some(value: T)

  /** The branch as written: move the last element into the free slot, move
      [n, size - 1) back by one, then assign `x` at `n`. None: with no element
      the first move reads the slot before the buffer. A reversed range given to
      the backward move moves nothing. */
  function AsWritten<T>(slots: seq<T>, size: nat, n: nat, x: T, moved: T): (r: Option<seq<T>>)
    requires n <= size < |slots|
    ensures r.None? <==> size == 0
    ensures r.Some? ==> |r.value| == |slots| && r.value[n] == x
  {
    if size == 0 then None
    else
      var s1 := slots[size := slots[size - 1]][size - 1 := moved];
      var s2 := if n < size then s1[..n] + [moved] + s1[n..size - 1] + s1[size..] else s1;
      Some(s2[n := x])
  }

  /** The corrected branch: an insertion at the end constructs `x` in the free
      slot directly; only an insertion before the end moves elements back. This
      is the branch `Vectors.ShiftAndPlace` performs on the block, there with a
      move taken as a copy; both are shown to give `Inserted` (here by
      CorrectedInserts). */
  function Corrected<T>(slots: seq<T>, size: nat, n: nat, x: T, moved: T): (r: seq<T>)
    requires n <= size < |slots|
    ensures |r| == |slots|
  {
    if n == size then slots[n := x]
    else
      var s1 := slots[size := slots[size - 1]][size - 1 := moved];
      var s2 := s1[..n] + [moved] + s1[n..size - 1] + s1[size..];
      s2[n := x]
  }

  /** The result of inserting `x` at `n` into the live prefix, raw slots after it kept. */
  ghost function Intended<T>(slots: seq<T>, size: nat, n: nat, x: T): seq<T>
    requires n <= size < |slots|
  {
    Inserted(slots[..size], n, x) + slots[size + 1..]
  }

  /** Before the end of a non-empty buffer the code as written is right. */
  lemma AsWrittenBeforeEnd<T>(slots: seq<T>, size: nat, n: nat, x: T, moved: T)
    requires n < size < |slots|
    ensures AsWritten(slots, size, n, x, moved) == Some(Intended(slots, size, n, x))
  {
    var r := AsWritten(slots, size, n, x, moved).value;
    var e := Intended(slots, size, n, x);
    assert |r| == |e|;
    forall k | 0 <= k < |r|
      ensures r[k] == e[k]
    {
      if k > size {
        assert e[k] == slots[k];
      }
    }
    assert r == e;
  }

  /** At the end of a non-empty buffer the code as written leaves the old last
      element moved-from. */
  lemma AsWrittenAtEndLosesLast<T>(slots: seq<T>, size: nat, x: T, moved: T)
    requires 0 < size < |slots|
    ensures AsWritten(slots, size, size, x, moved).Some?
    ensures AsWritten(slots, size, size, x, moved).value[size - 1] == moved
    ensures Intended(slots, size, size, x)[size - 1] == slots[size - 1]
  {
  }

  /** [1, 2] with two free slots: inserting 3 at the end gives [1, m, 3] instead
      of [1, 2, 3]. The elements stand for values of a type whose move leaves its
      source changed, such as `std::string`, and 0 for that moved-from state (a
      moved-from `int` keeps its value, and the copy branch keeps the element). */
  lemma AsWrittenAtEndCounterexample()
    ensures AsWritten([1, 2, 0, 0], 2, 2, 3, 0) == Some([1, 0, 3, 0])
    ensures Intended([1, 2, 0, 0], 2, 2, 3) == [1, 2, 3, 0]
  {
    var slots := [1, 2, 0, 0];
    assert slots[2 := slots[1]][1 := 0] == [1, 0, 2, 0];
    assert [1, 0, 2, 0][2 := 3] == [1, 0, 3, 0];
    assert slots[..2] == [1, 2] && slots[3..] == [0];
    assert Inserted([1, 2], 2, 3) == [1, 2, 3];
  }

  /** An empty vector with a free slot: the code as written reads before the buffer. */
  lemma AsWrittenOnEmptyCounterexample()
    ensures AsWritten([0], 0, 0, 5, 0) == None
    ensures Intended([0], 0, 0, 5) == [5]
  {
  }

  /** The corrected branch inserts for every index up to the size, whatever a
      move leaves behind. */
  lemma {:induction false} CorrectedInserts<T>(slots: seq<T>, size: nat, n: nat, x: T, moved: T)
    requires n <= size < |slots|
    ensures Corrected(slots, size, n, x, moved) == Intended(slots, size, n, x)
  {
    var r := Corrected(slots, size, n, x, moved);
    var e := Intended(slots, size, n, x);
    assert |r| == |e|;
    forall k | 0 <= k < |r|
      ensures r[k] == e[k]
    {
      if k > size {
        assert e[k] == slots[k];
      }
    }
  }
}
