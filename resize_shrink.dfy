/** Which slots Resize destroys when it shrinks the container from `size` to
    `newSize` elements. Destruction has no effect on slot values in this model,
    so only the range of slot indices is modelled. */
module ResizeShrink {
  import opened VectorSpec

  /** The half-open range [lo, hi) of slot indices. */
  datatype SlotRange = SlotRange(lo: nat, hi: nat)

  /** The range as written: it starts at the old size and spans as many slots
      as elements are dropped. */
  function DestroyedAsWritten(size: nat, newSize: nat): (r: SlotRange)
    requires newSize < size
    ensures r.lo == size && r.lo < r.hi
    ensures r.hi - r.lo == size - newSize
  {
    SlotRange(size, size + (size - newSize))
  }

  /** The intended range: the elements that stop being live. */
  function DestroyedOnShrink(size: nat, newSize: nat): (r: SlotRange)
    requires newSize < size
    ensures r.lo < r.hi == size
    ensures r.hi - r.lo == size - newSize
  {
    SlotRange(newSize, size)
  }

  /** The range as written holds no element that shrinking drops, and it runs
      past the live elements into raw slots. */
  lemma AsWrittenMissesDroppedElements(size: nat, newSize: nat, k: nat)
    requires newSize <= k < size
    ensures var r := DestroyedAsWritten(size, newSize); !(r.lo <= k < r.hi)
    ensures DestroyedAsWritten(size, newSize).hi > size
  {
  }

  /** A vector built with three elements (capacity 3) resized to one: slots
      [3, 5) are destroyed, past the end of the three-slot block, while the
      elements in slots 1 and 2 are never destroyed. */
  lemma AsWrittenShrinkCounterexample()
    ensures DestroyedAsWritten(3, 1) == SlotRange(3, 5)
    ensures DestroyedAsWritten(3, 1).hi > 3
    ensures DestroyedOnShrink(3, 1) == SlotRange(1, 3)
  {
  }

  /** The intended range holds exactly the dropped elements: the elements kept
      by the shrink followed by those in the range give back the old elements. */
  lemma {:induction false} ShrinkDestroysExactlyDropped<T>(s: seq<T>, newSize: nat, value: T)
    requires newSize < |s|
    ensures var r := DestroyedOnShrink(|s|, newSize);
      Resized(s, newSize, value) + s[r.lo..r.hi] == s
  {
    assert Resized(s, newSize, value) == s[..newSize];
    assert s[..newSize] + s[newSize..] == s;
  }
}
