/** The logical effect of the container's operations on its element sequence,
    and the growth policy for its capacity. */
module VectorSpec {

  /** `v` spliced into `s` so that it ends up at index `n`. */
  function Inserted<T>(s: seq<T>, n: nat, v: T): (r: seq<T>)
    requires n <= |s|
    ensures |r| == |s| + 1 && r[n] == v
    ensures forall k :: 0 <= k < n ==> r[k] == s[k]
    ensures forall k :: n < k < |r| ==> r[k] == s[k - 1]
  {
    s[..n] + [v] + s[n..]
  }

  /** `s` without the element at index `n`; the later elements close the gap. */
  function Erased<T>(s: seq<T>, n: nat): (r: seq<T>)
    requires n < |s|
    ensures |r| == |s| - 1
    ensures forall k :: 0 <= k < n ==> r[k] == s[k]
    ensures forall k :: n <= k < |r| ==> r[k] == s[k + 1]
  {
    s[..n] + s[n + 1..]
  }

  /** `s` cut or extended to length `k`, new trailing elements being `value`. */
  function Resized<T>(s: seq<T>, k: nat, value: T): (r: seq<T>)
    ensures |r| == k
    ensures forall i :: 0 <= i < k && i < |s| ==> r[i] == s[i]
    ensures forall i :: |s| <= i < k ==> r[i] == value
  {
    if k <= |s| then s[..k] else s + seq(k - |s|, _ => value)
  }

  /** Erasing at `n` undoes inserting at `n`. */
  lemma EraseUndoesInsert<T>(s: seq<T>, n: nat, v: T)
    requires n <= |s|
    ensures Erased(Inserted(s, n, v), n) == s
  {
    var r := Erased(Inserted(s, n, v), n);
    assert forall k :: 0 <= k < |s| ==> r[k] == s[k];
  }

  /** Re-inserting the erased element at its old index restores the sequence. */
  lemma InsertUndoesErase<T>(s: seq<T>, n: nat)
    requires n < |s|
    ensures Inserted(Erased(s, n), n, s[n]) == s
  {
    var r := Inserted(Erased(s, n), n, s[n]);
    assert forall k :: 0 <= k < |s| ==> r[k] == s[k];
  }

  /** The capacity once room has been made for one more element while `size`
      elements occupy `capacity` slots: unchanged when a slot is free, otherwise
      doubled (1 for an empty container). */
  function CapacityAfterGrowth(capacity: nat, size: nat): (c: nat)
    requires size <= capacity
    ensures size < c && capacity <= c
    ensures c != capacity ==> size == capacity && c == (if size == 0 then 1 else 2 * size)
  {
    if size == capacity then (if size == 0 then 1 else size * 2) else capacity
  }

  /** The capacity after `k` appends to an empty container. */
  function CapacityAfterAppends(k: nat): (c: nat)
    ensures k <= c
  {
    if k == 0 then 0 else CapacityAfterGrowth(CapacityAfterAppends(k - 1), k - 1)
  }

  ghost predicate IsPowerOfTwo(n: nat)
  {
    n == 1 || (n > 1 && n % 2 == 0 && IsPowerOfTwo(n / 2))
  }

  /** Doubling growth: after `k > 0` appends from empty, the capacity is the
      smallest power of two that holds `k` elements, so less than twice `k`. */
  lemma {:induction false} AppendsCapacityIsTightPowerOfTwo(k: nat)
    requires k > 0
    ensures IsPowerOfTwo(CapacityAfterAppends(k))
    ensures k <= CapacityAfterAppends(k) < 2 * k
  {
    if k > 1 {
      AppendsCapacityIsTightPowerOfTwo(k - 1);
      var c := CapacityAfterAppends(k - 1);
      if c == k - 1 {
        assert CapacityAfterAppends(k) == 2 * c;
        assert (2 * c) / 2 == c;
      }
    }
  }

  /** Appending 0..4 to an empty container gives the capacities 1, 2, 4, 4, 8. */
  lemma AppendCapacitiesFromEmpty()
    ensures [CapacityAfterAppends(1), CapacityAfterAppends(2), CapacityAfterAppends(3),
             CapacityAfterAppends(4), CapacityAfterAppends(5)] == [1, 2, 4, 4, 8]
  {
    assert CapacityAfterAppends(1) == 1;
    assert CapacityAfterAppends(2) == 2;
    assert CapacityAfterAppends(3) == 4;
    assert CapacityAfterAppends(4) == 4;
  }
}
