/** Circular buffers: the occupied slots of an array, read from `start` on and around its end. */
module Ring {
  function Slot(len: nat, start: nat, i: nat): nat
    requires start < len && i <= len
  {
    if start + i < len then start + i else start + i - len
  }

  function Occupied<T>(slots: seq<T>, start: nat, n: nat): (q: seq<T>)
    requires start < |slots| && n <= |slots|
  {
    seq(n, i requires 0 <= i < n => slots[Slot(|slots|, start, i)])
  }

  /** Filling the slot behind the last one appends, whatever the slot held before. */
  lemma PushAppends<T>(slots: seq<T>, start: nat, n: nat, x: T)
    requires start < |slots| && n < |slots|
    ensures Occupied(slots[Slot(|slots|, start, n) := x], start, n + 1) == Occupied(slots, start, n) + [x]
  {
  }

  /** Advancing the start removes the oldest element. */
  lemma PopRemoves<T>(slots: seq<T>, start: nat, n: nat)
    requires start < |slots| && 0 < n <= |slots|
    ensures Occupied(slots, start, n) == [slots[start]] + Occupied(slots, Slot(|slots|, start, 1), n - 1)
  {
  }
}
