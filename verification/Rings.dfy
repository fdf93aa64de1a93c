/** Queues in a ring of fixed size: from a head index up to, but without, a tail index. */
module Rings {
  function Next(i: int, capacity: int): (r: int)
    requires 0 <= i < capacity
    ensures r == if i + 1 == capacity then 0 else i + 1
  {
    (i + 1) % capacity
  }

  function Previous(i: int, capacity: int): int
    requires 0 <= i < capacity
  {
    if i == 0 then capacity - 1 else i - 1
  }

  /** Number of queued elements. */
  function CountOf(head: int, tail: int, capacity: int): int {
    if head <= tail then tail - head else capacity - head + tail
  }

  /** Array index of the k-th element after the head. */
  function Slot(head: int, k: int, capacity: int): int {
    if head + k < capacity then head + k else head + k - capacity
  }

  /** Steps an index over n elements. */
  function Advance(i: int, n: int, capacity: int): (r: int)
    requires 0 <= i < capacity && 0 <= n <= capacity
    ensures r == Slot(i, n, capacity)
  {
    Wraps(i + n, capacity);
    (i + n) % capacity
  }

  lemma Wraps(x: int, n: int)
    requires 0 <= x < 2 * n
    ensures x % n == if x < n then x else x - n
  {
    if x >= n {
      assert x == 1 * n + (x - n);
    }
  }

  ghost predicate Ring<T>(s: seq<T>, head: int, tail: int) {
    0 <= head < |s| && 0 <= tail < |s|
  }

  ghost function Queued<T>(s: seq<T>, head: int, tail: int): (q: seq<T>)
    requires Ring(s, head, tail)
    ensures |q| == CountOf(head, tail, |s|) < |s|
    ensures forall k :: 0 <= k < |q| ==> q[k] == s[Slot(head, k, |s|)]
  {
    seq(CountOf(head, tail, |s|), k requires 0 <= k < CountOf(head, tail, |s|) => s[Slot(head, k, |s|)])
  }

  lemma SlotRange<T>(s: seq<T>, head: int, tail: int, k: int)
    requires Ring(s, head, tail) && 0 <= k <= CountOf(head, tail, |s|)
    ensures 0 <= Slot(head, k, |s|) < |s|
    ensures Slot(head, k, |s|) == tail <==> k == CountOf(head, tail, |s|)
    ensures Slot(head, k, |s|) == head <==> k == 0
    ensures k < CountOf(head, tail, |s|) ==> Next(Slot(head, k, |s|), |s|) == Slot(head, k + 1, |s|)
    ensures k > 0 ==> Previous(Slot(head, k, |s|), |s|) == Slot(head, k - 1, |s|)
    ensures k > 0 ==> Slot(Next(head, |s|), k - 1, |s|) == Slot(head, k, |s|)
    ensures k > 0 ==> CountOf(Next(head, |s|), tail, |s|) == CountOf(head, tail, |s|) - 1
    ensures k < CountOf(head, tail, |s|) ==> Queued(s, head, tail)[k] == s[Slot(head, k, |s|)]
  {
    hide Next;
  }

  lemma QueuedPop<T>(s: seq<T>, head: int, tail: int)
    requires Ring(s, head, tail) && head != tail
    ensures Queued(s, head, tail) == [s[head]] + Queued(s, Next(head, |s|), tail)
  {
    hide Next;
    var q, r := Queued(s, head, tail), Queued(s, Next(head, |s|), tail);
    assert |r| == |q| - 1;
    forall k | 0 <= k < |r| ensures r[k] == q[k + 1] { SlotRange(s, head, tail, k + 1); }
  }

  lemma QueuedPush<T>(s: seq<T>, head: int, tail: int, x: T)
    requires Ring(s, head, tail)
    ensures Next(tail, |s|) == head <==> CountOf(head, tail, |s|) == |s| - 1
    ensures Next(tail, |s|) != head ==> Queued(s[tail := x], head, Next(tail, |s|)) == Queued(s, head, tail) + [x]
  {
    hide Next;
    if Next(tail, |s|) != head {
      var q, r := Queued(s, head, tail), Queued(s[tail := x], head, Next(tail, |s|));
      assert |r| == |q| + 1;
      forall k | 0 <= k < |r| ensures r[k] == (q + [x])[k] { SlotRange(s, head, tail, k); }
    }
  }

  lemma SlotDiffer<T>(s: seq<T>, head: int, tail: int, i: int, j: int)
    requires Ring(s, head, tail) && 0 <= i < CountOf(head, tail, |s|) && 0 <= j < CountOf(head, tail, |s|) && i != j
    ensures 0 <= Slot(head, i, |s|) < |s| && Slot(head, i, |s|) != Slot(head, j, |s|)
  {
  }
}
