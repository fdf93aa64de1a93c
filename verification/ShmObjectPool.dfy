/** The ring queue of shm_object_pool.c: an array of offsets, a head, a tail, and an iterator that removals go through. */
module ShmObjectPool {
  import opened ShmModel
  import opened Rings

  /** The array after everything between positions j and k has moved one place towards the tail. */
  ghost predicate Moved(old': seq<int>, new': seq<int>, head: int, tail: int, j: int, k: int)
    requires Ring(old', head, tail) && |new'| == |old'| && 0 <= j
  {
    forall i :: 0 <= i < CountOf(head, tail, |old'|) ==>
      0 <= Slot(head, i, |old'|) < |old'| && new'[Slot(head, i, |old'|)] == Queued(old', head, tail)[if j < i <= k then i - 1 else i]
  }

  lemma MovedNone(s: seq<int>, head: int, tail: int, k: int)
    requires Ring(s, head, tail) && 0 <= k
    ensures Moved(s, s, head, tail, k, k)
  {
    forall i | 0 <= i < CountOf(head, tail, |s|) ensures 0 <= Slot(head, i, |s|) < |s| { SlotRange(s, head, tail, i); }
  }

  lemma MovedMore(old': seq<int>, new': seq<int>, head: int, tail: int, j: int, k: int)
    requires Ring(old', head, tail) && |new'| == |old'| && 0 < j <= k < CountOf(head, tail, |old'|)
    requires Moved(old', new', head, tail, j, k)
    ensures 0 <= Slot(head, j - 1, |old'|) < |old'| && 0 <= Slot(head, j, |old'|) < |old'|
    ensures Moved(old', new'[Slot(head, j, |old'|) := new'[Slot(head, j - 1, |old'|)]], head, tail, j - 1, k)
  {
    hide Next, Slot, CountOf, Queued;
    SlotRange(old', head, tail, j - 1);
    SlotRange(old', head, tail, j);
    forall i | 0 <= i < CountOf(head, tail, |old'|) && i != j
      ensures 0 <= Slot(head, i, |old'|) < |old'| && Slot(head, i, |old'|) != Slot(head, j, |old'|)
    {
      SlotDiffer(old', head, tail, i, j);
    }
    assert new'[Slot(head, j - 1, |old'|)] == Queued(old', head, tail)[j - 1];
  }

  /** Moving the part before position k and stepping the head takes exactly the k-th offset out of the queue. */
  lemma MovedRemoves(old': seq<int>, new': seq<int>, head: int, tail: int, k: int)
    requires Ring(old', head, tail) && |new'| == |old'| && 0 <= k < CountOf(head, tail, |old'|)
    requires Moved(old', new', head, tail, 0, k)
    ensures Queued(new', Next(head, |old'|), tail) == Without(Queued(old', head, tail), k)
    ensures 0 <= Slot(head, k, |old'|) < |old'|
    ensures new'[Slot(head, k, |old'|)] == Queued(old', head, tail)[if k == 0 then 0 else k - 1]
  {
    hide Next, Slot, CountOf, Queued;
    var n := |old'|;
    var q, r := Queued(old', head, tail), Queued(new', Next(head, n), tail);
    SlotRange(old', head, tail, k);
    SlotRange(old', head, tail, k + 1);
    assert |r| == |q| - 1 == |Without(q, k)|;
    forall j | 0 <= j < |r| ensures r[j] == Without(q, k)[j] {
      MovedAt(old', new', head, tail, k, j);
    }
  }

  lemma MovedAt(old': seq<int>, new': seq<int>, head: int, tail: int, k: int, j: int)
    requires Ring(old', head, tail) && |new'| == |old'| && 0 <= k < CountOf(head, tail, |old'|)
    requires Moved(old', new', head, tail, 0, k) && 0 <= j < CountOf(head, tail, |old'|) - 1
    ensures CountOf(Next(head, |old'|), tail, |old'|) == CountOf(head, tail, |old'|) - 1
    ensures Queued(new', Next(head, |old'|), tail)[j] == Queued(old', head, tail)[if j < k then j else j + 1]
  {
    hide Next, Slot, CountOf, Queued;
    var i := j + 1;
    SlotRange(new', head, tail, i);
    SlotRange(old', head, tail, i);
    assert new'[Slot(head, i, |old'|)] == Queued(old', head, tail)[if 0 < i <= k then i - 1 else i];
    assert Queued(new', Next(head, |old'|), tail)[j] == new'[Slot(Next(head, |old'|), j, |old'|)];
  }

  class ObjectPool {
    const offsets: array<int>
    var head: int
    var tail: int
    var index: int

    ghost predicate Valid()
      reads this, offsets
    {
      Ring(offsets[..], head, tail) && -1 <= index < offsets.Length
    }

    /** The queued offsets, head first. */
    ghost function Contents(): (q: seq<int>)
      requires Valid()
      reads this, offsets
    {
      Queued(offsets[..], head, tail)
    }

    /** The iterator stands on the k-th offset. */
    ghost predicate At(k: int)
      requires Valid()
      reads this, offsets
    {
      0 <= k < |Contents()| && index == Slot(head, k, offsets.Length)
    }

    /** The iterator will go to the k-th offset next; after the removal of the first one it stands before the head. */
    ghost predicate Before(k: int)
      requires Valid()
      reads this, offsets
    {
      0 <= k <= |Contents()| && 0 <= index && index != tail && Next(index, offsets.Length) == Slot(head, k, offsets.Length)
    }

    constructor (capacity: nat)
      requires capacity > 0
      ensures Valid() && fresh(offsets) && Contents() == [] && offsets.Length == capacity
    {
      offsets := new int[capacity];
      head, tail, index := 0, 0, -1;
    }

    /** Empties the queue, whatever its head and tail were. */
    method InitEmpty()
      requires 0 < offsets.Length && -1 <= index < offsets.Length
      modifies this`head, this`tail
      ensures Valid() && Contents() == [] && index == old(index)
    {
      head, tail := 0, 0;
    }

    /** Fills the queue with the offsets base, base + size, .. */
    method InitFull(base: int, size: int)
      requires Valid()
      modifies this, offsets
      ensures Valid() && |Contents()| == offsets.Length - 1
      ensures forall k :: 0 <= k < |Contents()| ==> Contents()[k] == base + k * size
    {
      var p, offset := 0, base;
      while p < offsets.Length - 1
        invariant 0 <= p <= offsets.Length - 1 && offset == base + p * size && Valid()
        invariant forall k :: 0 <= k < p ==> offsets[k] == base + k * size
      {
        offsets[p] := offset;
        offset := offset + size;
        p := p + 1;
      }
      head, tail := 0, offsets.Length - 1;
    }

    method GetCount() returns (n: int)
      requires Valid()
      ensures n == |Contents()|
    {
      if head == tail { n := 0; }
      else if head < tail { n := tail - head; }
      else { n := (offsets.Length - head) + tail; }
    }

    method IsEmpty() returns (empty: bool)
      requires Valid()
      ensures empty <==> Contents() == []
    {
      empty := head == tail;
    }

    /** Takes the first offset, or reports an empty queue by -1. */
    method Alloc() returns (offset: int)
      requires Valid()
      modifies this`head
      ensures Valid()
      ensures old(Contents()) == [] ==> offset == -1 && Contents() == []
      ensures old(Contents()) != [] ==> [offset] + Contents() == old(Contents())
    {
      hide Next, Queued;
      if head == tail { return -1; }
      offset := offsets[head];
      QueuedPop(offsets[..], head, tail);
      head := Next(head, offsets.Length);
    }

    /** Appends an offset; a ring of capacity n holds n - 1. */
    method Free(offset: int) returns (err: int)
      requires Valid()
      modifies this`tail, offsets
      ensures Valid()
      ensures err == if |old(Contents())| == offsets.Length - 1 then ENOSPC else OK
      ensures Contents() == if err == OK then old(Contents()) + [offset] else old(Contents())
    {
      hide Next, Queued;
      ghost var was := offsets[..];
      QueuedPush(was, head, tail, offset);
      var nextTail := Next(tail, offsets.Length);
      if nextTail == head { return ENOSPC; }
      offsets[tail] := offset;
      assert offsets[..] == was[tail := offset];
      tail := nextTail;
      return OK;
    }

    /** Starts the iterator. */
    method First() returns (offset: int)
      requires Valid()
      modifies this`index
      ensures Valid() && Contents() == old(Contents())
      ensures Contents() == [] ==> offset == -1 && index == -1
      ensures Contents() != [] ==> At(0) && Before(1) && offset == Contents()[0]
    {
      hide Next, Queued;
      if head != tail { SlotRange(offsets[..], head, tail, 0); }
      if head == tail {
        index := -1;
        return -1;
      }
      index := head;
      offset := offsets[index];
    }

    /** Steps the iterator. */
    method Advance(ghost k: int) returns (offset: int)
      requires Valid() && (index != -1 && index != tail ==> Before(k))
      modifies this`index
      ensures Valid() && Contents() == old(Contents())
      ensures old(index) == -1 || old(index) == tail ==> offset == -1 && index == -1
      ensures old(index != -1 && index != tail) && k < |Contents()| ==> At(k) && Before(k + 1) && offset == Contents()[k]
      ensures old(index != -1 && index != tail) && k == |Contents()| ==> offset == -1 && index == tail
    {
      hide Next, Queued;
      if index != -1 && index != tail { SlotRange(offsets[..], head, tail, k); }
      if index == -1 { return -1; }
      if index == tail {
        index := -1;
        return -1;
      }
      index := Next(index, offsets.Length);
      if index != tail { offset := offsets[index]; } else { offset := -1; }
    }

    /** The removal at the iterator, up to the read of the result: everything before it moves one place, the head steps. */
    method Shift(ghost k: int)
      requires Valid() && At(k)
      modifies this`head, offsets
      ensures Valid() && Contents() == Without(old(Contents()), k) && Before(k)
      ensures offsets[index] == old(Contents())[if k == 0 then 0 else k - 1]
    {
      hide Next, Queued, Previous, Slot, Moved, CountOf, Without;
      ghost var was := offsets[..];
      ghost var j := k;
      var current := index;
      MovedNone(was, head, tail, k);
      SlotRange(was, head, tail, k);
      while current != head
        invariant head == old(head) && Ring(was, head, tail) && |was| == offsets.Length && k < CountOf(head, tail, |was|)
        invariant 0 <= j <= k && 0 <= current < offsets.Length && current == Slot(head, j, offsets.Length)
        invariant Moved(was, offsets[..], head, tail, j, k)
        decreases j
      {
        SlotRange(was, head, tail, j);
        MovedMore(was, offsets[..], head, tail, j, k);
        var previous := Previous(current, offsets.Length);
        ghost var before := offsets[..];
        offsets[current] := offsets[previous];
        assert offsets[..] == before[current := before[previous]];
        current := previous;
        j := j - 1;
      }
      SlotRange(was, head, tail, j);
      assert j == 0;
      MovedRemoves(was, offsets[..], head, tail, k);
      SlotRange(was, head, tail, k);
      SlotRange(was, head, tail, k + 1);
      ghost var moved := offsets[..];
      head := Next(head, offsets.Length);
      assert offsets[..] == moved;
    }

    /** The removal as coded: the result is read after the move, so it is the predecessor of the removed offset. */
    method Remove(ghost k: int) returns (offset: int)
      requires Valid() && (Contents() != [] && 0 <= index ==> At(k))
      modifies this`head, offsets
      ensures Valid()
      ensures old(Contents()) == [] || index < 0 ==> offset == -1 && Contents() == old(Contents())
      ensures old(Contents()) != [] && 0 <= index ==> Contents() == Without(old(Contents()), k) && Before(k)
      ensures old(Contents()) != [] && 0 <= index ==> offset == old(Contents())[if k == 0 then 0 else k - 1]
      ensures old(Contents()) != [] && 0 <= index && Distinct(old(Contents())) ==> (offset == old(Contents())[k] <==> k == 0)
    {
      if head == tail { return -1; }
      if index < 0 { return -1; }
      Shift(k);
      offset := offsets[index];
    }

    /** The removal as documented: the result is the removed offset. */
    method RemoveDocumented(ghost k: int) returns (offset: int)
      requires Valid() && (Contents() != [] && 0 <= index ==> At(k))
      modifies this`head, offsets
      ensures Valid()
      ensures old(Contents()) == [] || index < 0 ==> offset == -1 && Contents() == old(Contents())
      ensures old(Contents()) != [] && 0 <= index ==> Contents() == Without(old(Contents()), k) && Before(k)
      ensures old(Contents()) != [] && 0 <= index ==> offset == old(Contents())[k]
    {
      if head == tail { return -1; }
      if index < 0 { return -1; }
      offset := offsets[index];
      Shift(k);
    }

    /** Removes the first occurrence of a given offset from the middle of the queue; the rest keeps its order. */
    method RemoveBy(x: int) returns (offset: int)
      requires Valid() && forall k :: 0 <= k < |Contents()| ==> Contents()[k] > 0
      modifies this`head, this`index, offsets
      ensures Valid() && Contents() == Removed(old(Contents()), x)
      ensures x in old(Contents()) <==> offset >= 0
    {
      hide Ring, Queued, CountOf, Slot, Next, Removed;
      ghost var q := Contents();
      var current := First();
      ghost var k := 0;
      while current > 0
        invariant Valid() && Contents() == q && 0 <= k <= |q| && offsets[..] == old(offsets[..]) && head == old(head)
        invariant k < |q| ==> At(k) && Before(k + 1) && current == q[k]
        invariant k == |q| ==> current == -1
        invariant forall j :: 0 <= j < k ==> q[j] != x
        decreases |q| - k
      {
        if current == x {
          RemovedAt(q, x, k);
          offset := Remove(k);
          return;
        }
        current := Advance(k + 1);
        k := k + 1;
      }
      RemovedNone(q, x);
      return -1;
    }
  }

  lemma {:induction false} RemovedAt(q: seq<int>, x: int, k: nat)
    requires k < |q| && q[k] == x && forall j :: 0 <= j < k ==> q[j] != x
    ensures Removed(q, x) == Without(q, k)
  {
    if k > 0 {
      assert q[1..][k - 1] == x;
      RemovedAt(q[1..], x, k - 1);
      assert Without(q, k) == [q[0]] + Without(q[1..], k - 1);
    }
  }

  lemma {:induction false} RemovedNone(q: seq<int>, x: int)
    requires x !in q
    ensures Removed(q, x) == q
  {
    if q != [] {
      assert q[0] in q && q[0] != x;
      RemovedNone(q[1..], x);
      assert q == [q[0]] + q[1..];
    }
  }

  predicate Distinct(q: seq<int>) {
    forall i, j :: 0 <= i < j < |q| ==> q[i] != q[j]
  }

  /** What the iterator's slot holds after the move, which is what the removal returns, is the removed offset, as its header
      promises, exactly if that was the head of the queue. */
  lemma RemoveReturns(old': seq<int>, new': seq<int>, head: int, tail: int, k: int)
    requires Ring(old', head, tail) && |new'| == |old'| && 0 <= k < CountOf(head, tail, |old'|)
    requires Moved(old', new', head, tail, 0, k) && Distinct(Queued(old', head, tail))
    ensures 0 <= Slot(head, k, |old'|) < |old'|
    ensures new'[Slot(head, k, |old'|)] == Queued(old', head, tail)[k] <==> k == 0
  {
    hide Slot, CountOf, Moved;
    MovedRemoves(old', new', head, tail, k);
  }
}
