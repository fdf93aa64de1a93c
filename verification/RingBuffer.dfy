/** wow_ring_buff.c: a byte queue in a ring that always keeps one byte free, copied in at most two pieces. */
module RingBuffer {
  import opened Rings

  type Bytes = seq<bv8>

  datatype Result = NoSpace | BadArgument | Done(count: nat)

  function Min(a: int, b: int): int { if a < b then a else b }

  /** The ring after `data` has been laid from index `at` on, around the end if need be. */
  ghost predicate Laid(old': Bytes, new': Bytes, at: int, data: Bytes)
    requires |new'| == |old'| && 0 <= at < |old'| && |data| <= |old'|
  {
    forall j :: 0 <= j < |old'| ==> new'[j] == LaidByte(old', at, data, j)
  }

  function LaidByte(old': Bytes, at: int, data: Bytes, j: int): bv8
    requires 0 <= at < |old'| && |data| <= |old'| && 0 <= j < |old'|
  {
    var k := if j >= at then j - at else j - at + |old'|;
    if k < |data| then data[k] else old'[j]
  }

  /** Two pieces, one at the end and one at the front of the ring, or a single piece. */
  lemma LaidInPieces(old': Bytes, new': Bytes, at: int, data: Bytes)
    requires |new'| == |old'| && 0 <= at < |old'| && |data| <= |old'|
    requires var tail := if |old'| - at < |data| then |old'| - at else |data|;
             && (forall j :: at <= j < at + tail ==> new'[j] == data[j - at])
             && (forall j :: 0 <= j < |data| - tail ==> new'[j] == data[tail + j])
             && (forall j :: 0 <= j < |old'| && !(at <= j < at + tail) && !(j < |data| - tail) ==> new'[j] == old'[j])
    ensures Laid(old', new', at, data)
  {
  }

  /** Laying bytes at the tail and stepping it over them appends them. */
  lemma LaidAppends(old': Bytes, new': Bytes, start: int, end: int, data: Bytes)
    requires |new'| == |old'| && Ring(old', start, end) && CountOf(start, end, |old'|) + |data| < |old'|
    requires Laid(old', new', end, data)
    ensures 0 <= Slot(end, |data|, |old'|) < |old'|
    ensures Queued(new', start, Slot(end, |data|, |old'|)) == Queued(old', start, end) + data
  {
    var n := |old'|;
    var end' := Slot(end, |data|, n);
    var q, r := Queued(old', start, end), Queued(new', start, end');
    assert |r| == |q| + |data|;
    forall k | 0 <= k < |r| ensures r[k] == (q + data)[k] {
      assert r[k] == new'[Slot(start, k, n)];
    }
  }

  /** Stepping the head over the first n bytes takes them off. */
  lemma Dropped(s: Bytes, start: int, end: int, n: int)
    requires Ring(s, start, end) && 0 <= n <= CountOf(start, end, |s|)
    ensures 0 <= Slot(start, n, |s|) < |s|
    ensures Queued(s, Slot(start, n, |s|), end) == Queued(s, start, end)[n..]
  {
    var q, r := Queued(s, start, end), Queued(s, Slot(start, n, |s|), end);
    assert |r| == |q| - n;
    forall k | 0 <= k < |r| ensures r[k] == q[n + k] {
      assert r[k] == s[Slot(Slot(start, n, |s|), k, |s|)];
    }
  }

  /** Two slices, one up to the end and one from the front of the ring, or a single slice, are the oldest n bytes. */
  lemma TakenInPieces(s: Bytes, start: int, end: int, n: int, data: Bytes)
    requires Ring(s, start, end) && 0 <= n <= CountOf(start, end, |s|)
    requires data == if |s| - start < n then s[start..] + s[..n - (|s| - start)] else s[start..start + n]
    ensures data + Queued(s, start, end)[n..] == Queued(s, start, end)
  {
    var q := Queued(s, start, end);
    forall k | 0 <= k < n ensures data[k] == q[k] {
      assert q[k] == s[Slot(start, k, |s|)];
    }
    assert data == q[..n];
  }

  class RingBuffer {
    const buffer: array<bv8>
    var start: nat
    var end: nat

    ghost predicate Valid()
      reads this, buffer
    {
      Ring(buffer[..], start, end)
    }

    /** The bytes written and not yet read, oldest first. */
    ghost function Contents(): (q: Bytes)
      requires Valid()
      reads this, buffer
    {
      Queued(buffer[..], start, end)
    }

    constructor (size: nat)
      requires size > 0
      ensures Valid() && Contents() == [] && buffer.Length == size && fresh(buffer)
    {
      buffer := new bv8[size](i => 0);
      start, end := 0, 0;
    }

    function GetFree(): (n: int)
      requires Valid()
      reads this, buffer
      ensures n == buffer.Length - |Contents()|
    {
      if end >= start then buffer.Length - (end - start) else start - end
    }

    function GetUsed(): (n: int)
      requires Valid()
      reads this, buffer
      ensures n == |Contents()|
    {
      if end >= start then end - start else buffer.Length - (start - end)
    }

    /** memcpy into the ring. */
    method CopyIn(at: nat, data: Bytes, from: nat, n: nat)
      requires at + n <= buffer.Length && from + n <= |data|
      modifies buffer
      ensures forall j :: 0 <= j < buffer.Length ==> buffer[j] == if at <= j < at + n then data[from + j - at] else old(buffer[j])
    {
      forall j | at <= j < at + n { buffer[j] := data[from + j - at]; }
    }

    /** Appends all bytes, if there is room for them and one more; otherwise nothing. */
    method Write(data: Bytes) returns (r: Result)
      requires Valid()
      modifies this`end, buffer
      ensures Valid()
      ensures data == [] ==> r == BadArgument
      ensures data != [] ==> r == if |old(Contents())| + |data| <= buffer.Length - 1 then Done(|data|) else NoSpace
      ensures Contents() == if r.Done? then old(Contents()) + data else old(Contents())
    {
      hide Advance, Queued, LaidByte;
      if |data| == 0 { return BadArgument; }
      var left := GetFree();
      if !(left > |data|) { return NoSpace; }
      ghost var was, at := buffer[..], end;
      if buffer.Length - end < |data| {
        var halfTail := buffer.Length - end;
        CopyIn(end, data, 0, halfTail);
        end := Advance(end, halfTail, buffer.Length);
        var halfHead := |data| - halfTail;
        CopyIn(end, data, halfTail, halfHead);
        end := Advance(end, halfHead, buffer.Length);
      } else {
        CopyIn(end, data, 0, |data|);
        end := Advance(end, |data|, buffer.Length);
      }
      LaidInPieces(was, buffer[..], at, data);
      LaidAppends(was, buffer[..], start, at, data);
      r := Done(|data|);
    }

    /** Takes off up to `size` bytes; an emptied buffer starts again at the front. */
    method Read(size: nat) returns (r: Result, data: Bytes)
      requires Valid()
      modifies this`start, this`end
      ensures Valid()
      ensures size == 0 ==> r == BadArgument && data == [] && Contents() == old(Contents())
      ensures size > 0 ==> r == Done(|data|) && |data| == Min(size, |old(Contents())|) && data + Contents() == old(Contents())
      ensures size > 0 && Contents() == [] ==> start == end == 0
    {
      hide Advance, Queued;
      data := [];
      if size == 0 { return BadArgument, data; }
      var count := Min(size, GetUsed());
      ghost var at := start;
      if buffer.Length - start < count {
        var halfTail := buffer.Length - start;
        data := buffer[start..start + halfTail];
        start := Advance(start, halfTail, buffer.Length);
        var halfHead := count - halfTail;
        data := data + buffer[start..start + halfHead];
        start := Advance(start, halfHead, buffer.Length);
      } else {
        data := buffer[start..start + count];
        start := Advance(start, count, buffer.Length);
      }
      Dropped(buffer[..], at, end, count);
      TakenInPieces(buffer[..], at, end, count, data);
      if start == end || GetUsed() == 0 { start, end := 0, 0; }
      r := Done(count);
    }

    method Clear()
      requires Valid()
      modifies this`start, this`end
      ensures Valid() && Contents() == []
    {
      start, end := 0, 0;
    }
  }
}
