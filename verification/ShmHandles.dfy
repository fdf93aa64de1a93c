/** Where entries are in memory: extents never overlap, so the packed handles identify entries. */
module ShmHandles {
  import opened ShmModel
  import opened ShmInvariant

  // ---------------------------------------------------------------- memory safety

  /** A striping that an entry lives in has an extent. */
  lemma LivesInExtent(c: Config, s: State, pending: seq<Entry>, k: nat)
    requires InvWith(c, s, pending) && k < |s.live + pending|
    ensures var e := (s.live + pending)[k];
            InsideOne(s.st, e) && Extent(c, s.segments, s.st[e.striping]) && Filled(s.st[e.striping])
  {
    var e := (s.live + pending)[k];
    assert InsideOne(s.st, e) && Filled(s.st[e.striping]);
  }

  /** In every reachable state, entries of one segment do not overlap and do not leave the segment. */
  lemma MemorySafe(c: Config, s: State, pending: seq<Entry>, j: nat, k: nat)
    requires InvWith(c, s, pending) && j < k < |s.live + pending|
    ensures var owned := s.live + pending;
            && 0 <= owned[j].offset && owned[j].offset + owned[j].size <= SegmentSize(c)
            && 0 <= owned[k].offset && owned[k].offset + owned[k].size <= SegmentSize(c)
            && (owned[j].segment == owned[k].segment ==> Apart(owned[j], owned[k]))
  {
    hide Inside, Accounted, Queues, Sized, UniqueKeys, Counted;
    LivesInExtent(c, s, pending, j);
    LivesInExtent(c, s, pending, k);
    var a, b := (s.live + pending)[j].striping, (s.live + pending)[k].striping;
    if a < b { assert Beside(s.st[a], s.st[b]); }
    if b < a { assert Beside(s.st[b], s.st[a]); }
  }

  // ---------------------------------------------------------------- entry handles

  /** A handle packs the segment index, with bit 14 set, in its low 16 bits and the offset above them. */
  function Pack(segment: nat, offset: nat): (h: int)
    ensures h > 0
  {
    (if segment / 0x4000 % 2 == 1 then segment else segment + 0x4000) + offset * 0x10000
  }

  /** Reading a handle back uses the low eight bits of the segment index only. */
  function SegmentOf(handle: int): int {
    handle % 0x10000 % 0x100
  }

  function OffsetOf(handle: int): int {
    handle / 0x10000
  }

  /** The handle of the list head: segment index -1. */
  function HeadHandle(offset: nat): int {
    0xFFFF + offset * 0x10000
  }

  /** Unpacking gives back what was packed exactly for the first 256 segments. */
  lemma PackRoundTrip(segment: nat, offset: nat)
    requires segment < 0x8000
    ensures OffsetOf(Pack(segment, offset)) == offset
    ensures SegmentOf(Pack(segment, offset)) == segment <==> segment < 0x100
    ensures segment < 0x100 ==> forall o: nat :: Pack(segment, offset) != HeadHandle(o)
  {
    var low := if segment / 0x4000 % 2 == 1 then segment else segment + 0x4000;
    assert Pack(segment, offset) % 0x10000 == low;
  }

  /** Different entries, pending ones included, have different handles: their memory would overlap otherwise. */
  lemma HandlesDiffer(c: Config, s: State, pending: seq<Entry>, j: nat, k: nat)
    requires InvWith(c, s, pending) && j < k < |s.live + pending| && c.maxSegments <= 0x100
    ensures var a, b := (s.live + pending)[j], (s.live + pending)[k];
            && 0 <= a.segment < 0x100 && 0 <= b.segment < 0x100 && 0 <= a.offset && 0 <= b.offset
            && Pack(a.segment, a.offset) != Pack(b.segment, b.offset)
  {
    var a, b := (s.live + pending)[j], (s.live + pending)[k];
    HandleFields(c, s, pending, j);
    HandleFields(c, s, pending, k);
    MemorySafe(c, s, pending, j, k);
    PackRoundTrip(a.segment, a.offset);
    PackRoundTrip(b.segment, b.offset);
  }

  /** The segment index and offset of an entry fit the handle's fields. */
  lemma HandleFields(c: Config, s: State, pending: seq<Entry>, k: nat)
    requires InvWith(c, s, pending) && k < |s.live + pending|
    ensures 0 <= (s.live + pending)[k].segment < c.maxSegments && 0 <= (s.live + pending)[k].offset
  {
    LivesInExtent(c, s, pending, k);
  }
}
