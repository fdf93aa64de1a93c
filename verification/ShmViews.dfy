/** How the cache's own data structures read as the values of ShmModel. */
module ShmViews {
  import opened ShmModel
  import opened ShmInvariant
  import opened ShmHandles

  /** What an entry's memory holds besides its key and its links. */
  datatype Record = Record(value: Value, segment: int, striping: int, offset: int, size: int)

  /** A striping's place in a queue: the offset of its allocator structure, positive and different for each striping. */
  function OffsetOfStriping(i: int): int { i + 1 }

  function StripingAt(offset: int): int { offset - 1 }

  function QueueOf(offsets: seq<int>): (q: seq<int>)
    ensures |q| == |offsets| && forall k :: 0 <= k < |q| ==> q[k] == StripingAt(offsets[k])
  {
    seq(|offsets|, k requires 0 <= k < |offsets| => StripingAt(offsets[k]))
  }

  lemma QueueAppend(offsets: seq<int>, i: int)
    ensures QueueOf(offsets + [OffsetOfStriping(i)]) == QueueOf(offsets) + [i]
  {
  }

  lemma QueueWithout(offsets: seq<int>, k: nat)
    requires k < |offsets|
    ensures QueueOf(Without(offsets, k)) == Without(QueueOf(offsets), k)
  {
  }

  lemma {:induction false} QueueRemoved(offsets: seq<int>, i: int)
    ensures QueueOf(Removed(offsets, OffsetOfStriping(i))) == Removed(QueueOf(offsets), i)
  {
    if offsets != [] {
      QueueRemoved(offsets[1..], i);
      assert QueueOf(offsets)[1..] == QueueOf(offsets[1..]);
      assert QueueOf([offsets[0]] + Removed(offsets[1..], OffsetOfStriping(i)))
          == [StripingAt(offsets[0])] + QueueOf(Removed(offsets[1..], OffsetOfStriping(i)));
    }
  }

  lemma QueueMember(offsets: seq<int>, i: int)
    ensures i in QueueOf(offsets) <==> OffsetOfStriping(i) in offsets
  {
    var q := QueueOf(offsets);
    if i in q { var k :| 0 <= k < |q| && q[k] == i; assert offsets[k] == OffsetOfStriping(i); }
    if OffsetOfStriping(i) in offsets {
      var k :| 0 <= k < |offsets| && offsets[k] == OffsetOfStriping(i);
      assert q[k] == i;
    }
  }

  lemma SomeInRange(q: seq<int>, n: nat)
    requires InRange(q, n)
    ensures |q| > 0 ==> n > 0
  {
    if |q| > 0 { assert 0 <= q[0] < n; }
  }

  /** A queue without repetitions is no longer than the number of stripings. */
  lemma {:induction false} Pigeonhole(q: seq<int>, n: nat)
    requires NoDup(q) && InRange(q, n)
    ensures |q| <= n
  {
    SomeInRange(q, n);
    if n > 0 {
      if k :| 0 <= k < |q| && q[k] == n - 1 {
        var r := Without(q, k);
        WithoutContents(q, k);
        forall j | 0 <= j < |r| ensures 0 <= r[j] < n - 1 {
          assert r[j] in r;
        }
        Pigeonhole(r, n - 1);
      } else {
        Pigeonhole(q, n - 1);
      }
    }
  }

  // ---------------------------------------------------------------- entries

  /** Every listed handle has a key and a record, and is the packed address of its record. */
  ghost predicate Covered(order: seq<int>, keys: map<int, Bytes>, records: map<int, Record>) {
    forall k :: 0 <= k < |order| ==> CoveredAt(order[k], keys, records)
  }

  ghost predicate CoveredAt(h: int, keys: map<int, Bytes>, records: map<int, Record>) {
    && h in keys && h in records && 0 <= records[h].segment && 0 <= records[h].offset
    && h == Pack(records[h].segment, records[h].offset)
  }

  function EntryAt(h: int, keys: map<int, Bytes>, records: map<int, Record>): Entry
    requires h in keys && h in records
  {
    var r := records[h];
    Entry(keys[h], r.value, r.segment, r.striping, r.offset, r.size)
  }

  ghost function LiveOf(order: seq<int>, keys: map<int, Bytes>, records: map<int, Record>): (live: seq<Entry>)
    requires Covered(order, keys, records)
    ensures |live| == |order|
    ensures forall k :: 0 <= k < |order| ==> CoveredAt(order[k], keys, records) && live[k] == EntryAt(order[k], keys, records)
  {
    assert forall k :: 0 <= k < |order| ==> CoveredAt(order[k], keys, records);
    seq(|order|, k requires 0 <= k < |order| => EntryAt(order[k], keys, records))
  }

  lemma LiveWithout(order: seq<int>, keys: map<int, Bytes>, records: map<int, Record>, k: nat)
    requires Covered(order, keys, records) && k < |order|
    ensures Covered(Without(order, k), keys, records)
    ensures LiveOf(Without(order, k), keys, records) == Without(LiveOf(order, keys, records), k)
  {
    var r := Without(order, k);
    forall j | 0 <= j < |r| ensures r[j] == order[if j < k then j else j + 1] && CoveredAt(r[j], keys, records) {
      WithoutIndex(order, k, j);
      assert CoveredAt(order[if j < k then j else j + 1], keys, records);
    }
    var live := LiveOf(order, keys, records);
    forall j | 0 <= j < |r| ensures LiveOf(r, keys, records)[j] == Without(live, k)[j] {
      WithoutIndex(live, k, j);
    }
  }

  /** Writing the memory and key of an entry that is not listed changes no listed entry. */
  lemma LiveElsewhere(order: seq<int>, keys: map<int, Bytes>, records: map<int, Record>, keys': map<int, Bytes>, records': map<int, Record>)
    requires Covered(order, keys, records)
    requires forall k :: 0 <= k < |order| ==> SameAt(order[k], keys, records, keys', records')
    ensures Covered(order, keys', records') && LiveOf(order, keys', records') == LiveOf(order, keys, records)
  {
    forall k | 0 <= k < |order| ensures CoveredAt(order[k], keys', records') {
      assert CoveredAt(order[k], keys, records) && SameAt(order[k], keys, records, keys', records');
    }
    forall k | 0 <= k < |order| ensures LiveOf(order, keys', records')[k] == LiveOf(order, keys, records)[k] {
      assert CoveredAt(order[k], keys, records) && SameAt(order[k], keys, records, keys', records');
    }
  }

  ghost predicate SameAt(h: int, keys: map<int, Bytes>, records: map<int, Record>, keys': map<int, Bytes>, records': map<int, Record>) {
    && (h in keys ==> h in keys' && keys'[h] == keys[h])
    && (h in records ==> h in records' && records'[h] == records[h])
  }

  /** Listing a new entry at the tail. */
  lemma LiveAppend(order: seq<int>, keys: map<int, Bytes>, records: map<int, Record>, h: int)
    requires Covered(order, keys, records) && CoveredAt(h, keys, records)
    ensures Covered(order + [h], keys, records)
    ensures LiveOf(order + [h], keys, records) == LiveOf(order, keys, records) + [EntryAt(h, keys, records)]
  {
    var all := order + [h];
    forall k | 0 <= k < |all| ensures CoveredAt(all[k], keys, records) {
      if k < |order| { assert CoveredAt(order[k], keys, records); }
    }
  }

  /** Changing a listed entry's value changes exactly this entry. */
  lemma LiveUpdate(order: seq<int>, keys: map<int, Bytes>, records: map<int, Record>, k: nat, value: Value)
    requires Covered(order, keys, records) && NoDup(order) && k < |order| && order[k] in records
    ensures var records' := records[order[k] := records[order[k]].(value := value)];
            && Covered(order, keys, records')
            && LiveOf(order, keys, records') == LiveOf(order, keys, records)[k := LiveOf(order, keys, records)[k].(value := value)]
  {
    var records' := records[order[k] := records[order[k]].(value := value)];
    forall j | 0 <= j < |order| ensures CoveredAt(order[j], keys, records') {
      assert CoveredAt(order[j], keys, records);
    }
    var live, live' := LiveOf(order, keys, records), LiveOf(order, keys, records');
    forall j | 0 <= j < |order| ensures live'[j] == live[k := live[k].(value := value)][j] {
      assert CoveredAt(order[j], keys, records);
    }
  }

  /** The handle of freshly allocated memory is none of the listed handles. */
  lemma FreshHandle(c: Config, s: State, p: Place, order: seq<int>, keys: map<int, Bytes>, records: map<int, Record>)
    requires InvWith(c, s, Pending(p)) && p.Place? && c.maxSegments <= 0x100
    requires Covered(order, keys, records) && s.live == LiveOf(order, keys, records)
    ensures 0 <= p.segment < 0x100 && 0 <= p.offset && Pack(p.segment, p.offset) !in order
  {
    var owned, n := s.live + Pending(p), |s.live|;
    HandleFields(c, s, Pending(p), n);
    assert owned[n] == Pending(p)[0];
    forall k | 0 <= k < |order| ensures order[k] != Pack(p.segment, p.offset) {
      HandlesDiffer(c, s, Pending(p), k, n);
      assert owned[k] == s.live[k] && CoveredAt(order[k], keys, records);
    }
  }
}
