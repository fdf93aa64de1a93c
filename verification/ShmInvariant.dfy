/** What every cache operation keeps: the entries' memory, the queues of stripings, the keys and the counters agree. */
module ShmInvariant {
  import opened ShmModel

  /** The parameters the initialisation of the cache guarantees. */
  ghost predicate ConfigOk(c: Config) {
    c.perSegment > 0 && c.stripingSize > 0 && c.maxSegments > 0 && c.maxKeyCount > 0 && c.maxValueSize >= 0
  }

  function SegmentSize(c: Config): int {
    c.perSegment * c.stripingSize
  }

  /** A striping without room for anything: one whose creation a crash has cut short. */
  predicate Blank(s: Striping) {
    s.end <= s.base
  }

  /** A striping is a stretch of one of the segments. */
  predicate Extent(c: Config, segments: int, s: Striping) {
    0 <= s.segment < segments && 0 <= s.base && s.end == s.base + c.stripingSize && s.end <= SegmentSize(c)
  }

  predicate Beside(a: Striping, b: Striping) {
    Blank(a) || Blank(b) || (a.segment == b.segment ==> a.end <= b.base || b.end <= a.base)
  }

  /** Stripings are separate stretches of the segments, or blank. */
  ghost predicate Layout(c: Config, segments: int, st: seq<Striping>) {
    && (forall i :: 0 <= i < |st| ==> Blank(st[i]) || Extent(c, segments, st[i]))
    && (forall i, j :: 0 <= i < j < |st| ==> Beside(st[i], st[j]))
  }

  /** What the layout fields promise, whatever the entries, queues and counters are. */
  ghost predicate Intact(c: Config, s: State) {
    ConfigOk(c) && 0 <= s.segments <= c.maxSegments && |s.st| <= s.segments * c.perSegment && Layout(c, s.segments, s.st)
  }

  ghost predicate Apart(a: Entry, b: Entry) {
    a.offset + a.size <= b.offset || b.offset + b.size <= a.offset
  }

  ghost predicate InsideOne(st: seq<Striping>, e: Entry) {
    && 0 <= e.striping < |st| && e.size > 0
    && e.segment == st[e.striping].segment
    && st[e.striping].base <= e.offset && e.offset + e.size <= st[e.striping].free
  }

  ghost predicate Inside(st: seq<Striping>, owned: seq<Entry>) {
    forall k :: 0 <= k < |owned| ==> InsideOne(st, owned[k])
  }

  ghost predicate Disjoint(owned: seq<Entry>) {
    forall j, k :: 0 <= j < k < |owned| && owned[j].striping == owned[k].striping ==> Apart(owned[j], owned[k])
  }

  /** The used part of a striping is base..free. */
  predicate Filled(s: Striping) {
    s.base == s.free || s.base <= s.free <= s.end
  }

  ghost predicate Accounted(st: seq<Striping>, owned: seq<Entry>) {
    forall i :: 0 <= i < |st| ==> Filled(st[i]) && st[i].used == Sum(owned, SizeIn(i))
  }

  ghost predicate NoDup<T>(q: seq<T>) {
    forall j, k :: 0 <= j < k < |q| ==> q[j] != q[k]
  }

  /** No striping is queued twice, the flag tells the queue, and (if removal works as documented) none is lost. */
  ghost predicate Queues(c: Config, st: seq<Striping>, doing: seq<int>, done: seq<int>) {
    && InRange(doing, |st|) && InRange(done, |st|) && NoDup(doing) && NoDup(done)
    && (forall i :: 0 <= i < |st| ==> (st[i].done <==> i in done))
    && (forall i :: 0 <= i < |st| && i in doing ==> !st[i].done)
    && (c.documentedRemove ==> forall i :: 0 <= i < |st| ==> i in doing || i in done)
  }

  ghost predicate UniqueKeys(live: seq<Entry>) {
    forall j, k :: 0 <= j < k < |live| ==> live[j].key != live[k].key
  }

  /** Every entry's extent is exactly its header, aligned key and aligned value. */
  ghost predicate Sized(c: Config, live: seq<Entry>) {
    forall k :: 0 <= k < |live| ==>
      && |live[k].key| <= MAX_KEY_SIZE && |live[k].value.data| <= c.maxValueSize
      && live[k].size == EntrySize(|live[k].key|, |live[k].value.data|)
  }

  ghost predicate Counted(s: State, owned: seq<Entry>) {
    && s.count == |s.live|
    && s.usedEntry == Sum(owned, SizeOf)
    && s.usedKey == Sum(s.live, KeyLen)
    && s.usedValue == Sum(s.live, ValueLen)
  }

  /** The invariant while the memory of `pending` is allocated but not yet in the cache. */
  ghost predicate InvWith(c: Config, s: State, pending: seq<Entry>) {
    && Intact(c, s)
    && Inside(s.st, s.live + pending) && Disjoint(s.live + pending) && Accounted(s.st, s.live + pending)
    && Queues(c, s.st, s.doing, s.done)
    && UniqueKeys(s.live) && Sized(c, s.live)
    && Counted(s, s.live + pending)
  }

  ghost predicate Inv(c: Config, s: State) {
    InvWith(c, s, [])
  }

  lemma InvShape(c: Config, s: State, pending: seq<Entry>)
    requires InvWith(c, s, pending)
    ensures Shape(s)
  {
    forall k | 0 <= k < |s.live| ensures 0 <= s.live[k].striping < |s.st| {
      assert InsideOne(s.st, (s.live + pending)[k]);
    }
  }

  // ---------------------------------------------------------------- the allocation walk

  /** Stripings that differ in failure counts, flags and times only. */
  ghost predicate SameExtents(a: seq<Striping>, b: seq<Striping>) {
    && |a| == |b|
    && (forall i :: 0 <= i < |a| ==> b[i] == a[i].(failTimes := b[i].failTimes, done := b[i].done, lastAlloc := b[i].lastAlloc))
  }

  /** The walk bumps the striping it found and changes no other extent. */
  lemma {:induction false} WalkExtents(c: Config, st: seq<Striping>, kept: seq<int>, rest: seq<int>, done: seq<int>, size: int, now: int)
    requires InRange(rest, |st|)
    ensures var w := Walk(c, st, kept, rest, done, size, now);
            && -1 <= w.found < |st|
            && (w.found == -1 ==> SameExtents(st, w.st))
            && (w.found >= 0 ==> Fits(st[w.found], size) && w.found in rest)
            && (w.found >= 0 ==> SameExtents(st[w.found := Bump(st[w.found], size, now)], w.st))
    decreases |rest|
  {
    if rest != [] && !Fits(st[rest[0]], size) {
      var i := rest[0];
      var s := st[i].(failTimes := st[i].failTimes + 1);
      if !Exhausted(c, s) {
        WalkExtents(c, st[i := s], kept + [i], rest[1..], done, size, now);
      } else if kept == [] || c.documentedRemove {
        WalkExtents(c, st[i := s.(done := true)], kept, rest[1..], done + [i], size, now);
      } else {
        WalkExtents(c, st[i := s], kept, rest[1..], done, size, now);
      }
    }
  }

  /** An allocation succeeds exactly if some queued striping has room: the walk, removals included, visits them all. */
  lemma {:induction false} WalkFinds(c: Config, st: seq<Striping>, kept: seq<int>, rest: seq<int>, done: seq<int>, size: int, now: int)
    requires InRange(rest, |st|) && NoDup(rest)
    ensures Walk(c, st, kept, rest, done, size, now).found >= 0 <==> exists k :: 0 <= k < |rest| && Fits(st[rest[k]], size)
    decreases |rest|
  {
    if rest != [] && !Fits(st[rest[0]], size) {
      var i := rest[0];
      var s := st[i].(failTimes := st[i].failTimes + 1);
      var r := rest[1..];
      var st' := st[i := if Exhausted(c, s) && (kept == [] || c.documentedRemove) then s.(done := true) else s];
      if !Exhausted(c, s) {
        WalkFinds(c, st', kept + [i], r, done, size, now);
      } else if kept == [] || c.documentedRemove {
        WalkFinds(c, st', kept, r, done + [i], size, now);
      } else {
        WalkFinds(c, st', kept, r, done, size, now);
      }
      forall k | 0 <= k < |r| ensures Fits(st'[r[k]], size) <==> Fits(st[rest[k + 1]], size) {
        assert r[k] == rest[k + 1] && rest[k + 1] != rest[0];
      }
      if exists k :: 0 <= k < |rest| && Fits(st[rest[k]], size) {
        var k :| 0 <= k < |rest| && Fits(st[rest[k]], size);
        assert k > 0 && Fits(st'[r[k - 1]], size);
      }
    }
  }

  /** Each step of the walk keeps the queues consistent. */
  lemma {:induction false} WalkQueues(c: Config, st: seq<Striping>, kept: seq<int>, rest: seq<int>, done: seq<int>, size: int, now: int)
    requires Queues(c, st, kept + rest, done) && InRange(rest, |st|)
    ensures var w := Walk(c, st, kept, rest, done, size, now); Queues(c, w.st, w.doing, w.done)
    decreases |rest|
  {
    if rest == [] {
      assert kept + rest == kept;
    } else if Fits(st[rest[0]], size) {
      assert (kept + rest)[|kept|] == rest[0];
    } else {
      var i := rest[0];
      var s := st[i].(failTimes := st[i].failTimes + 1);
      assert (kept + rest)[|kept|] == i;
      if !Exhausted(c, s) {
        assert kept + [i] + rest[1..] == kept + rest;
        WalkQueues(c, st[i := s], kept + [i], rest[1..], done, size, now);
      } else {
        WalkRemoves(c, st, kept, rest, done, s);
        if kept == [] || c.documentedRemove {
          WalkQueues(c, st[i := s.(done := true)], kept, rest[1..], done + [i], size, now);
        } else {
          WalkQueues(c, st[i := s], kept, rest[1..], done, size, now);
        }
      }
    }
  }

  lemma WalkRemoves(c: Config, st: seq<Striping>, kept: seq<int>, rest: seq<int>, done: seq<int>, s: Striping)
    requires Queues(c, st, kept + rest, done) && rest != [] && 0 <= rest[0] < |st| && s.done == st[rest[0]].done
    ensures Queues(c, st[rest[0] := s.(done := true)], kept + rest[1..], done + [rest[0]])
    ensures !c.documentedRemove ==> Queues(c, st[rest[0] := s], kept + rest[1..], done)
  {
    var i, q, r := rest[0], kept + rest, kept + rest[1..];
    assert q[|kept|] == i;
    forall k | 0 <= k < |r| ensures r[k] == (if k < |kept| then q[k] else q[k + 1]) && r[k] != i {
    }
    forall x ensures x in q <==> x in r || x == i {
      if x in q {
        var k :| 0 <= k < |q| && q[k] == x;
        assert k < |kept| ==> r[k] == x;
        assert k > |kept| ==> r[k - 1] == x;
      }
      if x in r {
        var k :| 0 <= k < |r| && r[k] == x;
        assert k < |kept| ==> q[k] == x;
        assert k >= |kept| ==> q[k + 1] == x;
      }
    }
    assert i in q && i !in done;
    forall j | 0 <= j < |done| ensures done[j] != i { assert done[j] in done; }
    var d := done + [i];
    forall x ensures x in d <==> x in done || x == i {
      if x in done {
        var k :| 0 <= k < |done| && done[k] == x;
        assert d[k] == x;
      }
      assert d[|done|] == i;
    }
    var st' := st[i := s.(done := true)];
    forall k | 0 <= k < |r| ensures 0 <= r[k] < |st'| {
      assert r[k] == q[if k < |kept| then k else k + 1];
    }
    forall j, k | 0 <= j < k < |r| ensures r[j] != r[k] {
      assert r[j] == q[if j < |kept| then j else j + 1] && r[k] == q[if k < |kept| then k else k + 1];
    }
    assert InRange(d, |st'|) && NoDup(d);
  }

  // ---------------------------------------------------------------- allocation

  /** The place of a new entry as an entry, for the memory invariants. */
  ghost function Pending(p: Place): seq<Entry> {
    if p.NoPlace? then [] else [Entry([], Value([], 0, 0), p.segment, p.striping, p.offset, p.size)]
  }

  lemma SameInside(a: seq<Striping>, b: seq<Striping>, owned: seq<Entry>)
    requires SameExtents(a, b) && Inside(a, owned) && Accounted(a, owned)
    ensures Inside(b, owned) && Accounted(b, owned)
  {
    forall k | 0 <= k < |owned| ensures InsideOne(b, owned[k]) {
      assert InsideOne(a, owned[k]);
    }
  }

  lemma SameLayout(c: Config, segments: int, a: seq<Striping>, b: seq<Striping>)
    requires SameExtents(a, b) && Layout(c, segments, a)
    ensures Layout(c, segments, b)
  {
  }

  /** Bumping a striping makes room for one more entry, behind everything that lives there. */
  lemma BumpOwns(st: seq<Striping>, owned: seq<Entry>, i: int, size: int, now: int, e: Entry)
    requires 0 <= i < |st| && size > 0 && Fits(st[i], size)
    requires Inside(st, owned) && Disjoint(owned) && Accounted(st, owned)
    requires e.striping == i && e.segment == st[i].segment && e.offset == st[i].free && e.size == size
    ensures var st' := st[i := Bump(st[i], size, now)];
            Inside(st', owned + [e]) && Disjoint(owned + [e]) && Accounted(st', owned + [e])
  {
    var st' := st[i := Bump(st[i], size, now)];
    var all := owned + [e];
    forall k | 0 <= k < |all| ensures InsideOne(st', all[k]) {
      if k < |owned| { assert InsideOne(st, owned[k]); }
    }
    forall j, k | 0 <= j < k < |all| && all[j].striping == all[k].striping ensures Apart(all[j], all[k]) {
      assert InsideOne(st, owned[j]);
    }
    forall n | 0 <= n < |st'| ensures Filled(st'[n]) && st'[n].used == Sum(all, SizeIn(n)) {
      SumAppend(owned, [e], SizeIn(n));
      SumOne(e, SizeIn(n));
    }
  }

  lemma DoAllocKeeps(c: Config, s: State, size: int, now: int)
    requires Inv(c, s) && size > 0 && Shape(s)
    ensures var (p, t) := DoAlloc(c, s, size, now);
            InvWith(c, t, Pending(p)) && t.live == s.live && t.segments == s.segments && t.count == s.count
  {
    hide Walk, Layout, Inside, Disjoint, Accounted, Queues, UniqueKeys, Sized, SameExtents, Bump, Fits;
    var w := Walk(c, s.st, [], s.doing, s.done, size, now);
    assert [] + s.doing == s.doing && s.live + [] == s.live;
    WalkExtents(c, s.st, [], s.doing, s.done, size, now);
    WalkQueues(c, s.st, [], s.doing, s.done, size, now);
    var (p, t) := DoAlloc(c, s, size, now);
    if w.found == -1 {
      SameInside(s.st, w.st, s.live);
      SameLayout(c, s.segments, s.st, w.st);
    } else {
      var st' := s.st[w.found := Bump(s.st[w.found], size, now)];
      var e := Pending(p)[0];
      BumpLayout(c, s.segments, s.st, w.found, size, now);
      BumpOwns(s.st, s.live, w.found, size, now, e);
      assert Pending(p) == [e];
      SameInside(st', w.st, s.live + [e]);
      SameLayout(c, s.segments, st', w.st);
      SumAppend(s.live, [e], SizeOf);
      SumOne(e, SizeOf);
    }
  }

  lemma BumpLayout(c: Config, segments: int, st: seq<Striping>, i: int, size: int, now: int)
    requires Layout(c, segments, st) && 0 <= i < |st|
    ensures Layout(c, segments, st[i := Bump(st[i], size, now)])
  {
  }

  // ---------------------------------------------------------------- freeing

  lemma {:induction false} SumPositive(owned: seq<Entry>, i: int)
    requires forall k :: 0 <= k < |owned| ==> owned[k].size > 0
    ensures Sum(owned, SizeIn(i)) >= 0
    ensures Sum(owned, SizeIn(i)) == 0 ==> forall k :: 0 <= k < |owned| ==> owned[k].striping != i
  {
    if owned != [] {
      SumPositive(owned[1..], i);
      forall k | 0 <= k < |owned| && Sum(owned, SizeIn(i)) == 0 ensures owned[k].striping != i {
        if k > 0 { assert owned[1..][k - 1].striping != i; }
      }
    }
  }

  lemma WithoutIndex<T>(s: seq<T>, k: int, j: int)
    requires 0 <= k < |s| && 0 <= j < |s| - 1
    ensures Without(s, k)[j] == s[if j < k then j else j + 1]
  {
  }

  lemma WithoutContents<T>(s: seq<T>, k: int)
    requires 0 <= k < |s| && NoDup(s)
    ensures NoDup(Without(s, k)) && forall x :: x in Without(s, k) <==> x in s && x != s[k]
  {
    var r := Without(s, k);
    forall j | 0 <= j < |r| ensures r[j] == s[if j < k then j else j + 1] { WithoutIndex(s, k, j); }
    forall x ensures x in r <==> x in s && x != s[k] {
      if x in s && x != s[k] {
        var j :| 0 <= j < |s| && s[j] == x;
        assert r[if j < k then j else j - 1] == x;
      }
    }
  }

  /** Memory after entry k is freed: a striping is rewound only when nothing lives in it any more. */
  lemma FreeOwns(st: seq<Striping>, owned: seq<Entry>, k: int, flag: bool)
    requires 0 <= k < |owned| && Inside(st, owned) && Disjoint(owned) && Accounted(st, owned)
    ensures InsideOne(st, owned[k])
    ensures var i := owned[k].striping; var t := st[i].(used := st[i].used - owned[k].size);
            var rest := Without(owned, k);
            var st' := st[i := if t.used > 0 then t else Rewound(t).(done := flag)];
            t.used >= 0 && Inside(st', rest) && Disjoint(rest) && Accounted(st', rest)
  {
    assert InsideOne(st, owned[k]);
    var e, rest := owned[k], Without(owned, k);
    var i := e.striping;
    var t := st[i].(used := st[i].used - e.size);
    var st' := st[i := if t.used > 0 then t else Rewound(t).(done := flag)];
    forall j | 0 <= j < |rest| ensures rest[j] == owned[if j < k then j else j + 1] && InsideOne(st, rest[j]) {
      WithoutIndex(owned, k, j);
      assert InsideOne(st, owned[if j < k then j else j + 1]);
    }
    forall n | 0 <= n < |st| ensures Sum(rest, SizeIn(n)) == st[n].used - (if n == i then e.size else 0) {
      SumWithout(owned, k, SizeIn(n));
    }
    SumPositive(rest, i);
    forall j | 0 <= j < |rest| ensures InsideOne(st', rest[j]) {
    }
  }

  lemma {:induction false} RemovedContents(q: seq<int>, x: int)
    requires NoDup(q)
    ensures NoDup(Removed(q, x))
    ensures forall y :: y in Removed(q, x) <==> y in q && y != x
  {
    if q != [] {
      var r := q[1..];
      forall y ensures y in q <==> y == q[0] || y in r {
        if y in q {
          var k :| 0 <= k < |q| && q[k] == y;
          assert k > 0 ==> r[k - 1] == y;
        }
        if y in r { var k :| 0 <= k < |r| && r[k] == y; assert q[k + 1] == y; }
      }
      forall k | 0 <= k < |r| ensures r[k] != q[0] { assert r[k] == q[k + 1]; }
      assert NoDup(r);
      RemovedContents(r, x);
      if q[0] != x {
        var s := Removed(r, x);
        forall j, k | 0 <= j < k < |[q[0]] + s| ensures ([q[0]] + s)[j] != ([q[0]] + s)[k] {
          assert s[k - 1] in s;
        }
      }
    }
  }

  lemma FreeQueues(c: Config, st: seq<Striping>, doing: seq<int>, done: seq<int>, i: int, t: Striping)
    requires Queues(c, st, doing, done) && 0 <= i < |st|
    ensures t.done == st[i].done ==> Queues(c, st[i := t], doing, done)
    ensures st[i].done && !t.done ==> Queues(c, st[i := t], doing + [i], Removed(done, i))
  {
    if st[i].done && !t.done {
      RemovedContents(done, i);
      RemovedInRange(done, i, |st|);
      var q := doing + [i];
      forall x ensures x in q <==> x in doing || x == i {
        assert q[|doing|] == i;
        if x in doing { var k :| 0 <= k < |doing| && doing[k] == x; assert q[k] == x; }
      }
      assert i !in doing;
    }
  }

  /** Freeing any entry keeps everything, also while other memory is pending. */
  lemma FreeKeeps(c: Config, s: State, k: int, pending: seq<Entry>)
    requires InvWith(c, s, pending) && 0 <= k < |s.live| && Shape(s)
    ensures InvWith(c, FreeAt(s, k).0, pending)
  {
    hide Inside, Disjoint, Accounted, Queues, UniqueKeys, Layout, InsideOne, Shape;
    FreeIndex(s, k);
    var owned := s.live + pending;
    var (t, emptied) := FreeAt(s, k);
    var e := s.live[k];
    assert owned[k] == e;
    FreeLayout(c, s.segments, s.st, e.striping, t.st[e.striping]);
    FreeOwns(s.st, owned, k, false);
    assert Without(owned, k) == Without(s.live, k) + pending;
    FreeQueues(c, s.st, s.doing, s.done, e.striping, t.st[e.striping]);
    FreeUnique(c, s.live, k);
    SumWithout(s.live, k, KeyLen);
    SumWithout(s.live, k, ValueLen);
    SumWithout(owned, k, SizeOf);
  }

  lemma FreeIndex(s: State, k: int)
    requires Shape(s) && 0 <= k < |s.live|
    ensures 0 <= s.live[k].striping < |s.st|
  {
  }

  lemma FreeLayout(c: Config, segments: int, st: seq<Striping>, i: int, t: Striping)
    requires Layout(c, segments, st) && 0 <= i < |st|
    requires t.segment == st[i].segment && t.base == st[i].base && t.end == st[i].end
    ensures Layout(c, segments, st[i := t])
  {
  }

  lemma FreeUnique(c: Config, live: seq<Entry>, k: int)
    requires UniqueKeys(live) && Sized(c, live) && 0 <= k < |live|
    ensures UniqueKeys(Without(live, k)) && Sized(c, Without(live, k))
  {
    var r := Without(live, k);
    forall i | 0 <= i < |r| ensures r[i] == live[if i < k then i else i + 1] {
      WithoutIndex(live, k, i);
    }
    forall i, j | 0 <= i < j < |r| ensures r[i].key != r[j].key {
      assert r[i] == live[if i < k then i else i + 1] && r[j] == live[if j < k then j else j + 1];
    }
  }

  // ---------------------------------------------------------------- recycling and growing

  lemma {:induction false} RecycleKeeps(c: Config, s: State, now: int, once: int, k: nat, cleared: nat)
    requires Inv(c, s) && Shape(s) && k <= |s.live|
    ensures Inv(c, RecycleFrom(c, s, now, once, k, cleared).1)
    decreases |s.live| - k
  {
    hide Inv, Shape;
    if k < |s.live| {
      if IsValid(s.live[k], now) && !c.recycleValid {
        RecycleKeeps(c, s, now, once, k + 1, cleared);
      } else {
        FreeInv(c, s, k);
        FreeShape(s, k);
        RecycleKeeps(c, FreeAt(s, k).0, now, once, k, cleared + 1);
      }
    }
  }

  lemma FreeInv(c: Config, s: State, k: int)
    requires Inv(c, s) && Shape(s) && 0 <= k < |s.live|
    ensures 0 <= s.live[k].striping < |s.st|
    ensures Inv(c, FreeAt(s, k).0)
  {
    FreeIndex(s, k);
    FreeKeeps(c, s, k, []);
  }

  lemma {:induction false} SumNone(owned: seq<Entry>, i: int)
    requires forall k :: 0 <= k < |owned| ==> owned[k].striping != i
    ensures Sum(owned, SizeIn(i)) == 0
  {
    if owned != [] { SumNone(owned[1..], i); }
  }

  lemma CreateKeeps(c: Config, s: State)
    requires Inv(c, s) && s.segments < c.maxSegments
    ensures Inv(c, CreateSegment(c, s).1)
  {
    hide Queues, UniqueKeys, Sized, Counted, Disjoint, Accounted, Inside, Layout;
    var t := CreateSegment(c, s).1;
    assert s.live + [] == s.live;
    assert (s.segments + 1) * c.perSegment == s.segments * c.perSegment + c.perSegment;
    CreateLayout(c, s.segments, s.st, c.perSegment);
    CreateMemory(c, s.st, s.live, s.segments, c.perSegment);
    CreateQueues(c, s.st, s.doing, s.done, t.st, t.doing);
    SameCounters(s, t, s.live);
  }

  lemma SameCounters(s: State, t: State, owned: seq<Entry>)
    requires Counted(s, owned) && t.live == s.live && t.count == s.count
    requires t.usedEntry == s.usedEntry && t.usedKey == s.usedKey && t.usedValue == s.usedValue
    ensures Counted(t, owned)
  {
  }

  lemma TileStep(a: int, b: int, size: int)
    requires a < b && size > 0
    ensures a * size + size <= b * size
  {
    assert (b - a - 1) * size >= 0;
    assert b * size == a * size + size + (b - a - 1) * size;
  }

  lemma MulMono(a: int, b: int, p: int)
    requires p > 0
    ensures a >= b ==> a * p >= b * p
  {
    if a >= b {
      assert (a - b) * p >= 0;
      assert a * p == b * p + (a - b) * p;
    }
  }

  /** The first n stripings of a new segment lie in it one after the other, and apart from all others. */
  lemma CreateLayout(c: Config, segments: int, st: seq<Striping>, n: nat)
    requires ConfigOk(c) && 0 <= segments && Layout(c, segments, st) && n <= c.perSegment
    ensures Layout(c, segments + 1, st + FreshStripings(c, segments, n))
  {
    var made := FreshStripings(c, segments, n);
    var st' := st + made;
    forall j | 0 <= j < n ensures Extent(c, segments + 1, made[j]) {
      TileStep(j, c.perSegment, c.stripingSize);
      TileFrom(j, c.stripingSize);
    }
    forall i, j | 0 <= i < j < n ensures Beside(made[i], made[j]) { TileStep(i, j, c.stripingSize); }
    forall i, j | 0 <= i < j < |st'| ensures Beside(st'[i], st'[j]) {
      if i >= |st| { assert Beside(made[i - |st|], made[j - |st|]); }
    }
  }

  lemma TileFrom(a: nat, size: nat)
    ensures a * size >= 0
  {
  }

  lemma CreateMemory(c: Config, st: seq<Striping>, owned: seq<Entry>, segment: int, n: nat)
    requires ConfigOk(c) && Inside(st, owned) && Accounted(st, owned)
    ensures Inside(st + FreshStripings(c, segment, n), owned) && Accounted(st + FreshStripings(c, segment, n), owned)
  {
    var st' := st + FreshStripings(c, segment, n);
    forall k | 0 <= k < |owned| ensures InsideOne(st', owned[k]) {
      assert InsideOne(st, owned[k]);
    }
    forall i | 0 <= i < |st'| ensures Filled(st'[i]) && st'[i].used == Sum(owned, SizeIn(i)) {
      if i >= |st| {
        forall k | 0 <= k < |owned| ensures owned[k].striping != i { assert InsideOne(st, owned[k]); }
        SumNone(owned, i);
      }
    }
  }

  lemma CreateQueues(c: Config, st: seq<Striping>, doing: seq<int>, done: seq<int>, st': seq<Striping>, doing': seq<int>)
    requires ConfigOk(c) && Queues(c, st, doing, done)
    requires |st'| == |st| + c.perSegment && (forall i :: 0 <= i < |st| ==> st'[i] == st[i])
    requires (forall i :: |st| <= i < |st'| ==> !st'[i].done) && doing' == doing + Indices(|st|, |st| + c.perSegment)
    ensures Queues(c, st', doing', done)
  {
    var n := |st|;
    forall i | 0 <= i < |st'| ensures i in doing' <==> i in doing || i >= n {
      if i in doing { var k :| 0 <= k < |doing| && doing[k] == i; assert doing'[k] == i; }
      if i >= n { assert doing'[|doing| + i - n] == i; }
    }
  }

  lemma RecycleInv(c: Config, s: State, now: int, once: int)
    requires Inv(c, s) && Shape(s)
    ensures Inv(c, Recycle(c, s, now, once).1)
  {
    RecycleKeeps(c, s, now, once, 0, 0);
  }

  // ---------------------------------------------------------------- operations

  lemma FindUnique(live: seq<Entry>, key: Bytes)
    requires UniqueKeys(live)
    ensures var k := Find(live, key);
            if k < |live| then forall j :: 0 <= j < |live| && j != k ==> live[j].key != key
            else forall j :: 0 <= j < |live| ==> live[j].key != key
  {
  }

  /** The new entry takes over the pending memory. */
  lemma AdoptKeeps(c: Config, s: State, p: Place, key: Bytes, value: Value)
    requires p.Place? && InvWith(c, s, Pending(p)) && p.size == EntrySize(|key|, |value.data|)
    requires |key| <= MAX_KEY_SIZE && |value.data| <= c.maxValueSize
    requires forall j :: 0 <= j < |s.live| ==> s.live[j].key != key
    ensures var e := Entry(key, value, p.segment, p.striping, p.offset, p.size);
            Inv(c, s.(live := s.live + [e], count := s.count + 1,
                      usedKey := s.usedKey + |key|, usedValue := s.usedValue + |value.data|))
  {
    hide Queues, Layout;
    var e := Entry(key, value, p.segment, p.striping, p.offset, p.size);
    var q := Pending(p)[0];
    assert Pending(p) == [q];
    var old', new' := s.live + [q], s.live + [e];
    assert new' + [] == new';
    AdoptMemory(s.st, s.live, q, e);
    SumAppend(s.live, [e], KeyLen);
    SumAppend(s.live, [e], ValueLen);
    SumOne(e, KeyLen);
    SumOne(e, ValueLen);
  }

  lemma AdoptMemory(st: seq<Striping>, live: seq<Entry>, q: Entry, e: Entry)
    requires q.segment == e.segment && q.striping == e.striping && q.offset == e.offset && q.size == e.size
    requires Inside(st, live + [q]) && Disjoint(live + [q]) && Accounted(st, live + [q])
    ensures Inside(st, live + [e]) && Disjoint(live + [e]) && Accounted(st, live + [e])
    ensures Sum(live + [e], SizeOf) == Sum(live + [q], SizeOf)
  {
    var old', new' := live + [q], live + [e];
    SameExtentSums(old', new');
    forall k | 0 <= k < |new'| ensures InsideOne(st, new'[k]) { assert InsideOne(st, old'[k]); }
    forall j, k | 0 <= j < k < |new'| && new'[j].striping == new'[k].striping ensures Apart(new'[j], new'[k]) {
      assert Apart(old'[j], old'[k]);
    }
  }

  lemma {:induction false} SumSame(s: seq<Entry>, t: seq<Entry>, w: Entry -> int)
    requires |s| == |t| && forall k :: 0 <= k < |s| ==> w(s[k]) == w(t[k])
    ensures Sum(s, w) == Sum(t, w)
  {
    if s != [] { SumSame(s[1..], t[1..], w); }
  }

  lemma SameExtentSums(s: seq<Entry>, t: seq<Entry>)
    requires |s| == |t| && forall k :: 0 <= k < |s| ==> s[k].striping == t[k].striping && s[k].size == t[k].size
    ensures Sum(s, SizeOf) == Sum(t, SizeOf)
    ensures forall i :: Sum(s, SizeIn(i)) == Sum(t, SizeIn(i))
  {
    SumSame(s, t, SizeOf);
    forall i ensures Sum(s, SizeIn(i)) == Sum(t, SizeIn(i)) { SumSame(s, t, SizeIn(i)); }
  }

  lemma InstallKeeps(c: Config, s: State, p: Place, key: Bytes, value: Value)
    requires p.Place? && 0 <= p.striping < |s.st| && Shape(s)
    requires InvWith(c, s, Pending(p)) && p.size == EntrySize(|key|, |value.data|)
    requires |key| <= MAX_KEY_SIZE && |value.data| <= c.maxValueSize
    ensures Inv(c, Install(s, p, key, value))
  {
    hide Queues, Layout, Inside, Disjoint, Accounted, Counted, Sized, Shape;
    FindUnique(s.live, key);
    var k := Find(s.live, key);
    if k < |s.live| {
      FreeIndex(s, k);
      FreeKeeps(c, s, k, Pending(p));
      FreeShape(s, k);
      var t := FreeAt(s, k).0;
      forall j | 0 <= j < |t.live| ensures t.live[j].key != key { WithoutIndex(s.live, k, j); }
      AdoptKeeps(c, t, p, key, value);
    } else {
      AdoptKeeps(c, s, p, key, value);
    }
  }

  lemma SetRoomKeeps(c: Config, s: State, now: int)
    requires Inv(c, s) && Shape(s)
    ensures Inv(c, SetRoom(c, s, now).1)
  {
    RecycleInv(c, s, now, c.recycleKeyOnce);
  }

  // ---------------------------------------------------------------- making room and setting, which rearranging makes one recursion

  lemma MakeRoomKeeps(c: Config, s: State, now: int)
    requires Inv(c, s) && Shape(s)
    ensures Inv(c, MakeRoom(c, s, now).1)
    decreases |s.live|, 2, 0
  {
    hide Inv, Shape, Layout, RecycleFrom, Rearrange;
    InvSegment(c, s);
    var t := s;
    if s.segments >= c.maxSegments || Aged(c, s, now) {
      RecycleInv(c, s, now, -1);
      RecycleShape(c, s, now, -1, 0, 0);
      t := Recycle(c, s, now, -1).1;
    }
    if t.segments < c.maxSegments { CreateKeeps(c, t); } else { RearrangeKeeps(c, t, now); }
  }

  lemma InvSegment(c: Config, s: State)
    requires Inv(c, s)
    ensures c.perSegment > 0
  {
  }

  /** Rearranging keeps the invariant, whether all entries find their place again or none stays. */
  lemma RearrangeKeeps(c: Config, s: State, now: int)
    requires Inv(c, s) && Shape(s)
    ensures Inv(c, Rearrange(c, s, now).1)
    decreases |s.live|, 1, 0
  {
    hide Inv, Shape, Clear, Reinsert;
    InvSegment(c, s);
    if !TooFull(c, s) {
      ClearKeeps(c, s);
      ClearShape(s);
      ReinsertKeeps(c, Clear(s), Unexpired(s.live, now), now);
      ClearKeeps(c, Reinsert(c, Clear(s), Unexpired(s.live, now), now).1);
    }
  }

  lemma ReinsertKeeps(c: Config, s: State, rest: seq<Entry>, now: int)
    requires Inv(c, s) && Shape(s)
    ensures Inv(c, Reinsert(c, s, rest, now).1)
    decreases |s.live| + |rest|, 0, |rest|
  {
    hide Inv, Shape, Set;
    InvSegment(c, s);
    if rest != [] {
      SetKeeps(c, s, rest[0].key, rest[0].value, now);
      ReinsertKeeps(c, Set(c, s, rest[0].key, rest[0].value, now).1, rest[1..], now);
    }
  }

  lemma ClearKeeps(c: Config, s: State)
    requires Inv(c, s)
    ensures Inv(c, Clear(s))
  {
    ClearEstablishes(c, s);
  }

  lemma AllocKeeps(c: Config, s: State, size: int, now: int)
    requires Inv(c, s) && Shape(s) && size > 0
    ensures var (p, t) := Alloc(c, s, size, now); InvWith(c, t, Pending(p)) && (p.Place? ==> p.size == size)
    decreases |s.live|, 3, 0
  {
    hide Queues, UniqueKeys, Sized, Counted, Disjoint, Accounted, Inside, Layout, Walk, MakeRoom;
    DoAllocShape(c, s, size, now);
    DoAllocKeeps(c, s, size, now);
    var (p, s1) := DoAlloc(c, s, size, now);
    if p.NoPlace? {
      MakeRoomKeeps(c, s1, now);
      DoAllocKeeps(c, MakeRoom(c, s1, now).1, size, now);
    }
  }

  /** A set keeps the invariant whether it succeeds or not. */
  lemma SetKeeps(c: Config, s: State, key: Bytes, value: Value, now: int)
    requires Inv(c, s) && Shape(s)
    ensures Inv(c, Set(c, s, key, value, now).1)
    decreases |s.live|, 4, 0
  {
    hide Layout, Inside, Disjoint, Accounted, Queues, Counted, Sized, UniqueKeys, Shape, Alloc, Install, SetRoom;
    if |key| <= MAX_KEY_SIZE && |value.data| <= c.maxValueSize {
      SetRoomShape(c, s, now);
      SetRoomKeeps(c, s, now);
      var (r, s1) := SetRoom(c, s, now);
      if r == OK {
        var size := EntrySize(|key|, |value.data|);
        AllocKeeps(c, s1, size, now);
        var (p, s2) := Alloc(c, s1, size, now);
        if p.Place? { InstallKeeps(c, s2, p, key, value); }
      }
    }
  }

  // ---------------------------------------------------------------- other operations

  lemma DeleteKeeps(c: Config, s: State, key: Bytes)
    requires Inv(c, s) && Shape(s)
    ensures Inv(c, Delete(s, key).1)
  {
    var k := Find(s.live, key);
    if k < |s.live| { FreeInv(c, s, k); }
  }

  lemma SetExpiresKeeps(c: Config, s: State, key: Bytes, expires: int, now: int)
    requires Inv(c, s)
    ensures Inv(c, SetExpires(s, key, expires, now).1)
  {
    hide Queues, Layout, Inside, Disjoint, Accounted, UniqueKeys, Sized;
    var t := SetExpires(s, key, expires, now).1;
    assert s.live + [] == s.live && t.live + [] == t.live;
    SameExtentSums(s.live, t.live);
    SumSame(s.live, t.live, KeyLen);
    SumSame(s.live, t.live, ValueLen);
    SameEntries(c, s.st, s.live, t.live);
  }

  /** Entries that differ in expiry only. */
  lemma SameEntries(c: Config, st: seq<Striping>, a: seq<Entry>, b: seq<Entry>)
    requires Inside(st, a) && Disjoint(a) && Accounted(st, a) && UniqueKeys(a) && Sized(c, a)
    requires |a| == |b| && forall k :: 0 <= k < |a| ==> b[k] == a[k].(value := a[k].value.(expires := b[k].value.expires))
    requires forall i :: Sum(a, SizeIn(i)) == Sum(b, SizeIn(i))
    ensures Inside(st, b) && Disjoint(b) && Accounted(st, b) && UniqueKeys(b) && Sized(c, b)
  {
    forall k | 0 <= k < |b| ensures InsideOne(st, b[k]) { assert InsideOne(st, a[k]); }
    forall j, k | 0 <= j < k < |b| && b[j].striping == b[k].striping ensures Apart(b[j], b[k]) {
      assert Apart(a[j], a[k]);
    }
  }

  /** Clearing establishes the invariant exactly from the states whose layout is intact, however their owner left the rest. */
  lemma ClearEstablishes(c: Config, s: State)
    ensures Inv(c, Clear(s)) <==> Intact(c, s)
  {
    hide Layout, Queues, Inside, Disjoint, Accounted;
    var t := Clear(s);
    ClearLayout(c, s.segments, s.st, t.st);
    ClearMemory(t.st);
    ClearQueues(c, t.st, t.doing);
  }

  lemma ClearLayout(c: Config, segments: int, st: seq<Striping>, st': seq<Striping>)
    requires |st'| == |st| && forall i :: 0 <= i < |st| ==> st'[i] == Rewound(st[i]).(done := false)
    ensures Layout(c, segments, st') <==> Layout(c, segments, st)
  {
    forall i | 0 <= i < |st| ensures Blank(st'[i]) == Blank(st[i]) && Extent(c, segments, st'[i]) == Extent(c, segments, st[i]) {
    }
    forall i, j | 0 <= i < j < |st| ensures Beside(st'[i], st'[j]) == Beside(st[i], st[j]) {
    }
  }

  lemma ClearMemory(st: seq<Striping>)
    requires forall i :: 0 <= i < |st| ==> st[i].used == 0 && st[i].free == st[i].base
    ensures Inside(st, [] + []) && Disjoint([] + []) && Accounted(st, [] + [])
  {
  }

  /** Stripings in the same places, whatever is in them. */
  ghost predicate SamePlaces(a: seq<Striping>, b: seq<Striping>) {
    |a| == |b| && forall i :: 0 <= i < |a| ==> a[i].segment == b[i].segment && a[i].base == b[i].base && a[i].end == b[i].end
  }

  /** A crash that has not touched the places of the stripings leaves the layout intact. */
  lemma TornIntact(c: Config, s: State, torn: State)
    requires Intact(c, s) && torn.segments == s.segments && SamePlaces(s.st, torn.st)
    ensures Intact(c, torn)
  {
  }

  /** So does a crash in the middle of creating a segment: the segment is counted, n of its stripings are complete, and the one
      after them may have been counted but only partly filled in. */
  lemma TornCreationIntact(c: Config, s: State, n: nat, partial: seq<Striping>, torn: State)
    requires Intact(c, s) && s.segments < c.maxSegments && n + |partial| <= c.perSegment
    requires forall i :: 0 <= i < |partial| ==> Blank(partial[i])
    requires torn.segments == s.segments + 1 && SamePlaces(s.st + FreshStripings(c, s.segments, n) + partial, torn.st)
    ensures Intact(c, torn)
  {
    hide Layout;
    var st := s.st + FreshStripings(c, s.segments, n);
    CreateLayout(c, s.segments, s.st, n);
    BlankLayout(c, torn.segments, st, partial);
    SameSegments(s.segments, c.perSegment);
    TornIntact(c, s.(segments := torn.segments, st := st + partial), torn);
  }

  lemma SameSegments(segments: int, per: int)
    ensures (segments + 1) * per == segments * per + per
  {
  }

  lemma BlankLayout(c: Config, segments: int, st: seq<Striping>, partial: seq<Striping>)
    requires Layout(c, segments, st) && forall i :: 0 <= i < |partial| ==> Blank(partial[i])
    ensures Layout(c, segments, st + partial)
  {
  }

  lemma ClearQueues(c: Config, st: seq<Striping>, doing: seq<int>)
    requires (forall i :: 0 <= i < |st| ==> !st[i].done) && doing == Indices(0, |st|)
    ensures Queues(c, st, doing, [])
  {
    forall i | 0 <= i < |st| ensures i in doing { assert doing[i] == i; }
  }
}
