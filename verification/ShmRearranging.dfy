/** Rearranging the whole cache: it calls set, which may rearrange again, but that never helps, so a rearrangement comes to
    plain allocations in an empty cache. */
module ShmRearranging {
  import opened ShmModel
  import opened ShmInvariant
  import opened ShmEviction

  // ---------------------------------------------------------------- allocations only

  /** Puts these entries in one after the other, each where the walk finds room. */
  ghost function Refill(c: Config, s: State, rest: seq<Entry>, now: int): (bool, State)
    requires Shape(s)
    decreases |rest|
  {
    if rest == [] then (true, s)
    else
      DoAllocShape(c, s, EntrySize(|rest[0].key|, |rest[0].value.data|), now);
      var (p, t) := DoAlloc(c, s, EntrySize(|rest[0].key|, |rest[0].value.data|), now);
      if p.NoPlace? then (false, t)
      else
        InstallShape(t, p, rest[0].key, rest[0].value);
        Refill(c, Install(t, p, rest[0].key, rest[0].value), rest[1..], now)
  }

  lemma {:induction false} RefillShape(c: Config, s: State, rest: seq<Entry>, now: int)
    requires Shape(s)
    ensures Shape(Refill(c, s, rest, now).1)
    decreases |rest|
  {
    hide Shape, Install, DoAlloc;
    if rest != [] {
      var size := EntrySize(|rest[0].key|, |rest[0].value.data|);
      ShapeDoing(s);
      DoAllocShape(c, s, size, now);
      var (p, t) := DoAlloc(c, s, size, now);
      if p.Place? {
        InstallShape(t, p, rest[0].key, rest[0].value);
        RefillShape(c, Install(t, p, rest[0].key, rest[0].value), rest[1..], now);
      }
    }
  }

  lemma ShapeDoing(s: State)
    requires Shape(s)
    ensures InRange(s.doing, |s.st|)
  {
  }

  lemma {:induction false} RefillAppend(c: Config, s: State, a: seq<Entry>, b: seq<Entry>, now: int)
    requires Shape(s) && Refill(c, s, a, now).0
    ensures Shape(Refill(c, s, a, now).1) && Refill(c, s, a + b, now) == Refill(c, Refill(c, s, a, now).1, b, now)
    decreases |a|
  {
    hide Shape, Install, DoAlloc;
    RefillShape(c, s, a, now);
    if a == [] {
      assert a + b == b;
    } else {
      assert (a + b)[0] == a[0] && (a + b)[1..] == a[1..] + b;
      var size := EntrySize(|a[0].key|, |a[0].value.data|);
      ShapeDoing(s);
      DoAllocShape(c, s, size, now);
      var (p, t) := DoAlloc(c, s, size, now);
      InstallShape(t, p, a[0].key, a[0].value);
      RefillAppend(c, Install(t, p, a[0].key, a[0].value), a[1..], b, now);
    }
  }

  // ---------------------------------------------------------------- nothing to recycle

  lemma {:induction false} RecyclesNothing(c: Config, s: State, now: int, once: int, k: nat, cleared: nat)
    requires Shape(s) && k <= |s.live| && !c.recycleValid && AllValid(s.live, now)
    ensures RecycleFrom(c, s, now, once, k, cleared) == (ENOMEM, s)
    decreases |s.live| - k
  {
    if k < |s.live| { RecyclesNothing(c, s, now, once, k + 1, cleared); }
  }

  lemma {:induction false} UnexpiredAll(s: seq<Entry>, now: int)
    requires AllValid(s, now)
    ensures Unexpired(s, now) == s
  {
    if s != [] { UnexpiredAll(s[1..], now); }
  }

  /** Clearing looks at the places of the stripings only. */
  lemma SameClear(s: State, t: State)
    requires SamePlaces(s.st, t.st) && s.segments == t.segments && s.alloced == t.alloced
    ensures Clear(s) == Clear(t)
  {
    var a, b := Clear(s), Clear(t);
    assert a.st == b.st by {
      forall i | 0 <= i < |a.st| ensures a.st[i] == b.st[i] { }
    }
    assert a.doing == b.doing;
  }

  lemma ClearTwice(s: State)
    ensures Clear(Clear(s)) == Clear(s)
  {
    SameClear(Clear(s), s);
  }

  lemma DoAllocPlaces(c: Config, s: State, size: int, now: int)
    requires Shape(s)
    ensures var t := DoAlloc(c, s, size, now).1;
            SamePlaces(s.st, t.st) && t.segments == s.segments && t.alloced == s.alloced && t.live == s.live && t.count == s.count
  {
    WalkExtents(c, s.st, [], s.doing, s.done, size, now);
  }

  lemma InstallPlaces(s: State, p: Place, key: Bytes, value: Value)
    requires Shape(s) && p.Place? && 0 <= p.striping < |s.st|
    ensures var t := Install(s, p, key, value); SamePlaces(s.st, t.st) && t.segments == s.segments && t.alloced == s.alloced
  {
  }

  // ---------------------------------------------------------------- sets inside a rearrangement

  /** A state on the way of a rearrangement: what refilling an empty cache with its entries gives. */
  ghost predicate Refilled(c: Config, s: State, now: int)
    requires Shape(Clear(s))
  {
    Refill(c, Clear(s), s.live, now) == (true, s)
  }

  ghost predicate Midway(c: Config, s: State, now: int) {
    && Inv(c, s) && Shape(s) && !c.recycleValid && s.segments >= c.maxSegments
    && AllValid(s.live, now) && Shape(Clear(s)) && Refilled(c, s, now)
  }

  /** Entries that may follow: not expired, of admitted lengths, with new keys, and not too many. */
  ghost predicate MayFollow(c: Config, s: State, rest: seq<Entry>, now: int) {
    AllValid(rest, now) && Sized(c, rest) && UniqueKeys(s.live + rest) && |s.live| + |rest| <= c.maxKeyCount
  }

  /** The set of the next entry, if the walk finds room for it. */
  lemma NextFits(c: Config, s: State, rest: seq<Entry>, now: int)
    requires Midway(c, s, now) && MayFollow(c, s, rest, now) && rest != [] && c.perSegment > 0
    requires DoAlloc(c, s, EntrySize(|rest[0].key|, |rest[0].value.data|), now).0.Place?
    ensures var (p, t) := DoAlloc(c, s, EntrySize(|rest[0].key|, |rest[0].value.data|), now);
            && Shape(t) && 0 <= p.striping < |t.st|
            && var u := Install(t, p, rest[0].key, rest[0].value);
            Set(c, s, rest[0].key, rest[0].value, now) == (OK, u) && Midway(c, u, now) && MayFollow(c, u, rest[1..], now)
  {
    hide Inv, Midway, MayFollow, Shape, DoAlloc, Install, Reinsert, Refilled;
    var key, value, size := rest[0].key, rest[0].value, EntrySize(|rest[0].key|, |rest[0].value.data|);
    MidwayFacts(c, s, rest, now);
    DoAllocShape(c, s, size, now);
    var (p, t) := DoAlloc(c, s, size, now);
    SetKeeps(c, s, key, value, now);
    NextIs(c, s, key, value, now);
    var u := Install(t, p, key, value);
    InstallShape(t, p, key, value);
    DoAllocPlaces(c, s, size, now);
    InstallPlaces(t, p, key, value);
    InstallLive(t, p, key, value);
    NextFollows(c, s, u, rest, now);
    StillRefilled(c, s, u, rest[0], now);
    NextMidway(c, s, u, now);
  }

  lemma MidwayFacts(c: Config, s: State, rest: seq<Entry>, now: int)
    requires Midway(c, s, now) && MayFollow(c, s, rest, now) && rest != []
    ensures Inv(c, s) && Shape(s) && InRange(s.doing, |s.st|) && Shape(Clear(s)) && !c.recycleValid && s.segments >= c.maxSegments
    ensures s.count < c.maxKeyCount && |rest[0].key| <= MAX_KEY_SIZE && |rest[0].value.data| <= c.maxValueSize
    ensures AllValid(s.live, now) && UniqueKeys(s.live) && Refilled(c, s, now)
  {
  }

  lemma NextIs(c: Config, s: State, key: Bytes, value: Value, now: int)
    requires c.perSegment > 0 && Shape(s) && s.count < c.maxKeyCount && |key| <= MAX_KEY_SIZE && |value.data| <= c.maxValueSize
    ensures InRange(s.doing, |s.st|)
    ensures var size := EntrySize(|key|, |value.data|); var (p, t) := DoAlloc(c, s, size, now);
            && Shape(t) && (p.Place? ==> 0 <= p.striping < |t.st| && Set(c, s, key, value, now) == (OK, Install(t, p, key, value)))
            && (Alloc(c, s, size, now).0.NoPlace? ==> Set(c, s, key, value, now).0 != OK)
  {
    hide DoAlloc, Install, MakeRoom;
    DoAllocShape(c, s, EntrySize(|key|, |value.data|), now);
    var a := Alloc(c, s, EntrySize(|key|, |value.data|), now);
  }

  /** The list after the next entry has been put in. */
  lemma NextFollows(c: Config, s: State, u: State, rest: seq<Entry>, now: int)
    requires MayFollow(c, s, rest, now) && rest != [] && AllValid(s.live, now)
    requires |u.live| > 0 && u.live[..|u.live| - 1] == Drop(s.live, rest[0].key) && SameRow(u.live[|u.live| - 1], rest[0])
    ensures MayFollow(c, u, rest[1..], now) && AllValid(u.live, now)
    ensures u.live == s.live + [u.live[|u.live| - 1]]
  {
    hide AllValid, UniqueKeys;
    RowsRefl(s.live);
    AppendRows(s.live, s.live, u.live, rest, now);
    KeyAbsent(s.live, rest);
    FindNone(s.live, rest[0].key);
    assert Sized(c, rest[1..]) by {
      forall k | 0 <= k < |rest[1..]| ensures rest[1..][k] == rest[k + 1] { }
    }
  }

  lemma KeyAbsent(live: seq<Entry>, rest: seq<Entry>)
    requires UniqueKeys(live + rest) && rest != []
    ensures forall k :: 0 <= k < |live| ==> live[k].key != rest[0].key
  {
    var all := live + rest;
    assert all[|live|] == rest[0];
    forall k | 0 <= k < |live| ensures live[k].key != rest[0].key { assert all[k] == live[k]; }
  }

  lemma StillRefilled(c: Config, s: State, u: State, e: Entry, now: int)
    requires Shape(s) && Shape(Clear(s)) && Refilled(c, s, now) && InRange(s.doing, |s.st|)
    requires |u.live| > 0 && u.live == s.live + [u.live[|u.live| - 1]] && SameRow(u.live[|u.live| - 1], e)
    requires var (p, t) := DoAlloc(c, s, EntrySize(|e.key|, |e.value.data|), now);
             p.Place? && Shape(t) && 0 <= p.striping < |t.st| && u == Install(t, p, e.key, e.value)
    requires SamePlaces(s.st, u.st) && s.segments == u.segments && s.alloced == u.alloced
    ensures Shape(Clear(u)) && Refilled(c, u, now)
  {
    hide Shape, DoAlloc, Install, Clear;
    var last := u.live[|u.live| - 1];
    SameClear(s, u);
    RefillAppend(c, Clear(s), s.live, [last], now);
    assert [last][1..] == [];
    InstallShape(DoAlloc(c, s, EntrySize(|e.key|, |e.value.data|), now).1, DoAlloc(c, s, EntrySize(|e.key|, |e.value.data|), now).0, e.key, e.value);
    assert Refill(c, u, [], now) == (true, u);
  }

  lemma NextMidway(c: Config, s: State, u: State, now: int)
    requires Midway(c, s, now) && Inv(c, u) && Shape(u) && u.segments == s.segments
    requires AllValid(u.live, now) && Shape(Clear(u)) && Refilled(c, u, now)
    ensures Midway(c, u, now)
  {
  }

  /** An allocation that finds no room midway fails, although it rearranges: that only comes back to the same state. */
  lemma NextFails(c: Config, s: State, size: int, now: int)
    requires Midway(c, s, now) && c.perSegment > 0 && size > 0 && InRange(s.doing, |s.st|)
    requires DoAlloc(c, s, size, now).0.NoPlace?
    requires Reinsert(c, Clear(s), s.live, now).0 == OK ==> Reinsert(c, Clear(s), s.live, now).1 == s
    ensures Alloc(c, s, size, now).0.NoPlace?
  {
    hide Inv, DoAlloc, RecycleFrom, Reinsert, Clear, Refilled;
    DoAllocShape(c, s, size, now);
    DoAllocPlaces(c, s, size, now);
    var t := DoAlloc(c, s, size, now).1;
    RecyclesNothing(c, t, now, -1, 0, 0);
    UnexpiredAll(t.live, now);
    SameClear(s, t);
    var (r, u) := MakeRoom(c, t, now);
    assert Recycle(c, t, now, -1) == (ENOMEM, t);
    assert (r, u) == Rearrange(c, t, now);
    if !TooFull(c, t) { assert r == OK ==> u == s; }
  }

  /** Reinserting succeeds exactly if every entry in turn finds room in the walk, and then that is all it does. */
  lemma ReinsertRefills(c: Config, s: State, rest: seq<Entry>, now: int)
    requires Midway(c, s, now) && MayFollow(c, s, rest, now) && c.perSegment > 0
    ensures var (ok, t) := Refill(c, s, rest, now);
            (Reinsert(c, s, rest, now).0 == OK <==> ok) && (ok ==> Reinsert(c, s, rest, now) == (OK, t))
    decreases |s.live| + |rest|, |rest|
  {
    hide Inv, MayFollow, Shape, DoAlloc, Install, Clear, Set;
    if rest != [] {
      MidwayFacts(c, s, rest, now);
      var size := EntrySize(|rest[0].key|, |rest[0].value.data|);
      NextIs(c, s, rest[0].key, rest[0].value, now);
      var (p, t) := DoAlloc(c, s, size, now);
      if p.Place? {
        NextFits(c, s, rest, now);
        ReinsertRefills(c, Install(t, p, rest[0].key, rest[0].value), rest[1..], now);
      } else {
        FromTheStart(c, s, rest, now);
        ReinsertRefills(c, Clear(s), s.live, now);
        NextFails(c, s, size, now);
      }
    }
  }

  /** The entries put in so far may be put in again. */
  lemma FromTheStart(c: Config, s: State, rest: seq<Entry>, now: int)
    requires Midway(c, s, now) && MayFollow(c, s, rest, now)
    ensures Midway(c, Clear(s), now) && MayFollow(c, Clear(s), s.live, now)
    ensures Clear(s).live == [] && Refill(c, Clear(s), s.live, now) == (true, s)
  {
    hide Shape, Layout, Inside, Disjoint, Accounted, Queues, Counted;
    ClearMidway(c, s, now);
    assert [] + s.live == s.live;
  }

  lemma ClearMidway(c: Config, s: State, now: int)
    requires Inv(c, s) && !c.recycleValid && s.segments >= c.maxSegments
    ensures Midway(c, Clear(s), now)
  {
    hide Inv, Shape;
    ClearKeeps(c, s);
    ClearShape(s);
    ClearTwice(s);
    NoneLive(now);
    assert Refill(c, Clear(s), [], now) == (true, Clear(s));
  }

  /** Exactly when a rearrangement succeeds: enough memory is free, and every unexpired entry in turn finds room in the walk. */
  lemma RearrangeExactly(c: Config, s: State, now: int)
    requires c.perSegment > 0 && Inv(c, s) && Shape(s) && !c.recycleValid && s.segments >= c.maxSegments
    requires |Unexpired(s.live, now)| <= c.maxKeyCount
    ensures Shape(Clear(s))
    ensures var (ok, t) := Refill(c, Clear(s), Unexpired(s.live, now), now);
            && (Rearrange(c, s, now).0 == OK <==>
                  ok && s.alloced - s.usedEntry >= MAX_KEY_SIZE + c.maxValueSize + |s.st| * c.discardSize + c.stripingSize)
            && (Rearrange(c, s, now).0 == OK ==> Rearrange(c, s, now).1 == t)
  {
    hide Inv, Shape, Clear, Reinsert, Refill;
    ClearShape(s);
    ClearMidway(c, s, now);
    UnexpiredFollow(c, s, now);
    ReinsertRefills(c, Clear(s), Unexpired(s.live, now), now);
    var r := Reinsert(c, Clear(s), Unexpired(s.live, now), now);
  }

  lemma UnexpiredFollow(c: Config, s: State, now: int)
    requires Inv(c, s) && |Unexpired(s.live, now)| <= c.maxKeyCount
    ensures MayFollow(c, Clear(s), Unexpired(s.live, now), now)
  {
    hide Layout, Inside, Disjoint, Accounted, Queues, Counted, OnlyExpired;
    var rest := Unexpired(s.live, now);
    RowsRefl(rest);
    UnexpiredIs(s.live, rest, now);
    ExpiredUnique(s.live, rest, now);
    UnexpiredSized(c, s.live, now);
    assert [] + rest == rest;
  }

  lemma {:induction false} UnexpiredSized(c: Config, s: seq<Entry>, now: int)
    requires Sized(c, s)
    ensures Sized(c, Unexpired(s, now))
  {
    if s != [] {
      assert Sized(c, s[1..]) by {
        forall k | 0 <= k < |s[1..]| ensures s[1..][k] == s[k + 1] { }
      }
      UnexpiredSized(c, s[1..], now);
      assert s[0].size == EntrySize(|s[0].key|, |s[0].value.data|);
    }
  }
}
