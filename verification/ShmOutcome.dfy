/** What a set leaves behind: which entries go, where the new one is put, and what it reports, told from the state before it. */
module ShmOutcome {
  import opened ShmModel
  import opened ShmInvariant
  import opened ShmEviction
  import opened ShmTheorems
  import opened ShmRecycling
  import opened ShmRearranging
  import opened ShmLiveness

  // ---------------------------------------------------------------- which entries an allocation leaves

  /** What recycling by striping leaves of the list. */
  ghost function AfterRecycling(c: Config, live: seq<Entry>, now: int): seq<Entry> {
    Scanned(c, live, now, 0, EndOf(c, live, now, 0))
  }

  /** Nothing goes while a queued striping has room or a segment is added instead. */
  ghost function AfterAlloc(c: Config, s: State, size: int, now: int): seq<Entry>
    requires Shape(s)
  {
    if HasRoom(s, size) || !Recycles(c, s, now) then s.live else AfterRecycling(c, s.live, now)
  }

  /** Is enough memory free to rearrange everything? */
  ghost predicate Spacious(c: Config, s: State, now: int) {
    s.alloced - Sum(Unexpired(s.live, now), SizeOf) >= MAX_KEY_SIZE + c.maxValueSize + |s.st| * c.discardSize + c.stripingSize
  }

  /** Does making room come to rearrange everything? */
  ghost predicate Desperate(c: Config, s: State, now: int) {
    !c.recycleValid && s.segments >= c.maxSegments && FirstClosing(c, s.live, now, 0) == |s.live| && Spacious(c, s, now)
  }

  /** What a rearrangement leaves: what recycling has left it, moved, or nothing if one entry does not find room. */
  ghost predicate Rearranged(c: Config, s: State, now: int, left: seq<Entry>) {
    ClearShape(s);
    if Refill(c, Clear(s), Unexpired(s.live, now), now).0 then SameRows(left, AfterRecycling(c, s.live, now)) else left == []
  }

  lemma RecycledLive(c: Config, s: State, now: int, once: int)
    requires Inv(c, s) && Shape(s) && once <= 0
    ensures var (r, t) := Recycle(c, s, now, once);
            t.live == AfterRecycling(c, s.live, now) && (r == OK <==> FirstClosing(c, s.live, now, 0) < |s.live|)
  {
    hide Inv, Shape, RecycleFrom, Closes, Scanned, Emptied, NoneEmptied, Evictable;
    RecycleEmpties(c, s, now, once, 0, 0);
  }

  /** Which entries are left after making room: all if a segment is added at once, and otherwise what recycling or rearranging
      leaves. */
  lemma MakeRoomLeaves(c: Config, s: State, now: int)
    requires c.perSegment > 0 && Inv(c, s) && Shape(s) && (c.recycleValid || s.count <= c.maxKeyCount)
    ensures var t := MakeRoom(c, s, now).1;
            if s.segments < c.maxSegments && !Aged(c, s, now) then t.live == s.live
            else if Desperate(c, s, now) then Rearranged(c, s, now, t.live)
            else t.live == AfterRecycling(c, s.live, now)
  {
    hide Inv, Shape, RecycleFrom, Rearrange, Aged, Spacious, Rearranged, AfterRecycling;
    if s.segments < c.maxSegments && !Aged(c, s, now) {
      CreateShape(c, s);
    } else {
      RecycledLive(c, s, now, -1);
      RecycleShape(c, s, now, -1, 0, 0);
      var (r, u) := Recycle(c, s, now, -1);
      if r != OK && !c.recycleValid {
        if u.segments < c.maxSegments { CreateShape(c, u); } else { LastResort(c, s, now); }
      }
    }
  }

  lemma LastResort(c: Config, s: State, now: int)
    requires c.perSegment > 0 && Inv(c, s) && Shape(s) && !c.recycleValid && s.count <= c.maxKeyCount && s.segments >= c.maxSegments
    requires Recycle(c, s, now, -1).0 != OK
    ensures Shape(Recycle(c, s, now, -1).1)
    ensures var t := Rearrange(c, Recycle(c, s, now, -1).1, now).1;
            if Spacious(c, s, now) then Rearranged(c, s, now, t.live) else t.live == AfterRecycling(c, s.live, now)
  {
    hide Inv, Shape, RecycleFrom, Rearrange, Refill, Clear, SameRows, OnlyExpired, UniqueKeys, AfterRecycling;
    NothingRecycled(c, s, now);
    RecycledLive(c, s, now, -1);
    CountIs(c, s);
    var u := Recycle(c, s, now, -1).1;
    KeysUnique(c, u);
    RearrangeExactly(c, u, now);
    RearrangeRows(c, u, now);
    SameClear(s, u);
    FullOrNot(c, s, u, now);
  }

  lemma FullOrNot(c: Config, s: State, u: State, now: int)
    requires u.alloced == s.alloced && |u.st| == |s.st| && u.usedEntry == Sum(Unexpired(s.live, now), SizeOf)
    ensures TooFull(c, u) <==> !Spacious(c, s, now)
  {
  }

  lemma KeysUnique(c: Config, s: State)
    requires Inv(c, s)
    ensures UniqueKeys(s.live)
  {
  }

  /** Which entries an allocation leaves, exactly. */
  ghost predicate LeftByAlloc(c: Config, s: State, size: int, now: int, left: seq<Entry>)
    requires Shape(s)
  {
    if !HasRoom(s, size) && Desperate(c, s, now) then Rearranged(c, s, now, left) else left == AfterAlloc(c, s, size, now)
  }

  lemma AllocLeaves(c: Config, s: State, size: int, now: int)
    requires c.perSegment > 0 && Inv(c, s) && Shape(s) && size > 0 && (c.recycleValid || s.count <= c.maxKeyCount)
    ensures LeftByAlloc(c, s, size, now, Alloc(c, s, size, now).1.live)
  {
    hide Inv, Shape, DoAlloc, MakeRoom, HasRoom, Recycles, Aged, AfterRecycling, Spacious, Rearranged;
    DoAllocShape(c, s, size, now);
    AllocRoom(c, s, size, now);
    if !HasRoom(s, size) {
      DoAllocFails(c, s, size, now);
      var t := DoAlloc(c, s, size, now).1;
      MakeRoomLeaves(c, t, now);
      SameChoice(c, s, t, now);
      DoAllocShape(c, MakeRoom(c, t, now).1, size, now);
    }
  }

  lemma SameChoice(c: Config, s: State, t: State, now: int)
    requires SamePlaces(s.st, t.st) && s.segments == t.segments && s.alloced == t.alloced && s.live == t.live
    ensures Desperate(c, s, now) <==> Desperate(c, t, now)
    ensures forall left :: Rearranged(c, s, now, left) <==> Rearranged(c, t, now, left)
  {
    hide Clear, Refill, FirstClosing, AfterRecycling, SameRows;
    SameClear(s, t);
  }

  // ---------------------------------------------------------------- which entries a set leaves

  /** The list without the first n entries that may go. */
  function WithoutFirst(c: Config, live: seq<Entry>, now: int, n: nat): seq<Entry> {
    if live == [] || n == 0 then live
    else if Evictable(c, live[0], now) then WithoutFirst(c, live[1..], now, n - 1)
    else [live[0]] + WithoutFirst(c, live[1..], now, n)
  }

  /** Recycling by number takes the first entries that may go, as many as asked for, or all there are. */
  lemma {:induction false} QuotaLeaves(c: Config, s: State, now: int, once: int, k: nat, cleared: nat)
    requires Shape(s) && k <= |s.live| && once > cleared
    ensures RecycleFrom(c, s, now, once, k, cleared).1.live == s.live[..k] + WithoutFirst(c, s.live[k..], now, once - cleared)
    decreases |s.live| - k
  {
    hide FreeAt, Shape;
    if k == |s.live| {
      assert s.live[..k] + s.live[k..] == s.live;
    } else {
      assert s.live[k..][0] == s.live[k] && s.live[k..][1..] == s.live[k + 1..];
      EvictableIs(c, s.live[k], now);
      if IsValid(s.live[k], now) && !c.recycleValid {
        QuotaLeaves(c, s, now, once, k + 1, cleared);
        assert s.live[..k + 1] == s.live[..k] + [s.live[k]];
      } else {
        FreeIndex(s, k);
        FreeShape(s, k);
        var r := Without(s.live, k);
        assert r[..k] == s.live[..k] && r[k..] == s.live[k + 1..];
        if cleared + 1 < once {
          QuotaLeaves(c, FreeAt(s, k).0, now, once, k, cleared + 1);
        } else {
          assert r == s.live[..k] + s.live[k + 1..];
        }
      }
    }
  }

  /** The entries that are left after the key limit has been seen to. */
  ghost function AfterCount(c: Config, s: State, now: int): seq<Entry> {
    if s.count < c.maxKeyCount then s.live
    else if c.recycleKeyOnce > 0 then WithoutFirst(c, s.live, now, c.recycleKeyOnce)
    else AfterRecycling(c, s.live, now)
  }

  lemma CountLeaves(c: Config, s: State, now: int)
    requires Inv(c, s) && Shape(s)
    ensures SetRoom(c, s, now).1.live == AfterCount(c, s, now)
  {
    hide Inv, RecycleFrom, AfterRecycling;
    if s.count >= c.maxKeyCount {
      if c.recycleKeyOnce > 0 {
        QuotaLeaves(c, s, now, c.recycleKeyOnce, 0, 0);
        assert s.live[..0] + WithoutFirst(c, s.live[0..], now, c.recycleKeyOnce) == WithoutFirst(c, s.live, now, c.recycleKeyOnce) by {
          assert s.live[0..] == s.live;
        }
      } else {
        RecycledLive(c, s, now, c.recycleKeyOnce);
      }
    }
  }

  /** Which entries a set leaves, exactly: those the key limit and then the allocation leave, without the key's old one and with the
      new one behind them if it succeeds. */
  lemma SetLeaves(c: Config, s: State, key: Bytes, value: Value, now: int) returns (kept: seq<Entry>)
    requires c.perSegment > 0 && Inv(c, s) && Shape(s) && (c.recycleValid || s.count <= c.maxKeyCount)
    ensures Shape(SetRoom(c, s, now).1) && SetRoom(c, s, now).1.live == AfterCount(c, s, now)
    ensures if |key| > MAX_KEY_SIZE || |value.data| > c.maxValueSize then kept == s.live
            else if !CountWorks(c, s, now) then kept == AfterCount(c, s, now)
            else LeftByAlloc(c, SetRoom(c, s, now).1, EntrySize(|key|, |value.data|), now, kept)
    ensures var (r, t) := Set(c, s, key, value, now);
            if r != OK then t.live == kept
            else |t.live| > 0 && t.live[..|t.live| - 1] == Drop(kept, key)
                 && t.live[|t.live| - 1].key == key && t.live[|t.live| - 1].value == value
  {
    hide Inv, Shape, SetRoom, Alloc, CountWorks, Install, LeftByAlloc, AfterCount;
    SetRoomShape(c, s, now);
    SetRoomKeeps(c, s, now);
    CountExactly(c, s, now);
    CountLeaves(c, s, now);
    if !c.recycleValid { RoomCount(c, s, now); }
    kept := s.live;
    if |key| <= MAX_KEY_SIZE && |value.data| <= c.maxValueSize {
      var (r, s1) := SetRoom(c, s, now);
      kept := s1.live;
      if r == OK {
        var size := EntrySize(|key|, |value.data|);
        AllocLeaves(c, s1, size, now);
        var (p, s2) := Alloc(c, s1, size, now);
        kept := s2.live;
        if p.Place? { InstallLive(s2, p, key, value); }
      }
    }
  }

  /** So a set below the key limit leaves every other entry alone, in its place, if a queued striping has room or a segment may be
      added and the oldest done striping has not aged. */
  lemma SetKeepsOthers(c: Config, s: State, key: Bytes, value: Value, now: int, other: Bytes)
    requires c.perSegment > 0 && Inv(c, s) && Shape(s) && s.count < c.maxKeyCount && other != key
    requires HasRoom(s, EntrySize(|key|, |value.data|)) || !Recycles(c, s, now)
    ensures var (r, t) := Set(c, s, key, value, now);
            && Lookup(t.live, other) == Lookup(s.live, other)
            && (if r != OK then t.live == s.live else |t.live| > 0 && t.live[..|t.live| - 1] == Drop(s.live, key))
  {
    hide Inv, Shape, HasRoom, Recycles, Set, Drop, Lookup, Rearranged, AfterRecycling, UniqueKeys, CountWorks, Desperate, SetRoom;
    BelowLimit(c, s, now);
    var kept := SetLeaves(c, s, key, value, now);
    if !Recycles(c, s, now) { NotDesperate(c, s, now); }
    KeysUnique(c, s);
    DropLookup(s.live, key, other);
    var (r, t) := Set(c, s, key, value, now);
    if r == OK {
      var e := t.live[|t.live| - 1];
      assert t.live == t.live[..|t.live| - 1] + [e];
      AppendLookup(Drop(s.live, key), e, other);
    }
  }

  lemma BelowLimit(c: Config, s: State, now: int)
    requires Shape(s) && s.count < c.maxKeyCount
    ensures CountWorks(c, s, now) && SetRoom(c, s, now) == (OK, s)
  {
  }

  lemma NotDesperate(c: Config, s: State, now: int)
    requires Shape(s) && !Recycles(c, s, now)
    ensures !Desperate(c, s, now)
  {
  }

  // ---------------------------------------------------------------- where an allocation puts its entry

  /** An allocation attempt, exactly: the first striping of the doing queue with room takes the entry behind everything in it; the
      stripings before it, or all if there is none, count a failure and leave the queue if they are exhausted. */
  lemma DoAllocExactly(c: Config, s: State, size: int, now: int)
    requires Inv(c, s) && Shape(s) && size > 0
    ensures var (p, t) := DoAlloc(c, s, size, now); var v := Visited(s.st, s.doing, size);
            && InRange(s.doing[..v], |s.st|)
            && (if v < |s.doing| then
                  var i := s.doing[v];
                  p == Place(s.st[i].segment, i, s.st[i].free, size)
                else p == NoPlace)
            && |t.st| == |s.st| && Effects(s.st, t.st, s.doing, v, size, now)
            && t.doing == Parted(c, s.st, s.doing[..v], false) + s.doing[v..]
            && t.done == s.done + Moved(c, s.st, s.doing[..v], false)
            && t.usedEntry == s.usedEntry + (if p.Place? then size else 0)
            && t == s.(st := t.st, doing := t.doing, done := t.done, usedEntry := t.usedEntry)
  {
    hide Inv, Walk, Parted, Moved, Effects, NoDup;
    DistinctQueue(c, s);
    WalkParts(c, s.st, [], s.doing, s.done, size, now);
    WalkEffects(c, s.st, [], s.doing, s.done, size, now);
    var none: seq<int> := [];
    var parted := Parted(c, s.st, s.doing[..Visited(s.st, s.doing, size)], false);
    assert none + parted == parted;
  }

  lemma DistinctQueue(c: Config, s: State)
    requires Inv(c, s)
    ensures NoDup(s.doing)
  {
  }

  lemma FirstRoom(s: State, size: int, k: nat)
    requires InRange(s.doing, |s.st|) && k < |s.doing| && Fits(s.st[s.doing[k]], size)
    requires forall j :: 0 <= j < k ==> !Fits(s.st[s.doing[j]], size)
    ensures Visited(s.st, s.doing, size) == k
  {
  }

  /** What growing adds: the stripings of one more segment, new, one after the other, queued behind all others. */
  lemma GrownExactly(c: Config, s: State)
    requires c.perSegment > 0 && s.segments < c.maxSegments
    ensures var (r, t) := CreateSegment(c, s); var n := |s.st|; var q := |s.doing|;
            && r == OK && t.segments == s.segments + 1 && t.alloced == s.alloced + c.segmentSize
            && |t.st| == n + c.perSegment && t.st[..n] == s.st && |t.doing| == q + c.perSegment && t.doing[..q] == s.doing
            && (forall k :: q <= k < q + c.perSegment ==> t.doing[k] == n + (k - q))
            && (forall k :: n <= k < n + c.perSegment ==>
                  var at := (k - n) * c.stripingSize;
                  t.st[k] == Striping(0, 0, false, s.segments, 0, at, at, at + c.stripingSize))
            && t == s.(st := t.st, doing := t.doing, segments := t.segments, alloced := t.alloced)
  {
  }

  /** After growing, the new segment's first striping takes the entry, if nothing had room before. */
  lemma GrownPlace(c: Config, s: State, size: int, now: int)
    requires Inv(c, s) && Shape(s) && 0 < size <= c.stripingSize && s.segments < c.maxSegments && !HasRoom(s, size)
    ensures c.perSegment > 0 && Shape(CreateSegment(c, s).1)
    ensures DoAlloc(c, CreateSegment(c, s).1, size, now).0 == Place(s.segments, |s.st|, 0, size)
  {
    hide Inv, DoAlloc, Effects, Parted, Moved;
    InvSegment(c, s);
    CreateKeeps(c, s);
    CreateShape(c, s);
    var t := CreateSegment(c, s).1;
    var k := |s.doing|;
    assert t.doing[k] == |s.st|;
    assert t.st[|s.st|] == FreshStriping(c, s.segments, 0);
    forall j | 0 <= j < k ensures !Fits(t.st[t.doing[j]], size) { assert t.doing[j] == s.doing[j]; }
    FirstRoom(t, size, k);
    DoAllocExactly(c, t, size, now);
  }

  /** After recycling, the emptied striping takes the entry at its base, if nothing had room before. */
  lemma RecycledPlace(c: Config, s: State, now: int, size: int)
    requires Inv(c, s) && Shape(s) && 0 < size <= c.stripingSize && !HasRoom(s, size)
    requires Recycle(c, s, now, -1).0 == OK
    ensures Shape(Recycle(c, s, now, -1).1)
    ensures var p := DoAlloc(c, Recycle(c, s, now, -1).1, size, now).0; var m := FirstClosing(c, s.live, now, 0);
            && m < |s.live| && 0 <= s.live[m].striping < |s.st|
            && (p.Place? ==> var i := s.live[m].striping; p == Place(s.st[i].segment, i, s.st[i].base, size))
  {
    hide Inv, DoAlloc, Effects, Parted, Moved, RecycleFrom, Closes, Emptied;
    RecycleEmpties(c, s, now, -1, 0, 0);
    RecycleShape(c, s, now, -1, 0, 0);
    RecycleInv(c, s, now, -1);
    var t := Recycle(c, s, now, -1).1;
    var i := s.live[FirstClosing(c, s.live, now, 0)].striping;
    DoAllocExactly(c, t, size, now);
    OnlyRoom(s, t, i, size);
  }

  lemma OnlyRoom(s: State, t: State, i: int, size: int)
    requires Shape(s) && Shape(t) && Emptied(s, t, i) && !HasRoom(s, size)
    ensures t.st[i].segment == s.st[i].segment && t.st[i].free == s.st[i].base
    ensures forall k :: 0 <= k < |t.doing| && Fits(t.st[t.doing[k]], size) ==> t.doing[k] == i
  {
    forall k | 0 <= k < |t.doing| && Fits(t.st[t.doing[k]], size) ensures t.doing[k] == i {
      if k < |s.doing| { assert s.doing[k] == t.doing[k] && !Fits(s.st[s.doing[k]], size); }
    }
  }

  /** Where an entry is put, told from the state before: behind what is in the first queued striping with room; else, if a segment
      is added, at its start; else at the start of the striping that recycling empties. */
  lemma AllocPlaces(c: Config, s: State, size: int, now: int)
    requires c.perSegment > 0 && Inv(c, s) && Shape(s) && size > 0 && Alloc(c, s, size, now).0.Place?
    ensures var p := Alloc(c, s, size, now).0; var v := Visited(s.st, s.doing, size);
            var m := FirstClosing(c, s.live, now, 0);
            if HasRoom(s, size) then
              v < |s.doing| && p == Place(s.st[s.doing[v]].segment, s.doing[v], s.st[s.doing[v]].free, size)
            else if !Recycles(c, s, now) then p == Place(s.segments, |s.st|, 0, size)
            else if m < |s.live| then
              0 <= s.live[m].striping < |s.st|
              && p == Place(s.st[s.live[m].striping].segment, s.live[m].striping, s.st[s.live[m].striping].base, size)
            else s.segments < c.maxSegments ==> p == Place(s.segments, |s.st|, 0, size)
  {
    hide Inv, DoAlloc, HasRoom, Recycles, Aged, RecycleFrom, Closes, Effects, Parted, Moved, Rearrange, Emptied, NoneEmptied, Scanned;
    DoAllocShape(c, s, size, now);
    AllocRoom(c, s, size, now);
    if HasRoom(s, size) {
      DoAllocExactly(c, s, size, now);
    } else {
      NotTooLarge(c, s, size, now);
      DoAllocFails(c, s, size, now);
      var t := DoAlloc(c, s, size, now).1;
      if s.segments < c.maxSegments && !Aged(c, t, now) {
        GrownPlace(c, t, size, now);
      } else {
        RecycleEmpties(c, t, now, -1, 0, 0);
        RecycleInv(c, t, now, -1);
        RecycleShape(c, t, now, -1, 0, 0);
        var (r, u) := Recycle(c, t, now, -1);
        if r == OK {
          RecycledPlace(c, t, now, size);
        } else if u.segments < c.maxSegments {
          SameRoom(t, u, size);
          GrownPlace(c, u, size, now);
          SamePlacesLength(t, u);
        }
      }
    }
  }

  lemma NotTooLarge(c: Config, s: State, size: int, now: int)
    requires c.perSegment > 0 && Inv(c, s) && Shape(s) && size > 0 && !HasRoom(s, size) && Alloc(c, s, size, now).0.Place?
    ensures size <= c.stripingSize
  {
    hide Inv, Shape, DoAlloc, HasRoom, MakeRoom, Recycles, StaysQueued;
    if size > c.stripingSize {
      DoAllocShape(c, s, size, now);
      AllocRoom(c, s, size, now);
      DoAllocFails(c, s, size, now);
      StaysTooLarge(c, DoAlloc(c, s, size, now).1, size, now);
    }
  }

  lemma SamePlacesLength(s: State, t: State)
    requires NoneEmptied(s, t)
    ensures |s.st| == |t.st| && s.segments == t.segments
  {
  }

  // ---------------------------------------------------------------- what a set reports

  /** What a set reports: the lengths come first and change nothing, and all other failures are ENOMEM. */
  lemma SetReports(c: Config, s: State, key: Bytes, value: Value, now: int)
    requires c.perSegment > 0 && Inv(c, s) && Shape(s)
    ensures var (r, t) := Set(c, s, key, value, now);
            && (|key| > MAX_KEY_SIZE ==> (r, t) == (ENAMETOOLONG, s))
            && (|key| <= MAX_KEY_SIZE && |value.data| > c.maxValueSize ==> (r, t) == (EINVAL, s))
            && (|key| <= MAX_KEY_SIZE && |value.data| <= c.maxValueSize ==> r == OK || r == ENOMEM)
  {
    hide Inv, Shape, RecycleFrom, Alloc, Install;
    SetRoomShape(c, s, now);
    RecycleReports(c, s, now, c.recycleKeyOnce, 0, 0);
  }

  lemma {:induction false} RecycleReports(c: Config, s: State, now: int, once: int, k: nat, cleared: nat)
    requires Shape(s) && k <= |s.live|
    ensures RecycleFrom(c, s, now, once, k, cleared).0 == OK || RecycleFrom(c, s, now, once, k, cleared).0 == ENOMEM
    decreases |s.live| - k
  {
    hide FreeAt, Shape;
    if k < |s.live| {
      FreeIndex(s, k);
      FreeShape(s, k);
      if IsValid(s.live[k], now) && !c.recycleValid {
        RecycleReports(c, s, now, once, k + 1, cleared);
      } else {
        RecycleReports(c, FreeAt(s, k).0, now, once, k, cleared + 1);
      }
    }
  }

  /** An entry takes its header, its key and its value, each filled up to the next multiple of eight. */
  lemma EntrySizeExactly(keyLen: nat, valueLen: nat)
    ensures exists k: nat, v: nat :: EntrySize(keyLen, valueLen) == 64 + 8 * k + 8 * v
              && 8 * k - 8 < keyLen <= 8 * k && 8 * v - 8 < valueLen <= 8 * v
  {
    var k, v := (keyLen + 7) / 8, (valueLen + 7) / 8;
    assert EntrySize(keyLen, valueLen) == 64 + 8 * k + 8 * v;
  }
}
