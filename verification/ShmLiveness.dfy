/** When allocations and sets succeed: exact conditions on the state before them, for the removal from a queue as coded and as
    documented, and what they come to when removal works as documented. */
module ShmLiveness {
  import opened ShmModel
  import opened ShmInvariant
  import opened ShmEviction
  import opened ShmTheorems
  import opened ShmRecycling
  import opened ShmRearranging

  // ---------------------------------------------------------------- allocation

  /** The done queue after an allocation attempt that found no room. */
  ghost function DoneAfter(c: Config, s: State): seq<int>
    requires Shape(s)
  {
    s.done + Moved(c, s.st, s.doing, false)
  }

  /** Is this striping in a queue after an allocation attempt that found no room? */
  ghost predicate StaysQueued(c: Config, s: State, i: int)
    requires Shape(s)
  {
    i in Parted(c, s.st, s.doing, false) || i in DoneAfter(c, s)
  }

  /** Will such an attempt be followed by recycling, rather than by another segment? */
  ghost predicate Recycles(c: Config, s: State, now: int)
    requires Shape(s)
  {
    || s.segments >= c.maxSegments
    || var d := DoneAfter(c, s);
       d != [] && c.avgKeyTtl > 0 && 0 <= d[0] < |s.st| && now - s.st[d[0]].lastAlloc >= c.avgKeyTtl
  }

  /** Will rearranging make room? Enough memory must be free, every unexpired entry in turn must find room in the cleared cache,
      and room must be left. */
  ghost predicate RearrangeWorks(c: Config, s: State, size: int, now: int) {
    ClearShape(s);
    RefillShape(c, Clear(s), Unexpired(s.live, now), now);
    var (ok, t) := Refill(c, Clear(s), Unexpired(s.live, now), now);
    && s.alloced - Sum(Unexpired(s.live, now), SizeOf)
         >= MAX_KEY_SIZE + c.maxValueSize + |s.st| * c.discardSize + c.stripingSize
    && ok && HasRoom(t, size)
  }

  /** Will an allocation succeed? Told from the state before it. */
  ghost predicate AllocWorks(c: Config, s: State, size: int, now: int)
    requires Shape(s)
  {
    && size <= c.stripingSize
    && (HasRoom(s, size)
        || if Recycles(c, s, now) then
             var m := FirstClosing(c, s.live, now, 0);
             if m < |s.live| then StaysQueued(c, s, s.live[m].striping)
             else !c.recycleValid && (s.segments < c.maxSegments || RearrangeWorks(c, s, size, now))
           else true)
  }

  /** No striping takes more than its size. */
  lemma TooLarge(c: Config, s: State, size: int)
    requires Inv(c, s) && Shape(s) && size > c.stripingSize
    ensures !HasRoom(s, size)
  {
    hide Queues, UniqueKeys, Sized, Counted, Disjoint, Inside;
    forall k | 0 <= k < |s.doing| ensures !Fits(s.st[s.doing[k]], size) { assert Filled(s.st[s.doing[k]]); }
  }

  lemma DoAllocInv(c: Config, s: State, size: int, now: int)
    requires Inv(c, s) && Shape(s) && size > 0
    ensures var (p, t) := DoAlloc(c, s, size, now);
            && t.live == s.live && t.segments == s.segments && t.count == s.count && (p.NoPlace? ==> Inv(c, t))
            && SamePlaces(s.st, t.st) && t.alloced == s.alloced
  {
    DoAllocKeeps(c, s, size, now);
    DoAllocPlaces(c, s, size, now);
  }

  lemma DoAllocFails(c: Config, s: State, size: int, now: int)
    requires Inv(c, s) && Shape(s) && size > 0 && !HasRoom(s, size)
    ensures var (p, t) := DoAlloc(c, s, size, now);
            && p.NoPlace? && Inv(c, t) && Shape(t) && t.live == s.live && t.segments == s.segments && t.count == s.count
            && SamePlaces(s.st, t.st) && t.alloced == s.alloced
            && (forall i :: Queued(t, i) <==> StaysQueued(c, s, i))
            && (s.segments >= c.maxSegments || Aged(c, t, now) <==> Recycles(c, s, now))
            && !HasRoom(t, size)
  {
    hide Inv, Walk, WouldLeave, Parted, Moved;
    AllocIff(c, s, size, now);
    InvQueues(c, s);
    DoAllocInv(c, s, size, now);
    DoAllocShape(c, s, size, now);
    FailedWalk(c, s.st, [], s.doing, s.done, size, now);
    FailedWalkKeeps(c, s.st, [], s.doing, s.done, size, now);
    var t := DoAlloc(c, s, size, now).1;
    var none: seq<int> := [];
    assert t.doing == Parted(c, s.st, s.doing, false) by { assert none + Parted(c, s.st, s.doing, false) == Parted(c, s.st, s.doing, false); }
    assert t.done == DoneAfter(c, s);
    PartedIn(c, s.st, s.doing, false);
    forall k | 0 <= k < |t.doing| ensures !Fits(t.st[t.doing[k]], size) {
      var j :| 0 <= j < |s.doing| && s.doing[j] == t.doing[k];
      assert !Fits(s.st[s.doing[j]], size);
    }
  }

  /** A new segment has room for anything up to a striping's size. */
  lemma CreateHasRoom(c: Config, s: State, size: int, now: int)
    requires Inv(c, s) && s.segments < c.maxSegments && 0 < size <= c.stripingSize
    ensures Inv(c, CreateSegment(c, s).1) && Shape(CreateSegment(c, s).1)
    ensures DoAlloc(c, CreateSegment(c, s).1, size, now).0.Place?
  {
    hide Inv, Shape, DoAlloc;
    CreateKeeps(c, s);
    InvSegment(c, s);
    var t := CreateSegment(c, s).1;
    CreatedShape(c, t);
    NewStripingFits(c, s, size);
    AllocIff(c, t, size, now);
  }

  lemma CreatedShape(c: Config, s: State)
    requires Inv(c, s)
    ensures Shape(s)
  {
    InvShape(c, s, []);
  }

  lemma NewStripingFits(c: Config, s: State, size: int)
    requires c.perSegment > 0 && s.segments < c.maxSegments && size <= c.stripingSize
    ensures var t := CreateSegment(c, s).1; var k := |s.doing|;
            k < |t.doing| && 0 <= t.doing[k] < |t.st| && Fits(t.st[t.doing[k]], size)
  {
    assert CreateSegment(c, s).1.doing[|s.doing|] == |s.st|;
  }

  /** Exactly when an allocation succeeds, with the removal from a queue as coded or as documented: a striping of the doing
      queue has room, or a segment may be added, or recycling empties a striping that the first attempt has left in a queue,
      or rearranging makes room. */
  lemma AllocSucceedsExactly(c: Config, s: State, size: int, now: int)
    requires c.perSegment > 0 && Inv(c, s) && Shape(s) && size > 0 && (c.recycleValid || s.count <= c.maxKeyCount)
    ensures Alloc(c, s, size, now).0.Place? <==> AllocWorks(c, s, size, now)
  {
    hide Inv, Shape, DoAlloc, HasRoom, Recycles, Recycle, StaysQueued, Queued, Aged, Closes, RearrangeWorks, MakeRoom;
    DoAllocShape(c, s, size, now);
    AllocRoom(c, s, size, now);
    if !HasRoom(s, size) {
      DoAllocFails(c, s, size, now);
      var t := DoAlloc(c, s, size, now).1;
      SameRearranging(c, s, t, size, now);
      if size > c.stripingSize { StaysTooLarge(c, t, size, now); } else { RoomMade(c, t, size, now); }
    } else if size > c.stripingSize {
      TooLarge(c, s, size);
    }
  }

  lemma SameRearranging(c: Config, s: State, t: State, size: int, now: int)
    requires SamePlaces(s.st, t.st) && s.segments == t.segments && s.alloced == t.alloced && s.live == t.live
    ensures RearrangeWorks(c, t, size, now) <==> RearrangeWorks(c, s, size, now)
  {
    hide Clear, Refill, HasRoom;
    SameClear(s, t);
  }

  lemma AllocRoom(c: Config, s: State, size: int, now: int)
    requires Inv(c, s) && Shape(s)
    ensures InRange(s.doing, |s.st|)
    ensures DoAlloc(c, s, size, now).0.Place? <==> HasRoom(s, size)
  {
    AllocIff(c, s, size, now);
  }

  lemma StaysTooLarge(c: Config, s: State, size: int, now: int)
    requires c.perSegment > 0 && Inv(c, s) && Shape(s) && size > c.stripingSize
    ensures Shape(MakeRoom(c, s, now).1)
    ensures DoAlloc(c, MakeRoom(c, s, now).1, size, now).0.NoPlace?
  {
    hide Inv, DoAlloc, MakeRoom;
    MakeRoomKeeps(c, s, now);
    TooLarge(c, MakeRoom(c, s, now).1, size);
    AllocRoom(c, MakeRoom(c, s, now).1, size, now);
  }

  /** Exactly when the attempt after making room succeeds. */
  lemma RoomMade(c: Config, s: State, size: int, now: int)
    requires c.perSegment > 0 && Inv(c, s) && Shape(s) && 0 < size <= c.stripingSize && !HasRoom(s, size)
    requires c.recycleValid || s.count <= c.maxKeyCount
    ensures var (r, t) := MakeRoom(c, s, now); var m := FirstClosing(c, s.live, now, 0);
            (r == OK && DoAlloc(c, t, size, now).0.Place?) <==>
              if s.segments >= c.maxSegments || Aged(c, s, now) then
                if m < |s.live| then Queued(s, s.live[m].striping)
                else !c.recycleValid && (s.segments < c.maxSegments || RearrangeWorks(c, s, size, now))
              else true
  {
    hide Inv, Shape, DoAlloc, HasRoom, RecycleFrom, Queued, Aged, Closes, RearrangeWorks, Rearrange;
    ShapeDoing(MakeRoom(c, s, now).1);
    if s.segments >= c.maxSegments || Aged(c, s, now) {
      RecycleThenAlloc(c, s, now, -1, size);
      RecycleSegments(c, s, now, -1);
      RecycleInv(c, s, now, -1);
      var (r, t) := Recycle(c, s, now, -1);
      if t.segments < c.maxSegments { CreateHasRoom(c, t, size, now); }
      else if r != OK && !c.recycleValid { RearrangedRoom(c, s, size, now); }
    } else {
      CreateHasRoom(c, s, size, now);
    }
  }

  lemma {:induction false} StayingUnexpired(c: Config, live: seq<Entry>, now: int)
    requires !c.recycleValid
    ensures Staying(c, live, now) == Unexpired(live, now)
  {
    if live != [] { StayingUnexpired(c, live[1..], now); }
  }

  /** The state in which rearranging starts: everything that has expired is gone. */
  lemma NothingRecycled(c: Config, s: State, now: int)
    requires Inv(c, s) && Shape(s) && !c.recycleValid && Recycle(c, s, now, -1).0 != OK
    ensures var t := Recycle(c, s, now, -1).1;
            && Inv(c, t) && Shape(t) && t.live == Unexpired(s.live, now) && t.alloced == s.alloced && t.segments == s.segments
            && SamePlaces(s.st, t.st) && t.usedEntry == Sum(t.live, SizeOf) && Unexpired(t.live, now) == t.live
  {
    hide Inv, Shape, RecycleFrom, Closes, SameRows;
    RecycleEmpties(c, s, now, -1, 0, 0);
    RecycleInv(c, s, now, -1);
    RecycleShape(c, s, now, -1, 0, 0);
    StayingUnexpired(c, s.live, now);
    var t := Recycle(c, s, now, -1).1;
    assert s.live[..0] + Staying(c, s.live[0..|s.live|], now) + s.live[|s.live|..] == Staying(c, s.live, now) by {
      assert s.live[0..|s.live|] == s.live;
    }
    UsedIs(c, t);
    RowsRefl(t.live);
    UnexpiredIs(s.live, t.live, now);
    UnexpiredAll(t.live, now);
  }

  lemma UsedIs(c: Config, s: State)
    requires Inv(c, s)
    ensures s.usedEntry == Sum(s.live, SizeOf)
  {
    assert s.live + [] == s.live;
  }

  lemma RearrangedRoom(c: Config, s: State, size: int, now: int)
    requires c.perSegment > 0 && Inv(c, s) && Shape(s) && !c.recycleValid && s.segments >= c.maxSegments
    requires Recycle(c, s, now, -1).0 != OK && s.count <= c.maxKeyCount
    ensures Shape(Recycle(c, s, now, -1).1)
    ensures var (r, t) := Rearrange(c, Recycle(c, s, now, -1).1, now);
            InRange(t.doing, |t.st|) && (r == OK && DoAlloc(c, t, size, now).0.Place? <==> RearrangeWorks(c, s, size, now))
  {
    hide Inv, Shape, RecycleFrom, DoAlloc, HasRoom, Rearrange, Refill, Clear;
    NothingRecycled(c, s, now);
    CountIs(c, s);
    var u := Recycle(c, s, now, -1).1;
    RearrangeExactly(c, u, now);
    SameClear(s, u);
    RearrangeKeeps(c, u, now);
    AllocRoom(c, Rearrange(c, u, now).1, size, now);
  }

  lemma CountIs(c: Config, s: State)
    requires Inv(c, s)
    ensures s.count == |s.live|
  {
  }

  lemma RecycleSegments(c: Config, s: State, now: int, once: int)
    requires Shape(s)
    ensures Recycle(c, s, now, once).1.segments == s.segments
  {
    RecycleShape(c, s, now, once, 0, 0);
  }

  // ---------------------------------------------------------------- sets

  /** How many entries may go. */
  function Evictables(c: Config, live: seq<Entry>, now: int): (n: nat)
    ensures n <= |live| && (c.recycleValid ==> n == |live|)
  {
    if live == [] then 0 else (if Evictable(c, live[0], now) then 1 else 0) + Evictables(c, live[1..], now)
  }

  /** Freeing a number of entries succeeds exactly if as many may go. */
  lemma {:induction false} RecycleQuota(c: Config, s: State, now: int, once: int, k: nat, cleared: nat)
    requires Shape(s) && k <= |s.live| && once > cleared
    ensures RecycleFrom(c, s, now, once, k, cleared).0 == OK <==> Evictables(c, s.live[k..], now) >= once - cleared
    decreases |s.live| - k
  {
    hide FreeAt, Shape;
    if k < |s.live| {
      assert s.live[k..][1..] == s.live[k + 1..];
      if IsValid(s.live[k], now) && !c.recycleValid {
        RecycleQuota(c, s, now, once, k + 1, cleared);
      } else {
        FreeIndex(s, k);
        FreeShape(s, k);
        assert Without(s.live, k)[k..] == s.live[k + 1..];
        if cleared + 1 < once { RecycleQuota(c, FreeAt(s, k).0, now, once, k, cleared + 1); }
      }
    }
  }

  /** Will a set find or make room for one more entry below the key limit? */
  ghost predicate CountWorks(c: Config, s: State, now: int) {
    || s.count < c.maxKeyCount
    || if c.recycleKeyOnce > 0 then Evictables(c, s.live, now) >= c.recycleKeyOnce
       else FirstClosing(c, s.live, now, 0) < |s.live|
  }

  lemma CountExactly(c: Config, s: State, now: int)
    requires Inv(c, s) && Shape(s)
    ensures SetRoom(c, s, now).0 == OK <==> CountWorks(c, s, now)
  {
    hide Inv, RecycleFrom, FirstClosing, Emptied, NoneEmptied;
    assert s.live[0..] == s.live;
    if c.recycleKeyOnce > 0 { RecycleQuota(c, s, now, c.recycleKeyOnce, 0, 0); }
    else { RecycleEmpties(c, s, now, c.recycleKeyOnce, 0, 0); }
  }

  lemma RoomCount(c: Config, s: State, now: int)
    requires Inv(c, s) && Shape(s) && s.count <= c.maxKeyCount
    ensures Shape(SetRoom(c, s, now).1) && SetRoom(c, s, now).1.count <= c.maxKeyCount
  {
    hide Inv, Shape, RecycleFrom;
    CountIs(c, s);
    SetRoomShape(c, s, now);
    RecycleShrinks(c, s, now, c.recycleKeyOnce, 0, 0);
  }

  /** Exactly when a set succeeds, with the removal from a queue as coded or as documented. */
  lemma SetSucceedsExactly(c: Config, s: State, key: Bytes, value: Value, now: int)
    requires c.perSegment > 0 && Inv(c, s) && Shape(s) && (c.recycleValid || s.count <= c.maxKeyCount)
    ensures Shape(SetRoom(c, s, now).1)
    ensures Set(c, s, key, value, now).0 == OK <==>
              && |key| <= MAX_KEY_SIZE && |value.data| <= c.maxValueSize && CountWorks(c, s, now)
              && AllocWorks(c, SetRoom(c, s, now).1, EntrySize(|key|, |value.data|), now)
  {
    hide Inv, Shape, SetRoom, Alloc, AllocWorks, CountWorks, Install;
    SetRoomShape(c, s, now);
    SetRoomKeeps(c, s, now);
    CountExactly(c, s, now);
    if !c.recycleValid { RoomCount(c, s, now); }
    var t := SetRoom(c, s, now).1;
    var size := EntrySize(|key|, |value.data|);
    AllocSucceedsExactly(c, t, size, now);
  }

  // ---------------------------------------------------------------- removal as documented

  /** The settings under which entries of any admitted length fit into a striping. */
  ghost predicate Roomy(c: Config) {
    ConfigOk(c) && forall k: nat, v: nat :: k <= MAX_KEY_SIZE && v <= c.maxValueSize ==> EntrySize(k, v) <= c.stripingSize
  }

  /** There is a striping with an extent, and one without live memory is rewound and allocatable. */
  ghost predicate Rewinds(st: seq<Striping>) {
    && st != [] && !Blank(st[0])
    && forall i :: 0 <= i < |st| && !Blank(st[i]) && st[i].used == 0 ==> st[i].free == st[i].base && !st[i].done
  }

  lemma {:induction false} WalkRewinds(c: Config, st: seq<Striping>, kept: seq<int>, rest: seq<int>, done: seq<int>, size: int, now: int)
    requires InRange(rest, |st|) && Rewinds(st) && 0 < size <= c.stripingSize
    requires forall i :: 0 <= i < |st| ==> st[i].used >= 0 && (Blank(st[i]) || st[i].end == st[i].base + c.stripingSize)
    ensures Rewinds(Walk(c, st, kept, rest, done, size, now).st)
    decreases |rest|
  {
    hide Exhausted;
    if rest != [] && !Fits(st[rest[0]], size) {
      var i := rest[0];
      var s := st[i].(failTimes := st[i].failTimes + 1);
      assert Blank(st[i]) || st[i].used != 0;
      if !Exhausted(c, s) {
        WalkRewinds(c, st[i := s], kept + [i], rest[1..], done, size, now);
      } else if kept == [] || c.documentedRemove {
        WalkRewinds(c, st[i := s.(done := true)], kept, rest[1..], done + [i], size, now);
      } else {
        WalkRewinds(c, st[i := s], kept, rest[1..], done, size, now);
      }
    }
  }

  lemma UsedNatural(c: Config, s: State, pending: seq<Entry>)
    requires InvWith(c, s, pending)
    ensures forall i :: 0 <= i < |s.st| ==> s.st[i].used >= 0
  {
    var owned := s.live + pending;
    forall k | 0 <= k < |owned| ensures owned[k].size > 0 { assert InsideOne(s.st, owned[k]); }
    forall i | 0 <= i < |s.st| ensures s.st[i].used >= 0 { SumPositive(owned, i); }
  }

  lemma DoAllocRewinds(c: Config, s: State, size: int, now: int)
    requires Inv(c, s) && Shape(s) && Rewinds(s.st) && 0 < size <= c.stripingSize
    ensures Rewinds(DoAlloc(c, s, size, now).1.st)
  {
    UsedNatural(c, s, []);
    WalkRewinds(c, s.st, [], s.doing, s.done, size, now);
  }

  lemma FreeRewinds(s: State, k: nat)
    requires Shape(s) && k < |s.live| && Rewinds(s.st)
    ensures 0 <= s.live[k].striping < |s.st| && Rewinds(FreeAt(s, k).0.st)
  {
  }

  lemma {:induction false} RecycleRewinds(c: Config, s: State, now: int, once: int, k: nat, cleared: nat)
    requires Shape(s) && k <= |s.live| && Rewinds(s.st)
    ensures Rewinds(RecycleFrom(c, s, now, once, k, cleared).1.st)
    decreases |s.live| - k
  {
    hide Rewinds, Shape;
    if k < |s.live| {
      if IsValid(s.live[k], now) && !c.recycleValid {
        RecycleRewinds(c, s, now, once, k + 1, cleared);
      } else {
        FreeRewinds(s, k);
        FreeShape(s, k);
        RecycleRewinds(c, FreeAt(s, k).0, now, once, k, cleared + 1);
      }
    }
  }

  lemma CreateRewinds(c: Config, s: State)
    requires ConfigOk(c) && Rewinds(s.st)
    ensures Rewinds(CreateSegment(c, s).1.st)
  {
  }

  /** In a cache without entries every allocation of up to a striping's size succeeds at once. */
  lemma EmptyHasRoom(c: Config, s: State, size: int)
    requires Inv(c, s) && Shape(s) && Rewinds(s.st) && c.documentedRemove && 0 < size <= c.stripingSize && s.live == []
    ensures HasRoom(s, size)
  {
    assert s.live + [] == [];
    assert s.st[0].used == 0 && Fits(s.st[0], size) && 0 !in s.done && 0 in s.doing;
    var k :| 0 <= k < |s.doing| && s.doing[k] == 0;
    assert Fits(s.st[s.doing[k]], size);
  }

  /** With removal as documented, an attempt that finds no room leaves every striping in a queue. */
  lemma AllStayQueued(c: Config, s: State, size: int, now: int, i: int)
    requires Inv(c, s) && Shape(s) && c.documentedRemove && size > 0 && !HasRoom(s, size) && 0 <= i < |s.st|
    ensures StaysQueued(c, s, i)
  {
    hide StaysQueued, Layout, Inside, Disjoint, Accounted, UniqueKeys, Sized, Counted;
    DoAllocFails(c, s, size, now);
    DoAllocShape(c, s, size, now);
    assert Queued(DoAlloc(c, s, size, now).1, i);
  }

  /** With valid entries recyclable and removal as documented, an allocation of up to a striping's size always succeeds. */
  lemma DocumentedAllocSucceeds(c: Config, s: State, size: int, now: int)
    requires Inv(c, s) && Shape(s) && Rewinds(s.st) && c.documentedRemove && c.recycleValid && 0 < size <= c.stripingSize
    ensures c.perSegment > 0 && Alloc(c, s, size, now).0.Place?
  {
    hide Rewinds, HasRoom, Recycles, StaysQueued, Alloc, FirstClosing, Layout, Inside, Disjoint, Accounted, Queues, UniqueKeys, Sized, Counted;
    AllocSucceedsExactly(c, s, size, now);
    if !HasRoom(s, size) {
      if s.live == [] { EmptyHasRoom(c, s, size); }
      LastCloses(c, s, now);
      var i := s.live[FirstClosing(c, s.live, now, 0)].striping;
      AllStayQueued(c, s, size, now, i);
    }
  }

  /** With valid entries recyclable, the youngest entry closes its striping, so there is always one to empty. */
  lemma LastCloses(c: Config, s: State, now: int)
    requires Shape(s) && c.recycleValid && s.live != []
    ensures FirstClosing(c, s.live, now, 0) < |s.live|
    ensures 0 <= s.live[FirstClosing(c, s.live, now, 0)].striping < |s.st|
  {
    assert Closes(c, s.live, now, |s.live| - 1);
  }

  /** With valid entries recyclable and removal as documented, a set succeeds exactly if key and value are not too long and,
      in a full cache, the recycling quota is not above the number of entries. */
  lemma DocumentedSetSucceeds(c: Config, s: State, key: Bytes, value: Value, now: int)
    requires Inv(c, s) && Shape(s) && Rewinds(s.st) && Roomy(c) && c.documentedRemove && c.recycleValid
    ensures Set(c, s, key, value, now).0 == OK <==>
              && |key| <= MAX_KEY_SIZE && |value.data| <= c.maxValueSize
              && (s.count < c.maxKeyCount || c.recycleKeyOnce <= s.count)
  {
    hide Layout, Inside, Disjoint, Accounted, Queues, UniqueKeys, Sized, Rewinds, Shape, Alloc, AllocWorks, RecycleFrom, FirstClosing;
    SetSucceedsExactly(c, s, key, value, now);
    var t := SetRoom(c, s, now).1;
    if s.live != [] { LastCloses(c, s, now); }
    if |key| <= MAX_KEY_SIZE && |value.data| <= c.maxValueSize {
      var size := EntrySize(|key|, |value.data|);
      SetRoomKeeps(c, s, now);
      RecycleRewinds(c, s, now, c.recycleKeyOnce, 0, 0);
      DocumentedAllocSucceeds(c, t, size, now);
      AllocSucceedsExactly(c, t, size, now);
    }
  }

  /** Every operation of a roomy cache keeps emptied stripings rewound, so the preceding lemma applies to all of a run. */
  lemma {:induction false} RunsRewind(c: Config, steps: seq<Step>, s: State)
    requires Roomy(c) && Reached(c, steps, s)
    ensures Inv(c, s) && Shape(s) && Rewinds(s.st)
    decreases |steps|
  {
    hide Inv, Shape, Apply, Start, Rewinds;
    RunsKeep(c, steps, s);
    if steps == [] {
      StartRewinds(c);
    } else {
      var front, last := steps[..|steps| - 1], steps[|steps| - 1];
      var t :| Reached(c, front, t) && Shape(t) && s == Apply(c, t, last);
      RunsRewind(c, front, t);
      ApplyRewinds(c, t, last);
    }
  }

  lemma StartRewinds(c: Config)
    requires ConfigOk(c)
    ensures Rewinds(Start(c).st)
  {
  }

  lemma ApplyRewinds(c: Config, s: State, step: Step)
    requires Inv(c, s) && Shape(s) && Rewinds(s.st) && Roomy(c)
    ensures Rewinds(Apply(c, s, step).st)
  {
    hide Rewinds, Set, FreeAt;
    match step
    case SetStep(key, value, now) => SetRewinds(c, s, key, value, now);
    case DeleteStep(key) => if Find(s.live, key) < |s.live| { FreeRewinds(s, Find(s.live, key)); }
    case ExpireStep(key, expires, now) =>
    case ClearStep => ClearRewinds(s);
    case GrowStep => CreateRewinds(c, s);
  }

  lemma ClearRewinds(s: State)
    requires Rewinds(s.st)
    ensures Rewinds(Clear(s).st)
  {
  }

  lemma SetRewinds(c: Config, s: State, key: Bytes, value: Value, now: int)
    requires c.perSegment > 0 && Inv(c, s) && Shape(s) && Rewinds(s.st) && Roomy(c)
    ensures Rewinds(Set(c, s, key, value, now).1.st)
    decreases |s.live|, 4, 0
  {
    hide Inv, RecycleFrom, Rewinds, Shape, Alloc, FreeAt;
    if |key| <= MAX_KEY_SIZE && |value.data| <= c.maxValueSize {
      var size := EntrySize(|key|, |value.data|);
      SetRoomShape(c, s, now);
      SetRoomKeeps(c, s, now);
      RecycleRewinds(c, s, now, c.recycleKeyOnce, 0, 0);
      var (r, t) := SetRoom(c, s, now);
      if r == OK {
        AllocRewinds(c, t, size, now);
        var u := Alloc(c, t, size, now).1;
        if Find(u.live, key) < |u.live| { FreeRewinds(u, Find(u.live, key)); }
      }
    }
  }

  lemma AllocRewinds(c: Config, s: State, size: int, now: int)
    requires c.perSegment > 0 && Inv(c, s) && Shape(s) && Rewinds(s.st) && Roomy(c) && 0 < size <= c.stripingSize
    ensures Rewinds(Alloc(c, s, size, now).1.st)
    decreases |s.live|, 3, 0
  {
    hide Inv, Rewinds, Walk, MakeRoom, Roomy;
    DoAllocShape(c, s, size, now);
    DoAllocInv(c, s, size, now);
    DoAllocRewinds(c, s, size, now);
    var (p, t) := DoAlloc(c, s, size, now);
    if p.NoPlace? {
      MakeRoomKeeps(c, t, now);
      MakeRoomRewinds(c, t, now);
      DoAllocRewinds(c, MakeRoom(c, t, now).1, size, now);
    }
  }

  lemma MakeRoomRewinds(c: Config, s: State, now: int)
    requires c.perSegment > 0 && Inv(c, s) && Shape(s) && Rewinds(s.st) && Roomy(c)
    ensures Rewinds(MakeRoom(c, s, now).1.st)
    decreases |s.live|, 2, 0
  {
    hide Inv, Shape, Rewinds, RecycleFrom, Rearrange, Aged, CreateSegment;
    RecycleRewinds(c, s, now, -1, 0, 0);
    RecycleShape(c, s, now, -1, 0, 0);
    RecycleInv(c, s, now, -1);
    var t := Recycle(c, s, now, -1).1;
    CreateRewinds(c, s);
    CreateRewinds(c, t);
    RearrangeRewinds(c, t, now);
  }

  lemma RearrangeRewinds(c: Config, s: State, now: int)
    requires c.perSegment > 0 && Inv(c, s) && Shape(s) && Rewinds(s.st) && Roomy(c)
    ensures Rewinds(Rearrange(c, s, now).1.st)
    decreases |s.live|, 1, 0
  {
    hide Inv, Shape, Rewinds, Clear, Reinsert, Roomy;
    if !TooFull(c, s) {
      ClearKeeps(c, s);
      ClearShape(s);
      ClearRewinds(s);
      ReinsertRewinds(c, Clear(s), Unexpired(s.live, now), now);
      ClearRewinds(Reinsert(c, Clear(s), Unexpired(s.live, now), now).1);
    }
  }

  lemma ReinsertRewinds(c: Config, s: State, rest: seq<Entry>, now: int)
    requires c.perSegment > 0 && Inv(c, s) && Shape(s) && Rewinds(s.st) && Roomy(c)
    ensures Rewinds(Reinsert(c, s, rest, now).1.st)
    decreases |s.live| + |rest|, 0, |rest|
  {
    hide Inv, Shape, Rewinds, Set, Roomy;
    if rest != [] {
      SetKeeps(c, s, rest[0].key, rest[0].value, now);
      SetRewinds(c, s, rest[0].key, rest[0].value, now);
      ReinsertRewinds(c, Set(c, s, rest[0].key, rest[0].value, now).1, rest[1..], now);
    }
  }
}
