/** What a recycle by striping empties, and when that makes room: exact conditions on the state before the call. */
module ShmRecycling {
  import opened ShmModel
  import opened ShmInvariant
  import opened ShmTheorems

  // ---------------------------------------------------------------- which striping the scan empties

  predicate Evictable(c: Config, e: Entry, now: int) {
    c.recycleValid || !IsValid(e, now)
  }

  /** Entry m is the youngest of its striping, and every entry of that striping may go. */
  ghost predicate Closes(c: Config, live: seq<Entry>, now: int, m: nat)
    requires m < |live|
  {
    forall j :: 0 <= j < |live| && live[j].striping == live[m].striping ==> j <= m && Evictable(c, live[j], now)
  }

  /** The first entry from k on that closes its striping, or the number of entries. */
  ghost function FirstClosing(c: Config, live: seq<Entry>, now: int, k: nat): (m: nat)
    requires k <= |live|
    ensures k <= m <= |live| && (m < |live| ==> Closes(c, live, now, m))
    ensures forall j :: k <= j < m ==> !Closes(c, live, now, j)
    decreases |live| - k
  {
    if k == |live| || Closes(c, live, now, k) then k else FirstClosing(c, live, now, k + 1)
  }

  lemma FirstIs(c: Config, live: seq<Entry>, now: int, k: nat, m: nat)
    requires k <= m <= |live| && (m < |live| ==> Closes(c, live, now, m))
    requires forall j :: k <= j < m ==> !Closes(c, live, now, j)
    ensures FirstClosing(c, live, now, k) == m
  {
  }

  ghost predicate NoneBefore(c: Config, live: seq<Entry>, now: int, k: nat)
    requires k <= |live|
  {
    forall j :: 0 <= j < k ==> !Evictable(c, live[j], now)
  }

  /** Taking an entry out that may go, and does not close its striping, changes no later entry's closing. */
  lemma ClosesWithout(c: Config, live: seq<Entry>, now: int, k: nat, m: nat)
    requires k < m < |live| && Evictable(c, live[k], now)
    ensures Closes(c, live, now, m) <==> Closes(c, Without(live, k), now, m - 1)
  {
    var r := Without(live, k);
    forall j | 0 <= j < |r| ensures r[j] == live[if j < k then j else j + 1] { WithoutIndex(live, k, j); }
    if Closes(c, r, now, m - 1) {
      forall j | 0 <= j < |live| && live[j].striping == live[m].striping ensures j <= m && Evictable(c, live[j], now) {
        if j != k { assert r[if j < k then j else j - 1] == live[j]; }
      }
    }
  }

  lemma FirstWithout(c: Config, live: seq<Entry>, now: int, k: nat)
    requires k < |live| && Evictable(c, live[k], now) && !Closes(c, live, now, k)
    ensures FirstClosing(c, live, now, k) == FirstClosing(c, Without(live, k), now, k) + 1
  {
    hide Closes, Evictable, Without;
    var m := FirstClosing(c, live, now, k);
    WithoutLength(live, k);
    forall j | k < j <= m && j < |live| ensures Closes(c, live, now, j) <==> Closes(c, Without(live, k), now, j - 1) {
      ClosesWithout(c, live, now, k, j);
    }
    forall j | k <= j < m - 1 ensures !Closes(c, Without(live, k), now, j) {
      assert !Closes(c, live, now, j + 1);
    }
    FirstIs(c, Without(live, k), now, k, m - 1);
  }

  lemma WithoutLength<T>(s: seq<T>, k: nat)
    requires k < |s|
    ensures |Without(s, k)| == |s| - 1
  {
  }

  // ---------------------------------------------------------------- one freed entry

  /** A striping becomes empty exactly when its only entry goes. */
  lemma EmptiedExactly(c: Config, s: State, k: nat)
    requires Inv(c, s) && Shape(s) && k < |s.live|
    ensures 0 <= s.live[k].striping < |s.st|
    ensures FreeAt(s, k).1 <==> forall j :: 0 <= j < |s.live| && j != k ==> s.live[j].striping != s.live[k].striping
  {
    hide Layout, Queues, Disjoint, UniqueKeys, Sized, Counted;
    FreeIndex(s, k);
    var owned, i := s.live, s.live[k].striping;
    assert s.live + [] == owned;
    var rest := Without(owned, k);
    SumWithout(owned, k, SizeIn(i));
    forall j | 0 <= j < |owned| ensures owned[j].size > 0 { assert InsideOne(s.st, owned[j]); }
    forall j | 0 <= j < |rest| ensures rest[j] == owned[if j < k then j else j + 1] { WithoutIndex(owned, k, j); }
    SumPositive(rest, i);
    if FreeAt(s, k).1 {
      forall j | 0 <= j < |owned| && j != k ensures owned[j].striping != i {
        assert rest[if j < k then j else j - 1] == owned[j];
      }
    } else {
      if forall j :: 0 <= j < |owned| && j != k ==> owned[j].striping != i { SumNone(rest, i); }
    }
  }

  /** At its turn in the scan, an entry empties its striping exactly if it closes it. */
  lemma ClosingEmpties(c: Config, s: State, now: int, k: nat)
    requires Inv(c, s) && Shape(s) && k < |s.live| && NoneBefore(c, s.live, now, k) && Evictable(c, s.live[k], now)
    ensures FreeAt(s, k).1 <==> Closes(c, s.live, now, k)
  {
    hide Inv, Shape, Evictable, FreeAt;
    EmptiedExactly(c, s, k);
    if Closes(c, s.live, now, k) {
      forall j | 0 <= j < |s.live| && j != k ensures s.live[j].striping != s.live[k].striping {
        if j < k { assert !Evictable(c, s.live[j], now); }
      }
    }
  }

  /** As good as new. */
  ghost predicate Empty(s: Striping) {
    s.used == 0 && s.free == s.base && !s.done && s.failTimes == 0 && s.lastAlloc == 0
  }

  /** Stripings that differ in their use counts only, but for one. */
  ghost predicate SameBut(a: seq<Striping>, b: seq<Striping>, i: int) {
    |a| == |b| && forall j :: 0 <= j < |a| && j != i ==> b[j] == a[j].(used := b[j].used)
  }

  /** The states before and after striping i has been emptied, entries of other stripings going too. */
  ghost predicate Emptied(s: State, t: State, i: int) {
    && SameBut(s.st, t.st, i) && t.segments == s.segments
    && 0 <= i < |s.st| && s.st[i].used > 0 && Empty(t.st[i])
    && t.st[i].segment == s.st[i].segment && t.st[i].base == s.st[i].base && t.st[i].end == s.st[i].end
    && t.doing == (if s.st[i].done then s.doing + [i] else s.doing)
    && t.done == (if s.st[i].done then Removed(s.done, i) else s.done)
  }

  /** The states before and after entries have gone without emptying any striping. */
  ghost predicate NoneEmptied(s: State, t: State) {
    SameBut(s.st, t.st, -1) && t.segments == s.segments && t.doing == s.doing && t.done == s.done
  }

  lemma FreeEmpties(c: Config, s: State, k: nat)
    requires Inv(c, s) && Shape(s) && k < |s.live| && 0 <= s.live[k].striping < |s.st|
    ensures var (t, emptied) := FreeAt(s, k); if emptied then Emptied(s, t, s.live[k].striping) else NoneEmptied(s, t)
  {
    hide Layout, Disjoint, UniqueKeys, Sized, Counted, Queues;
    var i := s.live[k].striping;
    var owned := s.live;
    assert s.live + [] == owned;
    forall j | 0 <= j < |owned| ensures owned[j].size > 0 { assert InsideOne(s.st, owned[j]); }
    SumPositive(owned, i);
  }

  lemma EmptiedAfter(s: State, s1: State, t: State, i: int)
    requires NoneEmptied(s, s1) && Emptied(s1, t, i) && s.st[i].used >= s1.st[i].used
    ensures Emptied(s, t, i)
  {
  }

  lemma UsedShrinks(c: Config, s: State, k: nat, i: nat)
    requires Inv(c, s) && Shape(s) && k < |s.live| && i < |s.st| && 0 <= s.live[k].striping < |s.st| && !FreeAt(s, k).1
    ensures FreeAt(s, k).0.st[i].used <= s.st[i].used
  {
    assert InsideOne(s.st, (s.live + [])[k]);
  }

  // ---------------------------------------------------------------- the scan

  /** The entries that may not go. */
  function Staying(c: Config, live: seq<Entry>, now: int): seq<Entry> {
    if live == [] then [] else (if Evictable(c, live[0], now) then [] else [live[0]]) + Staying(c, live[1..], now)
  }

  /** What a scan from k on that ends after n - 1 leaves of the list. */
  function Scanned(c: Config, live: seq<Entry>, now: int, k: nat, n: nat): seq<Entry>
    requires k <= n <= |live|
  {
    live[..k] + Staying(c, live[k..n], now) + live[n..]
  }

  lemma ScannedPast(c: Config, live: seq<Entry>, now: int, k: nat, n: nat)
    requires k < n <= |live|
    ensures !Evictable(c, live[k], now) ==> Scanned(c, live, now, k + 1, n) == Scanned(c, live, now, k, n)
    ensures Evictable(c, live[k], now) ==>
      |Without(live, k)| == |live| - 1 && Scanned(c, Without(live, k), now, k, n - 1) == Scanned(c, live, now, k, n)
  {
    assert live[k..n][0] == live[k] && live[k..n][1..] == live[k + 1..n];
    if Evictable(c, live[k], now) {
      var r := Without(live, k);
      assert r[..k] == live[..k] && r[k..n - 1] == live[k + 1..n] && r[n - 1..] == live[n..];
    } else {
      assert live[..k + 1] == live[..k] + [live[k]];
    }
  }

  ghost function EndOf(c: Config, live: seq<Entry>, now: int, k: nat): (n: nat)
    requires k <= |live|
    ensures k <= n <= |live|
  {
    var m := FirstClosing(c, live, now, k);
    if m < |live| then m + 1 else m
  }

  /** What a recycle by striping does, exactly: it takes out all that may go up to the first entry that closes its striping, and
      that striping is the one it empties; if there is none, it takes out all that may go, reports failure and empties none. */
  lemma {:induction false} RecycleEmpties(c: Config, s: State, now: int, once: int, k: nat, cleared: nat)
    requires Inv(c, s) && Shape(s) && k <= |s.live| && NoneBefore(c, s.live, now, k) && once <= 0
    ensures var m := FirstClosing(c, s.live, now, k); var (r, t) := RecycleFrom(c, s, now, once, k, cleared);
            && (r == OK <==> m < |s.live|)
            && t.live == Scanned(c, s.live, now, k, EndOf(c, s.live, now, k))
            && (if r == OK then Emptied(s, t, s.live[m].striping) else NoneEmptied(s, t))
    decreases |s.live| - k
  {
    hide Inv, Shape, FreeAt, Closes, Scanned, Emptied, NoneEmptied, Evictable;
    if k == |s.live| {
      ScannedNone(c, s.live, now);
      NoneRefl(s);
    } else if !Evictable(c, s.live[k], now) {
      EvictableIs(c, s.live[k], now);
      NotClosing(c, s.live, now, k);
      ScannedPast(c, s.live, now, k, EndOf(c, s.live, now, k));
      RecycleEmpties(c, s, now, once, k + 1, cleared);
    } else {
      EvictableIs(c, s.live[k], now);
      RecycleOne(c, s, now, k);
      var (s1, emptied) := FreeAt(s, k);
      ScannedPast(c, s.live, now, k, EndOf(c, s.live, now, k));
      if emptied {
        ScannedHere(c, s.live, now, k);
      } else {
        RecycleEmpties(c, s1, now, once, k, cleared + 1);
        FirstWithout(c, s.live, now, k);
        AfterOne(c, s, s1, RecycleFrom(c, s1, now, once, k, cleared + 1).1, k, FirstClosing(c, s1.live, now, k));
      }
    }
  }

  lemma EvictableIs(c: Config, e: Entry, now: int)
    ensures Evictable(c, e, now) <==> !(IsValid(e, now) && !c.recycleValid)
  {
  }

  lemma NoneRefl(s: State)
    ensures NoneEmptied(s, s)
  {
  }

  lemma NotClosing(c: Config, live: seq<Entry>, now: int, k: nat)
    requires k < |live| && !Evictable(c, live[k], now) && NoneBefore(c, live, now, k)
    ensures !Closes(c, live, now, k) && NoneBefore(c, live, now, k + 1)
  {
  }

  lemma ScannedNone(c: Config, live: seq<Entry>, now: int)
    ensures Scanned(c, live, now, |live|, |live|) == live
  {
    assert live[|live|..] == [];
  }

  lemma ScannedHere(c: Config, live: seq<Entry>, now: int, k: nat)
    requires k < |live|
    ensures |Without(live, k)| == |live| - 1 && Scanned(c, Without(live, k), now, k, k) == Without(live, k)
  {
    var r := Without(live, k);
    assert r[k..k] == [] && r[..k] + r[k..] == r;
  }

  lemma RecycleOne(c: Config, s: State, now: int, k: nat)
    requires Inv(c, s) && Shape(s) && k < |s.live| && NoneBefore(c, s.live, now, k) && Evictable(c, s.live[k], now)
    ensures 0 <= s.live[k].striping < |s.st|
    ensures var (t, emptied) := FreeAt(s, k);
            && Inv(c, t) && Shape(t) && t.live == Without(s.live, k) && |t.live| == |s.live| - 1 && NoneBefore(c, t.live, now, k)
            && (emptied <==> Closes(c, s.live, now, k))
            && (if emptied then Emptied(s, t, s.live[k].striping) else NoneEmptied(s, t))
            && (!emptied ==> forall i :: 0 <= i < |s.st| && i < |t.st| ==> t.st[i].used <= s.st[i].used)
  {
    hide Inv, Shape, FreeAt, Closes, Emptied, NoneEmptied;
    FreeInv(c, s, k);
    FreeShape(s, k);
    ClosingEmpties(c, s, now, k);
    FreeEmpties(c, s, k);
    forall i: nat | i < |s.st| && !FreeAt(s, k).1 ensures FreeAt(s, k).0.st[i].used <= s.st[i].used { UsedShrinks(c, s, k, i); }
  }

  lemma AfterOne(c: Config, s: State, s1: State, t: State, k: nat, m: nat)
    requires k < |s.live| && k <= m <= |s1.live| && s1.live == Without(s.live, k) && NoneEmptied(s, s1)
    requires forall i :: 0 <= i < |s.st| && i < |s1.st| ==> s1.st[i].used <= s.st[i].used
    ensures |s1.live| == |s.live| - 1
    ensures m < |s1.live| ==> s1.live[m] == s.live[m + 1]
    ensures m < |s1.live| && Emptied(s1, t, s1.live[m].striping) ==> Emptied(s, t, s1.live[m].striping)
    ensures NoneEmptied(s1, t) ==> NoneEmptied(s, t)
  {
    if m < |s1.live| {
      WithoutIndex(s.live, k, m);
      if Emptied(s1, t, s1.live[m].striping) { EmptiedAfter(s, s1, t, s1.live[m].striping); }
    }
  }

  // ---------------------------------------------------------------- room after recycling

  ghost predicate HasRoom(s: State, size: int)
    requires InRange(s.doing, |s.st|)
  {
    exists k :: 0 <= k < |s.doing| && Fits(s.st[s.doing[k]], size)
  }

  /** An emptied striping is allocatable exactly if it was in one of the queues before. */
  lemma EmptiedQueued(c: Config, s: State, t: State, i: int)
    requires Queues(c, s.st, s.doing, s.done) && Emptied(s, t, i)
    ensures i in t.doing <==> Queued(s, i)
  {
    assert (s.doing + [i])[|s.doing|] == i;
  }

  /** An emptied striping takes anything up to a striping's size. */
  lemma EmptiedFits(c: Config, s: State, t: State, i: int, size: int)
    requires Inv(c, s) && Emptied(s, t, i)
    ensures Fits(t.st[i], size) <==> size <= c.stripingSize
  {
    hide Queues, UniqueKeys, Sized, Counted, Disjoint;
    var owned := s.live;
    assert s.live + [] == owned;
    if Blank(s.st[i]) {
      forall k | 0 <= k < |owned| ensures owned[k].striping != i { assert InsideOne(s.st, owned[k]) && Filled(s.st[i]); }
      SumNone(owned, i);
    }
  }

  lemma EmptiedRoom(c: Config, s: State, t: State, i: int, size: int)
    requires Inv(c, s) && Shape(s) && Shape(t) && Emptied(s, t, i) && 0 < size <= c.stripingSize
    ensures HasRoom(t, size) <==> Queued(s, i) || HasRoom(s, size)
  {
    EmptiedFits(c, s, t, i, size);
    InvQueues(c, s);
    EmptiedQueued(c, s, t, i);
    RoomKept(s, t, i, size);
  }

  lemma RoomKept(s: State, t: State, i: int, size: int)
    requires Shape(s) && Shape(t) && Emptied(s, t, i) && Fits(t.st[i], size)
    ensures HasRoom(t, size) <==> i in t.doing || HasRoom(s, size)
  {
    if HasRoom(s, size) {
      var k :| 0 <= k < |s.doing| && Fits(s.st[s.doing[k]], size);
      assert t.doing[k] == s.doing[k] && Fits(t.st[t.doing[k]], size);
    }
    if HasRoom(t, size) && i !in t.doing {
      var k :| 0 <= k < |t.doing| && Fits(t.st[t.doing[k]], size);
      assert t.doing[k] != i && s.doing[k] == t.doing[k] && Fits(s.st[s.doing[k]], size);
    }
  }

  lemma SameRoom(s: State, t: State, size: int)
    requires Shape(s) && Shape(t) && NoneEmptied(s, t)
    ensures HasRoom(t, size) <==> HasRoom(s, size)
  {
    forall k | 0 <= k < |s.doing| ensures Fits(s.st[s.doing[k]], size) == Fits(t.st[t.doing[k]], size) {
      assert s.doing[k] != -1;
    }
  }

  /** Whether there is room after a recycle by striping, exactly: if it succeeds, the striping it emptied must have been
      queued, or there must have been room before. */
  lemma RecycleThenAlloc(c: Config, s: State, now: int, once: int, size: int)
    requires Inv(c, s) && Shape(s) && once <= 0 && 0 < size <= c.stripingSize
    ensures var m := FirstClosing(c, s.live, now, 0); var (r, t) := Recycle(c, s, now, once);
            && Shape(t) && (r == OK <==> m < |s.live|)
            && (DoAlloc(c, t, size, now).0.Place? <==> (r == OK && Queued(s, s.live[m].striping)) || HasRoom(s, size))
  {
    hide Inv, Shape, Emptied, NoneEmptied, Queued, DoAlloc, Closes;
    RecycleEmpties(c, s, now, once, 0, 0);
    RecycleInv(c, s, now, once);
    RecycleShape(c, s, now, once, 0, 0);
    var (r, t) := Recycle(c, s, now, once);
    AllocIff(c, t, size, now);
    if r == OK {
      EmptiedRoom(c, s, t, s.live[FirstClosing(c, s.live, now, 0)].striping, size);
    } else {
      SameRoom(s, t, size);
    }
  }

  /** When the code keeps its promise that a recycle by striping that returns 0 makes every allocation of up to a striping's
      size succeed: exactly if the striping it empties is in one of the queues, or a queued striping was empty all along. */
  lemma RecycleThenAnyAlloc(c: Config, s: State, now: int)
    requires Inv(c, s) && Shape(s) && Recycle(c, s, now, -1).0 == OK
    ensures var m := FirstClosing(c, s.live, now, 0); var t := Recycle(c, s, now, -1).1;
            && m < |s.live| && Shape(t)
            && ((forall size :: 0 < size <= c.stripingSize ==> DoAlloc(c, t, size, now).0.Place?) <==>
                Queued(s, s.live[m].striping)
                || exists k :: 0 <= k < |s.doing| && !Blank(s.st[s.doing[k]]) && s.st[s.doing[k]].free == s.st[s.doing[k]].base)
  {
    hide Inv, DoAlloc, Closes, Queued, RecycleFrom;
    SizePositive(c, s);
    RecycleThenAlloc(c, s, now, -1, c.stripingSize);
    RoomForAll(c, s);
    forall size | 0 < size <= c.stripingSize && HasRoom(s, c.stripingSize) ensures HasRoom(s, size) { }
    RecycleShape(c, s, now, -1, 0, 0);
    forall size | 0 < size <= c.stripingSize
      ensures DoAlloc(c, Recycle(c, s, now, -1).1, size, now).0.Place? <==>
                Queued(s, s.live[FirstClosing(c, s.live, now, 0)].striping) || HasRoom(s, size)
    {
      RecycleThenAlloc(c, s, now, -1, size);
    }
  }

  lemma SizePositive(c: Config, s: State)
    requires Inv(c, s)
    ensures c.stripingSize > 0
  {
  }

  lemma RoomForAll(c: Config, s: State)
    requires Inv(c, s) && Shape(s)
    ensures HasRoom(s, c.stripingSize) <==>
              exists k :: 0 <= k < |s.doing| && !Blank(s.st[s.doing[k]]) && s.st[s.doing[k]].free == s.st[s.doing[k]].base
  {
    hide Queues, UniqueKeys, Sized, Counted, Disjoint, Inside;
    forall k | 0 <= k < |s.doing|
      ensures Fits(s.st[s.doing[k]], c.stripingSize) <==>
                !Blank(s.st[s.doing[k]]) && s.st[s.doing[k]].free == s.st[s.doing[k]].base
    {
      assert Filled(s.st[s.doing[k]]);
    }
  }

  /** So while no striping is lost (never, if removal works as documented), a successful recycling always makes room. */
  lemma NoneLostThenAlloc(c: Config, s: State, now: int, size: int)
    requires Inv(c, s) && Shape(s) && 0 < size <= c.stripingSize
    requires c.documentedRemove || forall i :: !Lost(s, i)
    requires Recycle(c, s, now, -1).0 == OK
    ensures Shape(Recycle(c, s, now, -1).1) && DoAlloc(c, Recycle(c, s, now, -1).1, size, now).0.Place?
  {
    hide DoAlloc, RecycleFrom, Layout, Inside, Disjoint, Accounted, UniqueKeys, Sized, Counted;
    RecycleThenAlloc(c, s, now, -1, size);
    var m := FirstClosing(c, s.live, now, 0);
    FreeIndex(s, m);
    if !c.documentedRemove { assert !Lost(s, s.live[m].striping); }
  }

  // ---------------------------------------------------------------- a walk that fails

  /** The leading stripings of the queue that leave it when an allocation fails in them. */
  ghost function Leaders(c: Config, st: seq<Striping>, rest: seq<int>): seq<int>
    requires InRange(rest, |st|)
  {
    if rest != [] && WouldLeave(c, st[rest[0]]) then [rest[0]] + Leaders(c, st, rest[1..]) else []
  }

  /** The stripings of the queue that leave it, or that stay in it. */
  ghost function Parted(c: Config, st: seq<Striping>, rest: seq<int>, leave: bool): seq<int>
    requires InRange(rest, |st|)
  {
    if rest == [] then []
    else (if WouldLeave(c, st[rest[0]]) == leave then [rest[0]] else []) + Parted(c, st, rest[1..], leave)
  }

  /** The stripings that an allocation failing everywhere moves to the done queue. */
  ghost function Moved(c: Config, st: seq<Striping>, rest: seq<int>, staying: bool): seq<int>
    requires InRange(rest, |st|)
  {
    if c.documentedRemove then Parted(c, st, rest, true) else if staying then [] else Leaders(c, st, rest)
  }

  lemma {:induction false} PartedSame(c: Config, st: seq<Striping>, st': seq<Striping>, rest: seq<int>, leave: bool)
    requires InRange(rest, |st|) && |st'| == |st| && forall k :: 0 <= k < |rest| ==> st'[rest[k]] == st[rest[k]]
    ensures Parted(c, st', rest, leave) == Parted(c, st, rest, leave) && Leaders(c, st', rest) == Leaders(c, st, rest)
  {
    hide WouldLeave;
    if rest != [] {
      forall k | 0 <= k < |rest[1..]| ensures st'[rest[1..][k]] == st[rest[1..][k]] { assert rest[1..][k] == rest[k + 1]; }
      PartedSame(c, st, st', rest[1..], leave);
    }
  }

  /** The head of the queue stays in it, moves, or is in neither queue afterwards. */
  lemma PartedHead(c: Config, st: seq<Striping>, kept: seq<int>, rest: seq<int>, done: seq<int>)
    requires InRange(rest, |st|) && rest != []
    ensures InRange(rest[1..], |st|)
    ensures var i, r := rest[0], rest[1..]; var staying := kept != [];
            if !WouldLeave(c, st[i]) then
              && kept + Parted(c, st, rest, false) == (kept + [i]) + Parted(c, st, r, false)
              && Moved(c, st, rest, staying) == Moved(c, st, r, true)
            else if !staying || c.documentedRemove then
              && Parted(c, st, rest, false) == Parted(c, st, r, false)
              && done + Moved(c, st, rest, staying) == (done + [i]) + Moved(c, st, r, staying)
            else
              && Parted(c, st, rest, false) == Parted(c, st, r, false)
              && Moved(c, st, rest, staying) == Moved(c, st, r, staying)
  {
    hide WouldLeave;
    var i, r := rest[0], rest[1..];
    RestInRange(rest, |st|);
    AddFirst(kept, i, Parted(c, st, r, false));
    AddFirst(done, i, Moved(c, st, r, kept != []));
    var none: seq<int> := [];
    assert none + Parted(c, st, r, true) == Parted(c, st, r, true) && none + Parted(c, st, r, false) == Parted(c, st, r, false);
  }

  lemma RestInRange(rest: seq<int>, n: int)
    requires InRange(rest, n) && rest != []
    ensures InRange(rest[1..], n)
  {
  }

  lemma AddFirst<T>(a: seq<T>, x: T, b: seq<T>)
    ensures a + ([x] + b) == (a + [x]) + b
  {
  }

  /** Which stripings leave the queue when an allocation fails in them. */
  lemma LeavesExactly(c: Config, s: Striping)
    ensures WouldLeave(c, s) <==> s.end - s.free <= c.discardSize || s.failTimes >= c.maxFailTimes
  {
  }

  /** What a walk does to the queues: of the stripings it visits without success, the doing queue keeps those that stay, in order;
      those that leave are moved to the done queue if removal works as documented, and otherwise only those in front of the first
      that stays. */
  lemma {:induction false} WalkParts(c: Config, st: seq<Striping>, kept: seq<int>, rest: seq<int>, done: seq<int>, size: int, now: int)
    requires InRange(rest, |st|) && NoDup(rest)
    ensures var w := Walk(c, st, kept, rest, done, size, now); var v := Visited(st, rest, size);
            && InRange(rest[..v], |st|)
            && w.found == (if v < |rest| then rest[v] else -1)
            && w.doing == kept + Parted(c, st, rest[..v], false) + rest[v..]
            && w.done == done + Moved(c, st, rest[..v], kept != [])
    decreases |rest|
  {
    hide WouldLeave, Exhausted, NoDup, Parted, Leaders, Moved;
    var v := Visited(st, rest, size);
    if v == 0 {
      NoneVisited(st, rest, size);
      PartedNone(c, st, kept, rest[..0], done);
      assert kept + rest == kept + Parted(c, st, rest[..0], false) + rest[0..] by { assert rest[0..] == rest; }
    } else {
      var i, r := rest[0], rest[1..];
      var s := st[i].(failTimes := st[i].failTimes + 1);
      LeavesIs(c, st[i]);
      assert rest[..v][0] == i && rest[..v][1..] == r[..v - 1] && rest[v..] == r[v - 1..];
      PartedHead(c, st, kept, rest[..v], done);
      var t := if Exhausted(c, s) && (kept == [] || c.documentedRemove) then s.(done := true) else s;
      AfterFirst(c, st, t, rest, size);
      if !Exhausted(c, s) {
        WalkParts(c, st[i := s], kept + [i], r, done, size, now);
      } else if kept == [] || c.documentedRemove {
        WalkParts(c, st[i := t], kept, r, done + [i], size, now);
      } else {
        WalkParts(c, st[i := s], kept, r, done, size, now);
      }
    }
  }

  lemma NoneVisited(st: seq<Striping>, rest: seq<int>, size: int)
    requires InRange(rest, |st|) && Visited(st, rest, size) == 0
    ensures rest == [] || Fits(st[rest[0]], size)
  {
  }

  /** The rest of the queue after its first striping has been visited. */
  lemma AfterFirst(c: Config, st: seq<Striping>, t: Striping, rest: seq<int>, size: int)
    requires InRange(rest, |st|) && NoDup(rest) && Visited(st, rest, size) > 0
    ensures rest != [] && !Fits(st[rest[0]], size)
    ensures var st' := st[rest[0] := t]; var r := rest[1..]; var v := Visited(st, rest, size) - 1;
            && NoDup(r) && InRange(r, |st'|) && Visited(st', r, size) == v && InRange(r[..v], |st|)
            && (forall leave :: Parted(c, st', r[..v], leave) == Parted(c, st, r[..v], leave))
            && (forall staying :: Moved(c, st', r[..v], staying) == Moved(c, st, r[..v], staying))
  {
    hide WouldLeave;
    VisitedStep(c, st, t, rest, size);
    var st', r, v := st[rest[0] := t], rest[1..], Visited(st, rest, size) - 1;
    forall k | 0 <= k < |r| ensures r[k] == rest[k + 1] && r[k] != rest[0] { }
    PartedSame(c, st, st', r[..v], true);
    PartedSame(c, st, st', r[..v], false);
  }

  /** A walk that finds no room visits the whole queue. */
  lemma FailedWalk(c: Config, st: seq<Striping>, kept: seq<int>, rest: seq<int>, done: seq<int>, size: int, now: int)
    requires InRange(rest, |st|) && NoDup(rest) && forall k :: 0 <= k < |rest| ==> !Fits(st[rest[k]], size)
    ensures var w := Walk(c, st, kept, rest, done, size, now);
            w.found == -1 && w.doing == kept + Parted(c, st, rest, false) && w.done == done + Moved(c, st, rest, kept != [])
  {
    hide WouldLeave, NoDup, Parted, Moved, Walk;
    WalkParts(c, st, kept, rest, done, size, now);
    assert rest[..|rest|] == rest && rest[|rest|..] == [];
  }

  lemma PartedNone(c: Config, st: seq<Striping>, kept: seq<int>, rest: seq<int>, done: seq<int>)
    requires rest == []
    ensures kept + Parted(c, st, rest, false) == kept && done + Moved(c, st, rest, kept != []) == done
  {
  }

  /** One more failure for each of the first v stripings of the queue, and the allocation, with its time, in the one behind them;
      all others stay as they are. */
  ghost predicate Effects(a: seq<Striping>, b: seq<Striping>, rest: seq<int>, v: nat, size: int, now: int)
    requires InRange(rest, |a|) && v <= |rest| && |a| == |b|
  {
    && (forall k :: 0 <= k < v ==> b[rest[k]] == a[rest[k]].(failTimes := a[rest[k]].failTimes + 1, done := b[rest[k]].done))
    && (v < |rest| ==>
          b[rest[v]] == a[rest[v]].(lastAlloc := now, used := a[rest[v]].used + size, free := a[rest[v]].free + size))
    && (forall i :: 0 <= i < |a| && i !in rest[..if v < |rest| then v + 1 else v] ==> b[i] == a[i])
  }

  /** What a walk does to the stripings. */
  lemma {:induction false} WalkEffects(c: Config, st: seq<Striping>, kept: seq<int>, rest: seq<int>, done: seq<int>, size: int, now: int)
    requires InRange(rest, |st|) && NoDup(rest)
    ensures Effects(st, Walk(c, st, kept, rest, done, size, now).st, rest, Visited(st, rest, size), size, now)
    decreases |rest|
  {
    hide WouldLeave, Exhausted, NoDup, Parted, Moved, Effects;
    var v := Visited(st, rest, size);
    if v == 0 {
      NoneVisited(st, rest, size);
      FirstEffect(st, Walk(c, st, kept, rest, done, size, now).st, rest, size, now);
    } else {
      var h, r := rest[0], rest[1..];
      var s := st[h].(failTimes := st[h].failTimes + 1);
      var t := if Exhausted(c, s) && (kept == [] || c.documentedRemove) then s.(done := true) else s;
      AfterFirst(c, st, t, rest, size);
      if !Exhausted(c, s) {
        WalkEffects(c, st[h := t], kept + [h], r, done, size, now);
      } else if kept == [] || c.documentedRemove {
        WalkEffects(c, st[h := t], kept, r, done + [h], size, now);
      } else {
        WalkEffects(c, st[h := t], kept, r, done, size, now);
      }
      NextEffect(st, t, Walk(c, st, kept, rest, done, size, now).st, rest, v, size, now);
    }
  }

  lemma FirstEffect(a: seq<Striping>, b: seq<Striping>, rest: seq<int>, size: int, now: int)
    requires InRange(rest, |a|) && |a| == |b|
    requires b == if rest == [] then a else a[rest[0] := Bump(a[rest[0]], size, now)]
    ensures Effects(a, b, rest, 0, size, now)
  {
    if rest != [] { assert rest[..1] == [rest[0]]; }
  }

  /** The effects on the whole queue from those on all but its first striping. */
  lemma NextEffect(a: seq<Striping>, t: Striping, b: seq<Striping>, rest: seq<int>, v: nat, size: int, now: int)
    requires InRange(rest, |a|) && NoDup(rest) && 0 < v <= |rest| && |b| == |a| && InRange(rest[1..], |a|)
    requires t == a[rest[0]].(failTimes := a[rest[0]].failTimes + 1, done := t.done)
    requires Effects(a[rest[0] := t], b, rest[1..], v - 1, size, now)
    ensures Effects(a, b, rest, v, size, now)
  {
    var r, h := rest[1..], rest[0];
    var n := if v < |rest| then v + 1 else v;
    forall k | 0 <= k < |r| ensures r[k] == rest[k + 1] && r[k] != h { }
    assert rest[..n] == [h] + r[..n - 1];
    assert h !in r[..n - 1];
    forall k | 0 <= k < v ensures b[rest[k]] == a[rest[k]].(failTimes := a[rest[k]].failTimes + 1, done := b[rest[k]].done) {
      if k > 0 { assert rest[k] == r[k - 1]; }
    }
  }

  /** A walk that finds no room changes failure counts and flags only. */
  lemma FailedWalkKeeps(c: Config, st: seq<Striping>, kept: seq<int>, rest: seq<int>, done: seq<int>, size: int, now: int)
    requires InRange(rest, |st|) && NoDup(rest)
    ensures var w := Walk(c, st, kept, rest, done, size, now);
            w.found == -1 ==> forall i :: 0 <= i < |st| ==> w.st[i] == st[i].(failTimes := w.st[i].failTimes, done := w.st[i].done)
  {
    hide WouldLeave, Parted, Moved, Walk, NoDup;
    WalkEffects(c, st, kept, rest, done, size, now);
    WalkParts(c, st, kept, rest, done, size, now);
    var w := Walk(c, st, kept, rest, done, size, now);
    if w.found == -1 {
      forall i | 0 <= i < |st| ensures w.st[i] == st[i].(failTimes := w.st[i].failTimes, done := w.st[i].done) {
        if i in rest {
          var k :| 0 <= k < |rest| && rest[k] == i;
          assert k < Visited(st, rest, size);
        }
      }
    }
  }

  lemma LeavesIs(c: Config, s: Striping)
    ensures WouldLeave(c, s) <==> Exhausted(c, s.(failTimes := s.failTimes + 1))
  {
  }

  lemma {:induction false} PartedIn(c: Config, st: seq<Striping>, rest: seq<int>, leave: bool)
    requires InRange(rest, |st|)
    ensures forall k :: 0 <= k < |Parted(c, st, rest, leave)| ==> Parted(c, st, rest, leave)[k] in rest
  {
    if rest != [] {
      PartedIn(c, st, rest[1..], leave);
      var p := Parted(c, st, rest[1..], leave);
      forall k | 0 <= k < |p| ensures p[k] in rest { assert p[k] in rest[1..]; }
    }
  }
}
