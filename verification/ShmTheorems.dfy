/** Whole runs of the cache, and which stripings the queues lose on the way. */
module ShmTheorems {
  import opened ShmModel
  import opened ShmInvariant
  import opened ShmEviction

  // ---------------------------------------------------------------- runs

  datatype Step = SetStep(key: Bytes, value: Value, now: int) | DeleteStep(key: Bytes)
                | ExpireStep(key: Bytes, expires: int, now: int) | ClearStep
                | GrowStep   // another segment at start-up

  ghost function Apply(c: Config, s: State, step: Step): State
    requires c.perSegment > 0 && Shape(s)
  {
    match step
    case SetStep(key, value, now) => Set(c, s, key, value, now).1
    case DeleteStep(key) => Delete(s, key).1
    case ExpireStep(key, expires, now) => SetExpires(s, key, expires, now).1
    case ClearStep => Clear(s)
    case GrowStep => CreateSegment(c, s).1
  }

  lemma ApplyKeeps(c: Config, s: State, step: Step)
    requires Inv(c, s) && Shape(s)
    ensures Inv(c, Apply(c, s, step)) && Shape(Apply(c, s, step))
  {
    hide Inv, Shape, Set, Delete, SetExpires, Clear, CreateSegment;
    InvSegment(c, s);
    match step {
      case SetStep(key, value, now) => SetKeeps(c, s, key, value, now);
      case DeleteStep(key) => DeleteKeeps(c, s, key);
      case ExpireStep(key, expires, now) => SetExpiresKeeps(c, s, key, expires, now);
      case ClearStep => ClearKeeps(c, s);
      case GrowStep => GrowKeeps(c, s);
    }
    KeptShape(c, Apply(c, s, step));
  }

  lemma GrowKeeps(c: Config, s: State)
    requires Inv(c, s)
    ensures c.perSegment > 0 && Inv(c, CreateSegment(c, s).1)
  {
    if s.segments < c.maxSegments { CreateKeeps(c, s); }
  }

  lemma KeptShape(c: Config, s: State)
    requires Inv(c, s)
    ensures Shape(s)
  {
    InvShape(c, s, []);
  }

  /** A new cache: no entries, one segment. */
  ghost function Start(c: Config): State
    requires ConfigOk(c)
  {
    CreateSegment(c, State([], [], [], [], 0, 0, 0, 0, 0, 0)).1
  }

  lemma StartOk(c: Config)
    requires ConfigOk(c)
    ensures Inv(c, Start(c)) && Shape(Start(c))
  {
    CreateKeeps(c, State([], [], [], [], 0, 0, 0, 0, 0, 0));
    InvShape(c, Start(c), []);
  }

  /** The states of all runs. */
  ghost predicate Reached(c: Config, steps: seq<Step>, s: State)
    requires ConfigOk(c)
  {
    if steps == [] then s == Start(c)
    else exists t :: Reached(c, steps[..|steps| - 1], t) && Shape(t) && s == Apply(c, t, steps[|steps| - 1])
  }

  /** Every state of every run satisfies the invariant. */
  lemma {:induction false} RunsKeep(c: Config, steps: seq<Step>, s: State)
    requires ConfigOk(c) && Reached(c, steps, s)
    ensures Inv(c, s) && Shape(s)
    decreases |steps|
  {
    hide Inv, Shape, Apply, Start;
    if steps == [] {
      StartOk(c);
    } else {
      var front, last := steps[..|steps| - 1], steps[|steps| - 1];
      var t :| Reached(c, front, t) && Shape(t) && s == Apply(c, t, last);
      RunsKeep(c, front, t);
      ApplyKeeps(c, t, last);
    }
  }

  /** In no run does the number of entries go beyond the key limit. */
  lemma {:induction false} RunsWithinLimit(c: Config, steps: seq<Step>, s: State)
    requires ConfigOk(c) && Reached(c, steps, s)
    ensures s.count <= c.maxKeyCount
    decreases |steps|
  {
    hide Inv, Shape, Apply, Start;
    if steps == [] {
      StartCount(c);
    } else {
      var front, last := steps[..|steps| - 1], steps[|steps| - 1];
      var t :| Reached(c, front, t) && Shape(t) && s == Apply(c, t, last);
      RunsKeep(c, front, t);
      RunsWithinLimit(c, front, t);
      ApplyWithinLimit(c, t, last);
    }
  }

  lemma StartCount(c: Config)
    requires ConfigOk(c)
    ensures Start(c).count <= c.maxKeyCount
  {
  }

  lemma ApplyWithinLimit(c: Config, s: State, step: Step)
    requires Inv(c, s) && Shape(s) && s.count <= c.maxKeyCount
    ensures c.perSegment > 0 && Apply(c, s, step).count <= c.maxKeyCount
  {
    hide Layout, Inside, Disjoint, Accounted, Queues, Counted, UniqueKeys, Sized, Set;
    if step.SetStep? { SetWithinLimit(c, s, step.key, step.value, step.now); }
  }

  // ---------------------------------------------------------------- allocated memory

  /** The segments there are have been counted, each with its size. */
  ghost predicate Paid(c: Config, s: State) {
    s.alloced == s.segments * c.segmentSize
  }

  lemma CreatePaid(c: Config, s: State)
    requires c.perSegment > 0 && Paid(c, s)
    ensures Paid(c, CreateSegment(c, s).1)
  {
    assert (s.segments + 1) * c.segmentSize == s.segments * c.segmentSize + c.segmentSize;
  }

  lemma MakeRoomPaid(c: Config, s: State, now: int)
    requires c.perSegment > 0 && Shape(s) && Paid(c, s)
    ensures Paid(c, MakeRoom(c, s, now).1)
    decreases |s.live|, 2, 0
  {
    hide Shape, RecycleFrom, Rearrange, Aged, CreateSegment;
    RecycleShape(c, s, now, -1, 0, 0);
    var t := Recycle(c, s, now, -1).1;
    assert Paid(c, t);
    CreatePaid(c, s);
    CreatePaid(c, t);
    RearrangePaid(c, t, now);
  }

  lemma RearrangePaid(c: Config, s: State, now: int)
    requires c.perSegment > 0 && Shape(s) && Paid(c, s)
    ensures Paid(c, Rearrange(c, s, now).1)
    decreases |s.live|, 1, 0
  {
    hide Shape, Reinsert;
    if !TooFull(c, s) {
      ClearShape(s);
      ReinsertPaid(c, Clear(s), Unexpired(s.live, now), now);
    }
  }

  lemma ReinsertPaid(c: Config, s: State, rest: seq<Entry>, now: int)
    requires c.perSegment > 0 && Shape(s) && Paid(c, s)
    ensures Paid(c, Reinsert(c, s, rest, now).1)
    decreases |s.live| + |rest|, 0, |rest|
  {
    hide Shape, Set, Paid;
    if rest != [] {
      SetPaid(c, s, rest[0].key, rest[0].value, now);
      ReinsertPaid(c, Set(c, s, rest[0].key, rest[0].value, now).1, rest[1..], now);
    }
  }

  lemma AllocPaid(c: Config, s: State, size: int, now: int)
    requires c.perSegment > 0 && Shape(s) && Paid(c, s)
    ensures Paid(c, Alloc(c, s, size, now).1)
    decreases |s.live|, 3, 0
  {
    hide Walk, MakeRoom;
    DoAllocShape(c, s, size, now);
    var (p, t) := DoAlloc(c, s, size, now);
    if p.NoPlace? {
      MakeRoomPaid(c, t, now);
      DoAllocShape(c, MakeRoom(c, t, now).1, size, now);
    }
  }

  lemma SetPaid(c: Config, s: State, key: Bytes, value: Value, now: int)
    requires c.perSegment > 0 && Shape(s) && Paid(c, s)
    ensures Paid(c, Set(c, s, key, value, now).1)
    decreases |s.live|, 4, 0
  {
    hide Shape, RecycleFrom, Alloc, FreeMemory;
    if |key| <= MAX_KEY_SIZE && |value.data| <= c.maxValueSize {
      SetRoomShape(c, s, now);
      RecycleShape(c, s, now, c.recycleKeyOnce, 0, 0);
      var (r, t) := SetRoom(c, s, now);
      if r == OK {
        var size := EntrySize(|key|, |value.data|);
        AllocPaid(c, t, size, now);
        var u := Alloc(c, t, size, now).1;
        if Find(u.live, key) < |u.live| { FreeShape(u, Find(u.live, key)); }
      }
    }
  }

  /** In every state of every run the memory counted as allocated is that of the segments there are. */
  lemma {:induction false} RunsPaid(c: Config, steps: seq<Step>, s: State)
    requires ConfigOk(c) && Reached(c, steps, s)
    ensures s.alloced == s.segments * c.segmentSize
    decreases |steps|
  {
    hide Inv, Shape, Apply, Start;
    if steps == [] {
      StartPaid(c);
    } else {
      var front, last := steps[..|steps| - 1], steps[|steps| - 1];
      var t :| Reached(c, front, t) && Shape(t) && s == Apply(c, t, last);
      RunsPaid(c, front, t);
      ApplyPaid(c, t, last);
    }
  }

  lemma StartPaid(c: Config)
    requires ConfigOk(c)
    ensures Paid(c, Start(c))
  {
  }

  lemma ApplyPaid(c: Config, s: State, step: Step)
    requires c.perSegment > 0 && Shape(s) && Paid(c, s)
    ensures Paid(c, Apply(c, s, step))
  {
    hide Set, CreateSegment, FreeMemory;
    match step
    case SetStep(key, value, now) => SetPaid(c, s, key, value, now);
    case DeleteStep(key) => if Find(s.live, key) < |s.live| { FreeShape(s, Find(s.live, key)); }
    case ExpireStep(key, expires, now) =>
    case ClearStep =>
    case GrowStep => CreatePaid(c, s);
  }

  // ---------------------------------------------------------------- queued stripings

  ghost predicate Queued(s: State, i: int) {
    i in s.doing || i in s.done
  }

  /** A striping in no queue: no allocation will ever use it. */
  ghost predicate Lost(s: State, i: int) {
    0 <= i < |s.st| && !Queued(s, i)
  }

  lemma {:induction false} RemovedIn(q: seq<int>, x: int, y: int)
    ensures y != x ==> (y in Removed(q, x) <==> y in q)
  {
    if q != [] {
      assert y in q <==> y == q[0] || y in q[1..];
      RemovedIn(q[1..], x, y);
    }
  }

  /** Freeing moves stripings between the queues but takes none out and brings no lost one back. */
  lemma FreeQueued(c: Config, s: State, k: nat, i: int)
    requires Queues(c, s.st, s.doing, s.done) && Shape(s) && k < |s.live| && 0 <= s.live[k].striping < |s.st|
    ensures Queued(FreeAt(s, k).0, i) <==> Queued(s, i)
  {
    var e := s.live[k].striping;
    RemovedIn(s.done, e, i);
    assert i in s.doing + [e] <==> i in s.doing || i == e;
    assert s.st[e].done ==> e in s.done;
  }

  lemma {:induction false} RecycleQueued(c: Config, s: State, now: int, once: int, k: nat, cleared: nat, i: int)
    requires Inv(c, s) && Shape(s) && k <= |s.live|
    ensures Queued(RecycleFrom(c, s, now, once, k, cleared).1, i) <==> Queued(s, i)
    decreases |s.live| - k
  {
    hide Inv, Shape, Queued;
    if k < |s.live| {
      if IsValid(s.live[k], now) && !c.recycleValid {
        RecycleQueued(c, s, now, once, k + 1, cleared, i);
      } else {
        FreeInv(c, s, k);
        FreeShape(s, k);
        InvQueues(c, s);
        FreeQueued(c, s, k, i);
        RecycleQueued(c, FreeAt(s, k).0, now, once, k, cleared + 1, i);
      }
    }
  }

  lemma InvQueues(c: Config, s: State)
    requires Inv(c, s)
    ensures Queues(c, s.st, s.doing, s.done)
  {
  }

  /** An allocation succeeds exactly if some striping of the doing queue has room. */
  lemma AllocIff(c: Config, s: State, size: int, now: int)
    requires Inv(c, s) && Shape(s)
    ensures DoAlloc(c, s, size, now).0.Place? <==> exists k :: 0 <= k < |s.doing| && Fits(s.st[s.doing[k]], size)
  {
    WalkFinds(c, s.st, [], s.doing, s.done, size, now);
    WalkExtents(c, s.st, [], s.doing, s.done, size, now);
  }

  // ---------------------------------------------------------------- which stripings the walk loses

  /** Number of stripings the walk visits without success. */
  ghost function Visited(st: seq<Striping>, rest: seq<int>, size: int): (v: nat)
    requires InRange(rest, |st|)
    ensures v <= |rest|
    ensures forall k :: 0 <= k < v ==> !Fits(st[rest[k]], size)
    ensures v < |rest| ==> Fits(st[rest[v]], size)
  {
    if rest == [] || Fits(st[rest[0]], size) then 0 else 1 + Visited(st, rest[1..], size)
  }

  /** Will this striping be taken out of the doing queue when an allocation fails in it? */
  ghost predicate WouldLeave(c: Config, s: Striping) {
    Exhausted(c, s.(failTimes := s.failTimes + 1))
  }

  ghost predicate AllKept(w: Walked, q: seq<int>) {
    forall k :: 0 <= k < |q| ==> q[k] in w.doing || q[k] in w.done
  }

  /** No exhausted striping is visited behind one that stays (`staying`: one has stayed already). */
  ghost predicate LeavesInOrder(c: Config, st: seq<Striping>, rest: seq<int>, size: int, staying: bool)
    requires InRange(rest, |st|)
  {
    var v := Visited(st, rest, size);
    forall k :: 0 <= k < v && WouldLeave(c, st[rest[k]]) ==>
      !staying && forall j :: 0 <= j < k ==> WouldLeave(c, st[rest[j]])
  }

  /** The walk puts no striping into a queue that was in neither. */
  lemma {:induction false} WalkFrom(c: Config, st: seq<Striping>, kept: seq<int>, rest: seq<int>, done: seq<int>, size: int, now: int, i: int)
    requires InRange(rest, |st|)
    ensures var w := Walk(c, st, kept, rest, done, size, now);
            && (i in w.doing || i in w.done ==> i in kept || i in rest || i in done)
            && (i in kept ==> i in w.doing) && (i in done ==> i in w.done)
    decreases |rest|
  {
    if rest != [] && !Fits(st[rest[0]], size) {
      var h, r := rest[0], rest[1..];
      var s := st[h].(failTimes := st[h].failTimes + 1);
      assert i in rest <==> i == h || i in r;
      if !Exhausted(c, s) {
        assert i in kept + [h] <==> i in kept || i == h;
        WalkFrom(c, st[h := s], kept + [h], r, done, size, now, i);
      } else if kept == [] || c.documentedRemove {
        assert i in done + [h] <==> i in done || i == h;
        WalkFrom(c, st[h := s.(done := true)], kept, r, done + [h], size, now, i);
      } else {
        WalkFrom(c, st[h := s], kept, r, done, size, now, i);
      }
    }
  }

  lemma {:induction false} VisitedSame(st: seq<Striping>, st': seq<Striping>, rest: seq<int>, size: int)
    requires InRange(rest, |st|) && |st'| == |st| && forall k :: 0 <= k < |rest| ==> st'[rest[k]] == st[rest[k]]
    ensures Visited(st', rest, size) == Visited(st, rest, size)
  {
    if rest != [] { VisitedSame(st, st', rest[1..], size); }
  }

  /** What the later stripings of the walk look like once the first has been visited. */
  lemma VisitedStep(c: Config, st: seq<Striping>, t: Striping, rest: seq<int>, size: int)
    requires InRange(rest, |st|) && NoDup(rest) && rest != [] && !Fits(st[rest[0]], size)
    ensures var st' := st[rest[0] := t];
            && Visited(st', rest[1..], size) == Visited(st, rest, size) - 1
            && (forall k :: 0 <= k < |rest[1..]| ==> st'[rest[1..][k]] == st[rest[k + 1]])
            && (forall k :: 0 < k < |rest| ==> st[rest[k]] == st'[rest[1..][k - 1]])
  {
    var h, r := rest[0], rest[1..];
    var st' := st[h := t];
    forall k | 0 <= k < |r| ensures st'[r[k]] == st[rest[k + 1]] && st'[r[k]] == st[r[k]] { assert rest[k + 1] != rest[0]; }
    VisitedSame(st, st', r, size);
  }

  /** The order condition after a striping that stays has been visited. */
  lemma StayStep(c: Config, st: seq<Striping>, t: Striping, rest: seq<int>, size: int, staying: bool)
    requires InRange(rest, |st|) && NoDup(rest) && rest != [] && !Fits(st[rest[0]], size) && !WouldLeave(c, st[rest[0]])
    ensures LeavesInOrder(c, st, rest, size, staying) <==> LeavesInOrder(c, st[rest[0] := t], rest[1..], size, true)
  {
    hide WouldLeave;
    VisitedStep(c, st, t, rest, size);
  }

  /** The order condition after a striping that leaves has been visited. */
  lemma LeaveStep(c: Config, st: seq<Striping>, t: Striping, rest: seq<int>, size: int, staying: bool)
    requires InRange(rest, |st|) && NoDup(rest) && rest != [] && !Fits(st[rest[0]], size) && WouldLeave(c, st[rest[0]])
    ensures LeavesInOrder(c, st, rest, size, staying) <==> !staying && LeavesInOrder(c, st[rest[0] := t], rest[1..], size, false)
  {
    hide WouldLeave;
    VisitedStep(c, st, t, rest, size);
    var v, r, st' := Visited(st, rest, size), rest[1..], st[rest[0] := t];
    if LeavesInOrder(c, st, rest, size, staying) {
      forall k | 0 <= k < v - 1 && WouldLeave(c, st'[r[k]]) ensures forall j :: 0 <= j < k ==> WouldLeave(c, st'[r[j]]) {
        assert WouldLeave(c, st[rest[k + 1]]);
        forall j | 0 <= j < k ensures WouldLeave(c, st'[r[j]]) { assert WouldLeave(c, st[rest[j + 1]]); }
      }
    }
  }

  lemma LeavesNone(c: Config, st: seq<Striping>, rest: seq<int>, size: int, staying: bool)
    requires InRange(rest, |st|) && (rest == [] || Fits(st[rest[0]], size))
    ensures LeavesInOrder(c, st, rest, size, staying)
  {
  }

  /** Which stripings an allocation attempt loses, exactly: it loses none if and only if removal works as documented,
      or every striping that leaves the queue is visited before any that stays. */
  lemma {:induction false} WalkLosesNone(c: Config, st: seq<Striping>, kept: seq<int>, rest: seq<int>, done: seq<int>, size: int, now: int)
    requires InRange(rest, |st|) && NoDup(rest)
    requires forall k :: 0 <= k < |rest| ==> rest[k] !in kept && rest[k] !in done
    ensures AllKept(Walk(c, st, kept, rest, done, size, now), rest) <==>
              c.documentedRemove || LeavesInOrder(c, st, rest, size, kept != [])
    decreases |rest|
  {
    hide LeavesInOrder;
    if rest == [] || Fits(st[rest[0]], size) {
      LeavesNone(c, st, rest, size, kept != []);
      assert forall k :: 0 <= k < |rest| ==> (kept + rest)[|kept| + k] == rest[k];
    } else {
      var h, r := rest[0], rest[1..];
      var s := st[h].(failTimes := st[h].failTimes + 1);
      RestApart(rest, kept, done);
      WalkKeptRest(Walk(c, st, kept, rest, done, size, now), rest);
      if !Exhausted(c, s) {
        WalkFrom(c, st[h := s], kept + [h], r, done, size, now, h);
        WalkLosesNone(c, st[h := s], kept + [h], r, done, size, now);
        StayStep(c, st, s, rest, size, kept != []);
      } else if kept == [] || c.documentedRemove {
        WalkFrom(c, st[h := s.(done := true)], kept, r, done + [h], size, now, h);
        WalkLosesNone(c, st[h := s.(done := true)], kept, r, done + [h], size, now);
        LeaveStep(c, st, s.(done := true), rest, size, kept != []);
      } else {
        WalkFrom(c, st[h := s], kept, r, done, size, now, h);
        LeaveStep(c, st, s, rest, size, kept != []);
      }
    }
  }

  lemma RestApart(rest: seq<int>, kept: seq<int>, done: seq<int>)
    requires NoDup(rest) && rest != []
    requires forall k :: 0 <= k < |rest| ==> rest[k] !in kept && rest[k] !in done
    ensures NoDup(rest[1..]) && rest[0] !in rest[1..]
    ensures forall k :: 0 <= k < |rest[1..]| ==> rest[1..][k] !in kept + [rest[0]] && rest[1..][k] !in done + [rest[0]]
    ensures forall k :: 0 <= k < |rest[1..]| ==> rest[1..][k] !in kept && rest[1..][k] !in done
  {
    var r := rest[1..];
    forall k | 0 <= k < |r| ensures r[k] == rest[k + 1] && r[k] != rest[0] {
      assert rest[k + 1] != rest[0];
    }
  }

  lemma WalkKeptRest(w: Walked, rest: seq<int>)
    requires rest != []
    ensures AllKept(w, rest) <==> (rest[0] in w.doing || rest[0] in w.done) && AllKept(w, rest[1..])
  {
    if (rest[0] in w.doing || rest[0] in w.done) && AllKept(w, rest[1..]) {
      forall k | 0 <= k < |rest| ensures rest[k] in w.doing || rest[k] in w.done {
        if k > 0 { assert rest[1..][k - 1] == rest[k]; }
      }
    }
  }

  // ---------------------------------------------------------------- a lost striping stays lost

  lemma AllocQueued(c: Config, s: State, size: int, now: int, i: int)
    requires Shape(s) && Queued(DoAlloc(c, s, size, now).1, i)
    ensures Queued(s, i)
  {
    WalkFrom(c, s.st, [], s.doing, s.done, size, now, i);
  }

  lemma RoomQueued(c: Config, s: State, now: int, i: int)
    requires Inv(c, s) && Shape(s) && i < |s.st| && Queued(MakeRoom(c, s, now).1, i) && !RoomRearranges(c, s, now)
    ensures Queued(s, i)
  {
    hide Inv, RecycleFrom, Reinsert;
    RecycleQueued(c, s, now, -1, 0, 0, i);
    RecycleShape(c, s, now, -1, 0, 0);
    InvSegment(c, s);
    var t := if s.segments >= c.maxSegments || Aged(c, s, now) then Recycle(c, s, now, -1).1 else s;
    if i in t.doing + Indices(|t.st|, |t.st| + c.perSegment) { assert i in t.doing; }
  }

  lemma FullAllocQueued(c: Config, s: State, size: int, now: int, i: int)
    requires Inv(c, s) && Shape(s) && size > 0 && i < |s.st| && Queued(Alloc(c, s, size, now).1, i)
    requires !Rearranges(c, s, size, now)
    ensures Queued(s, i)
  {
    hide Inv, Queued, Shape, MakeRoom, DoAlloc, RoomRearranges;
    InvSegment(c, s);
    AllocFirst(c, s, size, now);
    var (p, s1) := DoAlloc(c, s, size, now);
    if p.NoPlace? {
      var (r, s2) := MakeRoom(c, s1, now);
      if r == OK { AllocQueued(c, s2, size, now, i); }
      RoomQueued(c, s1, now, i);
    }
    AllocQueued(c, s, size, now, i);
  }

  lemma AllocFirst(c: Config, s: State, size: int, now: int)
    requires Inv(c, s) && Shape(s) && size > 0
    ensures InRange(s.doing, |s.st|)
    ensures var (p, t) := DoAlloc(c, s, size, now); Shape(t) && |t.st| == |s.st| && (p.NoPlace? ==> Inv(c, t))
  {
    DoAllocShape(c, s, size, now);
    DoAllocKeeps(c, s, size, now);
  }

  lemma InstallQueued(c: Config, s: State, p: Place, key: Bytes, value: Value, i: int)
    requires Queues(c, s.st, s.doing, s.done) && Shape(s) && p.Place? && 0 <= p.striping < |s.st|
    requires Queued(Install(s, p, key, value), i)
    ensures Queued(s, i)
  {
    var k := Find(s.live, key);
    if k < |s.live| {
      FreeIndex(s, k);
      FreeQueued(c, s, k, i);
    }
  }

  lemma PendingQueues(c: Config, s: State, pending: seq<Entry>)
    requires InvWith(c, s, pending)
    ensures Queues(c, s.st, s.doing, s.done)
  {
  }

  lemma SetQueued(c: Config, s: State, key: Bytes, value: Value, now: int, i: int)
    requires Inv(c, s) && Shape(s) && i < |s.st| && Queued(Set(c, s, key, value, now).1, i)
    requires !SetRearranges(c, s, key, value, now)
    ensures Queued(s, i)
  {
    hide Inv, InvWith, Queued, Shape, Alloc, Recycle, Install, Rearranges;
    InvSegment(c, s);
    if |key| <= MAX_KEY_SIZE && |value.data| <= c.maxValueSize {
      SetRoomShape(c, s, now);
      SetRoomKeeps(c, s, now);
      SetRoomQueued(c, s, now, i);
      var (r, s1) := SetRoom(c, s, now);
      if r == OK {
        var size := EntrySize(|key|, |value.data|);
        AllocKeeps(c, s1, size, now);
        var (p, s2) := Alloc(c, s1, size, now);
        if p.Place? {
          PendingQueues(c, s2, Pending(p));
          InstallQueued(c, s2, p, key, value, i);
        }
        FullAllocQueued(c, s1, size, now, i);
      }
    }
  }

  lemma SetRoomQueued(c: Config, s: State, now: int, i: int)
    requires Inv(c, s) && Shape(s)
    ensures Queued(SetRoom(c, s, now).1, i) <==> Queued(s, i)
    ensures |SetRoom(c, s, now).1.st| == |s.st|
  {
    RecycleQueued(c, s, now, c.recycleKeyOnce, 0, 0, i);
    RecycleShape(c, s, now, c.recycleKeyOnce, 0, 0);
  }

  lemma GrowQueued(c: Config, s: State, i: int)
    requires c.perSegment > 0 && i < |s.st| && Queued(CreateSegment(c, s).1, i)
    ensures Queued(s, i)
  {
    var t := CreateSegment(c, s).1;
    if i in t.doing {
      var k :| 0 <= k < |t.doing| && t.doing[k] == i;
      assert k < |s.doing| && s.doing[k] == i;
    }
  }

  /** Only clearing the whole cache, or a set that comes to rearrange it, brings a lost striping back into use. */
  lemma LostUntilCleared(c: Config, s: State, step: Step, i: int)
    requires Inv(c, s) && Shape(s) && Lost(s, i)
    requires step.SetStep? ==> !SetRearranges(c, s, step.key, step.value, step.now)
    ensures if step.ClearStep? then Queued(Apply(c, s, step), i) else !Queued(Apply(c, s, step), i)
  {
    hide Inv, Shape, Set, CreateSegment, FreeAt, Find, SetRearranges;
    InvSegment(c, s);
    match step
    case SetStep(key, value, now) =>
      if Queued(Set(c, s, key, value, now).1, i) { SetQueued(c, s, key, value, now, i); }
    case DeleteStep(key) =>
      var k := Find(s.live, key);
      if k < |s.live| {
        FreeIndex(s, k);
        InvQueues(c, s);
        FreeQueued(c, s, k, i);
      }
    case ExpireStep(key, expires, now) =>
    case ClearStep => assert Clear(s).doing[i] == i;
    case GrowStep => if Queued(CreateSegment(c, s).1, i) { GrowQueued(c, s, i); }
  }
}
