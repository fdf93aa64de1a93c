/** The lock of shm_lock.c as interleaved steps of processes that may crash anywhere: a mutex, the pid of its owner, a file
    lock for whoever recovers from a dead owner, and the cache that all this protects. */
module ShmLock {
  import opened ShmModel
  import opened ShmInvariant
  import opened ShmTheorems

  /** Where a process is. Those that look after a dead owner remember its pid. */
  datatype Pc =
    | Idle
    | Trying                        // in the retry loop of shm_lock
    | Probing(last: int)            // has read lock.pid
    | Suspecting(last: int)         // the probe said that this process is gone; waits for the file lock
    | Holding(last: int)            // has the file lock
    | Matched(last: int)            // lock.pid was still the dead owner's
    | Clearing(last: int)           // has zeroed lock.pid; clears the cache bit by bit
    | Cleared(last: int)            // has cleared the cache
    | Releasing                     // is about to drop the file lock
    | Acquired                      // has the mutex, lock.pid not written yet
    | Critical                      // lock.pid written
    | Mutating(target: State)       // in the middle of an operation that leads to `target`
    | Leaving                       // lock.pid zeroed, mutex not released yet

  datatype Proc = Proc(pc: Pc, alive: bool)

  /** `mutex`, `pid` and `file` are 0 or a process. */
  datatype World = World(procs: map<int, Proc>, mutex: int, pid: int, file: int, cache: State)

  datatype Action =
    | Start | TryLock | WritePid | Begin(step: Step, torn: State) | End | ZeroPid | Unlock
    | ReadPid | Probe | LockFile | LockFileFails | Compare | ZeroDead | Wipe(torn: State) | ClearAll | Release | UnlockFile
    | Crash

  ghost predicate CacheOk(c: Config, s: State) {
    Inv(c, s) && Shape(s)
  }

  predicate Alive(w: World, p: int) {
    p in w.procs && w.procs[p].alive
  }

  /** Process p, alive, is at this point of the program. */
  predicate At(w: World, p: int, pc: Pc) {
    Alive(w, p) && w.procs[p].pc == pc
  }

  ghost predicate Enabled(c: Config, w: World, p: int, a: Action) {
    Alive(w, p) &&
    var pc := w.procs[p].pc;
    match a
    case Start => pc.Idle?
    case TryLock => pc.Trying? && w.mutex == 0
    case WritePid => pc.Acquired?
    case Begin(step, torn) => pc.Critical? && c.perSegment > 0 && Shape(w.cache) && Intact(c, torn)
    case End => pc.Mutating?
    case ZeroPid => pc.Critical?
    case Unlock => pc.Leaving?
    case ReadPid => pc.Trying? && w.pid > 0
    case Probe => pc.Probing?
    case LockFile => pc.Suspecting? && w.file == 0
    case LockFileFails => pc.Suspecting?
    case Compare => pc.Holding?
    case ZeroDead => pc.Matched?
    case Wipe(torn) => pc.Clearing? && Intact(c, torn)
    case ClearAll => pc.Clearing?
    case Release => pc.Cleared?
    case UnlockFile => pc.Releasing?
    case Crash => true
  }

  function Goto(w: World, p: int, pc: Pc): World
    requires p in w.procs
  {
    w.(procs := w.procs[p := w.procs[p].(pc := pc)])
  }

  ghost function After(c: Config, w: World, p: int, a: Action): World
    requires Enabled(c, w, p, a)
  {
    match a
    case Start => Goto(w, p, Trying)
    case TryLock => Goto(w, p, Acquired).(mutex := p)
    case WritePid => Goto(w, p, Critical).(pid := p)
    case Begin(step, torn) => Goto(w, p, Mutating(Apply(c, w.cache, step))).(cache := torn)
    case End => Goto(w, p, Critical).(cache := w.procs[p].pc.target)
    case ZeroPid => Goto(w, p, Leaving).(pid := 0)
    case Unlock => Goto(w, p, Idle).(mutex := 0)
    case ReadPid => Goto(w, p, Probing(w.pid))
    case Probe => Goto(w, p, if Alive(w, w.procs[p].pc.last) then Trying else Suspecting(w.procs[p].pc.last))
    case LockFile => Goto(w, p, Holding(w.procs[p].pc.last)).(file := p)
    case LockFileFails => Goto(w, p, Trying)
    case Compare => Goto(w, p, if w.procs[p].pc.last == w.pid then Matched(w.pid) else Releasing)
    case ZeroDead => Goto(w, p, Clearing(w.procs[p].pc.last)).(pid := 0)
    case Wipe(torn) => w.(cache := torn)
    case ClearAll => Goto(w, p, Cleared(w.procs[p].pc.last)).(cache := Clear(w.cache))
    case Release => Goto(w, p, Releasing).(mutex := 0)
    case UnlockFile => Goto(w, p, Trying).(file := 0)
    case Crash => w.(procs := w.procs[p := w.procs[p].(alive := false)], file := if w.file == p then 0 else w.file)
  }

  // ---------------------------------------------------------------- the invariant

  predicate OwnsMutex(pc: Pc) { pc.Acquired? || pc.Critical? || pc.Mutating? || pc.Leaving? }

  predicate WroteItsPid(pc: Pc) { pc.Critical? || pc.Mutating? }

  predicate OwnsFile(pc: Pc) { pc.Holding? || pc.Matched? || pc.Clearing? || pc.Cleared? || pc.Releasing? }

  predicate Accuses(pc: Pc) { pc.Suspecting? || pc.Holding? || pc.Matched? || pc.Clearing? || pc.Cleared? }

  ghost predicate OkAt(c: Config, w: World, p: int)
    requires p in w.procs
  {
    var pc := w.procs[p].pc;
    && p > 0
    && (pc.Mutating? ==> CacheOk(c, pc.target))
    && (pc.Probing? ==> pc.last in w.procs)
    && (Accuses(pc) ==> pc.last in w.procs && !Alive(w, pc.last))
    && (w.procs[p].alive ==>
          && (OwnsMutex(pc) ==> w.mutex == p)
          && (pc.Acquired? || pc.Leaving? ==> w.pid == 0)
          && (WroteItsPid(pc) ==> w.pid == p)
          && (OwnsFile(pc) ==> w.file == p)
          && (pc.Matched? ==> w.pid == pc.last)
          && (pc.Clearing? || pc.Cleared? ==> w.mutex == pc.last && w.pid == 0)
          && (pc.Cleared? ==> CacheOk(c, w.cache) && w.cache.live == []))
  }

  ghost predicate Ok(c: Config, w: World) {
    && ConfigOk(c) && Intact(c, w.cache)
    && (forall p :: p in w.procs ==> OkAt(c, w, p))
    && (w.mutex != 0 ==> w.mutex in w.procs && OwnsMutex(w.procs[w.mutex].pc))
    && (w.pid != 0 ==> w.mutex == w.pid && w.pid in w.procs && WroteItsPid(w.procs[w.pid].pc))
    && (w.file != 0 ==> Alive(w, w.file) && OwnsFile(w.procs[w.file].pc))
    && (CacheOk(c, w.cache) || (w.mutex != 0 && w.mutex in w.procs && (w.procs[w.mutex].pc.Mutating? || !Alive(w, w.mutex))))
  }

  /** The cache as the operation leads to it, cleared, or half done: always with intact layout. */
  lemma OkIntact(c: Config, s: State)
    requires Inv(c, s)
    ensures Intact(c, s)
  {
  }

  lemma ClearOk(c: Config, s: State)
    requires Intact(c, s)
    ensures CacheOk(c, Clear(s)) && Intact(c, Clear(s)) && Clear(s).live == []
  {
    ClearEstablishes(c, s);
    InvShape(c, Clear(s), []);
    OkIntact(c, Clear(s));
  }

  predicate Recovers(a: Action) {
    a.ReadPid? || a.Probe? || a.LockFile? || a.LockFileFails? || a.Compare? || a.ZeroDead? || a.Wipe? || a.ClearAll? || a.Release? || a.UnlockFile?
  }

  lemma LockStepOk(c: Config, w: World, p: int, a: Action)
    requires Ok(c, w) && Enabled(c, w, p, a) && !Recovers(a) && !a.Crash?
    ensures Ok(c, After(c, w, p, a))
  {
    hide CacheOk, Intact, Inv, Shape, Apply, Clear;
    assert OkAt(c, w, p);
    if a.Begin? { BeginOk(c, w.cache, a.step); }
    if a.End? { EndOk(c, w.procs[p].pc.target); }
    var t := After(c, w, p, a);
    forall r | r in t.procs ensures OkAt(c, t, r) {
      assert OkAt(c, w, r);
    }
  }

  /** The steps up to the comparison of lock.pid with the dead owner's change neither mutex nor cache. */
  predicate Looks(a: Action) {
    a.ReadPid? || a.Probe? || a.LockFile? || a.LockFileFails? || a.Compare? || a.UnlockFile?
  }

  lemma LookStepOk(c: Config, w: World, p: int, a: Action)
    requires Ok(c, w) && Enabled(c, w, p, a) && Looks(a)
    ensures Ok(c, After(c, w, p, a))
  {
    hide CacheOk, Intact, Inv, Shape, Apply, Clear;
    assert OkAt(c, w, p);
    var t := After(c, w, p, a);
    forall r | r in t.procs ensures OkAt(c, t, r) {
      assert OkAt(c, w, r);
    }
  }

  lemma RecoveryStepOk(c: Config, w: World, p: int, a: Action)
    requires Ok(c, w) && Enabled(c, w, p, a) && Recovers(a) && !Looks(a)
    ensures Ok(c, After(c, w, p, a))
  {
    hide CacheOk, Intact, Inv, Shape, Apply, Clear;
    assert OkAt(c, w, p);
    if a.ClearAll? { ClearOk(c, w.cache); }
    var t := After(c, w, p, a);
    forall r | r in t.procs ensures OkAt(c, t, r) {
      assert OkAt(c, w, r);
    }
  }

  lemma CrashOk(c: Config, w: World, p: int)
    requires Ok(c, w) && Alive(w, p)
    ensures Ok(c, After(c, w, p, Crash))
  {
    hide CacheOk, Intact, Inv, Shape, Apply, Clear;
    assert OkAt(c, w, p);
    var t := After(c, w, p, Crash);
    forall r | r in t.procs ensures OkAt(c, t, r) {
      assert OkAt(c, w, r);
    }
  }

  /** Every step of every process, crashes included, keeps the invariant. */
  lemma StepOk(c: Config, w: World, p: int, a: Action)
    requires Ok(c, w) && Enabled(c, w, p, a)
    ensures Ok(c, After(c, w, p, a))
  {
    hide Ok, After;
    if a.Crash? { CrashOk(c, w, p); }
    else if Looks(a) { LookStepOk(c, w, p, a); }
    else if Recovers(a) { RecoveryStepOk(c, w, p, a); }
    else { LockStepOk(c, w, p, a); }
  }

  /** An operation may be cut short anywhere in the creation of a segment, too. */
  lemma CreationMayTear(c: Config, w: World, p: int, step: Step, n: nat, partial: seq<Striping>, torn: State)
    requires Ok(c, w) && At(w, p, Critical) && w.cache.segments < c.maxSegments && n + |partial| <= c.perSegment
    requires forall i :: 0 <= i < |partial| ==> Blank(partial[i])
    requires torn.segments == w.cache.segments + 1
    requires SamePlaces(w.cache.st + FreshStripings(c, w.cache.segments, n) + partial, torn.st)
    ensures Enabled(c, w, p, Begin(step, torn))
  {
    hide Inv, Layout;
    assert OkAt(c, w, p);
    TornCreationIntact(c, w.cache, n, partial, torn);
  }

  lemma BeginOk(c: Config, s: State, step: Step)
    requires c.perSegment > 0 && Shape(s)
    ensures CacheOk(c, s) ==> CacheOk(c, Apply(c, s, step))
  {
    if CacheOk(c, s) { ApplyKeeps(c, s, step); }
  }

  lemma EndOk(c: Config, s: State)
    ensures CacheOk(c, s) ==> Intact(c, s)
  {
    if CacheOk(c, s) { OkIntact(c, s); }
  }

  // ---------------------------------------------------------------- runs

  type Run = seq<(int, Action)>

  /** The run leads from w to t. */
  ghost predicate Leads(c: Config, w: World, run: Run, t: World)
    decreases |run|
  {
    if run == [] then t == w
    else Enabled(c, w, run[0].0, run[0].1) && Leads(c, After(c, w, run[0].0, run[0].1), run[1..], t)
  }

  ghost predicate Initial(c: Config, w: World) {
    && (forall p :: p in w.procs ==> p > 0 && w.procs[p] == Proc(Idle, true))
    && w.mutex == 0 && w.pid == 0 && w.file == 0 && CacheOk(c, w.cache)
  }

  /** Any processes over a freshly created cache. */
  lemma InitialWorld(c: Config, pids: set<int>) returns (w: World)
    requires ConfigOk(c) && forall p :: p in pids ==> p > 0
    ensures Initial(c, w) && w.procs.Keys == pids
  {
    StartOk(c);
    w := World(map p | p in pids :: Proc(Idle, true), 0, 0, 0, ShmTheorems.Start(c));
  }

  lemma InitialOk(c: Config, w: World)
    requires Initial(c, w)
    ensures Ok(c, w)
  {
    OkIntact(c, w.cache);
  }

  lemma {:induction false} LeadsOk(c: Config, w: World, run: Run, t: World)
    requires Ok(c, w) && Leads(c, w, run, t)
    ensures Ok(c, t)
    decreases |run|
  {
    hide Ok, Enabled, After;
    if run != [] {
      StepOk(c, w, run[0].0, run[0].1);
      LeadsOk(c, After(c, w, run[0].0, run[0].1), run[1..], t);
    }
  }

  /** In the critical section, or at work on it for a dead owner. */
  predicate Inside(pc: Pc) {
    OwnsMutex(pc) || pc.Matched? || pc.Clearing? || pc.Cleared?
  }

  /** Over all interleavings at most one live process is in the critical section or the recovery of it. */
  lemma MutualExclusion(c: Config, w: World, run: Run, t: World, p: int, r: int)
    requires Initial(c, w) && Leads(c, w, run, t)
    requires Alive(t, p) && Alive(t, r) && Inside(t.procs[p].pc) && Inside(t.procs[r].pc)
    ensures p == r
  {
    hide CacheOk, Intact;
    InitialOk(c, w);
    LeadsOk(c, w, run, t);
    assert OkAt(c, t, p) && OkAt(c, t, r);
  }

  /** The mutex is taken only when the cache is whole, whatever its earlier owners left behind. */
  lemma LockFindsCacheWhole(c: Config, w: World, run: Run, t: World, p: int)
    requires Initial(c, w) && Leads(c, w, run, t) && Enabled(c, t, p, TryLock)
    ensures t.pid == 0 && Inv(c, t.cache)
  {
    InitialOk(c, w);
    LeadsOk(c, w, run, t);
  }

  /** The mutex is forced open only when its owner is dead, and with the cache cleared. */
  lemma ForcedOnlyWhenDead(c: Config, w: World, run: Run, t: World, p: int)
    requires Initial(c, w) && Leads(c, w, run, t) && Enabled(c, t, p, Release)
    ensures At(t, p, Cleared(t.mutex)) && t.mutex in t.procs && !Alive(t, t.mutex) && Inv(c, t.cache) && t.cache.live == []
  {
    hide Inv, Intact, Leads, Initial, Ok, Enabled;
    InitialOk(c, w);
    LeadsOk(c, w, run, t);
    ForcedFacts(c, t, p);
  }

  lemma ForcedFacts(c: Config, w: World, p: int)
    requires Ok(c, w) && Enabled(c, w, p, Release)
    ensures At(w, p, Cleared(w.mutex)) && w.mutex in w.procs && !Alive(w, w.mutex) && CacheOk(c, w.cache) && w.cache.live == []
  {
    hide CacheOk, Intact, Inv, Shape, Apply, Clear;
    assert OkAt(c, w, p);
  }

  // ---------------------------------------------------------------- a live owner

  /** Process p, alive, has the mutex. */
  predicate Owns(w: World, p: int) {
    Alive(w, p) && w.mutex == p && OwnsMutex(w.procs[p].pc)
  }

  lemma OwnerOwns(c: Config, w: World)
    requires Ok(c, w) && w.mutex != 0 && Alive(w, w.mutex)
    ensures Owns(w, w.mutex) && w.mutex > 0
  {
    assert OkAt(c, w, w.mutex);
  }

  /** What the owner does next to get rid of the mutex. */
  function LeaveAction(pc: Pc): Action {
    match pc
    case Acquired => WritePid
    case Mutating(_) => End
    case Critical => ZeroPid
    case _ => Unlock
  }

  /** The cache as it will be when the owner's operation, if it is in the middle of one, is done. */
  function Outcome(w: World, p: int): State
    requires p in w.procs
  {
    if w.procs[p].pc.Mutating? then w.procs[p].pc.target else w.cache
  }

  function StepsToLeave(pc: Pc): nat {
    match pc
    case Acquired => 3
    case Mutating(_) => 3
    case Critical => 2
    case Leaving => 1
    case _ => 0
  }

  lemma LeaveStep(c: Config, w: World, p: int)
    requires Ok(c, w) && Owns(w, p)
    ensures Enabled(c, w, p, LeaveAction(w.procs[p].pc))
    ensures var t := After(c, w, p, LeaveAction(w.procs[p].pc));
            && t.procs == w.procs[p := t.procs[p]] && Alive(t, p) && t.file == w.file
            && (if w.procs[p].pc.Leaving? then
                  t.mutex == 0 && t.pid == 0 && t.procs[p].pc.Idle? && t.cache == w.cache
                else
                  Owns(t, p) && StepsToLeave(t.procs[p].pc) == StepsToLeave(w.procs[p].pc) - 1
                  && Outcome(t, p) == Outcome(w, p))
  {
    hide CacheOk, Intact;
    assert OkAt(c, w, p);
  }

  /** A run of process p alone. */
  predicate OnlyBy(run: Run, p: int) {
    forall i :: 0 <= i < |run| ==> run[i].0 == p
  }

  /** A live owner can always get rid of the mutex with its own next steps, three at most: nobody has the mutex then, no pid is on
      record, the owner is idle, the cache is what its last operation was to leave, and every other process is where it was. */
  lemma {:induction false} OwnerLeaves(c: Config, w: World, p: int) returns (run: Run, t: World)
    requires Ok(c, w) && Owns(w, p)
    ensures Leads(c, w, run, t) && OnlyBy(run, p) && |run| == StepsToLeave(w.procs[p].pc) <= 3
    ensures t.mutex == 0 && t.pid == 0 && At(t, p, Idle) && t.cache == Outcome(w, p)
    ensures t.procs == w.procs[p := t.procs[p]] && t.file == w.file
    decreases StepsToLeave(w.procs[p].pc)
  {
    hide Ok, Enabled, After, LeaveAction;
    LeaveStep(c, w, p);
    var a := LeaveAction(w.procs[p].pc);
    var next := After(c, w, p, a);
    if w.procs[p].pc.Leaving? {
      run, t := [], next;
    } else {
      StepOk(c, w, p, a);
      run, t := OwnerLeaves(c, next, p);
    }
    LeadsFirst(c, w, p, a, run, t);
    run := [(p, a)] + run;
  }

  /** So in no run does a live owner hold the mutex in every continuation, and after its steps every live process that waits for it
      can take it. */
  lemma LiveOwnerReleases(c: Config, start: World, past: Run, w: World) returns (run: Run, t: World)
    requires Initial(c, start) && Leads(c, start, past, w) && w.mutex != 0 && Alive(w, w.mutex)
    ensures Leads(c, w, run, t) && OnlyBy(run, w.mutex) && |run| <= 3
    ensures t.mutex == 0 && t.pid == 0 && At(t, w.mutex, Idle) && t.cache == Outcome(w, w.mutex) && Inv(c, t.cache)
    ensures forall r :: At(w, r, Trying) ==> At(t, r, Trying) && Enabled(c, t, r, TryLock)
    ensures !HeldForever(c, w)
  {
    hide CacheOk, Intact, Leads, Initial, OkAt, Inv;
    InitialOk(c, start);
    LeadsOk(c, start, past, w);
    OwnerOwns(c, w);
    run, t := OwnerLeaves(c, w, w.mutex);
    LeadsOk(c, w, run, t);
    FreeIsWhole(c, t);
    assert Leads(c, w, run, t) && t.mutex != w.mutex;
  }

  lemma FreeIsWhole(c: Config, w: World)
    requires Ok(c, w) && w.mutex == 0
    ensures Inv(c, w.cache)
  {
  }

  /** The owner's steps towards the release; another operation begun takes one back. */
  function Left(run: Run, p: int): int {
    if run == [] then 0
    else (if run[0].0 != p then 0 else if run[0].1.Begin? then -1 else 1) + Left(run[1..], p)
  }

  /** The owner does not die in this run. */
  predicate Lives(run: Run, p: int) {
    forall i :: 0 <= i < |run| ==> run[i] != (p, Crash)
  }

  /** One step of a run in which p owns the mutex: p comes nearer to the release as the step says, or has released it. */
  lemma OwnerStep(c: Config, w: World, r: int, a: Action, p: int)
    requires Ok(c, w) && Owns(w, p) && Enabled(c, w, r, a) && (r, a) != (p, Crash)
    ensures var t := After(c, w, r, a);
            t.mutex == 0 || (Owns(t, p) && StepsToLeave(t.procs[p].pc) + Left([(r, a)], p) <= StepsToLeave(w.procs[p].pc))
    ensures r != p ==> After(c, w, r, a).cache == w.cache && Owns(After(c, w, r, a), p)
                       && After(c, w, r, a).procs[p] == w.procs[p]
  {
    hide CacheOk, Intact, Inv, Shape, Apply, Clear;
    assert OkAt(c, w, p);
    assert OkAt(c, w, r);
    assert [(r, a)][1..] == [];
  }

  /** In every run a live owner has released the mutex after at most three steps of its own, two more for every further operation
      it begins, whatever the others do. */
  lemma OwnerReleasesWithin(c: Config, start: World, past: Run, w: World, run: Run, t: World) returns (k: nat, u: World)
    requires Initial(c, start) && Leads(c, start, past, w) && w.mutex != 0 && Alive(w, w.mutex)
    requires Leads(c, w, run, t) && Lives(run, w.mutex) && Left(run, w.mutex) >= 3
    ensures k <= |run| && Leads(c, w, run[..k], u) && u.mutex == 0
  {
    hide CacheOk, Intact, Leads, Initial, OkAt, Lives, Left;
    InitialOk(c, start);
    LeadsOk(c, start, past, w);
    OwnerOwns(c, w);
    StillInside(w, w.mutex);
    k, u := LeavesInTime(c, w, run, t, w.mutex);
  }

  lemma {:induction false} LeavesInTime(c: Config, w: World, run: Run, t: World, p: int) returns (k: nat, u: World)
    requires Ok(c, w) && Owns(w, p) && Leads(c, w, run, t) && Lives(run, p) && Left(run, p) >= StepsToLeave(w.procs[p].pc)
    ensures k <= |run| && Leads(c, w, run[..k], u) && u.mutex == 0
    decreases |run|
  {
    hide Ok, Enabled, After;
    StillInside(w, p);
    var r, a := run[0].0, run[0].1;
    var next := After(c, w, r, a);
    assert run[0] != (p, Crash);
    OwnerStep(c, w, r, a, p);
    StepOk(c, w, r, a);
    LeftFirst(run, p);
    if next.mutex == 0 {
      k, u := 0, next;
    } else {
      LivesOn(run, p);
      k, u := LeavesInTime(c, next, run[1..], t, p);
    }
    LeadsFirst(c, w, r, a, run[1..][..k], u);
    k := k + 1;
    assert run[..k] == [(r, a)] + run[1..][..k - 1];
  }

  lemma StillInside(w: World, p: int)
    requires Owns(w, p)
    ensures 1 <= StepsToLeave(w.procs[p].pc) <= 3
  {
  }

  lemma LeftFirst(run: Run, p: int)
    requires run != []
    ensures Left(run, p) == Left([run[0]], p) + Left(run[1..], p)
  {
    assert [run[0]][1..] == [];
  }

  lemma LivesOn(run: Run, p: int)
    requires Lives(run, p) && run != []
    ensures Lives(run[1..], p)
  {
    forall i | 0 <= i < |run[1..]| ensures run[1..][i] != (p, Crash) { assert run[i + 1] != (p, Crash); }
  }

  /** While the owner is in an operation nobody else touches the cache, so whatever the others do, the operation ends with the
      cache it was to leave: its own effect on the cache it began with. */
  lemma OperationTakesEffect(c: Config, start: World, past: Run, w: World, p: int, step: Step, torn: State, others: Run, t: World)
    requires Initial(c, start) && Leads(c, start, past, w) && At(w, p, Critical) && Enabled(c, w, p, Begin(step, torn))
    requires Leads(c, After(c, w, p, Begin(step, torn)), others, t) && forall i :: 0 <= i < |others| ==> others[i].0 != p
    ensures Enabled(c, t, p, End)
    ensures After(c, t, p, End).cache == Apply(c, w.cache, step) && At(After(c, t, p, End), p, Critical)
  {
    hide CacheOk, Intact, Apply, Leads, Initial;
    InitialOk(c, start);
    LeadsOk(c, start, past, w);
    assert OkAt(c, w, p);
    StepOk(c, w, p, Begin(step, torn));
    Undisturbed(c, After(c, w, p, Begin(step, torn)), others, t, p);
  }

  lemma {:induction false} Undisturbed(c: Config, w: World, run: Run, t: World, p: int)
    requires Ok(c, w) && Owns(w, p) && Leads(c, w, run, t) && forall i :: 0 <= i < |run| ==> run[i].0 != p
    ensures Owns(t, p) && t.procs[p] == w.procs[p] && t.cache == w.cache
    decreases |run|
  {
    hide Ok, Enabled, After;
    if run != [] {
      OwnerStep(c, w, run[0].0, run[0].1, p);
      StepOk(c, w, run[0].0, run[0].1);
      forall i | 0 <= i < |run[1..]| ensures run[1..][i].0 != p { assert run[i + 1].0 != p; }
      Undisturbed(c, After(c, w, run[0].0, run[0].1), run[1..], t, p);
    }
  }

  // ---------------------------------------------------------------- no second release for the same owner

  /** Process q is dead and the mutex is not its. */
  predicate Gone(w: World, q: int) {
    !Alive(w, q) && w.mutex != q
  }

  lemma GoneStays(c: Config, w: World, p: int, a: Action, q: int)
    requires Ok(c, w) && Enabled(c, w, p, a) && Gone(w, q) && q != 0
    ensures Gone(After(c, w, p, a), q)
  {
    hide CacheOk, Intact, Inv, Shape, Apply, Clear;
    assert OkAt(c, w, p);
  }

  lemma {:induction false} GoneStaysLong(c: Config, w: World, run: Run, t: World, q: int)
    requires Ok(c, w) && Leads(c, w, run, t) && Gone(w, q) && q != 0
    ensures Gone(t, q)
    decreases |run|
  {
    hide Ok, Enabled, After, Gone;
    if run != [] {
      StepOk(c, w, run[0].0, run[0].1);
      GoneStays(c, w, run[0].0, run[0].1, q);
      GoneStaysLong(c, After(c, w, run[0].0, run[0].1), run[1..], t, q);
    }
  }

  /** After the mutex has been forced open for a dead owner, no process is ever again about to force it open for the same owner. */
  lemma ReleasedOnce(c: Config, w: World, run: Run, t: World, p: int, q: int, later: Run, u: World, r: int)
    requires Initial(c, w) && Leads(c, w, run, t) && At(t, p, Cleared(q)) && Enabled(c, t, p, Release)
    requires Leads(c, After(c, t, p, Release), later, u)
    ensures !At(u, r, Cleared(q))
  {
    hide CacheOk, Intact, Leads, Initial, OkAt;
    InitialOk(c, w);
    LeadsOk(c, w, run, t);
    ReleaseFacts(c, t, p, q);
    StepOk(c, t, p, Release);
    LeadsOk(c, After(c, t, p, Release), later, u);
    GoneStaysLong(c, After(c, t, p, Release), later, u, q);
    if At(u, r, Cleared(q)) { ReleaseFacts(c, u, r, q); }
  }

  lemma ReleaseFacts(c: Config, w: World, p: int, q: int)
    requires Ok(c, w) && At(w, p, Cleared(q))
    ensures Enabled(c, w, p, Release) && q == w.mutex != 0 && !Alive(w, q) && Gone(After(c, w, p, Release), q)
  {
    hide CacheOk, Intact;
    assert OkAt(c, w, p);
    assert OkAt(c, w, q);
  }

  // ---------------------------------------------------------------- when a dead owner blocks the cache for good

  /** Some live process has zeroed the dead owner's lock.pid and will release the mutex. */
  ghost predicate BeingRescued(w: World) {
    exists p :: Alive(w, p) && (w.procs[p].pc.Clearing? || w.procs[p].pc.Cleared?)
  }

  ghost predicate HeldForever(c: Config, w: World) {
    forall run, t :: Leads(c, w, run, t) ==> t.mutex == w.mutex
  }

  /** The owner died without its pid on record: between trylock and the write of lock.pid, or between zeroing lock.pid and
      the unlock; or a process that recovered from it died after zeroing lock.pid. */
  ghost predicate Unrecorded(w: World, q: int) {
    w.mutex == q && q != 0 && !Alive(w, q) && w.pid == 0 && !BeingRescued(w)
  }

  lemma UnrecordedStays(c: Config, w: World, p: int, a: Action, q: int)
    requires Ok(c, w) && Enabled(c, w, p, a) && Unrecorded(w, q)
    ensures Unrecorded(After(c, w, p, a), q)
  {
    hide CacheOk, Intact, Inv, Shape, Apply, Clear;
    assert OkAt(c, w, p);
    var t := After(c, w, p, a);
    forall r | Alive(t, r) ensures !t.procs[r].pc.Clearing? && !t.procs[r].pc.Cleared? {
      assert Alive(w, r) && OkAt(c, w, r);
    }
  }

  lemma {:induction false} UnrecordedStaysLong(c: Config, w: World, run: Run, t: World, q: int)
    requires Ok(c, w) && Leads(c, w, run, t) && Unrecorded(w, q)
    ensures t.mutex == q
    decreases |run|
  {
    hide Ok, Enabled, After;
    if run != [] {
      StepOk(c, w, run[0].0, run[0].1);
      UnrecordedStays(c, w, run[0].0, run[0].1, q);
      UnrecordedStaysLong(c, After(c, w, run[0].0, run[0].1), run[1..], t, q);
    }
  }

  /** One step, then a run. */
  lemma LeadsFirst(c: Config, w: World, p: int, a: Action, run: Run, t: World)
    requires Enabled(c, w, p, a) && Leads(c, After(c, w, p, a), run, t)
    ensures Leads(c, w, [(p, a)] + run, t)
  {
    assert ([(p, a)] + run)[1..] == run;
  }

  /** How many steps process p still has to take until it releases the mutex of the dead process q. */
  function Distance(pc: Pc, q: int): nat {
    match pc
    case Cleared(_) => 1
    case Clearing(_) => 2
    case Matched(_) => 3
    case Holding(last) => if last == q then 4 else 9
    case Suspecting(last) => if last == q then 5 else 10
    case Probing(last) => if last == q then 6 else 11
    case Trying => 7
    case _ => 8
  }

  /** Process p can recover from the dead owner q: q's pid is on record or p has zeroed it, and no one else has the file lock. */
  ghost predicate CanRescue(c: Config, w: World, p: int, q: int) {
    && Ok(c, w) && Alive(w, p) && w.mutex == q && q != 0 && !Alive(w, q)
    && (w.file == 0 || w.file == p) && (w.pid == q || w.procs[p].pc.Clearing? || w.procs[p].pc.Cleared?)
  }

  function RescueAction(pc: Pc): Action {
    match pc
    case Cleared(_) => Release
    case Clearing(_) => ClearAll
    case Matched(_) => ZeroDead
    case Holding(_) => Compare
    case Suspecting(_) => LockFile
    case Probing(_) => Probe
    case Trying => ReadPid
    case Releasing => UnlockFile
    case _ => Start
  }

  lemma RescueStep(c: Config, w: World, p: int, q: int)
    requires CanRescue(c, w, p, q)
    ensures p in w.procs && Enabled(c, w, p, RescueAction(w.procs[p].pc))
    ensures var t := After(c, w, p, RescueAction(w.procs[p].pc));
            t.mutex == 0 || (CanRescue(c, t, p, q) && Distance(t.procs[p].pc, q) < Distance(w.procs[p].pc, q))
  {
    hide CacheOk, Intact, Clear;
    assert OkAt(c, w, p);
    if w.file != 0 { assert OkAt(c, w, w.file); }
    StepOk(c, w, p, RescueAction(w.procs[p].pc));
  }

  lemma {:induction false} Rescue(c: Config, w: World, p: int, q: int) returns (run: Run, t: World)
    requires CanRescue(c, w, p, q)
    ensures Leads(c, w, run, t) && t.mutex == 0
    decreases Distance(w.procs[p].pc, q)
  {
    hide CanRescue, Enabled, After, RescueAction;
    RescueStep(c, w, p, q);
    var a := RescueAction(w.procs[p].pc);
    var next := After(c, w, p, a);
    if next.mutex == 0 {
      run, t := [], next;
    } else {
      run, t := Rescue(c, next, p, q);
    }
    LeadsFirst(c, w, p, a, run, t);
    run := [(p, a)] + run;
  }

  /** With a dead owner and a live process left, the mutex stays taken in every continuation exactly if the owner's pid is
      not on record and nobody is past zeroing it; otherwise some continuation releases it. */
  lemma StuckExactly(c: Config, start: World, past: Run, w: World, p: int)
    requires Initial(c, start) && Leads(c, start, past, w)
    requires w.mutex != 0 && !Alive(w, w.mutex) && Alive(w, p)
    ensures HeldForever(c, w) <==> w.pid == 0 && !BeingRescued(w)
  {
    hide CacheOk, Intact, Leads, Initial, OkAt;
    InitialOk(c, start);
    LeadsOk(c, start, past, w);
    var q := w.mutex;
    if w.pid == 0 && !BeingRescued(w) {
      forall run, t | Leads(c, w, run, t) ensures t.mutex == q { UnrecordedStaysLong(c, w, run, t, q); }
    } else {
      var r := Rescuer(c, w, p);
      var run, t := Rescue(c, w, r, q);
      assert Leads(c, w, run, t) && t.mutex != w.mutex;
    }
  }

  lemma Rescuer(c: Config, w: World, p: int) returns (r: int)
    requires Ok(c, w) && w.mutex != 0 && !Alive(w, w.mutex) && Alive(w, p) && (w.pid != 0 || BeingRescued(w))
    ensures CanRescue(c, w, r, w.mutex)
  {
    hide CacheOk, Intact;
    if w.pid == 0 {
      r :| Alive(w, r) && (w.procs[r].pc.Clearing? || w.procs[r].pc.Cleared?);
      assert OkAt(c, w, r);
    } else {
      r := if w.file != 0 then w.file else p;
    }
  }

  // ---------------------------------------------------------------- how soon a dead owner's mutex is released

  /** The death that recovery does not survive: between zeroing the dead owner's lock.pid and the release. */
  predicate Fatal(w: World, p: int, a: Action) {
    a.Crash? && p in w.procs && (w.procs[p].pc.Clearing? || w.procs[p].pc.Cleared?)
  }

  ghost predicate Survived(c: Config, w: World, run: Run)
    decreases |run|
  {
    run != [] && Enabled(c, w, run[0].0, run[0].1) ==>
      !Fatal(w, run[0].0, run[0].1) && Survived(c, After(c, w, run[0].0, run[0].1), run[1..])
  }

  /** How far a step brings recovery: a clear still under way not at all, an error of the blocking file lock two steps back. */
  function Gain(a: Action): int {
    if a.Wipe? then 0 else if a.LockFileFails? then -2 else 1
  }

  function Gains(run: Run): int {
    if run == [] then 0 else Gain(run[0].1) + Gains(run[1..])
  }

  /** The mutex of the dead process q is on its way to being released, or can be. */
  ghost predicate Recoverable(c: Config, w: World, q: int) {
    Ok(c, w) && w.mutex == q && q != 0 && !Alive(w, q) && (w.pid == q || BeingRescued(w))
  }

  /** The steps process p can still take before the release. */
  function Rank(w: World, p: int, q: int): nat {
    if Alive(w, p) then Distance(w.procs[p].pc, q) else 0
  }

  /** Every step brings its process as much nearer to the end of what it can do as it gains, and no other process further from it. */
  lemma StepHelps(c: Config, w: World, p: int, a: Action, q: int)
    requires Recoverable(c, w, q) && Enabled(c, w, p, a) && !Fatal(w, p, a)
    ensures var t := After(c, w, p, a);
            && t.procs.Keys == w.procs.Keys
            && (t.mutex == 0 || (Recoverable(c, t, q) && Rank(t, p, q) + Gain(a) <= Rank(w, p, q)
                                 && forall r :: r != p ==> Rank(t, r, q) == Rank(w, r, q)))
  {
    hide CacheOk, Intact, Inv, Shape, Apply, Clear;
    assert OkAt(c, w, p);
    StepOk(c, w, p, a);
    StepRecoverable(c, w, p, a, q);
    StepRank(c, w, p, a, q);
  }

  lemma StepRecoverable(c: Config, w: World, p: int, a: Action, q: int)
    requires Recoverable(c, w, q) && Enabled(c, w, p, a) && !Fatal(w, p, a)
    ensures var t := After(c, w, p, a);
            t.mutex == 0 || (t.mutex == q && !Alive(t, q) && (t.pid == q || BeingRescued(t)))
  {
    hide CacheOk, Intact, Inv, Shape, Apply, Clear;
    assert OkAt(c, w, p);
    var t := After(c, w, p, a);
    if w.pid == q {
      if a.ZeroDead? { assert Alive(t, p) && t.procs[p].pc.Clearing?; }
    } else {
      var r :| Alive(w, r) && (w.procs[r].pc.Clearing? || w.procs[r].pc.Cleared?);
      assert OkAt(c, w, r);
      assert Alive(t, r) && (t.mutex == 0 || t.procs[r].pc.Clearing? || t.procs[r].pc.Cleared?);
    }
  }

  lemma StepRank(c: Config, w: World, p: int, a: Action, q: int)
    requires Recoverable(c, w, q) && Enabled(c, w, p, a) && !Fatal(w, p, a)
    ensures var t := After(c, w, p, a);
            && t.procs.Keys == w.procs.Keys
            && (t.mutex == 0 || (Rank(t, p, q) + Gain(a) <= Rank(w, p, q) && forall r :: r != p ==> Rank(t, r, q) == Rank(w, r, q)))
  {
    hide CacheOk, Intact, Inv, Shape, Apply, Clear;
    assert OkAt(c, w, p);
    if w.pid != q {
      var r :| Alive(w, r) && (w.procs[r].pc.Clearing? || w.procs[r].pc.Cleared?);
      assert OkAt(c, w, r);
    }
  }

  ghost function Effort(w: World, q: int, ps: seq<int>): nat {
    if ps == [] then 0 else Rank(w, ps[0], q) + Effort(w, q, ps[1..])
  }

  /** The list names process p once. */
  ghost predicate Lists(ps: seq<int>, p: int) {
    exists i :: 0 <= i < |ps| && ps[i] == p && forall j :: 0 <= j < |ps| && j != i ==> ps[j] != p
  }

  lemma {:induction false} EffortSame(w: World, t: World, q: int, ps: seq<int>)
    requires forall i :: 0 <= i < |ps| ==> Rank(t, ps[i], q) == Rank(w, ps[i], q)
    ensures Effort(t, q, ps) == Effort(w, q, ps)
  {
    if ps != [] { EffortSame(w, t, q, ps[1..]); }
  }

  lemma {:induction false} EffortDrops(w: World, t: World, q: int, p: int, ps: seq<int>, gain: int)
    requires Rank(t, p, q) + gain <= Rank(w, p, q) && (forall r :: r != p ==> Rank(t, r, q) == Rank(w, r, q)) && Lists(ps, p)
    ensures Effort(t, q, ps) + gain <= Effort(w, q, ps)
  {
    hide Rank;
    var i :| 0 <= i < |ps| && ps[i] == p && forall j :: 0 <= j < |ps| && j != i ==> ps[j] != p;
    if i == 0 {
      EffortSame(w, t, q, ps[1..]);
    } else {
      var rest := ps[1..];
      assert rest[i - 1] == p && forall j :: 0 <= j < |rest| && j != i - 1 ==> rest[j] != p;
      EffortDrops(w, t, q, p, rest, gain);
    }
  }

  lemma {:induction false} EffortBound(w: World, q: int, ps: seq<int>)
    ensures Effort(w, q, ps) <= 11 * |ps|
  {
    if ps != [] { EffortBound(w, q, ps[1..]); }
  }

  lemma {:induction false} ReleasedInTime(c: Config, w: World, run: Run, t: World, q: int, ps: seq<int>) returns (k: nat, u: World)
    requires Recoverable(c, w, q) && Leads(c, w, run, t) && Survived(c, w, run)
    requires (forall p :: p in w.procs ==> Lists(ps, p)) && Gains(run) > Effort(w, q, ps)
    ensures k <= |run| && Leads(c, w, run[..k], u) && u.mutex == 0
    decreases |run|
  {
    hide Recoverable, Enabled, After, Rank, Effort, Fatal, Gain, Lists;
    var p, a := run[0].0, run[0].1;
    var next := After(c, w, p, a);
    StepHelps(c, w, p, a, q);
    Stepper(c, w, p, a);
    if next.mutex == 0 {
      k, u := 0, next;
    } else {
      EffortDrops(w, next, q, p, ps, Gain(a));
      k, u := ReleasedInTime(c, next, run[1..], t, q, ps);
    }
    LeadsFirst(c, w, p, a, run[1..][..k], u);
    k := k + 1;
    assert run[..k] == [(p, a)] + run[1..][..k - 1];
  }

  lemma Stepper(c: Config, w: World, p: int, a: Action)
    requires Enabled(c, w, p, a)
    ensures p in w.procs
  {
  }

  /** A dead owner whose pid is on record, or whose recovery has begun, loses the mutex within eleven steps per process, whichever
      processes take them, and three more for every error of the file lock; only a process that dies past zeroing lock.pid
      prevents it. `ps` lists the processes. */
  lemma ReleasedWithin(c: Config, start: World, past: Run, w: World, run: Run, t: World, ps: seq<int>) returns (k: nat, u: World)
    requires Initial(c, start) && Leads(c, start, past, w)
    requires w.mutex != 0 && !Alive(w, w.mutex) && (w.pid != 0 || BeingRescued(w))
    requires Leads(c, w, run, t) && Survived(c, w, run)
    requires (forall p :: p in w.procs ==> Lists(ps, p)) && Gains(run) > 11 * |ps|
    ensures k <= |run| && Leads(c, w, run[..k], u) && u.mutex == 0
  {
    hide CacheOk, Intact, Leads, Initial, OkAt, Survived, Gains, Lists;
    InitialOk(c, start);
    LeadsOk(c, start, past, w);
    EffortBound(w, w.mutex, ps);
    k, u := ReleasedInTime(c, w, run, t, w.mutex, ps);
  }

  /** Until then, and while anyone is alive, there is always a step that gains. */
  lemma SomeoneHelps(c: Config, start: World, past: Run, w: World, p: int) returns (r: int, a: Action)
    requires Initial(c, start) && Leads(c, start, past, w)
    requires w.mutex != 0 && !Alive(w, w.mutex) && (w.pid != 0 || BeingRescued(w)) && Alive(w, p)
    ensures Enabled(c, w, r, a) && Gain(a) == 1 && !Fatal(w, r, a)
  {
    hide CacheOk, Intact, Leads, Initial, OkAt;
    InitialOk(c, start);
    LeadsOk(c, start, past, w);
    r := Rescuer(c, w, p);
    RescueStep(c, w, r, w.mutex);
    a := RescueAction(w.procs[r].pc);
  }

  /** Getting stuck happens: a process that dies right after trylock blocks the cache for good. */
  lemma DeathBeforeThePidIsWritten(c: Config, w: World, p: int, r: int) returns (run: Run, t: World)
    requires Initial(c, w) && ConfigOk(c) && p in w.procs && r in w.procs && p != r
    ensures Leads(c, w, run, t) && Alive(t, r) && HeldForever(c, t) && t.mutex == p && !Alive(t, p)
  {
    hide CacheOk, Intact;
    var w1 := After(c, w, p, Start);
    var w2 := After(c, w1, p, TryLock);
    t := After(c, w2, p, Crash);
    LeadsFirst(c, w2, p, Crash, [], t);
    LeadsFirst(c, w1, p, TryLock, [(p, Crash)], t);
    LeadsFirst(c, w, p, Start, [(p, TryLock)] + [(p, Crash)], t);
    run := [(p, Start)] + ([(p, TryLock)] + [(p, Crash)]);
    StuckExactly(c, w, run, t, r);
  }
}
