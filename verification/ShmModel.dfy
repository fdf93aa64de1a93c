/** The shared-memory cache of wow_iot/src/shmcache as values: what every operation does to the cached entries,
    the stripings they live in and the two queues of stripings. */
module ShmModel {
  type Bytes = seq<bv8>

  const MAX_KEY_SIZE := 64
  const ENTRY_HEADER := 64
  const OK := 0
  const ENOENT := 2
  const ENOMEM := 12
  const EINVAL := 22
  const ENOSPC := 28
  const ENAMETOOLONG := 36
  const ETIMEDOUT := 110

  /** `documentedRemove` says that removing from a queue returns what its header promises (the removed striping),
      instead of what the code returns (whatever the shift left at the removed position). */
  datatype Config = Config(maxKeyCount: int, maxValueSize: int, recycleKeyOnce: int, recycleValid: bool,
                           avgKeyTtl: int, discardSize: int, maxFailTimes: int,
                           stripingSize: int, perSegment: int, maxSegments: int, segmentSize: int,
                           documentedRemove: bool)

  datatype Value = Value(data: Bytes, options: int, expires: int)

  datatype Entry = Entry(key: Bytes, value: Value, segment: int, striping: int, offset: int, size: int)

  /** One bump allocator; `done` is its in_which_pool flag. */
  datatype Striping = Striping(lastAlloc: int, failTimes: int, done: bool, segment: int, used: int,
                               base: int, free: int, end: int)

  /** `live` is the FIFO list, oldest entry first; the queues hold striping indices, head first; `alloced` counts the bytes
      of the value segments. */
  datatype State = State(live: seq<Entry>, st: seq<Striping>, doing: seq<int>, done: seq<int>, segments: int, alloced: int,
                         usedEntry: int, usedKey: int, usedValue: int, count: int)

  function Align8(x: int): int {
    (x + 7) / 8 * 8
  }

  function EntrySize(keyLen: nat, valueLen: nat): (n: int)
    ensures n >= ENTRY_HEADER + keyLen + valueLen
  {
    ENTRY_HEADER + Align8(keyLen) + Align8(valueLen)
  }

  predicate IsValid(e: Entry, now: int) {
    e.value.expires == 0 || e.value.expires >= now
  }

  // ---------------------------------------------------------------- sums

  function Sum(s: seq<Entry>, w: Entry -> int): int {
    if s == [] then 0 else w(s[0]) + Sum(s[1..], w)
  }

  function SizeOf(e: Entry): int { e.size }

  function KeyLen(e: Entry): int { |e.key| }

  function ValueLen(e: Entry): int { |e.value.data| }

  function SizeIn(i: int): Entry -> int {
    (e: Entry) => if e.striping == i then e.size else 0
  }

  lemma {:induction false} SumAppend(s: seq<Entry>, t: seq<Entry>, w: Entry -> int)
    ensures Sum(s + t, w) == Sum(s, w) + Sum(t, w)
  {
    if s == [] {
      assert s + t == t;
    } else {
      assert (s + t)[0] == s[0] && (s + t)[1..] == s[1..] + t;
      SumAppend(s[1..], t, w);
    }
  }

  lemma SumOne(e: Entry, w: Entry -> int)
    ensures Sum([e], w) == w(e)
  {
    assert [e][1..] == [];
  }

  /** `s` without its element k. */
  function Without<T>(s: seq<T>, k: int): seq<T>
    requires 0 <= k < |s|
  {
    s[..k] + s[k + 1..]
  }

  lemma SumWithout(s: seq<Entry>, k: int, w: Entry -> int)
    requires 0 <= k < |s|
    ensures Sum(Without(s, k), w) == Sum(s, w) - w(s[k])
  {
    hide Sum;
    var front, back := s[..k], s[k + 1..];
    assert s == front + ([s[k]] + back);
    SumAppend(front, [s[k]] + back, w);
    SumAppend([s[k]], back, w);
    SumOne(s[k], w);
    SumAppend(front, back, w);
  }

  // ---------------------------------------------------------------- allocation

  ghost predicate InRange(q: seq<int>, n: int) {
    forall k :: 0 <= k < |q| ==> 0 <= q[k] < n
  }

  predicate Fits(s: Striping, size: int) {
    s.end - s.free >= size
  }

  function Bump(s: Striping, size: int, now: int): Striping {
    s.(lastAlloc := now, used := s.used + size, free := s.free + size)
  }

  predicate Exhausted(c: Config, s: Striping) {
    s.end - s.free <= c.discardSize || s.failTimes > c.maxFailTimes
  }

  /** Where the walk over the doing queue ends: the striping that had room (or -1), all stripings, both queues. */
  datatype Walked = Walked(found: int, st: seq<Striping>, doing: seq<int>, done: seq<int>)

  /** The walk: `kept` has been passed, `rest` is to be visited. A striping without room counts a failure; an exhausted
      one leaves the doing queue, and moves to the done queue only if the removal reports it correctly. */
  ghost function Walk(c: Config, st: seq<Striping>, kept: seq<int>, rest: seq<int>, done: seq<int>, size: int, now: int): (w: Walked)
    requires InRange(rest, |st|)
    ensures |w.st| == |st|
    decreases |rest|
  {
    if rest == [] then Walked(-1, st, kept, done)
    else
      var i := rest[0];
      if Fits(st[i], size) then Walked(i, st[i := Bump(st[i], size, now)], kept + rest, done)
      else
        var s := st[i].(failTimes := st[i].failTimes + 1);
        if !Exhausted(c, s) then Walk(c, st[i := s], kept + [i], rest[1..], done, size, now)
        else if kept == [] || c.documentedRemove then
          Walk(c, st[i := s.(done := true)], kept, rest[1..], done + [i], size, now)
        else Walk(c, st[i := s], kept, rest[1..], done, size, now)
  }

  /** Where a successful allocation put its entry. */
  datatype Place = NoPlace | Place(segment: int, striping: int, offset: int, size: int)

  ghost function DoAlloc(c: Config, s: State, size: int, now: int): (Place, State)
    requires InRange(s.doing, |s.st|)
  {
    var w := Walk(c, s.st, [], s.doing, s.done, size, now);
    if 0 <= w.found < |s.st| then
      (Place(s.st[w.found].segment, w.found, s.st[w.found].free, size),
       s.(st := w.st, doing := w.doing, done := w.done, usedEntry := s.usedEntry + size))
    else (NoPlace, s.(st := w.st, doing := w.doing, done := w.done))
  }

  // ---------------------------------------------------------------- freeing

  function Rewound(s: Striping): Striping {
    s.(lastAlloc := 0, failTimes := 0, used := 0, free := s.base)
  }

  ghost function Removed(q: seq<int>, x: int): seq<int> {
    if q == [] then [] else if q[0] == x then q[1..] else [q[0]] + Removed(q[1..], x)
  }

  /** Gives the entry's memory back; a striping nobody uses any more is rewound and returns to the doing queue. */
  ghost function FreeMemory(s: State, e: Entry): (State, bool)
    requires 0 <= e.striping < |s.st|
  {
    var i := e.striping;
    var t := s.st[i].(used := s.st[i].used - e.size);
    var s1 := s.(usedEntry := s.usedEntry - e.size);
    if t.used > 0 then (s1.(st := s.st[i := t]), false)
    else if t.done then
      (s1.(st := s.st[i := Rewound(t).(done := false)], done := Removed(s.done, i), doing := s.doing + [i]), true)
    else (s1.(st := s.st[i := Rewound(t)]), true)
  }

  /** Takes entry k out of the cache; tells whether its striping was emptied. */
  ghost function FreeAt(s: State, k: int): (State, bool)
    requires 0 <= k < |s.live| && 0 <= s.live[k].striping < |s.st|
  {
    var e := s.live[k];
    FreeMemory(s.(live := Without(s.live, k), count := s.count - 1,
                  usedKey := s.usedKey - |e.key|, usedValue := s.usedValue - |e.value.data|), e)
  }

  // ---------------------------------------------------------------- recycling

  /** Entries and queues name existing stripings only. */
  ghost predicate Shape(s: State) {
    && (forall k :: 0 <= k < |s.live| ==> 0 <= s.live[k].striping < |s.st|)
    && InRange(s.doing, |s.st|) && InRange(s.done, |s.st|)
  }

  lemma {:induction false} RemovedInRange(q: seq<int>, x: int, n: int)
    requires InRange(q, n)
    ensures InRange(Removed(q, x), n)
  {
    if q != [] { RemovedInRange(q[1..], x, n); }
  }

  lemma FreeShape(s: State, k: int)
    requires Shape(s) && 0 <= k < |s.live|
    ensures Shape(FreeAt(s, k).0) && |FreeAt(s, k).0.st| == |s.st|
    ensures FreeAt(s, k).0.segments == s.segments && FreeAt(s, k).0.alloced == s.alloced
    ensures FreeAt(s, k).0.live == Without(s.live, k)
  {
    RemovedInRange(s.done, s.live[k].striping, |s.st|);
  }

  /** The recycle scan from position k on, `cleared` entries having been freed before. */
  ghost function RecycleFrom(c: Config, s: State, now: int, once: int, k: nat, cleared: nat): (int, State)
    requires Shape(s) && k <= |s.live|
    decreases |s.live| - k
  {
    if k == |s.live| then (ENOMEM, s)
    else if IsValid(s.live[k], now) && !c.recycleValid then RecycleFrom(c, s, now, once, k + 1, cleared)
    else
      FreeShape(s, k);
      var (s1, emptied) := FreeAt(s, k);
      if once > 0 && cleared + 1 >= once then (OK, s1)
      else if once <= 0 && emptied then (OK, s1)
      else RecycleFrom(c, s1, now, once, k, cleared + 1)
  }

  ghost function Recycle(c: Config, s: State, now: int, once: int): (int, State)
    requires Shape(s)
  {
    RecycleFrom(c, s, now, once, 0, 0)
  }

  lemma {:induction false} RecycleShape(c: Config, s: State, now: int, once: int, k: nat, cleared: nat)
    requires Shape(s) && k <= |s.live|
    ensures var t := RecycleFrom(c, s, now, once, k, cleared).1;
            Shape(t) && |t.st| == |s.st| && t.segments == s.segments && t.alloced == s.alloced && |t.live| <= |s.live|
    decreases |s.live| - k
  {
    if k < |s.live| {
      if IsValid(s.live[k], now) && !c.recycleValid {
        RecycleShape(c, s, now, once, k + 1, cleared);
      } else {
        FreeShape(s, k);
        RecycleShape(c, FreeAt(s, k).0, now, once, k, cleared + 1);
      }
    }
  }

  // ---------------------------------------------------------------- segments

  /** The j-th striping of a segment, empty. */
  function FreshStriping(c: Config, segment: int, j: nat): Striping {
    var base := j * c.stripingSize;
    Striping(0, 0, false, segment, 0, base, base, base + c.stripingSize)
  }

  /** The first n stripings of a segment. */
  function FreshStripings(c: Config, segment: int, n: nat): (r: seq<Striping>)
    ensures |r| == n
    ensures forall j :: 0 <= j < n ==> r[j] == FreshStriping(c, segment, j)
  {
    seq(n, j requires 0 <= j < n => FreshStriping(c, segment, j))
  }

  function Indices(from: int, to: int): (r: seq<int>)
    requires from <= to
    ensures |r| == to - from && forall k :: 0 <= k < to - from ==> r[k] == from + k
  {
    seq(to - from, k requires 0 <= k < to - from => from + k)
  }

  function CreateSegment(c: Config, s: State): (int, State)
    requires c.perSegment > 0
  {
    if s.segments >= c.maxSegments then (ENOSPC, s)
    else
      var n := |s.st|;
      (OK, s.(segments := s.segments + 1, alloced := s.alloced + c.segmentSize,
              st := s.st + FreshStripings(c, s.segments, c.perSegment), doing := s.doing + Indices(n, n + c.perSegment)))
  }

  lemma CreateShape(c: Config, s: State)
    requires c.perSegment > 0 && Shape(s)
    ensures Shape(CreateSegment(c, s).1) && CreateSegment(c, s).1.live == s.live
  {
  }

  lemma {:induction false} WalkShape(c: Config, st: seq<Striping>, kept: seq<int>, rest: seq<int>, done: seq<int>, size: int, now: int)
    requires InRange(kept, |st|) && InRange(rest, |st|) && InRange(done, |st|)
    ensures var w := Walk(c, st, kept, rest, done, size, now);
            InRange(w.doing, |st|) && InRange(w.done, |st|) && -1 <= w.found < |st|
    decreases |rest|
  {
    if rest != [] && !Fits(st[rest[0]], size) {
      var i := rest[0];
      var s := st[i].(failTimes := st[i].failTimes + 1);
      if !Exhausted(c, s) {
        WalkShape(c, st[i := s], kept + [i], rest[1..], done, size, now);
      } else if kept == [] || c.documentedRemove {
        WalkShape(c, st[i := s.(done := true)], kept, rest[1..], done + [i], size, now);
      } else {
        WalkShape(c, st[i := s], kept, rest[1..], done, size, now);
      }
    }
  }

  lemma DoAllocShape(c: Config, s: State, size: int, now: int)
    requires Shape(s)
    ensures Shape(DoAlloc(c, s, size, now).1) && |DoAlloc(c, s, size, now).1.st| == |s.st|
    ensures var (p, t) := DoAlloc(c, s, size, now); t.live == s.live && (p.Place? ==> 0 <= p.striping < |t.st|)
  {
    WalkShape(c, s.st, [], s.doing, s.done, size, now);
  }

  /** Is the oldest striping of the done queue old enough to recycle before the memory limit is reached? */
  ghost predicate Aged(c: Config, s: State, now: int)
    requires Shape(s)
  {
    s.done != [] && c.avgKeyTtl > 0 && now - s.st[s.done[0]].lastAlloc >= c.avgKeyTtl
  }

  // ---------------------------------------------------------------- operations

  /** Position of the entry with this key, or the number of entries. */
  function Find(live: seq<Entry>, key: Bytes): (k: nat)
    ensures k <= |live|
    ensures k < |live| ==> live[k].key == key
    ensures forall j :: 0 <= j < k ==> live[j].key != key
  {
    if live == [] then 0 else if live[0].key == key then 0 else 1 + Find(live[1..], key)
  }

  /** The part of a set that follows a successful allocation: an old entry of the key goes, the new one is the youngest. */
  ghost function Install(s: State, p: Place, key: Bytes, value: Value): State
    requires Shape(s) && p.Place? && 0 <= p.striping < |s.st|
  {
    var k := Find(s.live, key);
    var t := if k < |s.live| then FreeAt(s, k).0 else s;
    t.(live := t.live + [Entry(key, value, p.segment, p.striping, p.offset, p.size)], count := t.count + 1,
       usedKey := t.usedKey + |key|, usedValue := t.usedValue + |value.data|)
  }

  ghost function SetRoom(c: Config, s: State, now: int): (int, State)
    requires Shape(s)
  {
    if s.count >= c.maxKeyCount then Recycle(c, s, now, c.recycleKeyOnce) else (OK, s)
  }

  lemma SetRoomShape(c: Config, s: State, now: int)
    requires Shape(s)
    ensures Shape(SetRoom(c, s, now).1) && |SetRoom(c, s, now).1.live| <= |s.live|
  {
    RecycleShape(c, s, now, c.recycleKeyOnce, 0, 0);
  }

  lemma InstallShape(s: State, p: Place, key: Bytes, value: Value)
    requires Shape(s) && p.Place? && 0 <= p.striping < |s.st|
    ensures Shape(Install(s, p, key, value)) && |Install(s, p, key, value).live| <= |s.live| + 1
  {
    var k := Find(s.live, key);
    if k < |s.live| { FreeShape(s, k); }
  }

  // ---------------------------------------------------------------- making room

  /** Is too little memory free to rearrange the entries? */
  predicate TooFull(c: Config, s: State) {
    s.alloced - s.usedEntry < MAX_KEY_SIZE + c.maxValueSize + |s.st| * c.discardSize + c.stripingSize
  }

  /** The entries that have not expired, oldest first. */
  function Unexpired(live: seq<Entry>, now: int): (r: seq<Entry>)
    ensures |r| <= |live|
  {
    if live == [] then [] else (if IsValid(live[0], now) then [live[0]] else []) + Unexpired(live[1..], now)
  }

  /** Sets these entries one after the other, as far as that succeeds. */
  ghost function Reinsert(c: Config, s: State, rest: seq<Entry>, now: int): (r: (int, State))
    requires c.perSegment > 0 && Shape(s)
    ensures Shape(r.1) && |r.1.live| <= |s.live| + |rest|
    decreases |s.live| + |rest|, 0, |rest|
  {
    if rest == [] then (OK, s)
    else
      var (r, t) := Set(c, s, rest[0].key, rest[0].value, now);
      if r != OK then (r, t) else Reinsert(c, t, rest[1..], now)
  }

  /** Takes everything out and puts the unexpired entries in again, closer together; if one does not fit, none stays. */
  ghost function Rearrange(c: Config, s: State, now: int): (r: (int, State))
    requires c.perSegment > 0 && Shape(s)
    ensures Shape(r.1) && |r.1.live| <= |s.live|
    decreases |s.live|, 1, 0
  {
    if TooFull(c, s) then (ENOSPC, s)
    else
      ClearShape(s);
      var (r, t) := Reinsert(c, Clear(s), Unexpired(s.live, now), now);
      ClearShape(t);
      if r == OK then (OK, t) else (r, Clear(t))
  }

  /** What is done to make room after a first allocation attempt has failed. */
  ghost function MakeRoom(c: Config, s: State, now: int): (r: (int, State))
    requires c.perSegment > 0 && Shape(s)
    ensures Shape(r.1) && |r.1.live| <= |s.live|
    decreases |s.live|, 2, 0
  {
    CreateShape(c, s);
    if s.segments >= c.maxSegments || Aged(c, s, now) then
      RecycleShape(c, s, now, -1, 0, 0);
      var (r, t) := Recycle(c, s, now, -1);
      CreateShape(c, t);
      if r == OK || c.recycleValid then (r, t)
      else if t.segments < c.maxSegments then CreateSegment(c, t)
      else Rearrange(c, t, now)
    else CreateSegment(c, s)
  }

  ghost function Alloc(c: Config, s: State, size: int, now: int): (r: (Place, State))
    requires c.perSegment > 0 && Shape(s)
    ensures Shape(r.1) && |r.1.live| <= |s.live| && (r.0.Place? ==> 0 <= r.0.striping < |r.1.st|)
    decreases |s.live|, 3, 0
  {
    DoAllocShape(c, s, size, now);
    var (p, s1) := DoAlloc(c, s, size, now);
    if p.Place? then (p, s1)
    else
      var (r, s2) := MakeRoom(c, s1, now);
      DoAllocShape(c, s2, size, now);
      if r == OK then DoAlloc(c, s2, size, now) else (NoPlace, s2)
  }

  // ---------------------------------------------------------------- set

  ghost function Set(c: Config, s: State, key: Bytes, value: Value, now: int): (r: (int, State))
    requires c.perSegment > 0 && Shape(s)
    ensures Shape(r.1) && |r.1.live| <= |s.live| + 1
    decreases |s.live|, 4, 0
  {
    if |key| > MAX_KEY_SIZE then (ENAMETOOLONG, s)
    else if |value.data| > c.maxValueSize then (EINVAL, s)
    else
      SetRoomShape(c, s, now);
      var (r, s1) := SetRoom(c, s, now);
      if r != OK then (r, s1)
      else
        var (p, s2) := Alloc(c, s1, EntrySize(|key|, |value.data|), now);
        if p.NoPlace? then (ENOMEM, s2)
        else
          InstallShape(s2, p, key, value);
          (OK, Install(s2, p, key, value))
  }

  ghost function Get(s: State, key: Bytes, now: int): (int, Value) {
    var k := Find(s.live, key);
    if k == |s.live| then (ENOENT, Value([], 0, 0))
    else (if IsValid(s.live[k], now) then OK else ETIMEDOUT, s.live[k].value)
  }

  ghost function Delete(s: State, key: Bytes): (int, State)
    requires Shape(s)
  {
    var k := Find(s.live, key);
    if k < |s.live| then (OK, FreeAt(s, k).0) else (ENOENT, s)
  }

  ghost function SetExpires(s: State, key: Bytes, expires: int, now: int): (int, State) {
    var k := Find(s.live, key);
    if k == |s.live| then (ENOENT, s)
    else if !IsValid(s.live[k], now) then (ETIMEDOUT, s)
    else (OK, s.(live := s.live[k := s.live[k].(value := s.live[k].value.(expires := expires))]))
  }

  /** Everything goes; only the layout (how many stripings there are, and where) is taken from the old state. */
  ghost function Clear(s: State): State {
    State([], seq(|s.st|, i requires 0 <= i < |s.st| => Rewound(s.st[i]).(done := false)), Indices(0, |s.st|), [],
          s.segments, s.alloced, 0, 0, 0, 0)
  }

  lemma ClearShape(s: State)
    ensures Shape(Clear(s)) && Clear(s).live == []
  {
  }
}
