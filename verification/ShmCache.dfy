/** The cache in place: shm_value_allocator.c, shmopt.c and shm_hashtable.c over the list, the table and the two queues. */
module ShmCache {
  import opened ShmModel
  import opened ShmInvariant
  import opened ShmHandles
  import opened ShmViews
  import opened Rings
  import opened ShmObjectPool
  import opened ShmList
  import opened ShmBuckets
  import opened ShmArray

  function MaxStripings(c: Config): int {
    c.maxSegments * c.perSegment
  }

  class Cache {
    const c: Config
    const headOffset: nat
    const list: FifoList
    const table: BucketTable
    const doing: ObjectPool
    const done: ObjectPool
    var records: map<int, Record>
    var stripings: seq<Striping>
    var segments: int
    var alloced: int
    var usedEntry: int
    var usedKey: int
    var usedValue: int
    var count: int

    /** The cache's structures are different objects, and the queues can hold every striping there will ever be. */
    ghost predicate Laid() {
      && ConfigOk(c) && c.maxSegments <= 0x100
      && doing != done && doing.offsets != done.offsets
      && table.buckets != doing.offsets && table.buckets != done.offsets
      && table.capacity > 0 && table.buckets.Length == table.capacity
      && doing.offsets.Length == MaxStripings(c) + 1
      && done.offsets.Length == MaxStripings(c) + 1
      && list.head == HeadHandle(headOffset)
    }

    ghost predicate Sound()
      reads this, list, table, table.buckets, doing, doing.offsets, done, done.offsets
    {
      && Laid() && list.Valid() && table.Valid() && doing.Valid() && done.Valid()
      && Covered(list.order, table.keys, records)
    }

    ghost function View(): State
      requires Sound()
      reads this, list, table, table.buckets, doing, doing.offsets, done, done.offsets
    {
      State(LiveOf(list.order, table.keys, records), stripings, QueueOf(doing.Contents()), QueueOf(done.Contents()),
            segments, alloced, usedEntry, usedKey, usedValue, count)
    }

    /** The chains hold exactly the listed entries. */
    ghost predicate Synced()
      reads list, table
    {
      forall h :: table.Has(h) <==> h in list.order
    }

    ghost predicate Valid()
      reads this, list, table, table.buckets, doing, doing.offsets, done, done.offsets
    {
      Sound() && Synced() && Inv(c, View()) && Shape(View())
    }

    /** A cache without any segment. */
    constructor (c: Config, capacity: nat, hash: Bytes -> nat, headOffset: nat)
      requires ConfigOk(c) && c.maxSegments <= 0x100 && capacity > 0
      ensures Valid() && this.c == c && View() == State([], [], [], [], 0, 0, 0, 0, 0, 0)
    {
      hide MaxStripings, Linked, Chains, Homes, Queued, Ring, Inv, Shape, Covered, LiveOf, QueueOf, Filed;
      SlotsPositive(c);
      this.c, this.headOffset := c, headOffset;
      list := new FifoList(HeadHandle(headOffset));
      table := new BucketTable(capacity, hash);
      doing := new ObjectPool(MaxStripings(c) + 1);
      done := new ObjectPool(MaxStripings(c) + 1);
      records, stripings := map[], [];
      segments, alloced, usedEntry, usedKey, usedValue, count := 0, 0, 0, 0, 0, 0;
      new;
      EmptyOk(c);
      NothingListed(table.keys, records);
    }

    // -------------------------------------------------------------- stripings

    /** Bump allocation in one striping; -1 (and one more failure) if it has no room. */
    method StripingAlloc(i: int, size: int, now: int) returns (offset: int)
      requires 0 <= i < |stripings|
      modifies this`stripings
      ensures Fits(old(stripings)[i], size) ==>
                offset == old(stripings)[i].free && stripings == old(stripings)[i := Bump(old(stripings)[i], size, now)]
      ensures !Fits(old(stripings)[i], size) ==>
                offset == -1 && stripings == old(stripings)[i := old(stripings)[i].(failTimes := old(stripings)[i].failTimes + 1)]
    {
      var s := stripings[i];
      if s.end - s.free < size {
        stripings := stripings[i := s.(failTimes := s.failTimes + 1)];
        return -1;
      }
      offset := s.free;
      stripings := stripings[i := s.(lastAlloc := now, used := s.used + size, free := s.free + size)];
    }

    /** The queues hold what the cursor says, and the iterator stands at the first striping still to be visited. */
    ghost predicate On(cur: Cursor, offset: int)
      requires Laid()
      reads doing, doing.offsets, done, done.offsets
    {
      && doing.Valid() && done.Valid()
      && QueueOf(doing.Contents()) == cur.kept + cur.rest && QueueOf(done.Contents()) == cur.done
      && (cur.rest != [] ==> doing.At(|cur.kept|) && doing.Before(|cur.kept| + 1) && offset == OffsetOfStriping(cur.rest[0]))
      && (cur.rest == [] ==> offset == -1)
    }

    /** Takes an exhausted striping out of the doing queue; it reaches the done queue if the removal reports it. */
    method Discard(i: int, ghost cur: Cursor)
      requires Laid() && On(cur, OffsetOfStriping(i)) && cur.rest != [] && cur.rest[0] == i && cur.st == stripings
      requires Queues(c, cur.st, cur.kept + cur.rest, cur.done) && |cur.st| <= MaxStripings(c)
      modifies this`stripings, doing, doing.offsets, done, done.offsets
      ensures doing.Valid() && done.Valid() && QueueOf(doing.Contents()) == cur.kept + cur.rest[1..] && doing.Before(|cur.kept|)
      ensures 0 <= i < |cur.st|
      ensures if cur.kept == [] || c.documentedRemove then
                stripings == cur.st[i := cur.st[i].(done := true)] && QueueOf(done.Contents()) == cur.done + [i]
              else stripings == cur.st && QueueOf(done.Contents()) == cur.done
    {
      hide Queues, Without;
      ghost var k, was := |cur.kept|, doing.Contents();
      DiscardFacts(c, cur.st, cur.kept, cur.rest, cur.done, i);
      QueueWithout(was, k);
      var offset := OffsetOfStriping(i);
      assert was[k] == offset && (k > 0 ==> was[k - 1] != offset);
      var removed: int;
      if c.documentedRemove { removed := doing.RemoveDocumented(k); } else { removed := doing.Remove(k); }
      if removed == offset {
        stripings := stripings[i := stripings[i].(done := true)];
        QueueAppend(done.Contents(), i);
        var err := done.Free(offset);
      }
    }

    /** Allocates an entry in one striping and writes its memory fields; 0 if the striping has no room. */
    method ValueStripingAlloc(i: int, size: int, now: int) returns (h: int)
      requires 0 <= i < |stripings| && (Fits(stripings[i], size) ==> stripings[i].segment >= 0 && stripings[i].free >= 0)
      modifies this`stripings, this`records
      ensures !Fits(old(stripings)[i], size) ==> h == 0 && records == old(records)
      ensures !Fits(old(stripings)[i], size) ==>
                stripings == old(stripings)[i := old(stripings)[i].(failTimes := old(stripings)[i].failTimes + 1)]
      ensures Fits(old(stripings)[i], size) ==>
                && stripings == old(stripings)[i := Bump(old(stripings)[i], size, now)]
                && h == Pack(old(stripings)[i].segment, old(stripings)[i].free) > 0 && h in records
                && records == old(records)[h := Record(records[h].value, old(stripings)[i].segment, i, old(stripings)[i].free, size)]
    {
      var offset := StripingAlloc(i, size, now);
      if offset < 0 { return 0; }
      h := Pack(stripings[i].segment, offset);
      var value := if h in records then records[h].value else Value([], 0, 0);
      records := records[h := Record(value, stripings[i].segment, i, offset, size)];
    }

    /** Goes on to the next queued striping, after removing the current one if it is exhausted. */
    method Skip(i: int, ghost cur: Cursor) returns (offset: int)
      requires Laid() && On(cur, OffsetOfStriping(i)) && cur.rest != [] && cur.rest[0] == i && cur.st == stripings
      requires Queues(c, cur.st, cur.kept + cur.rest, cur.done) && |cur.st| <= MaxStripings(c)
      modifies this`stripings, doing, doing.offsets, done, done.offsets
      ensures 0 <= i < |cur.st| && stripings == Skipped(c, cur).st && On(Skipped(c, cur), offset)
    {
      hide MaxStripings, Queues, Queued, Slot, Next, CountOf, Without, Skipped, Ring;
      QueuesRange(c, stripings, cur.kept + cur.rest, cur.done);
      SkippedIs(c, cur);
      ghost var n := |cur.kept|;
      if stripings[i].end - stripings[i].free <= c.discardSize || stripings[i].failTimes > c.maxFailTimes {
        Discard(i, cur);
      } else {
        n := n + 1;
      }
      offset := doing.Advance(n);
    }

    /** The attempt at the striping under the iterator; success ends the allocation. */
    method Attempt(i: int, size: int, now: int, ghost s: State, ghost cur: Cursor) returns (h: int)
      requires Sound() && Inv(c, s) && Shape(s) && size > 0 && View().live == s.live && stripings == cur.st
      requires View() == s.(st := cur.st, doing := View().doing, done := View().done)
      requires Walking(c, s, cur, size, now) && On(cur, OffsetOfStriping(i)) && cur.rest != [] && cur.rest[0] == i
      modifies this`records, this`stripings, this`usedEntry
      ensures 0 <= i < |cur.st| && Shape(s)
      ensures h == 0 ==> stripings == Failed(cur).st && records == old(records) && usedEntry == old(usedEntry)
      ensures h == 0 ==> On(Failed(cur), OffsetOfStriping(i)) && Walking(c, s, Skipped(c, Failed(cur)), size, now)
      ensures h == 0 ==> var f := Failed(cur); Queues(c, f.st, f.kept + f.rest, f.done) && |f.st| <= MaxStripings(c)
      ensures h != 0 ==> Sound() && View() == ShmModel.DoAlloc(c, s, size, now).1 && TakenAt(ShmModel.DoAlloc(c, s, size, now).0, h)
    {
      hide Next, Slot, CountOf, MaxStripings, On, Walking, Inv, Shape, Covered, LiveOf, ShmModel.DoAlloc, Bump, Fits, Linked,
           Chains, Homes, Skipped, Queued, Pack, Failed;
      WalkAt(c, s, cur, size, now);
      OnQueues(cur, OffsetOfStriping(i));
      h := ValueStripingAlloc(i, size, now);
      if h != 0 {
        usedEntry := usedEntry + size;
        Placed(s, size, now, old(records), h);
      } else {
        OnFailed(cur, OffsetOfStriping(i));
      }
    }

    /** The memory fields of the new entry h say where it is, and h is not listed. */
    ghost predicate TakenAt(p: Place, h: int)
      reads this, list
    {
      && p.Place? && h > 0 && 0 <= p.segment < 0x100 && 0 <= p.offset && h == Pack(p.segment, p.offset) && h !in list.order
      && h in records && records[h] == Record(records[h].value, p.segment, p.striping, p.offset, p.size)
    }

    /** The walk over the doing queue, removing exhausted stripings under way; 0 if no striping has room. */
    method DoAlloc(size: int, now: int) returns (h: int)
      requires Sound() && Inv(c, View()) && size > 0 && Shape(View())
      modifies this`records, this`stripings, this`usedEntry, doing, doing.offsets, done, done.offsets
      ensures Sound() && View() == ShmModel.DoAlloc(c, old(View()), size, now).1
      ensures var p := ShmModel.DoAlloc(c, old(View()), size, now).0; (p.NoPlace? <==> h == 0) && (p.Place? ==> TakenAt(p, h))
    {
      hide Next, Slot, CountOf, MaxStripings, On, Walking, Inv, Shape, Covered, LiveOf, ShmModel.DoAlloc, Linked, Chains, Homes,
           Skipped, Queued, Failed, TakenAt, Queues;
      ghost var s := View();
      ghost var cur := Cursor(s.st, [], s.doing, s.done);
      WalkStart(c, s, size, now);
      var offset := doing.First();
      OnStart(cur, offset);
      while offset > 0
        invariant On(cur, offset) && stripings == cur.st && Walking(c, s, cur, size, now)
        invariant records == old(records) && usedEntry == old(usedEntry)
        decreases |cur.rest|
      {
        WalkingRange(c, s, cur, size, now);
        OnOffset(cur, offset);
        OnQueues(cur, offset);
        var i := StripingAt(offset);
        h := Attempt(i, size, now, s, cur);
        if h != 0 {
          TakenPlace(ShmModel.DoAlloc(c, s, size, now).0, h);
          return;
        }
        cur := Failed(cur);
        offset := Skip(i, cur);
        cur := Skipped(c, cur);
      }
      WalkingRange(c, s, cur, size, now);
      OnOffset(cur, offset);
      OnQueues(cur, offset);
      WalkMissed(c, s, cur, size, now);
      h := 0;
    }

    lemma TakenPlace(p: Place, h: int)
      requires TakenAt(p, h)
      ensures p.Place? && h > 0
    {
    }

    lemma OnStart(cur: Cursor, offset: int)
      requires Laid() && doing.Valid() && done.Valid() && cur.kept == [] && cur.rest == QueueOf(doing.Contents())
      requires cur.done == QueueOf(done.Contents())
      requires if doing.Contents() == [] then offset == -1 else doing.At(0) && doing.Before(1) && offset == doing.Contents()[0]
      ensures On(cur, offset)
    {
      assert [] + cur.rest == cur.rest;
    }

    lemma OnOffset(cur: Cursor, offset: int)
      requires Laid() && On(cur, offset) && InRange(cur.rest, |cur.st|)
      ensures offset > 0 <==> cur.rest != []
      ensures offset > 0 ==> cur.rest[0] == StripingAt(offset)
    {
    }

    lemma OnFailed(cur: Cursor, offset: int)
      requires Laid() && On(cur, offset) && cur.rest != [] && 0 <= cur.rest[0] < |cur.st|
      ensures On(Failed(cur), offset)
    {
    }

    lemma OnQueues(cur: Cursor, offset: int)
      requires Laid() && On(cur, offset)
      ensures doing.Valid() && done.Valid()
      ensures QueueOf(doing.Contents()) == cur.kept + cur.rest && QueueOf(done.Contents()) == cur.done
    {
    }

    /** After the memory of a new entry has been written, the listed entries are what they were. */
    lemma Placed(s: State, size: int, now: int, records0: map<int, Record>, h: int)
      requires Laid() && list.Valid() && table.Valid() && doing.Valid() && done.Valid()
      requires Covered(list.order, table.keys, records0) && s.live == LiveOf(list.order, table.keys, records0)
      requires InRange(s.doing, |s.st|)
      requires var (p, t) := ShmModel.DoAlloc(c, s, size, now);
               && p.Place? && InvWith(c, t, Pending(p)) && t.live == s.live
               && 0 <= p.segment && 0 <= p.offset && h == Pack(p.segment, p.offset) && h in records
               && records == records0[h := Record(records[h].value, p.segment, p.striping, p.offset, p.size)]
      ensures h !in list.order && Sound() && View().live == s.live && ShmModel.DoAlloc(c, s, size, now).0.segment < 0x100
    {
      var (p, t) := ShmModel.DoAlloc(c, s, size, now);
      FreshHandle(c, t, p, list.order, table.keys, records0);
      LiveElsewhere(list.order, table.keys, records0, table.keys, records);
    }

    // -------------------------------------------------------------- freeing

    /** Brings an emptied striping back from the done queue to the doing queue. */
    method DoRecycle(i: int) returns (err: int)
      requires Laid() && doing.Valid() && done.Valid() && 0 <= i < |stripings|
      requires Queues(c, stripings, QueueOf(doing.Contents()), QueueOf(done.Contents())) && |stripings| <= MaxStripings(c)
      modifies this`stripings, doing, doing.offsets, done, done.offsets
      ensures doing.Valid() && done.Valid() && err == OK
      ensures if old(stripings[i].done) then
                && stripings == old(stripings)[i := old(stripings)[i].(done := false)]
                && QueueOf(done.Contents()) == Removed(old(QueueOf(done.Contents())), i)
                && QueueOf(doing.Contents()) == old(QueueOf(doing.Contents())) + [i]
              else stripings == old(stripings) && QueueOf(done.Contents()) == old(QueueOf(done.Contents()))
                   && QueueOf(doing.Contents()) == old(QueueOf(doing.Contents()))
    {
      hide Queues, Queued, Removed, MaxStripings;
      if stripings[i].done {
        RecycleFacts(c, stripings, doing.Contents(), done.Contents(), i);
        QueueRemoved(done.Contents(), i);
        QueueAppend(doing.Contents(), i);
        var offset := OffsetOfStriping(i);
        var removed := done.RemoveBy(offset);
        if removed >= 0 {
          stripings := stripings[i := stripings[i].(done := false)];
          var pushed := doing.Free(offset);
        } else {
          return EFAULT;
        }
      }
      return OK;
    }

    /** Gives an entry's memory back; tells whether its striping was emptied and rewound. */
    method Free(h: int) returns (recycled: bool)
      requires Laid() && doing.Valid() && done.Valid() && h in records && 0 <= records[h].striping < |stripings|
      requires Queues(c, stripings, QueueOf(doing.Contents()), QueueOf(done.Contents())) && |stripings| <= MaxStripings(c)
      modifies this`stripings, this`usedEntry, doing, doing.offsets, done, done.offsets
      ensures doing.Valid() && done.Valid()
      ensures FreedAs(old(MemoryView()), records[h].striping, records[h].size, MemoryView(), recycled)
    {
      hide Queues, Queued, Removed, MaxStripings;
      var i := records[h].striping;
      ghost var st := stripings;
      var used := stripings[i].used - records[h].size;
      stripings := stripings[i := stripings[i].(used := used)];
      usedEntry := usedEntry - records[h].size;
      recycled := false;
      if used <= 0 {
        recycled := true;
        stripings := stripings[i := Rewound(stripings[i])];
        SameFlags(c, st, stripings, QueueOf(doing.Contents()), QueueOf(done.Contents()), i);
        var err := DoRecycle(i);
      }
      assert stripings == st[i := stripings[i]];
    }

    /** Stripings, queues and the memory counter as a state without entries. */
    ghost function MemoryView(): State
      requires Laid() && doing.Valid() && done.Valid()
      reads this, doing, doing.offsets, done, done.offsets
    {
      State([], stripings, QueueOf(doing.Contents()), QueueOf(done.Contents()), 0, 0, usedEntry, 0, 0, 0)
    }

    /** Takes an entry out of the list and the counters and frees its memory; its chain is the caller's business. */
    method FreeEntry(h: int, ghost k: nat, ghost pending: seq<Entry>) returns (recycled: bool)
      requires Sound() && InvWith(c, View(), pending) && Shape(View()) && k < |list.order| && list.order[k] == h
      modifies this`stripings, this`count, this`usedEntry, this`usedKey, this`usedValue, list, doing, doing.offsets, done, done.offsets
      ensures Sound() && list.order == Without(old(list.order), k)
      ensures View() == FreeAt(old(View()), k).0 && recycled == FreeAt(old(View()), k).1
    {
      hide Queues, Queued, Removed, MaxStripings, Shape, InvWith, Linked, Chains, Homes, Covered, LiveOf, FreedAs, FreeMemory,
           FreeAt, NoDup, Without;
      ghost var s, m := View(), MemoryView();
      FreeEntryFacts(c, s, k, pending, list.order, table.keys, records);
      count := count - 1;
      usedValue := usedValue - |records[h].value.data|;
      usedKey := usedKey - |table.keys[h]|;
      list.Delete(h, k);
      recycled := Free(h);
      FreedEntry(s, k, m, MemoryView(), recycled);
      LiveWithout(old(list.order), table.keys, records, k);
    }

    // -------------------------------------------------------------- the table and the list agree

    /** The entry the table finds is the entry the model finds. */
    lemma Located(key: Bytes, h: int) returns (k: nat)
      requires Sound() && Synced() && UniqueKeys(View().live) && table.Has(h) && table.keys[h] == key
      ensures k < |list.order| && list.order[k] == h && Find(View().live, key) == k
    {
      k :| 0 <= k < |list.order| && list.order[k] == h;
      assert CoveredAt(list.order[k], table.keys, records) && View().live[k].key == key;
      FindUnique(View().live, key);
    }

    lemma NotLocated(key: Bytes)
      requires Sound() && Synced() && forall h :: table.Has(h) ==> table.keys[h] != key
      ensures Find(View().live, key) == |View().live|
    {
      forall k | 0 <= k < |list.order| ensures View().live[k].key != key {
        assert CoveredAt(list.order[k], table.keys, records);
        assert list.order[k] in list.order;
      }
    }

    lemma Resync(order: seq<int>, k: nat)
      requires k < |order| && NoDup(order) && list.order == Without(order, k)
      requires forall g :: table.Has(g) <==> g in order && g != order[k]
      ensures Synced()
    {
      WithoutContents(order, k);
    }

    method DeleteEx(key: Bytes) returns (err: int, recycled: bool)
      requires Valid()
      modifies this`stripings, this`count, this`usedEntry, this`usedKey, this`usedValue, list,
               table`next, table`chains, table.buckets, doing, doing.offsets, done, done.offsets
      ensures Valid() && (err, View()) == Delete(old(View()), key)
      ensures err == OK ==> recycled == FreeAt(old(View()), Find(old(View()).live, key)).1
      ensures var k := Find(old(View()).live, key); list.order == if k < |old(list.order)| then Without(old(list.order), k) else old(list.order)
      ensures table.keys == old(table.keys) && records == old(records)
    {
      hide Queues, Queued, Removed, MaxStripings, InvWith, Linked, Chains, Homes, Covered, LiveOf, FreeAt, NoDup, Without,
           Filed, Follows, Shape;
      ghost var s, order := View(), list.order;
      recycled := false;
      var previous, found, at := table.Search(key);
      UniqueOf(c, s);
      if found > 0 {
        ghost var k := Located(key, found);
        FreeKeeps(c, s, k, []);
        ListNoDup();
        FreeShape(s, k);
        ChainAt(key, found, at);
        table.Unlink(previous, found, at);
        recycled := FreeEntry(found, k, []);
        Resync(order, k);
        return OK, recycled;
      }
      NotLocated(key);
      return ENOENT, recycled;
    }

    lemma ListNoDup()
      requires Sound()
      ensures NoDup(list.order)
    {
    }

    lemma ChainAt(key: Bytes, h: int, k: nat)
      requires Sound() && k <= |table.chains[table.Bucket(key)]| && h == Follows(table.chains[table.Bucket(key)], k - 1) && h > 0
      ensures k < |table.chains[table.Bucket(key)]| && table.chains[table.Bucket(key)][k] == h
    {
    }

    // -------------------------------------------------------------- recycling and growing

    /** Scans the list from its oldest entry and frees entries until `once` are gone, or (once <= 0) a striping is emptied. */
    method Recycle(now: int, once: int) returns (err: int)
      requires Valid()
      modifies this`stripings, this`count, this`usedEntry, this`usedKey, this`usedValue, list,
               table`next, table`chains, table.buckets, doing, doing.offsets, done, done.offsets
      ensures Valid() && (err, View()) == ShmModel.Recycle(c, old(View()), now, once)
      ensures records == old(records)
    {
      hide RecycleFrom, Inv, Linked, Chains, Homes, Covered, LiveOf, FreeAt, NoDup, Without, Filed, Follows, Shape, Queued,
           MaxStripings, Ring, QueueOf, InRange, Find;
      ghost var s := View();
      ghost var k := 0;
      var cleared := 0;
      var h := list.First();
      while h > 0
        invariant Valid() && 0 <= k <= |list.order| && 0 <= cleared && records == old(records)
        invariant h == if k < |list.order| then list.order[k] else -1
        invariant RecycleFrom(c, s, now, once, 0, 0) == RecycleFrom(c, View(), now, once, k, cleared)
        decreases |list.order| - k
      {
        ghost var t := View();
        EntryFacts(k);
        var key := table.keys[h];
        var valid := records[h].value.expires == 0 || records[h].value.expires >= now;
        RecycleStep(c, t, now, once, k, cleared, valid);
        if valid && !c.recycleValid {
          h := list.NextOf(h, k);
          k := k + 1;
          continue;
        }
        var recycled;
        h, recycled := Evict(h, key, k);
        cleared := cleared + 1;
        if once > 0 {
          if cleared >= once { return OK; }
        } else if recycled {
          return OK;
        }
      }
      RecycleEnd(c, View(), now, once, cleared);
      return ENOMEM;
    }

    /** Deletes the k-th entry by its key, which never fails, and goes on to the entry after it. */
    method Evict(h: int, key: Bytes, ghost k: nat) returns (next: int, recycled: bool)
      requires Valid() && k < |list.order| && list.order[k] == h && h in table.keys && table.keys[h] == key
      modifies this`stripings, this`count, this`usedEntry, this`usedKey, this`usedValue, list,
               table`next, table`chains, table.buckets, doing, doing.offsets, done, done.offsets
      ensures Valid() && |list.order| == |old(list.order)| - 1
      ensures next == if k < |list.order| then list.order[k] else -1
      ensures (View(), recycled) == FreeAt(old(View()), k)
    {
      hide Inv, Linked, Chains, Homes, Covered, LiveOf, FreeAt, NoDup, Without, Filed, Follows, Shape, Queued, MaxStripings, Ring;
      ghost var s, order := View(), list.order;
      EntryFacts(k);
      next := list.NextOf(h, k);
      var err;
      err, recycled := DeleteEx(key);
      assert err == OK;
      WithoutNext(order, k);
    }

    lemma EntryFacts(k: nat)
      requires Valid() && k < |list.order|
      ensures list.order[k] > 0 && list.order[k] in table.keys && list.order[k] in records
      ensures View().live[k].key == table.keys[list.order[k]] && View().live[k].value == records[list.order[k]].value
      ensures |View().live| == |list.order| && Find(View().live, table.keys[list.order[k]]) == k
    {
      assert CoveredAt(list.order[k], table.keys, records);
      UniqueOf(c, View());
      FindUnique(View().live, table.keys[list.order[k]]);
    }

    /** Adds the stripings of one more segment, each at the end of the doing queue. */
    method CreateSegment() returns (err: int)
      requires Valid()
      modifies this`segments, this`alloced, this`stripings, doing, doing.offsets
      ensures Valid() && (err, View()) == ShmModel.CreateSegment(c, old(View()))
    {
      hide ShmModel.CreateSegment, FreshStripings, FreshStriping, Indices, QueueOf, Inv, Linked, Chains, Homes, Covered, LiveOf,
           Filed, NoDup, Queued, Shape, MaxStripings, Ring;
      CreateFacts(c, View());
      if segments >= c.maxSegments { return ENOSPC; }
      ghost var s := View();
      SegmentFacts(c, s, doing.Contents());
      segments := segments + 1;
      AddStripings();
      alloced := alloced + c.segmentSize;
      CreateInv(c, s);
      return OK;
    }

    /** The loop over the new segment's stripings. */
    method AddStripings()
      requires Laid() && doing.Valid() && segments > 0
      requires |doing.Contents()| <= |stripings| && |stripings| + c.perSegment <= MaxStripings(c)
      modifies this`stripings, doing`tail, doing.offsets
      ensures doing.Valid()
      ensures stripings == old(stripings) + FreshStripings(c, segments - 1, c.perSegment)
      ensures QueueOf(doing.Contents())
           == old(QueueOf(doing.Contents())) + Indices(|old(stripings)|, |old(stripings)| + c.perSegment)
    {
      hide FreshStripings, FreshStriping, Indices, QueueOf, Queued, MaxStripings, Ring;
      ghost var st, q, n := stripings, doing.Contents(), |stripings|;
      NothingAdded(c, segments - 1, st, QueueOf(q));
      var offset, i := 0, 0;
      while i < c.perSegment
        invariant 0 <= i <= c.perSegment && offset == i * c.stripingSize && doing.Valid() && |stripings| == n + i
        invariant stripings == st + FreshStripings(c, segments - 1, i)
        invariant |doing.Contents()| == |q| + i && QueueOf(doing.Contents()) == QueueOf(q) + Indices(n, n + i)
      {
        FreshNext(c, segments - 1, i);
        AppendBoth(c, segments - 1, st, QueueOf(q), doing.Contents(), n, i);
        stripings := stripings + [Striping(0, 0, false, segments - 1, 0, offset, offset, offset + c.stripingSize)];
        var pushed := doing.Free(OffsetOfStriping(|stripings| - 1));
        offset := offset + c.stripingSize;
        i := i + 1;
      }
    }

    // -------------------------------------------------------------- allocation

    /** Is recycling tried before the memory limit is reached? Only if the oldest done striping has aged. */
    method WantsRecycling(now: int) returns (recycle: bool)
      requires Valid()
      modifies done`index
      ensures Valid() && View() == old(View())
      ensures recycle <==> segments >= c.maxSegments || Aged(c, View(), now)
    {
      hide Inv, Linked, Chains, Homes, Covered, LiveOf, Filed, NoDup, Queued, MaxStripings, Ring;
      ghost var s := View();
      if segments >= c.maxSegments {
        recycle := true;
      } else {
        var offset := done.First();
        if offset > 0 {
          var i := StripingAt(offset);
          recycle := c.avgKeyTtl > 0 && now - stripings[i].lastAlloc >= c.avgKeyTtl;
        } else {
          recycle := false;
        }
      }
    }

    /** The loop that sets the copied entries again, as far as that succeeds. */
    method SetAll(rows: seq<Row>, now: int, ghost rest: seq<Entry>) returns (err: int)
      requires Valid() && SameData(rows, rest)
      modifies this, list, table, table.buckets, doing, doing.offsets, done, done.offsets
      ensures Valid() && (err, View()) == Reinsert(c, old(View()), rest, now)
      decreases |list.order| + |rows|, 0
    {
      hide Inv, Linked, Chains, Homes, Covered, LiveOf, Filed, NoDup, Queued, MaxStripings, Ring, Shape, Synced,
           Reinsert, ShmModel.Set, QueueOf;
      ghost var s := View();
      var i := 0;
      assert rest[0..] == rest;
      while i < |rows|
        invariant Valid() && 0 <= i <= |rows| == |rest| && |list.order| <= |old(list.order)| + i
        invariant Reinsert(c, View(), rest[i..], now) == Reinsert(c, s, rest, now)
      {
        ReinsertStep(c, View(), rest, i, now);
        ListLength();
        err := Set(rows[i].key, rows[i].value, now);
        ListLength();
        if err != OK { return; }
        i := i + 1;
      }
      assert rest[i..] == [];
      ReinsertEnd(c, View(), now);
      err := OK;
    }

    /** Takes all entries out and sets the unexpired ones again, or clears the cache if one of them does not fit. */
    method Rearrange(now: int) returns (err: int)
      requires Valid()
      modifies this, list, table, table.buckets, doing, doing.offsets, done, done.offsets
      ensures Valid() && (err, View()) == ShmModel.Rearrange(c, old(View()), now)
      decreases |list.order|, 1
    {
      hide Inv, Linked, Chains, Homes, Covered, LiveOf, Filed, NoDup, Queued, MaxStripings, Ring, Shape, Synced,
           ShmModel.Clear, Reinsert, ShmModel.Rearrange, Selected, Unexpired, QueueOf;
      ghost var s, rest := View(), Unexpired(View().live, now);
      RearrangeIs(c, s, now);
      ListLength();
      if alloced - usedEntry < MAX_KEY_SIZE + c.maxValueSize + |stripings| * c.discardSize + c.stripingSize { return ENOSPC; }
      var rows;
      err, rows := ToArray(this, All, 0, 0, now);
      AllRows(s.live, now);
      ClearedList(s);
      IsLaidOut();
      var cleared := Clear();
      ListLength();
      err := SetAll(rows, now, rest);
      if err != OK {
        ClearedList(View());
        IsLaidOut();
        cleared := Clear();
      }
    }

    lemma ListLength()
      requires Valid()
      ensures |list.order| == |View().live|
    {
    }

    lemma IsLaidOut()
      requires Valid()
      ensures LayoutIntact()
    {
    }

    /** Recycles, adds a segment or rearranges after an allocation has failed. */
    method MakeRoom(now: int) returns (err: int)
      requires Valid()
      modifies this, list, table, table.buckets, doing, doing.offsets, done, done.offsets
      ensures Valid() && (err, View()) == ShmModel.MakeRoom(c, old(View()), now)
      decreases |list.order|, 2
    {
      hide Inv, Linked, Chains, Homes, Covered, LiveOf, Filed, NoDup, Queued, MaxStripings, Ring, Aged, Shape, Synced,
           ShmModel.CreateSegment, RecycleFrom, ShmModel.Rearrange;
      ghost var s := View();
      ListLength();
      RecycleShape(c, s, now, -1, 0, 0);
      var recycle := WantsRecycling(now);
      if recycle {
        err := Recycle(now, -1);
        ListLength();
        if err != OK && !c.recycleValid {
          if segments < c.maxSegments { err := CreateSegment(); } else { err := Rearrange(now); }
        }
      } else {
        err := CreateSegment();
      }
    }

    /** Memory for an entry of this size, or 0. */
    method Alloc(keyLen: nat, valueLen: nat, now: int) returns (h: int)
      requires Valid()
      modifies this, list, table, table.buckets, doing, doing.offsets, done, done.offsets
      ensures Sound() && Synced() && View() == ShmModel.Alloc(c, old(View()), EntrySize(keyLen, valueLen), now).1
      ensures var p := ShmModel.Alloc(c, old(View()), EntrySize(keyLen, valueLen), now).0;
              (p.NoPlace? <==> h == 0) && (p.Place? ==> TakenAt(p, h))
      decreases |list.order|, 3
    {
      hide Inv, Linked, Chains, Homes, Covered, LiveOf, Filed, NoDup, Queued, MaxStripings, Ring, Aged, Shape, TakenAt,
           ShmModel.MakeRoom, ShmModel.DoAlloc, InvWith;
      var size := EntrySize(keyLen, valueLen);
      AllocFacts(c, View(), size, now);
      h := DoAlloc(size, now);
      if h != 0 { return; }
      var err := MakeRoom(now);
      if err == OK { h := DoAlloc(size, now); }
    }

    // -------------------------------------------------------------- operations

    /** Frees the key's old entry, if there is one; its chain still holds it. */
    method FreeOld(key: Bytes, found: int, ghost pending: seq<Entry>)
      requires Sound() && Synced() && InvWith(c, View(), pending) && Shape(View())
      requires if found > 0 then table.Has(found) && table.keys[found] == key else forall g :: table.Has(g) ==> table.keys[g] != key
      modifies this`stripings, this`count, this`usedEntry, this`usedKey, this`usedValue, list, doing, doing.offsets, done, done.offsets
      ensures Sound() && View() == WithoutKey(old(View()), key)
      ensures forall g :: g in list.order <==> table.Has(g) && (found > 0 ==> g != found)
    {
      hide Queues, Queued, Removed, MaxStripings, Linked, Chains, Homes, Covered, LiveOf, FreeAt, NoDup, Without, Filed, Follows, Shape,
           Inside, Disjoint, Accounted, Layout, Sized, UniqueKeys, InvWith, Counted, FreeMemory;
      ghost var s, order := View(), list.order;
      UniqueWith(c, s, pending);
      if found > 0 {
        ghost var k := Located(key, found);
        ListNoDup();
        FreeShape(s, k);
        WithoutContentsOf(order, k);
        var recycled := FreeEntry(found, k, pending);
      } else {
        NotLocated(key);
      }
    }

    /** Fills a new entry and puts it into its chain (in the place of the key's old entry, which is freed) and at the list's tail. */
    method Install(h: int, key: Bytes, value: Value, ghost p: Place)
      requires Sound() && Synced() && TakenAt(p, h) && InvWith(c, View(), Pending(p)) && Shape(View()) && 0 <= p.striping < |stripings|
      modifies this, list, table, table.buckets, doing, doing.offsets, done, done.offsets
      ensures Sound() && Synced() && View() == ShmModel.Install(old(View()), p, key, value)
    {
      hide Queues, Queued, Removed, MaxStripings, Linked, Chains, Homes, Covered, LiveOf, FreeAt, NoDup, Without, Filed, Follows, Shape,
           ShmBuckets.Placed, InvWith, FreeMemory, Find, ShmModel.Install, WithoutKey;
      ghost var s := View();
      var previous, found, at := table.Search(key);
      FreeOld(key, found, Pending(p));
      table.Link(previous, found, h, key, at);
      Announce(h, value, p, old(table.keys));
      InstallIs(s, p, key, value);
    }

    /** Writes the new entry's value and adds it to the counters and to the tail of the list. */
    method Announce(h: int, value: Value, ghost p: Place, ghost keys: map<int, Bytes>)
      requires Laid() && list.Valid() && table.Valid() && doing.Valid() && done.Valid() && TakenAt(p, h)
      requires Covered(list.order, keys, records) && h in table.keys && table.keys == keys[h := table.keys[h]]
      modifies this`records, this`count, this`usedKey, this`usedValue, list
      ensures Sound() && list.order == old(list.order) + [h]
      ensures View() == State(LiveOf(old(list.order), keys, old(records))
                                + [Entry(table.keys[h], value, p.segment, p.striping, p.offset, p.size)],
                              stripings, QueueOf(doing.Contents()), QueueOf(done.Contents()), segments, alloced, usedEntry,
                              old(usedKey) + |table.keys[h]|, old(usedValue) + |value.data|, old(count) + 1)
      ensures forall g :: g in list.order <==> g in old(list.order) || g == h
    {
      hide Queued, MaxStripings, Linked, Chains, Homes, Covered, LiveOf, NoDup, Filed, Ring, QueueOf;
      ghost var records0, order := records, list.order;
      records := records[h := records[h].(value := value)];
      Elsewhere(order, keys, records0, table.keys, records, h);
      LiveAppend(order, table.keys, records, h);
      count := count + 1;
      usedValue := usedValue + |value.data|;
      usedKey := usedKey + |table.keys[h]|;
      HeadIsNone(p, h);
      list.AddTail(h);
      AppendContents(order, h);
    }

    lemma HeadIsNone(p: Place, h: int)
      requires Laid() && TakenAt(p, h)
      ensures h != list.head
    {
      PackRoundTrip(p.segment, p.offset);
    }

    /** shm_ht_set. */
    method Set(key: Bytes, value: Value, now: int) returns (err: int)
      requires Valid()
      modifies this, list, table, table.buckets, doing, doing.offsets, done, done.offsets
      ensures Valid() && (err, View()) == ShmModel.Set(c, old(View()), key, value, now)
      decreases |list.order|, 4
    {
      hide Inv, InvWith, Shape, Queues, Queued, MaxStripings, Linked, Chains, Homes, Covered, LiveOf, NoDup, Filed, TakenAt,
           ShmModel.Alloc, ShmModel.Recycle, ShmModel.Install, ShmModel.Set, Ring;
      ghost var s := View();
      ListLength();
      SetRoomShape(c, s, now);
      SetIs(c, s, key, value, now);
      if |key| > MAX_KEY_SIZE { return ENAMETOOLONG; }
      if |value.data| > c.maxValueSize { return EINVAL; }
      if count >= c.maxKeyCount {
        err := Recycle(now, c.recycleKeyOnce);
        if err != OK { return; }
      }
      ghost var s1 := View();
      ListLength();
      SetMid(c, s1, EntrySize(|key|, |value.data|), now);
      var h := Alloc(|key|, |value.data|, now);
      if h == 0 { return ENOMEM; }
      Install(h, key, value, ShmModel.Alloc(c, s1, EntrySize(|key|, |value.data|), now).0);
      return OK;
    }

    /** shm_ht_get. */
    method Get(key: Bytes, now: int) returns (err: int, value: Value)
      requires Valid()
      ensures (err, value) == ShmModel.Get(View(), key, now)
    {
      hide Inv, Shape, Linked, Chains, Homes, NoDup, Queued, Find;
      var previous, found, at := table.Search(key);
      UniqueOf(c, View());
      if found > 0 {
        ghost var k := Located(key, found);
        EntryFacts(k);
        value := records[found].value;
        if value.expires == 0 || value.expires >= now { err := OK; } else { err := ETIMEDOUT; }
      } else {
        NotLocated(key);
        err, value := ENOENT, Value([], 0, 0);
      }
    }

    /** shm_ht_set_expires. */
    method SetExpires(key: Bytes, expires: int, now: int) returns (err: int)
      requires Valid()
      modifies this`records
      ensures Valid() && (err, View()) == ShmModel.SetExpires(old(View()), key, expires, now)
    {
      hide Inv, Shape, Linked, Chains, Homes, NoDup, Queued, Find, Covered, LiveOf, Filed;
      ghost var s := View();
      var previous, found, at := table.Search(key);
      UniqueOf(c, s);
      if found > 0 {
        ghost var k := Located(key, found);
        EntryFacts(k);
        SetExpiresOk(c, s, key, expires, now);
        var value := records[found].value;
        if value.expires == 0 || value.expires >= now {
          ListNoDup();
          LiveUpdate(list.order, table.keys, records, k, value.(expires := expires));
          records := records[found := records[found].(value := value.(expires := expires))];
          err := OK;
        } else {
          err := ETIMEDOUT;
        }
      } else {
        NotLocated(key);
        err := ENOENT;
      }
    }

    /** What a crash leaves intact: where the structures are and how the memory is divided into stripings. */
    ghost predicate LayoutIntact()
      reads this, doing, done
    {
      && Laid() && 0 <= segments <= c.maxSegments
      && |stripings| <= segments * c.perSegment && Layout(c, segments, stripings)
      && -1 <= doing.index < doing.offsets.Length && -1 <= done.index < done.offsets.Length
    }

    /** Rewinds every striping and queues it as allocatable. */
    method RewindAll()
      requires Laid() && doing.Valid() && doing.Contents() == [] && |stripings| <= MaxStripings(c)
      modifies this`stripings, doing`tail, doing.offsets
      ensures doing.Valid() && QueueOf(doing.Contents()) == Indices(0, |old(stripings)|)
      ensures stripings == ClearedTo(old(stripings), |old(stripings)|)
    {
      hide Queued, MaxStripings, Ring, QueueOf, Indices, ClearedTo;
      ClearedNone(stripings);
      ghost var st := stripings;
      var i := 0;
      while i < |stripings|
        invariant 0 <= i <= |stripings| == |st| && doing.Valid() && QueueOf(doing.Contents()) == Indices(0, i) && |doing.Contents()| == i
        invariant stripings == ClearedTo(st, i)
      {
        ClearedNext(st, i, doing.Contents());
        stripings := stripings[i := Rewound(stripings[i])];
        stripings := stripings[i := stripings[i].(done := false)];
        var pushed := doing.Free(OffsetOfStriping(i));
        i := i + 1;
      }
    }

    /** shm_ht_clear: from any contents of buckets, links, queues and counters to a valid empty cache. */
    method Clear() returns (cleared: int)
      requires LayoutIntact()
      modifies this`count, this`stripings, this`usedEntry, this`usedKey, this`usedValue, list, table`chains, table.buckets,
               doing, doing.offsets, done
      ensures Valid() && cleared == old(count)
      ensures View() == ShmModel.Clear(State([], old(stripings), [], [], segments, alloced, 0, 0, 0, 0))
    {
      hide NoDup, InRange, Inv, Shape, Linked, Chains, Homes, Queued, Filed, Layout, MaxStripings, ShmModel.Clear, Ring, QueueOf,
           Indices, ClearedTo, Covered, LiveOf, Synced;
      ghost var s := State([], stripings, [], [], segments, alloced, 0, 0, 0, 0);
      ClearFacts(c, s);
      cleared := count;
      table.Clear();
      count := 0;
      list.Init();
      doing.InitEmpty();
      done.InitEmpty();
      RewindAll();
      usedKey := 0;
      usedValue := 0;
      usedEntry := 0;
      ClearedState(s);
    }

    lemma ClearedState(s: State)
      requires Laid() && list.Valid() && table.Valid() && doing.Valid() && done.Valid()
      requires list.order == [] && (forall h :: !table.Has(h)) && done.Contents() == [] && count == usedKey == usedValue == usedEntry == 0
      requires Inv(c, ShmModel.Clear(s)) && Shape(ShmModel.Clear(s)) && segments == s.segments && alloced == s.alloced
      requires ShmModel.Clear(s) == State([], stripings, QueueOf(doing.Contents()), [], s.segments, s.alloced, 0, 0, 0, 0)
      ensures Valid() && View() == ShmModel.Clear(s)
    {
      hide Inv, Shape, Linked, Chains, Homes, Queued, Filed, ShmModel.Clear, Ring;
      NothingListed(table.keys, records);
    }
  }

  // ---------------------------------------------------------------- listing

  method Picks(cache: Cache, h: int, filter: Filter, now: int, ghost k: nat) returns (picked: bool)
    requires cache.Valid() && k < |cache.list.order| && cache.list.order[k] == h
    ensures h in cache.records && h in cache.table.keys && cache.View().live[k].key == cache.table.keys[h]
    ensures cache.View().live[k].value == cache.records[h].value
    ensures picked <==> Picked(cache.View().live[k], filter, now)
  {
    hide Inv, Shape, Linked, Chains, Homes, Queued;
    cache.EntryFacts(k);
    picked := cache.records[h].value.expires == 0 || cache.records[h].value.expires >= now;
    if picked && filter.Keys? { picked := MatchKey(filter.kind, filter.pattern, cache.table.keys[h]); }
  }

  /** One page of the matching entries; the row bound, computed from the count of all entries, never cuts a matching one off. */
  method ToArray(cache: Cache, filter: Filter, offset: int, count: int, now: int) returns (err: int, rows: seq<Row>)
    requires cache.Valid()
    ensures offset < 0 ==> err == EINVAL && rows == []
    ensures offset >= 0 ==> err == OK && rows == RowsOf(Page(Selected(cache.View().live, filter, now), offset, count))
  {
    hide Inv, Shape, Linked, Chains, Homes, Queued, Covered, LiveOf, Picked, Selected, Filed, NoDup;
    rows := [];
    if offset < 0 { return EINVAL, rows; }
    ghost var live := cache.View().live;
    ghost var all := Selected(live, filter, now);
    SelectedLength(live, filter, now);
    CountOfLive(cache.c, cache.View());
    SelectedNone(live, filter, now);
    var rowCount := cache.count - offset;
    if count > 0 && count < rowCount { rowCount := count; }
    if rowCount <= 0 { return OK, rows; }
    var i := 0;
    ghost var k := 0;
    var h := cache.list.First();
    assert live[0..] == live && all[0..] == all;
    while h > 0 && i < offset
      invariant 0 <= k <= |live| && h == (if k < |live| then cache.list.order[k] else -1)
      invariant 0 <= i <= offset && i <= |all| && all[i..] == Selected(live[k..], filter, now)
      decreases |live| - k
    {
      SelectedStep(live, k, filter, now);
      var picked := Picks(cache, h, filter, now, k);
      ghost var rest := Selected(live[k + 1..], filter, now);
      if picked {
        i := i + 1;
        TailStep(all, i - 1, live[k], rest);
      } else {
        assert [] + rest == rest;
      }
      h := cache.list.NextOf(h, k);
      k := k + 1;
    }
    ghost var page;
    rows, page := Collect(cache, filter, now, h, k, rowCount);
    PageIs(all, offset, count, cache.count, i, page, rowCount);
    return OK, rows;
  }

  /** Copies matching entries from the k-th on, until there are enough or no more. */
  method Collect(cache: Cache, filter: Filter, now: int, first: int, ghost at: nat, rowCount: int) returns (rows: seq<Row>, ghost page: seq<Entry>)
    requires cache.Valid() && rowCount > 0 && at <= |cache.list.order|
    requires first == (if at < |cache.list.order| then cache.list.order[at] else -1)
    ensures var rest := Selected(cache.View().live[at..], filter, now);
            rows == RowsOf(page) && |page| <= rowCount && page <= rest && (|page| < rowCount ==> page == rest)
  {
    hide Inv, Shape, Linked, Chains, Homes, Queued, Covered, LiveOf, Picked, Selected, Filed, NoDup;
    ghost var live := cache.View().live;
    ghost var all := Selected(live[at..], filter, now);
    rows, page := [], [];
    var h := first;
    ghost var k := at;
    SelectedNone(live, filter, now);
    assert all == page + Selected(live[k..], filter, now);
    while h > 0
      invariant 0 <= k <= |live| && h == (if k < |live| then cache.list.order[k] else -1)
      invariant |page| < rowCount && rows == RowsOf(page) && all == page + Selected(live[k..], filter, now)
      decreases |live| - k
    {
      SelectedStep(live, k, filter, now);
      var picked := Picks(cache, h, filter, now, k);
      ghost var rest := Selected(live[k + 1..], filter, now);
      if picked {
        var value := cache.records[h].value;
        rows := rows + [Row(cache.table.keys[h], Value(value.data, value.options, value.expires))];
        page := page + [live[k]];
        assert all == page + rest;
      } else {
        assert [] + rest == rest;
      }
      h := cache.list.NextOf(h, k);
      k := k + 1;
      if |rows| == rowCount { return; }
    }
    assert page + [] == page;
  }

  lemma CountOfLive(c: Config, s: State)
    requires Inv(c, s)
    ensures s.count == |s.live|
  {
  }

  // ---------------------------------------------------------------- facts for the methods above

  const EFAULT := 14

  /** What freeing `size` bytes in striping i does to stripings, queues and memory counter. */
  ghost predicate FreedAs(s: State, i: int, size: int, t: State, recycled: bool)
  {
    && 0 <= i < |s.st|
    && (t, recycled) == FreeMemory(s, Entry([], Value([], 0, 0), 0, i, 0, size))
  }

  /** Freeing an entry is freeing its memory, and taking it out of the list and the counters. */
  lemma FreedEntry(s: State, k: nat, m: State, m': State, recycled: bool)
    requires k < |s.live| && FreedAs(m, s.live[k].striping, s.live[k].size, m', recycled)
    requires m == State([], s.st, s.doing, s.done, 0, 0, s.usedEntry, 0, 0, 0)
    ensures 0 <= s.live[k].striping < |s.st|
    ensures FreeAt(s, k) == (State(Without(s.live, k), m'.st, m'.doing, m'.done, s.segments, s.alloced, m'.usedEntry,
                                   s.usedKey - |s.live[k].key|, s.usedValue - |s.live[k].value.data|, s.count - 1), recycled)
  {
  }

  lemma UniqueOf(c: Config, s: State)
    requires Inv(c, s)
    ensures UniqueKeys(s.live) && InvWith(c, s, [])
  {
  }

  /** One step of the recycle scan. */
  lemma RecycleStep(c: Config, s: State, now: int, once: int, k: nat, cleared: nat, valid: bool)
    requires Shape(s) && k < |s.live| && valid == IsValid(s.live[k], now)
    ensures 0 <= s.live[k].striping < |s.st| && Shape(FreeAt(s, k).0) && |FreeAt(s, k).0.live| == |s.live| - 1
    ensures RecycleFrom(c, s, now, once, k, cleared)
         == if valid && !c.recycleValid then RecycleFrom(c, s, now, once, k + 1, cleared)
            else if once > 0 && cleared + 1 >= once then (OK, FreeAt(s, k).0)
            else if once <= 0 && FreeAt(s, k).1 then (OK, FreeAt(s, k).0)
            else RecycleFrom(c, FreeAt(s, k).0, now, once, k, cleared + 1)
  {
    FreeShape(s, k);
  }

  lemma RecycleEnd(c: Config, s: State, now: int, once: int, cleared: nat)
    requires Shape(s)
    ensures RecycleFrom(c, s, now, once, |s.live|, cleared) == (ENOMEM, s)
  {
  }

  lemma WithoutNext(order: seq<int>, k: nat)
    requires k < |order|
    ensures |Without(order, k)| == |order| - 1
    ensures k + 1 < |order| ==> Without(order, k)[k] == order[k + 1]
  {
  }

  lemma SegmentFacts(c: Config, s: State, offsets: seq<int>)
    requires Inv(c, s) && s.segments < c.maxSegments && s.doing == QueueOf(offsets)
    ensures |s.st| + c.perSegment <= MaxStripings(c) && |offsets| <= |s.st|
    ensures |s.st| >= 0 && s.segments >= 0
  {
    hide Layout, Inside, Disjoint, Accounted, UniqueKeys, Sized, Counted, QueueOf;
    MulMono(c.maxSegments, s.segments + 1, c.perSegment);
    SameSegments(s.segments, c.perSegment);
    Pigeonhole(s.doing, |s.st|);
    QueueLength(offsets);
  }

  lemma QueueLength(offsets: seq<int>)
    ensures |QueueOf(offsets)| == |offsets|
  {
  }

  /** The i-th striping of a new segment starts i striping sizes into it. */
  lemma FreshNext(c: Config, segment: int, i: nat)
    requires ConfigOk(c)
    ensures var base := i * c.stripingSize;
            FreshStriping(c, segment, i) == Striping(0, 0, false, segment, 0, base, base, base + c.stripingSize)
    ensures (i + 1) * c.stripingSize == i * c.stripingSize + c.stripingSize
  {
  }

  lemma AppendBoth(c: Config, segment: int, st: seq<Striping>, doing: seq<int>, offsets: seq<int>, n: nat, i: nat)
    requires c.perSegment > 0 && |st| == n && QueueOf(offsets) == doing + Indices(n, n + i)
    ensures st + FreshStripings(c, segment, i) + [FreshStriping(c, segment, i)] == st + FreshStripings(c, segment, i + 1)
    ensures QueueOf(offsets + [OffsetOfStriping(n + i)]) == doing + Indices(n, n + i + 1)
  {
  }

  lemma CreateFacts(c: Config, s: State)
    requires ConfigOk(c)
    ensures s.segments >= c.maxSegments ==> ShmModel.CreateSegment(c, s) == (ENOSPC, s)
    ensures s.segments < c.maxSegments ==>
              ShmModel.CreateSegment(c, s) ==
              (OK, s.(segments := s.segments + 1, alloced := s.alloced + c.segmentSize,
                    st := s.st + FreshStripings(c, s.segments, c.perSegment),
                    doing := s.doing + Indices(|s.st|, |s.st| + c.perSegment)))
  {
  }

  lemma NothingAdded(c: Config, segment: int, st: seq<Striping>, doing: seq<int>)
    ensures st + FreshStripings(c, segment, 0) == st && doing + Indices(|st|, |st|) == doing
  {
  }

  lemma CreateInv(c: Config, s: State)
    requires Inv(c, s) && s.segments < c.maxSegments
    ensures Inv(c, ShmModel.CreateSegment(c, s).1) && Shape(ShmModel.CreateSegment(c, s).1)
  {
    CreateKeeps(c, s);
    InvShape(c, ShmModel.CreateSegment(c, s).1, []);
  }

  lemma RearrangeIs(c: Config, s: State, now: int)
    requires Inv(c, s) && Shape(s)
    ensures c.perSegment > 0 && Shape(ShmModel.Clear(s))
    ensures var (r, t) := Reinsert(c, ShmModel.Clear(s), Unexpired(s.live, now), now);
            && (TooFull(c, s) ==> ShmModel.Rearrange(c, s, now) == (ENOSPC, s))
            && (!TooFull(c, s) ==> ShmModel.Rearrange(c, s, now) == if r == OK then (OK, t) else (r, ShmModel.Clear(t)))
  {
    hide Shape, ShmModel.Clear, Reinsert, Layout, Inside, Disjoint, Accounted, Queues, UniqueKeys, Sized, Counted;
    ClearShape(s);
  }

  lemma {:induction false} SelectedAll(live: seq<Entry>, now: int)
    ensures Selected(live, All, now) == Unexpired(live, now)
  {
    if live != [] { SelectedAll(live[1..], now); }
  }

  /** The rows are those of these entries. */
  ghost predicate SameData(rows: seq<Row>, entries: seq<Entry>) {
    |rows| == |entries| && forall k :: 0 <= k < |rows| ==> rows[k].key == entries[k].key && rows[k].value == entries[k].value
  }

  /** The whole listing, in one page. */
  lemma AllRows(live: seq<Entry>, now: int)
    ensures var rows, rest := RowsOf(Page(Selected(live, All, now), 0, 0)), Unexpired(live, now);
            SameData(rows, rest) && |rest| <= |live|
  {
    SelectedAll(live, now);
    assert Page(Unexpired(live, now), 0, 0) == Unexpired(live, now);
  }

  lemma ClearedList(s: State)
    ensures ShmModel.Clear(s).live == []
    ensures ShmModel.Clear(State([], s.st, [], [], s.segments, s.alloced, 0, 0, 0, 0)) == ShmModel.Clear(s)
  {
  }

  lemma ReinsertStep(c: Config, s: State, rest: seq<Entry>, i: nat, now: int)
    requires c.perSegment > 0 && Shape(s) && i < |rest|
    ensures var (r, t) := ShmModel.Set(c, s, rest[i].key, rest[i].value, now);
            Reinsert(c, s, rest[i..], now) == if r != OK then (r, t) else Reinsert(c, t, rest[i + 1..], now)
    ensures |ShmModel.Set(c, s, rest[i].key, rest[i].value, now).1.live| <= |s.live| + 1
  {
    hide ShmModel.Set, Shape;
    assert rest[i..][0] == rest[i] && rest[i..][1..] == rest[i + 1..];
  }

  lemma ReinsertEnd(c: Config, s: State, now: int)
    requires c.perSegment > 0 && Shape(s)
    ensures Reinsert(c, s, [], now) == (OK, s)
  {
  }

  lemma AllocFacts(c: Config, s: State, size: int, now: int)
    requires Inv(c, s) && Shape(s) && size > 0
    ensures ShmModel.DoAlloc(c, s, size, now).0.NoPlace? ==>
              Inv(c, ShmModel.DoAlloc(c, s, size, now).1) && Shape(ShmModel.DoAlloc(c, s, size, now).1)
  {
    DoAllocKeeps(c, s, size, now);
    DoAllocShape(c, s, size, now);
  }

  /** The state without the entry of this key, its memory given back. */
  ghost function WithoutKey(s: State, key: Bytes): State
    requires Shape(s)
  {
    var k := Find(s.live, key);
    if k < |s.live| then FreeAt(s, k).0 else s
  }

  lemma InstallIs(s: State, p: Place, key: Bytes, value: Value)
    requires Shape(s) && p.Place? && 0 <= p.striping < |s.st|
    ensures var t := WithoutKey(s, key);
            ShmModel.Install(s, p, key, value) ==
            t.(live := t.live + [Entry(key, value, p.segment, p.striping, p.offset, p.size)], count := t.count + 1,
               usedKey := t.usedKey + |key|, usedValue := t.usedValue + |value.data|)
  {
  }

  lemma SetIs(c: Config, s: State, key: Bytes, value: Value, now: int)
    requires Inv(c, s) && Shape(s)
    ensures |key| > MAX_KEY_SIZE ==> ShmModel.Set(c, s, key, value, now) == (ENAMETOOLONG, s)
    ensures |key| <= MAX_KEY_SIZE && |value.data| > c.maxValueSize ==> ShmModel.Set(c, s, key, value, now) == (EINVAL, s)
    ensures |key| <= MAX_KEY_SIZE && |value.data| <= c.maxValueSize ==>
              var (r, s1) := if s.count >= c.maxKeyCount then ShmModel.Recycle(c, s, now, c.recycleKeyOnce) else (OK, s);
              && (r != OK ==> ShmModel.Set(c, s, key, value, now) == (r, s1))
              && (r == OK ==>
                    && Shape(s1)
                    && var (p, s2) := ShmModel.Alloc(c, s1, EntrySize(|key|, |value.data|), now);
                    && Shape(s2) && (p.Place? ==> 0 <= p.striping < |s2.st|)
                    && ShmModel.Set(c, s, key, value, now) == if p.NoPlace? then (ENOMEM, s2) else (OK, ShmModel.Install(s2, p, key, value)))
    ensures Inv(c, ShmModel.Set(c, s, key, value, now).1) && Shape(ShmModel.Set(c, s, key, value, now).1)
  {
    assert c.perSegment > 0;
    hide Walk, RecycleFrom, ShmModel.Alloc, ShmModel.Install, Shape, Layout, Inside, Disjoint, Accounted, Queues, UniqueKeys,
         Sized, Counted;
    SetKeeps(c, s, key, value, now);
    InvShaped(c, ShmModel.Set(c, s, key, value, now).1);
    SetRoomShape(c, s, now);
    if |key| <= MAX_KEY_SIZE && |value.data| <= c.maxValueSize {
    }
  }

  lemma SetMid(c: Config, s: State, size: int, now: int)
    requires Inv(c, s) && Shape(s) && size > 0
    ensures var (p, t) := ShmModel.Alloc(c, s, size, now); InvWith(c, t, Pending(p))
  {
    AllocKeeps(c, s, size, now);
  }

  lemma SetExpiresOk(c: Config, s: State, key: Bytes, expires: int, now: int)
    requires Inv(c, s) && Shape(s)
    ensures Inv(c, ShmModel.SetExpires(s, key, expires, now).1) && Shape(ShmModel.SetExpires(s, key, expires, now).1)
  {
    hide Inv, Shape;
    SetExpiresKeeps(c, s, key, expires, now);
    InvShaped(c, ShmModel.SetExpires(s, key, expires, now).1);
  }

  /** The stripings after the first n have been cleared. */
  function ClearedTo(st: seq<Striping>, n: nat): (r: seq<Striping>)
    requires n <= |st|
    ensures |r| == |st|
    ensures forall i :: 0 <= i < |st| ==> r[i] == if i < n then Rewound(st[i]).(done := false) else st[i]
  {
    seq(n, i requires 0 <= i < n => Rewound(st[i]).(done := false)) + st[n..]
  }

  lemma ClearedNext(st: seq<Striping>, n: nat, offsets: seq<int>)
    requires n < |st| && QueueOf(offsets) == Indices(0, n)
    ensures ClearedTo(st, n)[n] == st[n]
    ensures ClearedTo(st, n)[n := Rewound(st[n])][n := Rewound(st[n]).(done := false)] == ClearedTo(st, n + 1)
    ensures QueueOf(offsets + [OffsetOfStriping(n)]) == Indices(0, n + 1)
  {
  }

  lemma ClearedNone(st: seq<Striping>)
    ensures ClearedTo(st, 0) == st && Indices(0, 0) == QueueOf([]) == []
  {
  }

  lemma ClearFacts(c: Config, s: State)
    requires Intact(c, s)
    ensures Inv(c, ShmModel.Clear(s)) && Shape(ShmModel.Clear(s)) && |s.st| <= MaxStripings(c)
    ensures ShmModel.Clear(s) == State([], ClearedTo(s.st, |s.st|), Indices(0, |s.st|), [], s.segments, s.alloced, 0, 0, 0, 0)
    ensures QueueOf([]) == []
  {
    hide Inv, Layout;
    ClearEstablishes(c, s);
    InvShaped(c, ShmModel.Clear(s));
    MulMono(c.maxSegments, s.segments, c.perSegment);
  }

  lemma NothingListed(keys: map<int, Bytes>, records: map<int, Record>)
    ensures Covered([], keys, records) && LiveOf([], keys, records) == []
  {
  }

  lemma InvShaped(c: Config, s: State)
    requires Inv(c, s)
    ensures Shape(s)
  {
    InvShape(c, s, []);
  }

  lemma UniqueWith(c: Config, s: State, pending: seq<Entry>)
    requires InvWith(c, s, pending)
    ensures UniqueKeys(s.live)
  {
  }

  lemma WithoutContentsOf(order: seq<int>, k: nat)
    requires k < |order| && NoDup(order)
    ensures forall g :: g in Without(order, k) <==> g in order && g != order[k]
  {
    WithoutContents(order, k);
  }

  lemma AppendContents(order: seq<int>, h: int)
    ensures forall g :: g in order + [h] <==> g in order || g == h
  {
    assert (order + [h])[|order|] == h;
  }

  /** Writing the key and memory of an unlisted handle. */
  lemma Elsewhere(order: seq<int>, keys: map<int, Bytes>, records: map<int, Record>, keys': map<int, Bytes>, records': map<int, Record>, h: int)
    requires Covered(order, keys, records) && h !in order
    requires h in keys' && keys' == keys[h := keys'[h]] && h in records' && records' == records[h := records'[h]]
    ensures Covered(order, keys', records') && LiveOf(order, keys', records') == LiveOf(order, keys, records)
  {
    LiveElsewhere(order, keys, records, keys', records');
  }

  lemma RecycleFacts(c: Config, st: seq<Striping>, doing: seq<int>, done: seq<int>, i: int)
    requires Queues(c, st, QueueOf(doing), QueueOf(done)) && 0 <= i < |st| && st[i].done
    ensures OffsetOfStriping(i) in done && |doing| < |st|
    ensures forall k :: 0 <= k < |done| ==> done[k] > 0
  {
    QueueMember(done, i);
    var q := QueueOf(doing) + [i];
    assert i !in QueueOf(doing);
    forall j, k | 0 <= j < k < |q| ensures q[j] != q[k] { assert q[j] == QueueOf(doing)[j]; }
    Pigeonhole(q, |st|);
    forall k | 0 <= k < |done| ensures done[k] > 0 { assert QueueOf(done)[k] == StripingAt(done[k]); }
  }

  lemma SameFlags(c: Config, st: seq<Striping>, st': seq<Striping>, doing: seq<int>, done: seq<int>, i: int)
    requires Queues(c, st, doing, done) && 0 <= i < |st| && |st'| == |st| && st'[i].done == st[i].done && st' == st[i := st'[i]]
    ensures Queues(c, st', doing, done)
  {
    FreeQueues(c, st, doing, done, i, st'[i]);
  }

  lemma FreeEntryFacts(c: Config, s: State, k: nat, pending: seq<Entry>, order: seq<int>, keys: map<int, Bytes>, records: map<int, Record>)
    requires Covered(order, keys, records) && s.live == LiveOf(order, keys, records) && k < |order|
    requires InvWith(c, s, pending) && Shape(s)
    ensures order[k] in order && CoveredAt(order[k], keys, records) && s.live[k] == EntryAt(order[k], keys, records)
    ensures 0 <= s.live[k].striping < |s.st| <= MaxStripings(c) && Queues(c, s.st, s.doing, s.done)
  {
    MulMono(c.maxSegments, s.segments, c.perSegment);
  }

  /** Where the walk is: the stripings, the queue's part behind and before the iterator, and the done queue. */
  datatype Cursor = Cursor(st: seq<Striping>, kept: seq<int>, rest: seq<int>, done: seq<int>)

  /** After an attempt without success in the first striping still to be visited. */
  function Failed(cur: Cursor): (t: Cursor)
    requires cur.rest != [] && 0 <= cur.rest[0] < |cur.st|
    ensures t == cur.(st := cur.st[cur.rest[0] := cur.st[cur.rest[0]].(failTimes := cur.st[cur.rest[0]].failTimes + 1)])
  {
    var i := cur.rest[0];
    cur.(st := cur.st[i := cur.st[i].(failTimes := cur.st[i].failTimes + 1)])
  }

  /** After this striping has been left behind, kept or removed. */
  function Skipped(c: Config, cur: Cursor): (t: Cursor)
    requires cur.rest != [] && 0 <= cur.rest[0] < |cur.st|
    ensures |t.rest| == |cur.rest| - 1
  {
    var i := cur.rest[0];
    if !Exhausted(c, cur.st[i]) then Cursor(cur.st, cur.kept + [i], cur.rest[1..], cur.done)
    else if cur.kept == [] || c.documentedRemove then
      Cursor(cur.st[i := cur.st[i].(done := true)], cur.kept, cur.rest[1..], cur.done + [i])
    else Cursor(cur.st, cur.kept, cur.rest[1..], cur.done)
  }

  lemma SkippedIs(c: Config, cur: Cursor)
    requires cur.rest != [] && InRange(cur.kept + cur.rest, |cur.st|)
    ensures 0 <= cur.rest[0] < |cur.st| && (cur.kept + cur.rest)[|cur.kept|] == cur.rest[0]
    ensures var i, t := cur.rest[0], Skipped(c, cur);
            && |t.kept + t.rest| == |t.kept| + |t.rest| && (t.rest != [] ==> (t.kept + t.rest)[|t.kept|] == t.rest[0])
            && (if Exhausted(c, cur.st[i]) then
                  && t.kept == cur.kept && t.kept + t.rest == cur.kept + cur.rest[1..]
                  && (if cur.kept == [] || c.documentedRemove then t.st == cur.st[i := cur.st[i].(done := true)] && t.done == cur.done + [i]
                      else t.st == cur.st && t.done == cur.done)
                else t.st == cur.st && t.done == cur.done && |t.kept| == |cur.kept| + 1 && t.kept + t.rest == cur.kept + cur.rest)
  {
    assert (cur.kept + cur.rest)[|cur.kept|] == cur.rest[0];
    assert (cur.kept + [cur.rest[0]]) + cur.rest[1..] == cur.kept + cur.rest;
  }

  /** The allocation in state s has come to this cursor. */
  ghost predicate Walking(c: Config, s: State, cur: Cursor, size: int, now: int) {
    && InRange(s.doing, |s.st|) && InRange(cur.rest, |cur.st|)
    && Queues(c, cur.st, cur.kept + cur.rest, cur.done) && |cur.st| == |s.st| <= MaxStripings(c)
    && Walk(c, s.st, [], s.doing, s.done, size, now) == Walk(c, cur.st, cur.kept, cur.rest, cur.done, size, now)
  }

  lemma WalkStart(c: Config, s: State, size: int, now: int)
    requires Inv(c, s)
    ensures Walking(c, s, Cursor(s.st, [], s.doing, s.done), size, now)
  {
    assert [] + s.doing == s.doing;
    InvQueues(c, s);
  }

  /** One step of the walk: the end of the allocation, or the walk from the next striping on. */
  lemma WalkAt(c: Config, s: State, cur: Cursor, size: int, now: int)
    requires Inv(c, s) && Shape(s) && size > 0 && Walking(c, s, cur, size, now)
    ensures InRange(s.doing, |s.st|) && InRange(cur.rest, |cur.st|)
    ensures cur.rest != [] ==> 0 <= cur.rest[0] < |cur.st|
    ensures cur.rest != [] && Fits(cur.st[cur.rest[0]], size) ==>
              var i := cur.rest[0]; var (p, t) := ShmModel.DoAlloc(c, s, size, now);
              && p == Place(cur.st[i].segment, i, cur.st[i].free, size) && InvWith(c, t, Pending(p)) && p.offset >= 0 && p.segment >= 0
              && t == s.(st := cur.st[i := Bump(cur.st[i], size, now)], doing := cur.kept + cur.rest, done := cur.done,
                         usedEntry := s.usedEntry + size)
    ensures cur.rest != [] && !Fits(cur.st[cur.rest[0]], size) ==>
              var f := Failed(cur);
              && Queues(c, f.st, f.kept + f.rest, f.done) && |f.st| <= MaxStripings(c)
              && Walking(c, s, Skipped(c, f), size, now)
  {
    if cur.rest != [] {
      if Fits(cur.st[cur.rest[0]], size) { Found(c, s, cur, size, now); } else { NotFound(c, s, cur, size, now); }
    }
  }

  lemma NotFound(c: Config, s: State, cur: Cursor, size: int, now: int)
    requires Walking(c, s, cur, size, now) && cur.rest != [] && 0 <= cur.rest[0] < |cur.st| && !Fits(cur.st[cur.rest[0]], size)
    ensures var f := Failed(cur);
            && Queues(c, f.st, f.kept + f.rest, f.done) && Walking(c, s, Skipped(c, f), size, now)
  {
    hide MaxStripings, Queues;
    var f, i := Failed(cur), cur.rest[0];
    SameFlags(c, cur.st, f.st, cur.kept + cur.rest, cur.done, i);
    if Exhausted(c, f.st[i]) {
      DiscardFacts(c, f.st, f.kept, f.rest, f.done, i);
      assert f.st[i := f.st[i].(done := true)] == cur.st[i := f.st[i].(done := true)];
    } else {
      assert (f.kept + [i]) + f.rest[1..] == f.kept + f.rest;
    }
  }

  lemma WalkingRange(c: Config, s: State, cur: Cursor, size: int, now: int)
    requires Walking(c, s, cur, size, now)
    ensures InRange(cur.rest, |cur.st|)
  {
  }

  /** The allocation's result when the walk reaches a striping with room. */
  lemma Found(c: Config, s: State, cur: Cursor, size: int, now: int)
    requires Inv(c, s) && Shape(s) && size > 0
    requires Walking(c, s, cur, size, now) && cur.rest != [] && 0 <= cur.rest[0] < |cur.st| && Fits(cur.st[cur.rest[0]], size)
    ensures var i := cur.rest[0]; var (p, t) := ShmModel.DoAlloc(c, s, size, now);
            && p == Place(cur.st[i].segment, i, cur.st[i].free, size) && InvWith(c, t, Pending(p)) && p.offset >= 0 && p.segment >= 0
            && t == s.(st := cur.st[i := Bump(cur.st[i], size, now)], doing := cur.kept + cur.rest, done := cur.done,
                       usedEntry := s.usedEntry + size)
  {
    hide Queues, MaxStripings, InvWith, Shape, SameExtents;
    var i := cur.rest[0];
    FoundWalk(c, cur, size, now);
    WalkExtents(c, s.st, [], s.doing, s.done, size, now);
    DoAllocKeeps(c, s, size, now);
    SameExtent(s.st, cur.st[i := Bump(cur.st[i], size, now)], i, size, now);
    assert cur.st[i := Bump(cur.st[i], size, now)][i] == Bump(cur.st[i], size, now);
    var (p, t) := ShmModel.DoAlloc(c, s, size, now);
    HandleFields(c, t, Pending(p), |t.live|);
  }

  lemma FoundWalk(c: Config, cur: Cursor, size: int, now: int)
    requires InRange(cur.rest, |cur.st|) && cur.rest != [] && Fits(cur.st[cur.rest[0]], size)
    ensures Walk(c, cur.st, cur.kept, cur.rest, cur.done, size, now)
         == Walked(cur.rest[0], cur.st[cur.rest[0] := Bump(cur.st[cur.rest[0]], size, now)], cur.kept + cur.rest, cur.done)
  {
  }

  lemma SameExtent(a: seq<Striping>, b: seq<Striping>, i: int, size: int, now: int)
    requires 0 <= i < |a| && SameExtents(a[i := Bump(a[i], size, now)], b)
    ensures i < |b| && b[i].segment == a[i].segment && b[i].free == a[i].free + size
  {
    assert b[i] == Bump(a[i], size, now).(failTimes := b[i].failTimes, done := b[i].done, lastAlloc := b[i].lastAlloc);
  }

  lemma WalkMissed(c: Config, s: State, cur: Cursor, size: int, now: int)
    requires Walking(c, s, cur, size, now) && cur.rest == []
    ensures InRange(s.doing, |s.st|)
    ensures ShmModel.DoAlloc(c, s, size, now) == (NoPlace, s.(st := cur.st, doing := cur.kept + cur.rest, done := cur.done))
  {
    assert cur.kept + [] == cur.kept;
  }

  lemma QueuesRange(c: Config, st: seq<Striping>, doing: seq<int>, done: seq<int>)
    requires Queues(c, st, doing, done)
    ensures InRange(doing, |st|)
  {
  }

  lemma SlotsPositive(c: Config)
    requires ConfigOk(c)
    ensures MaxStripings(c) > 0
  {
  }

  lemma EmptyOk(c: Config)
    requires ConfigOk(c)
    ensures Inv(c, State([], [], [], [], 0, 0, 0, 0, 0, 0)) && Shape(State([], [], [], [], 0, 0, 0, 0, 0, 0)) && QueueOf([]) == []
  {
  }

  lemma InvQueues(c: Config, s: State)
    requires Inv(c, s)
    ensures Queues(c, s.st, s.doing, s.done) && |s.st| <= MaxStripings(c)
  {
    MulMono(c.maxSegments, s.segments, c.perSegment);
  }

  lemma DiscardFacts(c: Config, st: seq<Striping>, kept: seq<int>, rest: seq<int>, done: seq<int>, i: int)
    requires Queues(c, st, kept + rest, done) && rest != [] && rest[0] == i
    ensures 0 <= i < |st| && |done| < |st| && Without(kept + rest, |kept|) == kept + rest[1..]
    ensures kept != [] ==> kept[|kept| - 1] != i
    ensures Queues(c, st[i := st[i].(done := true)], kept + rest[1..], done + [i])
    ensures !c.documentedRemove ==> Queues(c, st, kept + rest[1..], done)
  {
    assert (kept + rest)[|kept|] == i;
    WalkRemoves(c, st, kept, rest, done, st[i]);
    assert st[i := st[i]] == st;
    Pigeonhole(done + [i], |st|);
  }
}
