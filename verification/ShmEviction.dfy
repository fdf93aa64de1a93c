/** What operations do to the list of entries: eviction order, rearranging, and a set as an update of a finite map. */
module ShmEviction {
  import opened ShmModel
  import opened ShmInvariant

  // ---------------------------------------------------------------- eviction

  /** Entries that differ at most in where they are. */
  predicate SameRow(a: Entry, b: Entry) {
    a.key == b.key && a.value == b.value
  }

  ghost predicate SameRows(a: seq<Entry>, b: seq<Entry>) {
    |a| == |b| && forall k :: 0 <= k < |a| ==> SameRow(a[k], b[k])
  }

  /** `after` is `before` with some expired entries taken out, and the others possibly moved. */
  ghost predicate OnlyExpired(before: seq<Entry>, after: seq<Entry>, now: int)
    decreases |before|
  {
    if before == [] then after == []
    else
      || (after != [] && SameRow(after[0], before[0]) && OnlyExpired(before[1..], after[1..], now))
      || (!IsValid(before[0], now) && OnlyExpired(before[1..], after, now))
  }

  /** Eviction takes a prefix of the list if valid entries may go, and expired entries only otherwise. */
  ghost predicate Evicted(c: Config, before: seq<Entry>, after: seq<Entry>, now: int) {
    if c.recycleValid then |after| <= |before| && after == before[|before| - |after|..]
    else OnlyExpired(before, after, now)
  }

  lemma {:induction false} ExpiredRefl(s: seq<Entry>, now: int)
    ensures OnlyExpired(s, s, now)
  {
    if s != [] { ExpiredRefl(s[1..], now); }
  }

  lemma {:induction false} ExpiredTrans(a: seq<Entry>, b: seq<Entry>, d: seq<Entry>, now: int)
    requires OnlyExpired(a, b, now) && OnlyExpired(b, d, now)
    ensures OnlyExpired(a, d, now)
    decreases |a|
  {
    if a != [] {
      if b != [] && SameRow(b[0], a[0]) && OnlyExpired(a[1..], b[1..], now) {
        if d != [] && SameRow(d[0], b[0]) && OnlyExpired(b[1..], d[1..], now) {
          ExpiredTrans(a[1..], b[1..], d[1..], now);
        } else {
          ExpiredTrans(a[1..], b[1..], d, now);
        }
      } else {
        ExpiredTrans(a[1..], b, d, now);
      }
    }
  }

  lemma {:induction false} ExpiredWithout(s: seq<Entry>, k: nat, now: int)
    requires k < |s| && !IsValid(s[k], now)
    ensures OnlyExpired(s, Without(s, k), now)
  {
    if k == 0 {
      assert Without(s, 0) == s[1..];
      ExpiredRefl(s[1..], now);
    } else {
      assert Without(s, k)[1..] == Without(s[1..], k - 1);
      ExpiredWithout(s[1..], k - 1, now);
    }
  }

  lemma EvictedRefl(c: Config, s: seq<Entry>, now: int)
    ensures Evicted(c, s, s, now)
  {
    ExpiredRefl(s, now);
  }

  lemma EvictedTrans(c: Config, a: seq<Entry>, b: seq<Entry>, d: seq<Entry>, now: int)
    requires Evicted(c, a, b, now) && Evicted(c, b, d, now)
    ensures Evicted(c, a, d, now)
  {
    if !c.recycleValid { ExpiredTrans(a, b, d, now); }
  }

  lemma {:induction false} RecycleEvicts(c: Config, s: State, now: int, once: int, k: nat, cleared: nat)
    requires Shape(s) && k <= |s.live| && (c.recycleValid ==> k == 0)
    ensures Evicted(c, s.live, RecycleFrom(c, s, now, once, k, cleared).1.live, now)
    decreases |s.live| - k
  {
    if k == |s.live| {
      EvictedRefl(c, s.live, now);
    } else if IsValid(s.live[k], now) && !c.recycleValid {
      RecycleEvicts(c, s, now, once, k + 1, cleared);
    } else {
      FreeShape(s, k);
      var s1 := FreeAt(s, k).0;
      if c.recycleValid { assert s1.live == s.live[1..]; } else { ExpiredWithout(s.live, k, now); }
      RecycleEvicts(c, s1, now, once, k, cleared + 1);
      EvictedRefl(c, s1.live, now);
      EvictedTrans(c, s.live, s1.live, RecycleFrom(c, s1, now, once, k, cleared + 1).1.live, now);
    }
  }

  ghost function Lookup(live: seq<Entry>, key: Bytes): seq<Value> {
    var k := Find(live, key);
    if k < |live| then [live[k].value] else []
  }

  /** `live` without the entry of this key. */
  ghost function Drop(live: seq<Entry>, key: Bytes): seq<Entry> {
    var k := Find(live, key);
    if k < |live| then Without(live, k) else live
  }

  // ---------------------------------------------------------------- rearranging, and what a set does to the list

  /** Does making room get as far as taking everything out and putting it in again? */
  ghost predicate RoomRearranges(c: Config, s: State, now: int)
    requires Shape(s)
  {
    var (r, t) := Recycle(c, s, now, -1);
    !c.recycleValid && s.segments >= c.maxSegments && r != OK && !TooFull(c, t)
  }

  ghost predicate Rearranges(c: Config, s: State, size: int, now: int)
    requires Shape(s)
  {
    DoAllocShape(c, s, size, now);
    var (p, t) := DoAlloc(c, s, size, now);
    p.NoPlace? && RoomRearranges(c, t, now)
  }

  ghost predicate SetRearranges(c: Config, s: State, key: Bytes, value: Value, now: int)
    requires Shape(s)
  {
    SetRoomShape(c, s, now);
    var (r, t) := SetRoom(c, s, now);
    && |key| <= MAX_KEY_SIZE && |value.data| <= c.maxValueSize && r == OK
    && Rearranges(c, t, EntrySize(|key|, |value.data|), now)
  }

  ghost predicate AllValid(s: seq<Entry>, now: int) {
    forall k :: 0 <= k < |s| ==> IsValid(s[k], now)
  }

  /** Where nothing has expired, nothing can go. */
  lemma {:induction false} NoneExpired(a: seq<Entry>, b: seq<Entry>, now: int)
    requires OnlyExpired(a, b, now) && AllValid(a, now)
    ensures SameRows(a, b)
    decreases |a|
  {
    if a != [] {
      NoneExpired(a[1..], b[1..], now);
      forall k | 0 <= k < |a| ensures SameRow(a[k], b[k]) {
        if k > 0 { assert SameRow(a[1..][k - 1], b[1..][k - 1]); }
      }
    }
  }

  lemma {:induction false} UnexpiredIs(s: seq<Entry>, r: seq<Entry>, now: int)
    requires SameRows(r, Unexpired(s, now))
    ensures AllValid(Unexpired(s, now), now) && OnlyExpired(s, r, now)
    decreases |s|
  {
    if s != [] {
      var u := Unexpired(s[1..], now);
      if IsValid(s[0], now) {
        assert Unexpired(s, now) == [s[0]] + u;
        forall k | 0 <= k < |u| ensures SameRow(r[1..][k], u[k]) { assert SameRow(r[k + 1], Unexpired(s, now)[k + 1]); }
        UnexpiredIs(s[1..], r[1..], now);
        assert SameRow(r[0], Unexpired(s, now)[0]);
      } else {
        assert Unexpired(s, now) == u;
        UnexpiredIs(s[1..], r, now);
      }
    }
  }

  lemma RowsRefl(s: seq<Entry>)
    ensures SameRows(s, s)
  {
  }

  /** What a set of an absent key comes to when nothing has expired. */
  lemma AppendRows(live: seq<Entry>, kept: seq<Entry>, t: seq<Entry>, rest: seq<Entry>, now: int)
    requires SameRows(live, kept) && UniqueKeys(live + rest) && AllValid(live, now) && AllValid(rest, now) && rest != []
    requires |t| > 0 && t[..|t| - 1] == Drop(kept, rest[0].key) && SameRow(t[|t| - 1], rest[0])
    ensures |t| == |live| + 1 && AllValid(t, now) && UniqueKeys(t) && UniqueKeys(t + rest[1..]) && AllValid(rest[1..], now)
    ensures SameRows(t + rest[1..], live + rest)
  {
    var all, next := live + rest, t + rest[1..];
    assert all[|live|] == rest[0];
    forall k | 0 <= k < |kept| ensures kept[k].key != rest[0].key { assert SameRow(live[k], kept[k]) && live[k] == all[k]; }
    FindNone(kept, rest[0].key);
    forall k | 0 <= k < |next| ensures SameRow(next[k], all[k]) {
      if k < |live| { assert SameRow(live[k], kept[k]) && t[k] == t[..|t| - 1][k]; }
    }
    forall i, j | 0 <= i < j < |next| ensures next[i].key != next[j].key {
      assert SameRow(next[i], all[i]) && SameRow(next[j], all[j]) && all[i].key != all[j].key;
    }
    forall k | 0 <= k < |t| ensures IsValid(t[k], now) && t[k] == next[k] { assert SameRow(next[k], all[k]); }
    forall i, j | 0 <= i < j < |t| ensures t[i].key != t[j].key { assert t[i] == next[i] && t[j] == next[j]; }
  }

  lemma RowsTrans(a: seq<Entry>, b: seq<Entry>, d: seq<Entry>)
    requires SameRows(a, b) && SameRows(b, d)
    ensures SameRows(a, d)
  {
    forall k | 0 <= k < |a| ensures SameRow(a[k], d[k]) { assert SameRow(a[k], b[k]) && SameRow(b[k], d[k]); }
  }

  /** Putting entries of other keys in, none of them expired, appends them in order. */
  lemma ReinsertAppends(c: Config, s: State, rest: seq<Entry>, now: int)
    requires c.perSegment > 0 && Shape(s) && !c.recycleValid
    requires UniqueKeys(s.live) && UniqueKeys(s.live + rest) && AllValid(s.live, now) && AllValid(rest, now)
    ensures var (r, t) := Reinsert(c, s, rest, now); r == OK ==> SameRows(t.live, s.live + rest)
    decreases |s.live| + |rest|, 0, |rest|
  {
    hide Set, Shape, OnlyExpired, UniqueKeys, AllValid, SameRows;
    if rest == [] {
      assert s.live + rest == s.live;
      RowsRefl(s.live);
    } else {
      var kept := SetEvictsThenAppends(c, s, rest[0].key, rest[0].value, now);
      var (r, t) := Set(c, s, rest[0].key, rest[0].value, now);
      if r == OK {
        NoneExpired(s.live, kept, now);
        AppendRows(s.live, kept, t.live, rest, now);
        ReinsertAppends(c, t, rest[1..], now);
        if Reinsert(c, t, rest[1..], now).0 == OK {
          RowsTrans(Reinsert(c, t, rest[1..], now).1.live, t.live + rest[1..], s.live + rest);
        }
      }
    }
  }

  /** A rearrangement that succeeds keeps every unexpired entry, key, value and order; one that has begun and fails leaves none. */
  lemma RearrangeRows(c: Config, s: State, now: int)
    requires c.perSegment > 0 && Shape(s) && UniqueKeys(s.live) && !c.recycleValid
    ensures var (r, t) := Rearrange(c, s, now);
            if r == OK then SameRows(t.live, Unexpired(s.live, now)) && OnlyExpired(s.live, t.live, now) && AllValid(t.live, now)
            else if TooFull(c, s) then t == s
            else t.live == []
    decreases |s.live|, 1, 0
  {
    hide Shape, OnlyExpired, UniqueKeys, SameRows, Reinsert, AllValid;
    if !TooFull(c, s) {
      var rest := Unexpired(s.live, now);
      RowsRefl(rest);
      UnexpiredIs(s.live, rest, now);
      ExpiredUnique(s.live, rest, now);
      ClearShape(s);
      NoneLive(now);
      assert [] + rest == rest;
      ReinsertAppends(c, Clear(s), rest, now);
      var (r, t) := Reinsert(c, Clear(s), rest, now);
      if r == OK {
        UnexpiredIs(s.live, t.live, now);
        SameValid(rest, t.live, now);
      }
    }
  }

  lemma SameValid(a: seq<Entry>, b: seq<Entry>, now: int)
    requires AllValid(a, now) && SameRows(b, a)
    ensures AllValid(b, now)
  {
    forall k | 0 <= k < |b| ensures IsValid(b[k], now) { assert SameRow(b[k], a[k]); }
  }

  lemma NoneLive(now: int)
    ensures UniqueKeys([]) && AllValid([], now)
  {
  }

  lemma MakeRoomEvicts(c: Config, s: State, now: int)
    requires c.perSegment > 0 && Shape(s) && UniqueKeys(s.live)
    ensures var (r, t) := MakeRoom(c, s, now);
            Evicted(c, s.live, t.live, now) || (r != OK && t.live == [] && RoomRearranges(c, s, now))
    decreases |s.live|, 2, 0
  {
    hide RecycleFrom, Shape, OnlyExpired, UniqueKeys, Rearrange;
    EvictedRefl(c, s.live, now);
    RecycleEvicts(c, s, now, -1, 0, 0);
    RecycleShape(c, s, now, -1, 0, 0);
    var (q, u) := Recycle(c, s, now, -1);
    KeptUnique(c, s.live, u.live, now);
    if q != OK && !c.recycleValid && u.segments >= c.maxSegments {
      RearrangeRows(c, u, now);
      var (r, t) := Rearrange(c, u, now);
      if r == OK { ExpiredTrans(s.live, u.live, t.live, now); }
    }
  }

  /** An allocation evicts at most; only a rearrangement that fails takes more, namely everything. */
  lemma AllocEvicts(c: Config, s: State, size: int, now: int)
    requires c.perSegment > 0 && Shape(s) && UniqueKeys(s.live)
    ensures var (p, t) := Alloc(c, s, size, now);
            Evicted(c, s.live, t.live, now) || (p.NoPlace? && t.live == [] && Rearranges(c, s, size, now))
    decreases |s.live|, 3, 0
  {
    hide Evicted, Walk, RecycleFrom, MakeRoom, UniqueKeys;
    EvictedRefl(c, s.live, now);
    DoAllocShape(c, s, size, now);
    var (p, s1) := DoAlloc(c, s, size, now);
    if p.NoPlace? {
      MakeRoomEvicts(c, s1, now);
      DoAllocShape(c, MakeRoom(c, s1, now).1, size, now);
    }
  }

  /** A set first evicts, then drops the key's old entry and appends the new one; a failed set only evicts, unless it has begun
      to rearrange: then it leaves nothing. */
  lemma SetEvictsThenAppends(c: Config, s: State, key: Bytes, value: Value, now: int) returns (kept: seq<Entry>)
    requires c.perSegment > 0 && Shape(s) && UniqueKeys(s.live)
    ensures Evicted(c, s.live, kept, now)
    ensures var (r, t) := Set(c, s, key, value, now);
            && (r != OK ==> t.live == kept || (t.live == [] && SetRearranges(c, s, key, value, now)))
            && (r == OK ==> |t.live| > 0 && t.live[..|t.live| - 1] == Drop(kept, key)
                            && t.live[|t.live| - 1].key == key && t.live[|t.live| - 1].value == value)
    decreases |s.live|, 4, 0
  {
    hide Evicted, RecycleFrom, Alloc, FreeMemory, Shape, Rearranges, UniqueKeys;
    EvictedRefl(c, s.live, now);
    kept := s.live;
    if |key| <= MAX_KEY_SIZE && |value.data| <= c.maxValueSize {
      SetRoomShape(c, s, now);
      RecycleEvicts(c, s, now, c.recycleKeyOnce, 0, 0);
      var (r, s1) := SetRoom(c, s, now);
      kept := s1.live;
      if r == OK {
        KeptUnique(c, s.live, s1.live, now);
        AllocEvicts(c, s1, EntrySize(|key|, |value.data|), now);
        var (p, s2) := Alloc(c, s1, EntrySize(|key|, |value.data|), now);
        if Evicted(c, s1.live, s2.live, now) {
          EvictedTrans(c, s.live, s1.live, s2.live, now);
          kept := s2.live;
        }
        if p.Place? { InstallLive(s2, p, key, value); }
      }
    }
  }

  lemma InstallLive(s: State, p: Place, key: Bytes, value: Value)
    requires Shape(s) && p.Place? && 0 <= p.striping < |s.st|
    ensures Install(s, p, key, value).live == Drop(s.live, key) + [Entry(key, value, p.segment, p.striping, p.offset, p.size)]
  {
    var k := Find(s.live, key);
    if k < |s.live| { FreeShape(s, k); }
  }

  // ---------------------------------------------------------------- a set refines a map update

  lemma {:induction false} FindFirst(live: seq<Entry>, key: Bytes, k: nat)
    requires k < |live| && live[k].key == key && UniqueKeys(live)
    ensures Find(live, key) == k
  {
    forall j | 0 <= j < k ensures live[j].key != key { assert live[j].key != live[k].key; }
  }

  lemma FindNone(live: seq<Entry>, key: Bytes)
    requires forall k :: 0 <= k < |live| ==> live[k].key != key
    ensures Find(live, key) == |live| && Lookup(live, key) == []
  {
  }

  /** Eviction never changes a value: a key keeps its value or is gone. */
  lemma {:induction false} ExpiredLookup(a: seq<Entry>, b: seq<Entry>, now: int, key: Bytes)
    requires OnlyExpired(a, b, now) && UniqueKeys(a)
    ensures Lookup(b, key) == Lookup(a, key) || (Lookup(b, key) == [] && Lookup(a, key) != [] && !IsValid(a[Find(a, key)], now))
    decreases |a|
  {
    if a != [] {
      var a' := a[1..];
      assert UniqueKeys(a') by {
        forall i, j | 0 <= i < j < |a'| ensures a'[i].key != a'[j].key { assert a[i + 1].key != a[j + 1].key; }
      }
      if b != [] && SameRow(b[0], a[0]) && OnlyExpired(a', b[1..], now) {
        ExpiredLookup(a', b[1..], now, key);
      } else {
        ExpiredLookup(a', b, now, key);
        if a[0].key == key {
          forall j | 0 <= j < |a'| ensures a'[j].key != key { assert a[0].key != a[j + 1].key; }
          FindNone(a', key);
        }
      }
    }
  }

  lemma SuffixLookup(a: seq<Entry>, n: nat, key: Bytes)
    requires n <= |a| && UniqueKeys(a)
    ensures Lookup(a[n..], key) == Lookup(a, key) || (Lookup(a[n..], key) == [] && Find(a, key) < n)
  {
    var b := a[n..];
    forall i, j | 0 <= i < j < |b| ensures b[i].key != b[j].key { assert a[n + i].key != a[n + j].key; }
    var k := Find(a, key);
    if k < |a| && k >= n {
      assert b[k - n] == a[k];
      FindFirst(b, key, k - n);
    } else {
      forall i | 0 <= i < |b| ensures b[i].key != key { if k < |a| { assert a[k].key != a[n + i].key; } else { assert a[n + i].key != key; } }
      FindNone(b, key);
    }
  }

  /** What eviction does to a lookup: nothing, or the key is gone; a valid entry goes only if the configuration allows it. */
  lemma EvictedLookup(c: Config, a: seq<Entry>, b: seq<Entry>, now: int, key: Bytes)
    requires Evicted(c, a, b, now) && UniqueKeys(a)
    ensures Lookup(b, key) == Lookup(a, key)
            || (Lookup(b, key) == [] && Find(a, key) < |a| && (c.recycleValid || !IsValid(a[Find(a, key)], now)))
  {
    if c.recycleValid { SuffixLookup(a, |a| - |b|, key); } else { ExpiredLookup(a, b, now, key); }
  }

  lemma DropLookup(live: seq<Entry>, key: Bytes, other: Bytes)
    requires UniqueKeys(live)
    ensures Lookup(Drop(live, key), key) == []
    ensures other != key ==> Lookup(Drop(live, key), other) == Lookup(live, other)
  {
    var k := Find(live, key);
    var r := Drop(live, key);
    FindUnique(live, key);
    if k < |live| {
      forall j | 0 <= j < |r| ensures r[j] == live[if j < k then j else j + 1] { WithoutIndex(live, k, j); }
      FindNone(r, key);
      var m := Find(live, other);
      if m < |live| && other != key {
        var n := if m < k then m else m - 1;
        assert r[n] == live[m];
        forall i, j | 0 <= i < j < |r| ensures r[i].key != r[j].key {
          assert r[i] == live[if i < k then i else i + 1] && r[j] == live[if j < k then j else j + 1];
        }
        FindFirst(r, other, n);
      } else if other != key {
        FindNone(r, other);
      }
    }
  }

  lemma {:induction false} AppendLookup(live: seq<Entry>, e: Entry, key: Bytes)
    ensures Lookup(live + [e], key) == if Lookup(live, key) != [] then Lookup(live, key) else if e.key == key then [e.value] else []
  {
    var all := live + [e];
    if live == [] {
      assert all == [e] && [e][1..] == [];
    } else {
      assert all[0] == live[0] && all[1..] == live[1..] + [e];
      AppendLookup(live[1..], e, key);
    }
  }

  /** A successful set is a map update with eviction: the key has the new value, every other key keeps its value or was evicted. */
  lemma SetRefinesMap(c: Config, s: State, key: Bytes, value: Value, now: int, other: Bytes)
    requires Inv(c, s) && Shape(s) && Set(c, s, key, value, now).0 == OK
    ensures Lookup(Set(c, s, key, value, now).1.live, key) == [value]
    ensures var after, before := Lookup(Set(c, s, key, value, now).1.live, other), Lookup(s.live, other);
            other == key || after == before
            || (after == [] && before != [] && (c.recycleValid || !IsValid(s.live[Find(s.live, other)], now)))
  {
    hide Set, Evicted, Shape;
    var kept := SetEvictsThenAppends(c, s, key, value, now);
    var t := Set(c, s, key, value, now).1;
    KeptUnique(c, s.live, kept, now);
    var e := t.live[|t.live| - 1];
    assert t.live == Drop(kept, key) + [e];
    EvictedLookup(c, s.live, kept, now, other);
    DropLookup(kept, key, other);
    AppendLookup(Drop(kept, key), e, key);
    AppendLookup(Drop(kept, key), e, other);
  }

  lemma KeptUnique(c: Config, a: seq<Entry>, b: seq<Entry>, now: int)
    requires Evicted(c, a, b, now) && UniqueKeys(a)
    ensures UniqueKeys(b)
  {
    if c.recycleValid {
      forall i, j | 0 <= i < j < |b| ensures b[i].key != b[j].key {
        assert b[i] == a[|a| - |b| + i] && b[j] == a[|a| - |b| + j];
      }
    } else {
      ExpiredUnique(a, b, now);
    }
  }

  lemma {:induction false} ExpiredUnique(a: seq<Entry>, b: seq<Entry>, now: int)
    requires OnlyExpired(a, b, now) && UniqueKeys(a)
    ensures UniqueKeys(b)
    ensures forall j :: 0 <= j < |b| ==> exists i :: 0 <= i < |a| && SameRow(a[i], b[j])
    decreases |a|
  {
    if a != [] {
      var a' := a[1..];
      forall i, j | 0 <= i < j < |a'| ensures a'[i].key != a'[j].key { assert a[i + 1].key != a[j + 1].key; }
      if b != [] && SameRow(b[0], a[0]) && OnlyExpired(a', b[1..], now) {
        var b' := b[1..];
        ExpiredUnique(a', b', now);
        forall j | 0 <= j < |b| ensures exists i :: 0 <= i < |a| && SameRow(a[i], b[j]) {
          if j == 0 { assert SameRow(a[0], b[0]); } else {
            assert b[j] == b'[j - 1];
            var i :| 0 <= i < |a'| && SameRow(a'[i], b'[j - 1]);
            assert SameRow(a[i + 1], b[j]);
          }
        }
        forall i, j | 0 <= i < j < |b| ensures b[i].key != b[j].key {
          assert b[j] == b'[j - 1];
          if i > 0 { assert b'[i - 1].key != b'[j - 1].key; } else {
            var m :| 0 <= m < |a'| && SameRow(a'[m], b'[j - 1]);
            assert a[0].key != a[m + 1].key;
          }
        }
      } else {
        ExpiredUnique(a', b, now);
        forall j | 0 <= j < |b| ensures exists i :: 0 <= i < |a| && SameRow(a[i], b[j]) {
          var i :| 0 <= i < |a'| && SameRow(a'[i], b[j]);
          assert SameRow(a[i + 1], b[j]);
        }
      }
    }
  }

  /** A get returns what the last successful set of the key stored, as valid or as timed out. */
  lemma GetAfterSet(c: Config, s: State, key: Bytes, value: Value, now: int, later: int)
    requires Inv(c, s) && Shape(s) && Set(c, s, key, value, now).0 == OK
    ensures Get(Set(c, s, key, value, now).1, key, later)
         == (if value.expires == 0 || value.expires >= later then OK else ETIMEDOUT, value)
  {
    hide Set, Shape;
    SetRefinesMap(c, s, key, value, now, key);
    GetIsLookup(Set(c, s, key, value, now).1, key, later);
  }

  lemma GetIsLookup(s: State, key: Bytes, now: int)
    ensures var r := Lookup(s.live, key);
            if r == [] then Get(s, key, now).0 == ENOENT
            else Get(s, key, now) == (if r[0].expires == 0 || r[0].expires >= now then OK else ETIMEDOUT, r[0])
  {
  }

  /** A delete removes its key from the map, touches no other key and keeps the order; it reports whether the key was there, and
      does nothing otherwise. */
  lemma DeleteRefinesMap(c: Config, s: State, key: Bytes, other: Bytes)
    requires Inv(c, s) && Shape(s)
    ensures var (r, t) := Delete(s, key);
            && (r == OK <==> Lookup(s.live, key) != []) && Lookup(t.live, key) == []
            && (other != key ==> Lookup(t.live, other) == Lookup(s.live, other))
            && t.live == Drop(s.live, key) && (r != OK ==> r == ENOENT && t == s)
  {
    hide FreeMemory;
    DropLookup(s.live, key, other);
    if Find(s.live, key) < |s.live| { FreeShape(s, Find(s.live, key)); }
  }

  // ---------------------------------------------------------------- changing an expiry

  /** A set_expires changes the expiry of its key's value, and nothing else, exactly if the key is there and has not expired; the
      code tells which of the two is missing. */
  lemma SetExpiresRefinesMap(s: State, key: Bytes, expires: int, now: int, other: Bytes)
    requires UniqueKeys(s.live)
    ensures var (r, t) := SetExpires(s, key, expires, now); var was := Lookup(s.live, key);
            && r == (if was == [] then ENOENT else if was[0].expires != 0 && was[0].expires < now then ETIMEDOUT else OK)
            && (r != OK ==> t == s)
            && (r == OK ==> Lookup(t.live, key) == [Value(was[0].data, was[0].options, expires)])
            && (other != key ==> Lookup(t.live, other) == Lookup(s.live, other))
            && t == s.(live := t.live) && |t.live| == |s.live|
            && forall k :: 0 <= k < |s.live| ==>
                 if s.live[k].key == key then t.live[k] == s.live[k].(value := t.live[k].value) else t.live[k] == s.live[k]
  {
    var t := SetExpires(s, key, expires, now).1;
    FindUnique(s.live, key);
    var k := Find(s.live, key);
    if k < |s.live| {
      forall i, j | 0 <= i < j < |t.live| ensures t.live[i].key != t.live[j].key {
        assert t.live[i].key == s.live[i].key && t.live[j].key == s.live[j].key;
      }
      FindFirst(t.live, key, k);
      SameFind(s.live, t.live, other);
    }
  }

  lemma {:induction false} SameFind(a: seq<Entry>, b: seq<Entry>, key: Bytes)
    requires |a| == |b| && forall k :: 0 <= k < |a| ==> a[k].key == b[k].key
    ensures Find(a, key) == Find(b, key)
  {
    if a != [] && a[0].key != key { SameFind(a[1..], b[1..], key); }
  }

  /** A get after a set_expires returns the old value with the new expiry, timed out exactly if that has passed. */
  lemma GetAfterSetExpires(s: State, key: Bytes, expires: int, now: int, later: int)
    requires UniqueKeys(s.live) && SetExpires(s, key, expires, now).0 == OK
    ensures Lookup(s.live, key) != []
    ensures Get(SetExpires(s, key, expires, now).1, key, later)
         == (if expires == 0 || expires >= later then OK else ETIMEDOUT, Lookup(s.live, key)[0].(expires := expires))
  {
    hide SetExpires;
    SetExpiresRefinesMap(s, key, expires, now, key);
    GetIsLookup(SetExpires(s, key, expires, now).1, key, later);
  }

  // ---------------------------------------------------------------- clearing

  /** Clearing leaves no entry and no use of memory; every striping there is, in order, is allocatable and as good as new. */
  lemma ClearEmpties(s: State)
    ensures var t := Clear(s);
            && t.live == [] && t.count == t.usedEntry == t.usedKey == t.usedValue == 0
            && t.segments == s.segments && t.alloced == s.alloced && t.done == []
            && |t.doing| == |t.st| == |s.st| && (forall i :: 0 <= i < |s.st| ==> t.doing[i] == i)
            && forall i :: 0 <= i < |s.st| ==>
                 t.st[i] == Striping(0, 0, false, s.st[i].segment, 0, s.st[i].base, s.st[i].base, s.st[i].end)
  {
  }

  // ---------------------------------------------------------------- the key limit

  /** A successful recycling has taken at least one entry out. */
  lemma {:induction false} RecycleShrinks(c: Config, s: State, now: int, once: int, k: nat, cleared: nat)
    requires Shape(s) && k <= |s.live| && s.count == |s.live|
    ensures var (r, t) := RecycleFrom(c, s, now, once, k, cleared);
            t.count == |t.live| <= |s.live| && (r == OK ==> |t.live| < |s.live|)
    decreases |s.live| - k
  {
    if k < |s.live| {
      if IsValid(s.live[k], now) && !c.recycleValid {
        RecycleShrinks(c, s, now, once, k + 1, cleared);
      } else {
        FreeShape(s, k);
        RecycleShrinks(c, FreeAt(s, k).0, now, once, k, cleared + 1);
      }
    }
  }

  /** No set ever takes the cache beyond its key limit. */
  lemma SetWithinLimit(c: Config, s: State, key: Bytes, value: Value, now: int)
    requires Inv(c, s) && Shape(s) && s.count <= c.maxKeyCount
    ensures Set(c, s, key, value, now).1.count <= c.maxKeyCount
  {
    hide RecycleFrom, Shape, Queues, Inside, Disjoint, Accounted, Layout, Sized, UniqueKeys, Alloc, Install;
    SetKeeps(c, s, key, value, now);
    if |key| <= MAX_KEY_SIZE && |value.data| <= c.maxValueSize {
      SetRoomShape(c, s, now);
      RecycleShrinks(c, s, now, c.recycleKeyOnce, 0, 0);
      var (r, s1) := SetRoom(c, s, now);
      if r == OK {
        var (p, s2) := Alloc(c, s1, EntrySize(|key|, |value.data|), now);
        if p.Place? { InstallShape(s2, p, key, value); }
      }
    }
  }
}
