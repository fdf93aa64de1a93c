/** The chained hash table of shm_hashtable.c, in place: buckets of handles, linked through ht_next. */
module ShmBuckets {
  import opened ShmModel
  import opened ShmInvariant

  /** What follows position k of a chain; 0 ends a chain. */
  function Follows(chain: seq<int>, k: int): int {
    if 0 <= k + 1 < |chain| then chain[k + 1] else 0
  }

  function BucketOf(hash: Bytes -> nat, capacity: nat, key: Bytes): (b: nat)
    requires capacity > 0
    ensures b < capacity
  {
    hash(key) % capacity
  }

  /** The chain that starts at `first` and follows `next`. */
  ghost predicate Chained(next: map<int, int>, first: int, chain: seq<int>) {
    && NoDup(chain) && first == Follows(chain, -1)
    && (forall k :: 0 <= k < |chain| ==> chain[k] > 0 && chain[k] in next && next[chain[k]] == Follows(chain, k))
  }

  ghost predicate Chains(next: map<int, int>, buckets: seq<int>, chains: seq<seq<int>>) {
    |buckets| == |chains| && forall b :: 0 <= b < |chains| ==> Chained(next, buckets[b], chains[b])
  }

  /** Every entry is filed in the bucket of its key. */
  ghost predicate Home(hash: Bytes -> nat, keys: map<int, Bytes>, chains: seq<seq<int>>, b: int)
    requires 0 <= b < |chains|
  {
    forall k :: 0 <= k < |chains[b]| ==> chains[b][k] in keys && BucketOf(hash, |chains|, keys[chains[b][k]]) == b
  }

  ghost predicate Homes(hash: Bytes -> nat, keys: map<int, Bytes>, chains: seq<seq<int>>) {
    forall b :: 0 <= b < |chains| ==> Home(hash, keys, chains, b)
  }

  /** h is filed in the table. */
  ghost predicate Filed(hash: Bytes -> nat, keys: map<int, Bytes>, chains: seq<seq<int>>, h: int) {
    |chains| > 0 && h in keys && h in chains[BucketOf(hash, |chains|, keys[h])]
  }

  /** An entry is in no bucket but its own. */
  lemma OwnBucket(hash: Bytes -> nat, keys: map<int, Bytes>, chains: seq<seq<int>>, b: int, h: int)
    requires Homes(hash, keys, chains) && 0 <= b < |chains| && h in chains[b]
    ensures h in keys && b == BucketOf(hash, |chains|, keys[h]) && Filed(hash, keys, chains, h)
  {
    assert Home(hash, keys, chains, b);
  }

  // ---------------------------------------------------------------- single chains

  lemma ChainedOther(next: map<int, int>, first: int, chain: seq<int>, h: int, n: int)
    requires Chained(next, first, chain) && h !in chain
    ensures Chained(next[h := n], first, chain)
  {
    forall k | 0 <= k < |chain| ensures chain[k] != h { assert chain[k] in chain; }
  }

  lemma ChainedWithout(next: map<int, int>, first: int, chain: seq<int>, k: nat)
    requires Chained(next, first, chain) && k < |chain|
    ensures chain[k] !in Without(chain, k) && chain[k] in next
    ensures k == 0 ==> Chained(next, next[chain[0]], Without(chain, 0))
    ensures k > 0 ==> Chained(next[chain[k - 1] := next[chain[k]]], first, Without(chain, k))
  {
    var r := Without(chain, k);
    forall j | 0 <= j < |r| ensures r[j] == chain[if j < k then j else j + 1] { WithoutIndex(chain, k, j); }
    assert next[chain[k]] == Follows(chain, k);
  }

  lemma ChainedReplace(next: map<int, int>, first: int, chain: seq<int>, k: nat, h: int)
    requires Chained(next, first, chain) && k < |chain| && h !in chain && h > 0
    ensures k == 0 ==> Chained(next[h := next[chain[0]]], h, chain[0 := h])
    ensures k > 0 ==> Chained(next[h := next[chain[k]]][chain[k - 1] := h], first, chain[k := h])
  {
    forall j | 0 <= j < |chain| ensures chain[j] != h { assert chain[j] in chain; }
  }

  lemma ChainedAppend(next: map<int, int>, first: int, chain: seq<int>, h: int)
    requires Chained(next, first, chain) && h !in chain && h > 0
    ensures chain == [] ==> Chained(next[h := 0], h, [h])
    ensures chain != [] ==> Chained(next[h := 0][chain[|chain| - 1] := h], first, chain + [h])
  {
    forall j | 0 <= j < |chain| ensures chain[j] != h { assert chain[j] in chain; }
  }

  // ---------------------------------------------------------------- all chains

  /** Changing one chain, its bucket and links of nodes of no other chain leaves the other chains alone. */
  lemma ChainsUpdate(next: map<int, int>, next': map<int, int>, buckets: seq<int>, chains: seq<seq<int>>, b: int, first: int, chain: seq<int>)
    requires Chains(next, buckets, chains) && 0 <= b < |chains| && Chained(next', first, chain)
    requires forall c, k :: 0 <= c < |chains| && c != b && 0 <= k < |chains[c]| ==>
               chains[c][k] in next' && next'[chains[c][k]] == next[chains[c][k]]
    ensures Chains(next', buckets[b := first], chains[b := chain])
  {
    var buckets', chains' := buckets[b := first], chains[b := chain];
    forall c | 0 <= c < |chains| ensures Chained(next', buckets'[c], chains'[c]) {
      if c != b { assert Chained(next, buckets[c], chains[c]); }
    }
  }

  lemma UnlinkChains(hash: Bytes -> nat, keys: map<int, Bytes>, next: map<int, int>, buckets: seq<int>, chains: seq<seq<int>>, b: int, k: nat)
    requires Chains(next, buckets, chains) && Homes(hash, keys, chains) && 0 <= b < |chains| && k < |chains[b]|
    ensures chains[b][k] in next && chains[b][k] > 0
    ensures var h := chains[b][k];
            var next' := if k == 0 then next else next[chains[b][k - 1] := next[h]];
            var buckets' := if k == 0 then buckets[b := next[h]] else buckets;
            Chains(next'[h := 0], buckets', chains[b := Without(chains[b], k)])
  {
    hide Without;
    assert Chained(next, buckets[b], chains[b]);
    ChainedWithout(next, buckets[b], chains[b], k);
    var h := chains[b][k];
    var next' := if k == 0 then next else next[chains[b][k - 1] := next[h]];
    var first := if k == 0 then next[h] else buckets[b];
    ChainedOther(next', first, Without(chains[b], k), h, 0);
    forall c, j | 0 <= c < |chains| && c != b && 0 <= j < |chains[c]|
      ensures chains[c][j] in next && chains[c][j] != h && (k > 0 ==> chains[c][j] != chains[b][k - 1])
    {
      assert Chained(next, buckets[c], chains[c]) && chains[c][j] in chains[c] && h in chains[b];
      OwnBucket(hash, keys, chains, c, chains[c][j]);
      OwnBucket(hash, keys, chains, b, h);
      if k > 0 { assert chains[b][k - 1] in chains[b]; OwnBucket(hash, keys, chains, b, chains[b][k - 1]); }
    }
    ChainsUpdate(next, next'[h := 0], buckets, chains, b, first, Without(chains[b], k));
    assert k > 0 ==> buckets[b := first] == buckets;
  }

  lemma UnlinkHomes(hash: Bytes -> nat, keys: map<int, Bytes>, next: map<int, int>, buckets: seq<int>, chains: seq<seq<int>>, b: int, k: nat)
    requires Chains(next, buckets, chains) && Homes(hash, keys, chains) && 0 <= b < |chains| && k < |chains[b]|
    ensures var chains' := chains[b := Without(chains[b], k)];
            Homes(hash, keys, chains')
            && forall h :: Filed(hash, keys, chains', h) <==> Filed(hash, keys, chains, h) && h != chains[b][k]
  {
    hide BucketOf, Without;
    var chain, r := chains[b], Without(chains[b], k);
    var chains' := chains[b := r];
    assert Chained(next, buckets[b], chain) && Home(hash, keys, chains, b);
    WithoutContents(chain, k);
    forall j | 0 <= j < |r| ensures r[j] in keys && BucketOf(hash, |chains|, keys[r[j]]) == b {
      assert r[j] in r;
      OwnBucket(hash, keys, chains, b, r[j]);
    }
    forall c | 0 <= c < |chains'| ensures Home(hash, keys, chains', c) { assert Home(hash, keys, chains, c); }
    OwnBucket(hash, keys, chains, b, chain[k]);
  }

  /** A new entry in the place of the one at position k, or at the end. */
  function Placed(chain: seq<int>, k: nat, h: int): seq<int>
    requires k <= |chain|
  {
    chain[..k] + [h] + (if k < |chain| then chain[k + 1..] else [])
  }

  lemma PlacedContents(chain: seq<int>, k: nat, h: int)
    requires k <= |chain| && NoDup(chain) && h !in chain
    ensures forall g :: g in Placed(chain, k, h) <==> g == h || (g in chain && (k < |chain| ==> g != chain[k]))
  {
    var r := Placed(chain, k, h);
    assert r[k] == h;
    forall g ensures g in r <==> g == h || (g in chain && (k < |chain| ==> g != chain[k])) {
      if g in chain && (k < |chain| ==> g != chain[k]) {
        var j :| 0 <= j < |chain| && chain[j] == g;
        assert r[j] == g;
      }
      if g in r && g != h {
        var j :| 0 <= j < |r| && r[j] == g;
        assert j != k && chain[j] == g;
      }
    }
  }

  /** The new entry is filed now, the one it replaces no longer, all others as before. */
  lemma PlaceHomes(hash: Bytes -> nat, keys: map<int, Bytes>, next: map<int, int>, buckets: seq<int>, chains: seq<seq<int>>, key: Bytes, k: nat, h: int)
    requires Chains(next, buckets, chains) && Homes(hash, keys, chains) && |chains| > 0 && !Filed(hash, keys, chains, h)
    requires k <= |chains[BucketOf(hash, |chains|, key)]|
    ensures var b := BucketOf(hash, |chains|, key);
            var chains' := chains[b := Placed(chains[b], k, h)];
            Homes(hash, keys[h := key], chains')
            && forall g :: Filed(hash, keys[h := key], chains', g) <==>
                           g == h || (Filed(hash, keys, chains, g) && (k < |chains[b]| ==> g != chains[b][k]))
  {
    hide Placed, BucketOf;
    var b := BucketOf(hash, |chains|, key);
    var chain := chains[b];
    var r := Placed(chain, k, h);
    var chains', keys' := chains[b := r], keys[h := key];
    assert Chained(next, buckets[b], chain) && Home(hash, keys, chains, b);
    forall c, g | 0 <= c < |chains| && g in chains[c] ensures g != h && g in keys && BucketOf(hash, |chains|, keys[g]) == c {
      OwnBucket(hash, keys, chains, c, g);
    }
    PlacedContents(chain, k, h);
    forall c | 0 <= c < |chains'| ensures Home(hash, keys', chains', c) {
      forall j | 0 <= j < |chains'[c]| ensures chains'[c][j] in keys' && BucketOf(hash, |chains|, keys'[chains'[c][j]]) == c {
        var g := chains'[c][j];
        assert g in chains'[c];
        assert (g == h && c == b) || g in chains[c];
      }
    }
  }

  lemma PlaceChains(hash: Bytes -> nat, keys: map<int, Bytes>, next: map<int, int>, buckets: seq<int>, chains: seq<seq<int>>, b: int, k: nat, h: int)
    requires Chains(next, buckets, chains) && Homes(hash, keys, chains) && 0 <= b < |chains| && k <= |chains[b]|
    requires !Filed(hash, keys, chains, h) && h > 0
    ensures k < |chains[b]| ==> chains[b][k] in next
    ensures var after := if k < |chains[b]| then next[chains[b][k]] else 0;
            var chain := Placed(chains[b], k, h);
            var next' := if k == 0 then next[h := after] else next[h := after][chains[b][k - 1] := h];
            var buckets' := if k == 0 then buckets[b := h] else buckets;
            Chains(next', buckets', chains[b := chain])
  {
    hide BucketOf;
    var chain := chains[b];
    var r := Placed(chain, k, h);
    assert Chained(next, buckets[b], chain);
    forall c, j | 0 <= c < |chains| && 0 <= j < |chains[c]|
      ensures chains[c][j] in next && chains[c][j] != h && (k > 0 && c != b ==> chains[c][j] != chain[k - 1])
    {
      assert Chained(next, buckets[c], chains[c]) && chains[c][j] in chains[c];
      OwnBucket(hash, keys, chains, c, chains[c][j]);
      if k > 0 { assert chain[k - 1] in chain; OwnBucket(hash, keys, chains, b, chain[k - 1]); }
    }
    assert h !in chain by {
      forall j | 0 <= j < |chain| ensures chain[j] != h { assert chains[b][j] != h; }
    }
    if k < |chain| {
      assert r == chain[k := h];
      ChainedReplace(next, buckets[b], chain, k, h);
    } else {
      assert r == chain + [h];
      ChainedAppend(next, buckets[b], chain, h);
    }
    var after := if k < |chain| then next[chain[k]] else 0;
    var next' := if k == 0 then next[h := after] else next[h := after][chain[k - 1] := h];
    ChainsUpdate(next, next', buckets, chains, b, if k == 0 then h else buckets[b], r);
    assert k > 0 ==> buckets[b := buckets[b]] == buckets;
  }

  class BucketTable {
    const capacity: nat
    const hash: Bytes -> nat
    const buckets: array<int>
    var next: map<int, int>
    var keys: map<int, Bytes>
    /** The handles of every bucket, in chain order. */
    ghost var chains: seq<seq<int>>

    ghost predicate Valid()
      reads this, buckets
    {
      && capacity > 0 && buckets.Length == capacity
      && Chains(next, buckets[..], chains) && Homes(hash, keys, chains)
    }

    function Bucket(key: Bytes): (b: nat)
      requires capacity > 0
      ensures b < capacity
    {
      BucketOf(hash, capacity, key)
    }

    /** h is an entry of the table. */
    ghost predicate Has(h: int)
      reads this
    {
      Filed(hash, keys, chains, h)
    }

    constructor (capacity: nat, hash: Bytes -> nat)
      requires capacity > 0
      ensures Valid() && fresh(buckets) && this.capacity == capacity && this.hash == hash
      ensures forall h :: !Has(h)
    {
      this.capacity, this.hash := capacity, hash;
      buckets := new int[capacity](i => 0);
      next, keys := map[], map[];
      chains := seq(capacity, i => []);
    }

    /** Empties every bucket, whatever it held. */
    method Clear()
      requires capacity > 0 && buckets.Length == capacity
      modifies this`chains, buckets
      ensures Valid() && forall h :: !Has(h)
    {
      var i := 0;
      while i < capacity
        invariant 0 <= i <= capacity && forall b :: 0 <= b < i ==> buckets[b] == 0
      {
        buckets[i] := 0;
        i := i + 1;
      }
      chains := seq(capacity, i => []);
    }

    /** Walks the bucket of a key: the entry found (or 0), the entry before it in the chain (or 0), and its position. */
    method Search(key: Bytes) returns (previous: int, found: int, ghost k: nat)
      requires Valid()
      ensures k <= |chains[Bucket(key)]| && previous == Follows(chains[Bucket(key)], k - 2) && found == Follows(chains[Bucket(key)], k - 1)
      ensures k < |chains[Bucket(key)]| <==> found > 0
      ensures found > 0 ==> Has(found) && keys[found] == key
      ensures found <= 0 ==> forall h :: Has(h) ==> keys[h] != key
    {
      hide BucketOf, Homes, Chains;
      ghost var b := Bucket(key);
      BucketFacts(b);
      ghost var chain := chains[b];
      previous, found, k := 0, buckets[Bucket(key)], 0;
      while found > 0
        invariant k <= |chain| && previous == Follows(chain, k - 2) && found == Follows(chain, k - 1)
        invariant forall i :: 0 <= i < k ==> keys[chain[i]] != key
        decreases |chain| - k
      {
        assert chain[k] == found;
        if keys[found] == key { return; }
        previous := found;
        found := next[found];
        k := k + 1;
      }
    }

    lemma BucketFacts(b: nat)
      requires Valid() && b < capacity
      ensures |chains| == capacity && Chained(next, buckets[b], chains[b]) && Home(hash, keys, chains, b)
    {
    }

    /** Takes the entry at position k out of its chain. */
    method Unlink(previous: int, h: int, ghost k: nat)
      requires Valid() && Has(h) && k < |chains[Bucket(keys[h])]| && chains[Bucket(keys[h])][k] == h
      requires previous == Follows(chains[Bucket(keys[h])], k - 2)
      modifies this`next, this`chains, buckets
      ensures Valid() && chains == old(chains)[Bucket(keys[h]) := Without(old(chains)[Bucket(keys[h])], k)]
      ensures forall g :: Has(g) <==> old(Has(g)) && g != h
    {
      assert h in keys && |chains| == capacity;
      hide BucketOf, Homes, Chains, Filed, Without;
      ghost var b, was, chains0 := Bucket(keys[h]), buckets[..], chains;
      BucketFacts(b);
      UnlinkChains(hash, keys, next, was, chains, b, k);
      UnlinkHomes(hash, keys, next, was, chains, b, k);
      if previous != 0 { next := next[previous := next[h]]; } else { buckets[Bucket(keys[h])] := next[h]; }
      next := next[h := 0];
      chains := chains0[b := Without(chains0[b], k)];
      assert buckets[..] == if k == 0 then was[b := buckets[b]] else was;
    }

    /** Puts a new entry in the place of an old one, or at the end of the chain if there is none. */
    method Link(previous: int, h0: int, h: int, key: Bytes, ghost k: nat)
      requires Valid() && !Has(h) && h > 0
      requires k <= |chains[Bucket(key)]| && previous == Follows(chains[Bucket(key)], k - 2) && h0 == Follows(chains[Bucket(key)], k - 1)
      modifies this, buckets
      ensures Valid() && keys == old(keys)[h := key]
      ensures chains == old(chains)[Bucket(key) := Placed(old(chains)[Bucket(key)], k, h)]
      ensures forall g :: Has(g) <==> g == h || (old(Has(g)) && (h0 > 0 ==> g != h0))
    {
      hide BucketOf, Homes, Chains, Filed;
      ghost var b, was, chains0 := Bucket(key), buckets[..], chains;
      BucketFacts(b);
      PlaceChains(hash, keys, next, was, chains, b, k, h);
      PlaceHomes(hash, keys, next, was, chains, key, k, h);
      if h0 > 0 { next := next[h := next[h0]]; } else { next := next[h := 0]; }
      keys := keys[h := key];
      if previous != 0 { next := next[previous := h]; } else { buckets[Bucket(key)] := h; }
      chains := chains0[b := Placed(chains0[b], k, h)];
      assert buckets[..] == if k == 0 then was[b := h] else was;
    }
  }
}
