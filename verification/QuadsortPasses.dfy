/** The merge drivers of quadsort.c: doubling with a buffer, doubling by rotation, and quadrupling. */
module QuadsortPasses {
  import opened StableMerge
  import opened QuadsortMerge
  import opened QuadsortPartial
  import opened QuadsortBlit
  import opened QuadsortRuns

  /** Doubling `block` some number of times yields `size`. */
  ghost predicate Doubles(block: int, size: int)
    decreases size - block
  {
    block == size || (0 < block < size && Doubles(block + block, size))
  }

  lemma RunsAll<T(!new)>(a: array<T>, d: int, cmp: (T, T) -> int, o: seq<T>, block: nat)
    requires RunsAt(a, d, cmp, o, block) && |o| <= block
    ensures At(a, d, Sort(cmp, o))
  {
  }

  lemma RunsLonger<T(!new)>(a: array<T>, d: int, cmp: (T, T) -> int, o: seq<T>, block: nat, size: nat)
    requires RunsAt(a, d, cmp, o, block) && |o| <= block && |o| <= size && size > 0
    ensures RunsAt(a, d, cmp, o, size)
  {
  }

  /** Doubles the run length while the array is longer than a run and a run fits the buffer. */
  method TailMerge<T(!new)>(a: array<T>, d: nat, swap: array<T>, swapSize: nat, nmemb: nat, block0: nat, cmp: (T, T) -> int,
                            ghost o: seq<T>)
    requires a != swap && swapSize <= swap.Length && 2 <= block0 && |o| == nmemb
    requires RunsAt(a, d, cmp, o, block0) && TotalPreorder(cmp)
    modifies a, swap
    ensures nmemb <= swapSize || nmemb <= block0 ==> At(a, d, Sort(cmp, o))
    ensures Doubles(block0, swapSize) ==> RunsAt(a, d, cmp, o, swapSize + swapSize)
    ensures forall p :: 0 <= p < a.Length && !(d <= p < d + nmemb) ==> a[p] == old(a[p])
  {
    hide TotalPreorder, Sort, RunsAt, At;
    var block := block0;
    while block < nmemb && block <= swapSize
      invariant 2 <= block && block0 <= block
      invariant RunsAt(a, d, cmp, o, block)
      invariant Doubles(block0, swapSize) ==> Doubles(block, swapSize) || block == swapSize + swapSize
      invariant forall p :: 0 <= p < a.Length && !(d <= p < d + nmemb) ==> a[p] == old(a[p])
      decreases nmemb - block
    {
      PairPass(a, d, swap, swapSize, nmemb, block, false, cmp, o);
      block := block + block;
    }
    if nmemb <= block {
      RunsAll(a, d, cmp, o, block);
      if Doubles(block0, swapSize) {
        DoublesBound(block, swapSize);
        RunsLonger(a, d, cmp, o, block, swapSize + swapSize);
      }
    } else if Doubles(block0, swapSize) {
      DoublesBound(block, swapSize);
    }
  }

  lemma DoublesBound(block: int, size: int)
    requires Doubles(block, size) || block == size + size
    ensures block <= size || block == size + size
  {
  }

  /** Doubles the run length without a size bound, rotating where the buffer is too small. */
  method BlitMerge<T(!new)>(a: array<T>, d: nat, swap: array<T>, swapSize: nat, nmemb: nat, block0: nat, cmp: (T, T) -> int,
                            ghost o: seq<T>)
    requires a != swap && 2 <= swapSize <= swap.Length && 4 <= block0 && PowerOfTwo(block0) && |o| == nmemb
    requires RunsAt(a, d, cmp, o, block0) && TotalPreorder(cmp)
    modifies a, swap
    ensures At(a, d, Sort(cmp, o))
    ensures forall p :: 0 <= p < a.Length && !(d <= p < d + nmemb) ==> a[p] == old(a[p])
  {
    hide TotalPreorder, Sort, RunsAt, At, PowerOfTwo;
    var block := block0;
    while block < nmemb
      invariant 4 <= block && PowerOfTwo(block)
      invariant RunsAt(a, d, cmp, o, block)
      invariant forall p :: 0 <= p < a.Length && !(d <= p < d + nmemb) ==> a[p] == old(a[p])
      decreases nmemb - block
    {
      PairPass(a, d, swap, swapSize, nmemb, block, true, cmp, o);
      PowerDouble(block);
      block := block + block;
    }
    RunsAll(a, d, cmp, o, block);
  }

  lemma PowerDouble(n: nat)
    requires PowerOfTwo(n)
    ensures PowerOfTwo(n + n)
  {
    assert (n + n) / 2 == n;
  }

  // ---------------------------------------------------------------- quadrupling

  /** Merges four sorted blocks; blocks already in order are not compared again. */
  method QuadMergeBlock<T(!new)>(a: array<T>, d: nat, swap: array<T>, block: nat, cmp: (T, T) -> int,
                                 ghost x: seq<T>, ghost y: seq<T>, ghost z: seq<T>, ghost w: seq<T>)
    requires a != swap && 4 <= block && 4 * block <= swap.Length
    requires |x| == |y| == |z| == |w| == block
    requires At(a, d, x) && At(a, d + block, y) && At(a, d + 2 * block, z) && At(a, d + 3 * block, w)
    requires TotalPreorder(cmp) && Sorted(cmp, x) && Sorted(cmp, y) && Sorted(cmp, z) && Sorted(cmp, w)
    modifies a, swap
    ensures At(a, d, Merge(cmp, Merge(cmp, x, y), Merge(cmp, z, w)))
    ensures forall p :: 0 <= p < a.Length && !(d <= p < d + 4 * block) ==> a[p] == old(a[p])
  {
    hide TotalPreorder, Sorted, Merge, At, InSeq;
    MergeSorted(cmp, x, y);
    var c := d + block;
    AtIndex(a, d, x, block - 1);
    AtIndex(a, d + block, y, 0);
    AtIndex(a, d + 3 * block, w, block - 1);
    if cmp(a[c - 1], a[c]) <= 0 {
      MergeOrdered(cmp, x, y);
      AtJoin(a, d, x, y);
      FirstPairOrdered(a, d, swap, block, cmp, x + y, z, w);
      return;
    }
    ForwardMerge(swap, 0, a, d, block, cmp, x, y);
    QuadFinish(a, d, swap, block, cmp, Merge(cmp, x, y), z, w);
  }

  /** The first two blocks are in order already; the last two may be as well, and so may the pairs. */
  method FirstPairOrdered<T(!new)>(a: array<T>, d: nat, swap: array<T>, block: nat, cmp: (T, T) -> int,
                                   ghost xy: seq<T>, ghost z: seq<T>, ghost w: seq<T>)
    requires a != swap && 4 <= block && 4 * block <= swap.Length && |xy| == 2 * block && |z| == |w| == block
    requires At(a, d, xy) && At(a, d + 2 * block, z) && At(a, d + 3 * block, w)
    requires TotalPreorder(cmp) && Sorted(cmp, xy) && Sorted(cmp, z) && Sorted(cmp, w)
    modifies a, swap
    ensures At(a, d, Merge(cmp, xy, Merge(cmp, z, w)))
    ensures forall p :: 0 <= p < a.Length && !(d <= p < d + 4 * block) ==> a[p] == old(a[p])
  {
    hide TotalPreorder, Sorted, Merge, At, InSeq;
    AtIndex(a, d, xy, 2 * block - 1);
    AtIndex(a, d + 2 * block, z, 0);
    AtIndex(a, d + 2 * block, z, block - 1);
    AtIndex(a, d + 3 * block, w, 0);
    AtIndex(a, d + 3 * block, w, block - 1);
    var c := d + 3 * block;
    if cmp(a[c - 1], a[c]) <= 0 {
      MergeOrdered(cmp, z, w);
      AtJoin(a, d + 2 * block, z, w);
      MergeSorted(cmp, z, w);
      c := c - block;
      if cmp(a[c - 1], a[c]) <= 0 {
        OrderedPairs(a, d, cmp, xy, z + w);
        return;
      }
      QuadCopy(a, d, swap, block, cmp, xy, z + w);
      return;
    }
    CopyBlock(swap, 0, a, d, 2 * block, xy);
    QuadFinish(a, d, swap, block, cmp, xy, z, w);
  }

  lemma OrderedPairs<T(!new)>(a: array<T>, d: nat, cmp: (T, T) -> int, xy: seq<T>, zw: seq<T>)
    requires At(a, d, xy) && At(a, d + |xy|, zw) && xy != [] && zw != []
    requires TotalPreorder(cmp) && Sorted(cmp, xy) && Sorted(cmp, zw)
    requires Le(cmp, xy[|xy| - 1], zw[0])
    ensures At(a, d, Merge(cmp, xy, zw))
  {
    hide At, TotalPreorder, Sorted, Merge;
    MergeOrdered(cmp, xy, zw);
    AtJoin(a, d, xy, zw);
  }

  /** Steps 1 to 3 when both pairs were in order already: two copies, one merge back. */
  method QuadCopy<T(!new)>(a: array<T>, d: nat, swap: array<T>, block: nat, cmp: (T, T) -> int, ghost xy: seq<T>, ghost zw: seq<T>)
    requires a != swap && 4 <= block && 4 * block <= swap.Length && |xy| == |zw| == 2 * block
    requires At(a, d, xy) && At(a, d + 2 * block, zw) && d + 4 * block <= a.Length
    requires TotalPreorder(cmp) && Sorted(cmp, xy) && Sorted(cmp, zw)
    modifies a, swap
    ensures At(a, d, Merge(cmp, xy, zw))
    ensures forall p :: 0 <= p < a.Length && !(d <= p < d + 4 * block) ==> a[p] == old(a[p])
  {
    hide TotalPreorder, Sorted, Merge, At, InSeq;
    CopyBlock(swap, 0, a, d, 2 * block, xy);
    AtBefore(swap, 0, xy);
    ghost var was := swap[..];
    CopyBlock(swap, 2 * block, a, d + 2 * block, 2 * block, zw);
    AtKeepRange(swap, 0, xy, 2 * block, 4 * block, was);
    ForwardMerge(a, d, swap, 0, 2 * block, cmp, xy, zw);
  }

  /** Steps 2 and 3: the second pair is merged into the buffer, then both pairs are merged back. */
  method QuadFinish<T(!new)>(a: array<T>, d: nat, swap: array<T>, block: nat, cmp: (T, T) -> int,
                             ghost xy: seq<T>, ghost z: seq<T>, ghost w: seq<T>)
    requires a != swap && 4 <= block && 4 * block <= swap.Length && |xy| == 2 * block && |z| == |w| == block
    requires At(swap, 0, xy) && At(a, d + 2 * block, z) && At(a, d + 3 * block, w) && d + 4 * block <= a.Length
    requires TotalPreorder(cmp) && Sorted(cmp, xy) && Sorted(cmp, z) && Sorted(cmp, w)
    modifies a, swap
    ensures At(a, d, Merge(cmp, xy, Merge(cmp, z, w)))
    ensures forall p :: 0 <= p < a.Length && !(d <= p < d + 4 * block) ==> a[p] == old(a[p])
  {
    hide TotalPreorder, Sorted, Merge, At, InSeq;
    MergeSorted(cmp, z, w);
    AtBefore(swap, 0, xy);
    ghost var was := swap[..];
    ForwardMerge(swap, 2 * block, a, d + 2 * block, block, cmp, z, w);
    AtKeepRange(swap, 0, xy, 2 * block, 4 * block, was);
    ForwardMerge(a, d, swap, 0, 2 * block, cmp, xy, Merge(cmp, z, w));
  }

  /** The first four runs of a pass. */
  lemma QuadCut<T(!new)>(a: array<T>, d: nat, cmp: (T, T) -> int, o: seq<T>, q: nat, big: nat, p: nat, was: seq<T>)
    requires 0 < q && p + 4 * q <= |o|
    requires Pass(a, d, cmp, o, q, big, p, was)
    ensures At(a, d + p, Sort(cmp, o[p..p + q])) && At(a, d + p + q, Sort(cmp, o[p + q..p + 2 * q]))
    ensures At(a, d + p + 2 * q, Sort(cmp, o[p + 2 * q..p + 3 * q])) && At(a, d + p + 3 * q, Sort(cmp, o[p + 3 * q..p + 4 * q]))
    ensures d + |o| <= a.Length && Runs(cmp, a[d + p + 4 * q..d + |o|], o[p + 4 * q..], q)
  {
    hide Sort, Runs, Pass, At;
    PassTail(a, d, cmp, o, q, big, p, was);
    FourRuns(a, d + p, d + |o|, cmp, o, p, q);
  }

  lemma FourRuns<T(!new)>(a: array<T>, i: nat, e: nat, cmp: (T, T) -> int, o: seq<T>, p: nat, q: nat)
    requires 0 < q && p + 4 * q <= |o| && e == i + |o| - p && e <= a.Length
    requires Runs(cmp, a[i..e], o[p..], q)
    ensures At(a, i, Sort(cmp, o[p..p + q])) && At(a, i + q, Sort(cmp, o[p + q..p + 2 * q]))
    ensures At(a, i + 2 * q, Sort(cmp, o[p + 2 * q..p + 3 * q])) && At(a, i + 3 * q, Sort(cmp, o[p + 3 * q..p + 4 * q]))
    ensures Runs(cmp, a[i + 4 * q..e], o[p + 4 * q..], q)
  {
    hide Sort, Runs, At;
    OneRun(a, i, e, cmp, o, p, q);
    NextRun(a, i, e, cmp, o, p, q, 1);
    NextRun(a, i, e, cmp, o, p, q, 2);
    NextRun(a, i, e, cmp, o, p, q, 3);
  }

  lemma NextRun<T(!new)>(a: array<T>, i: int, e: int, cmp: (T, T) -> int, o: seq<T>, p: nat, q: nat, k: nat)
    requires 0 < q && 1 <= k <= 3 && p + k * q + q <= |o| && 0 <= i && e == i + |o| - p && e <= a.Length
    requires Runs(cmp, a[i + k * q..e], o[p + k * q..], q)
    ensures At(a, i + k * q, Sort(cmp, o[p + k * q..p + (k + 1) * q]))
    ensures Runs(cmp, a[i + (k + 1) * q..e], o[p + (k + 1) * q..], q)
  {
    hide Sort, Runs, At;
    var n := k * q;
    assert n + q == (k + 1) * q;
    OneRun(a, i + n, e, cmp, o, p + n, q);
  }

  lemma PassTail<T(!new)>(a: array<T>, d: nat, cmp: (T, T) -> int, o: seq<T>, block: nat, big: nat, p: int, was: seq<T>)
    requires Pass(a, d, cmp, o, block, big, p, was)
    ensures 0 <= p <= |o| && d + |o| <= a.Length
    ensures Runs(cmp, a[d + p..d + |o|], o[p..], block)
  {
  }

  lemma OneRun<T(!new)>(a: array<T>, i: int, e: int, cmp: (T, T) -> int, o: seq<T>, p: nat, q: nat)
    requires 0 < q && p + q <= |o| && 0 <= i && e == i + |o| - p && e <= a.Length
    requires Runs(cmp, a[i..e], o[p..], q)
    ensures At(a, i, Sort(cmp, o[p..p + q]))
    ensures Runs(cmp, a[i + q..e], o[p + q..], q)
  {
    hide Sort, Runs;
    RunsHead(cmp, a[i..e], o[p..], q, q);
    assert o[p..][..q] == o[p..p + q] && o[p..][q..] == o[p + q..];
    assert a[i..e][..q] == a[i..i + q] && a[i..e][q..] == a[i + q..e];
  }

  lemma SortFour<T(!new)>(cmp: (T, T) -> int, x: seq<T>, y: seq<T>, z: seq<T>, w: seq<T>)
    requires TotalPreorder(cmp)
    ensures Merge(cmp, Merge(cmp, Sort(cmp, x), Sort(cmp, y)), Merge(cmp, Sort(cmp, z), Sort(cmp, w))) == Sort(cmp, x + y + (z + w))
  {
    hide *;
    SortConcat(cmp, x, y);
    SortConcat(cmp, z, w);
    SortConcat(cmp, x + y, z + w);
  }

  lemma FourSlices<T>(o: seq<T>, p: nat, q: nat)
    requires p + 4 * q <= |o|
    ensures o[p..p + q] + o[p + q..p + 2 * q] + (o[p + 2 * q..p + 3 * q] + o[p + 3 * q..p + 4 * q]) == o[p..p + 4 * q]
  {
    assert o[p..p + q] + o[p + q..p + 2 * q] == o[p..p + 2 * q];
    assert o[p + 2 * q..p + 3 * q] + o[p + 3 * q..p + 4 * q] == o[p + 2 * q..p + 4 * q];
    assert o[p..p + 2 * q] + o[p + 2 * q..p + 4 * q] == o[p..p + 4 * q];
  }

  method QuadStep<T(!new)>(a: array<T>, d: nat, swap: array<T>, q: nat, cmp: (T, T) -> int, ghost o: seq<T>, p: nat, ghost was: seq<T>)
    requires a != swap && 4 <= q && 4 * q <= swap.Length && p + 4 * q <= |o|
    requires Pass(a, d, cmp, o, q, 4 * q, p, was) && TotalPreorder(cmp)
    modifies a, swap
    ensures Pass(a, d, cmp, o, q, 4 * q, p + 4 * q, was)
  {
    hide Pass, At, TotalPreorder, Sort, Sorted, Merge, Runs, Multiple;
    ghost var x, y, z, w := o[p..p + q], o[p + q..p + 2 * q], o[p + 2 * q..p + 3 * q], o[p + 3 * q..p + 4 * q];
    QuadCut(a, d, cmp, o, q, 4 * q, p, was);
    PassFrame(a, d, cmp, o, q, 4 * q, p, was);
    ghost var before := a[..];
    assert before[d + p + 4 * q..d + |o|] == a[d + p + 4 * q..d + |o|];
    SortSorted(cmp, x);
    SortSorted(cmp, y);
    SortSorted(cmp, z);
    SortSorted(cmp, w);
    QuadMergeBlock(a, d + p, swap, q, cmp, Sort(cmp, x), Sort(cmp, y), Sort(cmp, z), Sort(cmp, w));
    SortFour(cmp, x, y, z, w);
    FourSlices(o, p, q);
    PassJoin(a, d, cmp, o, q, 4 * q, p, p + 4 * q, was, before);
  }

  /** One pass of quad_merge: every four runs of q elements become one, the rest is merged by doubling. */
  method QuadPass<T(!new)>(a: array<T>, d: nat, swap: array<T>, swapSize: nat, nmemb: nat, q: nat, cmp: (T, T) -> int, ghost o: seq<T>)
    requires a != swap && 4 <= q && 4 * q <= swapSize <= swap.Length && 4 * q <= nmemb == |o|
    requires RunsAt(a, d, cmp, o, q) && TotalPreorder(cmp)
    modifies a, swap
    ensures RunsAt(a, d, cmp, o, 4 * q)
    ensures forall p :: 0 <= p < a.Length && !(d <= p < d + nmemb) ==> a[p] == old(a[p])
  {
    hide TotalPreorder, Runs, RunsAt, Pass, Sort, Multiple, At;
    ghost var was := a[..];
    PassStart(a, d, cmp, o, q, 4 * q);
    var p := 0;
    while p + 4 * q <= nmemb
      invariant 0 <= p <= nmemb
      invariant Pass(a, d, cmp, o, q, 4 * q, p, was)
    {
      QuadStep(a, d, swap, q, cmp, o, p, was);
      p := p + 4 * q;
    }
    QuadRest(a, d, swap, swapSize, nmemb, q, cmp, o, p, was);
    PassEnd(a, d, cmp, o, q, 4 * q, nmemb, was);
  }

  method QuadRest<T(!new)>(a: array<T>, d: nat, swap: array<T>, swapSize: nat, nmemb: nat, q: nat, cmp: (T, T) -> int,
                           ghost o: seq<T>, p: nat, ghost was: seq<T>)
    requires a != swap && 4 <= q && 4 * q <= swapSize <= swap.Length && nmemb == |o| && p <= nmemb < p + 4 * q
    requires Pass(a, d, cmp, o, q, 4 * q, p, was) && TotalPreorder(cmp)
    modifies a, swap
    ensures Pass(a, d, cmp, o, q, 4 * q, nmemb, was)
  {
    hide TotalPreorder, Runs, RunsAt, Pass, Sort, Multiple, At;
    PassTail(a, d, cmp, o, q, 4 * q, p, was);
    PassFrame(a, d, cmp, o, q, 4 * q, p, was);
    RunsHere(a, d + p, d + nmemb, cmp, o[p..], q);
    ghost var before := a[..];
    TailMerge(a, d + p, swap, swapSize, nmemb - p, q, cmp, o[p..]);
    if p < nmemb {
      NoRuns(a, before, d + nmemb, cmp, o, nmemb, q);
      assert o[p..] == o[p..nmemb];
      PassJoin(a, d, cmp, o, q, 4 * q, p, nmemb, was, before);
    } else {
      PassSame(a, d, cmp, o, q, 4 * q, p, was, before);
    }
  }

  lemma RunsHere<T(!new)>(a: array<T>, i: int, e: int, cmp: (T, T) -> int, o: seq<T>, block: nat)
    requires 0 <= i <= e <= a.Length && e == i + |o| && Runs(cmp, a[i..e], o, block)
    ensures RunsAt(a, i, cmp, o, block)
  {
  }

  lemma NoRuns<T(!new)>(a: array<T>, before: seq<T>, e: int, cmp: (T, T) -> int, o: seq<T>, p: nat, block: nat)
    requires 0 <= e <= |before| && p == |o| && block > 0
    ensures Runs(cmp, before[e..e], o[p..], block)
  {
  }

  lemma PassSame<T(!new)>(a: array<T>, d: nat, cmp: (T, T) -> int, o: seq<T>, block: nat, big: nat, p: nat, was: seq<T>, before: seq<T>)
    requires p == |o| && d + |o| <= a.Length == |before| == |was| && block > 0
    requires Runs(cmp, before[d..d + p], o[..p], big)
    requires forall q :: 0 <= q < a.Length ==> a[q] == before[q]
    requires forall q :: 0 <= q < a.Length && !(d <= q < d + |o|) ==> before[q] == was[q]
    ensures Pass(a, d, cmp, o, block, big, p, was)
  {
    assert a[..] == before;
    assert a[d..d + p] == before[d..d + p];
  }

  lemma DoublesTwice(q: int, size: int)
    requires Doubles(q, size) && q > 0 && 4 * q <= size
    ensures Doubles(4 * q, size)
  {
    assert Doubles(q + q, size);
    assert q + q + (q + q) == 4 * q;
  }

  /** Quadruples the run length while four runs fit the buffer and the array, then doubles. */
  method QuadMerge<T(!new)>(a: array<T>, d: nat, swap: array<T>, swapSize: nat, nmemb: nat, block0: nat, cmp: (T, T) -> int,
                            ghost o: seq<T>)
    requires a != swap && swapSize <= swap.Length && 4 <= block0 && |o| == nmemb
    requires RunsAt(a, d, cmp, o, block0) && TotalPreorder(cmp)
    modifies a, swap
    ensures nmemb <= swapSize ==> At(a, d, Sort(cmp, o))
    ensures Doubles(block0, swapSize) ==> RunsAt(a, d, cmp, o, swapSize + swapSize)
    ensures forall p :: 0 <= p < a.Length && !(d <= p < d + nmemb) ==> a[p] == old(a[p])
  {
    hide TotalPreorder, RunsAt, Sort, At, Doubles;
    var block := block0 * 4;
    while block <= nmemb && block <= swapSize
      invariant block % 4 == 0 && 4 <= block / 4
      invariant RunsAt(a, d, cmp, o, block / 4)
      invariant Doubles(block0, swapSize) ==> Doubles(block / 4, swapSize)
      invariant forall p :: 0 <= p < a.Length && !(d <= p < d + nmemb) ==> a[p] == old(a[p])
      decreases nmemb - block
    {
      QuadPass(a, d, swap, swapSize, nmemb, block / 4, cmp, o);
      if Doubles(block0, swapSize) { DoublesTwice(block / 4, swapSize); }
      block := block * 4;
    }
    TailMerge(a, d, swap, swapSize, nmemb, block / 4, cmp, o);
  }
}
