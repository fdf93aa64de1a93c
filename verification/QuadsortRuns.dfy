/** Arrays cut into sorted runs, and the passes of quadsort.c that double or quadruple the run length. */
module QuadsortRuns {
  import opened StableMerge
  import opened QuadsortMerge
  import opened QuadsortPartial
  import opened QuadsortBlit

  /** `s` is `o` with every aligned stretch of `block` elements (the last may be shorter) replaced by its stable sort. */
  ghost predicate Runs<T(!new)>(cmp: (T, T) -> int, s: seq<T>, o: seq<T>, block: nat)
    decreases |o|
  {
    && |s| == |o| && block > 0
    && if |o| <= block then s == Sort(cmp, o)
       else s[..block] == Sort(cmp, o[..block]) && Runs(cmp, s[block..], o[block..], block)
  }

  ghost predicate RunsAt<T(!new)>(a: array<T>, d: int, cmp: (T, T) -> int, o: seq<T>, block: nat)
    reads a
  {
    0 <= d && d + |o| <= a.Length && Runs(cmp, a[d..d + |o|], o, block)
  }

  ghost predicate Multiple(n: int, block: int) {
    n == 0 || (n >= block > 0 && Multiple(n - block, block))
  }

  lemma {:induction false} RunsCons<T(!new)>(cmp: (T, T) -> int, r: seq<T>, y: seq<T>, t: seq<T>, x: seq<T>, block: nat)
    requires |y| == block > 0 && r == Sort(cmp, y) && Runs(cmp, t, x, block)
    ensures Runs(cmp, r + t, y + x, block)
  {
    if x == [] {
      assert r + t == r && y + x == y;
    } else {
      assert (r + t)[..block] == r && (r + t)[block..] == t;
      assert (y + x)[..block] == y && (y + x)[block..] == x;
    }
  }

  /** Appends more runs to whole runs. */
  lemma {:induction false} RunsAppend<T(!new)>(cmp: (T, T) -> int, s: seq<T>, o: seq<T>, t: seq<T>, x: seq<T>, block: nat)
    requires Runs(cmp, s, o, block) && Multiple(|o|, block)
    requires Runs(cmp, t, x, block)
    ensures Runs(cmp, s + t, o + x, block)
    decreases |o|
  {
    hide Sort;
    if |o| == 0 {
      assert s + t == t && o + x == x;
    } else if |o| <= block {
      RunsCons(cmp, s, o, t, x, block);
    } else {
      var s', o' := s[block..], o[block..];
      RunsAppend(cmp, s', o', t, x, block);
      RunsCons(cmp, s[..block], o[..block], s' + t, o' + x, block);
      assert s[..block] + (s' + t) == s + t && o[..block] + (o' + x) == o + x;
    }
  }

  /** The first run, and the runs after it. */
  lemma {:induction false} RunsHead<T(!new)>(cmp: (T, T) -> int, s: seq<T>, o: seq<T>, block: nat, n: nat)
    requires Runs(cmp, s, o, block) && n <= |o| && (n == block || (n < block && n == |o|))
    ensures s[..n] == Sort(cmp, o[..n]) && Runs(cmp, s[n..], o[n..], block)
  {
    if |o| <= block {
      assert s[..n] == s && o[..n] == o && s[n..] == [] && o[n..] == [];
    }
  }

  /** One more run of at most `block` elements after whole runs. */
  lemma {:induction false} RunsExtend<T(!new)>(cmp: (T, T) -> int, s: seq<T>, o: seq<T>, r: seq<T>, y: seq<T>, block: nat)
    requires Runs(cmp, s, o, block) && Multiple(|o|, block) && r == Sort(cmp, y) && |y| <= block
    ensures Runs(cmp, s + r, o + y, block)
    ensures |y| == block ==> Multiple(|o + y|, block)
  {
    RunsAppend(cmp, s, o, r, y, block);
    if |y| == block { MultipleStep(|o|, block); }
  }

  lemma {:induction false} MultipleStep(n: int, block: int)
    requires Multiple(n, block) && block > 0
    ensures Multiple(n + block, block)
    decreases n
  {
    if n > 0 { MultipleStep(n - block, block); }
  }

  // ---------------------------------------------------------------- doubling passes

  /** What one iteration of a pass does: two neighbouring runs become one. */
  method MergePair<T(!new)>(a: array<T>, d: nat, swap: array<T>, swapSize: nat, block: nat, right: nat, rotate: bool, cmp: (T, T) -> int,
                            ghost x: seq<T>, ghost y: seq<T>)
    requires a != swap && swapSize <= swap.Length && 2 <= block && 0 < right <= block && |x| == block && |y| == right
    requires if rotate then 2 <= swapSize && 4 <= block && PowerOfTwo(block) else block <= swapSize
    requires At(a, d, Sort(cmp, x)) && At(a, d + block, Sort(cmp, y)) && TotalPreorder(cmp)
    modifies a, swap
    ensures At(a, d, Sort(cmp, x + y))
    ensures forall p :: 0 <= p < a.Length && !(d <= p < d + block + right) ==> a[p] == old(a[p])
  {
    hide TotalPreorder, Sorted, Merge, Sort, At;
    SortSorted(cmp, x);
    SortSorted(cmp, y);
    SortConcat(cmp, x, y);
    if rotate {
      BlitMergeBlock(a, d, swap, swapSize, block, right, cmp, Sort(cmp, x), Sort(cmp, y));
    } else {
      PartialBackwardMerge(a, d, swap, block + right, block, cmp, Sort(cmp, x), Sort(cmp, y));
    }
  }

  /** The inner loop of tail_merge and of blit_merge: every pair of neighbouring runs becomes one run of twice the size. */
  method PairPass<T(!new)>(a: array<T>, d: nat, swap: array<T>, swapSize: nat, nmemb: nat, block: nat, rotate: bool, cmp: (T, T) -> int,
                           ghost o: seq<T>)
    requires a != swap && swapSize <= swap.Length && 2 <= block && |o| == nmemb
    requires if rotate then 2 <= swapSize && 4 <= block && PowerOfTwo(block) else block <= swapSize
    requires RunsAt(a, d, cmp, o, block) && TotalPreorder(cmp)
    modifies a, swap
    ensures RunsAt(a, d, cmp, o, block + block)
    ensures forall p :: 0 <= p < a.Length && !(d <= p < d + nmemb) ==> a[p] == old(a[p])
  {
    hide *;
    ghost var was := a[..];
    PassStart(a, d, cmp, o, block, block + block);
    var p := 0;
    while p + block < nmemb
      invariant 0 <= p <= nmemb
      invariant Pass(a, d, cmp, o, block, block + block, p, was)
    {
      var right := if p + block + block < nmemb then block else nmemb - p - block;
      PassStep(a, d, swap, swapSize, nmemb, block, right, rotate, cmp, o, p, was);
      p := p + block + right;
    }
    PassEnd(a, d, cmp, o, block, block + block, p, was);
  }

  /** The first p elements are in runs of `big`, the others in runs of `block`. */
  ghost predicate Pass<T(!new)>(a: array<T>, d: int, cmp: (T, T) -> int, o: seq<T>, block: nat, big: nat, p: int, was: seq<T>)
    reads a
  {
    && 0 <= d && d + |o| <= a.Length == |was| && 0 <= p <= |o|
    && Runs(cmp, a[d..d + p], o[..p], big)
    && Runs(cmp, a[d + p..d + |o|], o[p..], block)
    && (Multiple(p, big) || p == |o|)
    && (forall q :: 0 <= q < a.Length && !(d <= q < d + |o|) ==> a[q] == was[q])
  }

  lemma PassStart<T(!new)>(a: array<T>, d: int, cmp: (T, T) -> int, o: seq<T>, block: nat, big: nat)
    requires RunsAt(a, d, cmp, o, block) && block > 0 && big > 0
    ensures Pass(a, d, cmp, o, block, big, 0, a[..])
  {
    assert o[..0] == [] && o[0..] == o && a[d..d + 0] == [];
  }

  lemma PassEnd<T(!new)>(a: array<T>, d: int, cmp: (T, T) -> int, o: seq<T>, block: nat, big: nat, p: int, was: seq<T>)
    requires Pass(a, d, cmp, o, block, big, p, was) && |o| <= p + block && 0 < block <= big
    ensures RunsAt(a, d, cmp, o, big)
    ensures forall q :: 0 <= q < a.Length && !(d <= q < d + |o|) ==> a[q] == was[q]
  {
    var s, t := a[d..d + p], a[d + p..d + |o|];
    assert a[d..d + |o|] == s + t && o == o[..p] + o[p..];
    if p == |o| {
      assert t == [] && o[p..] == [] && o[..p] == o && s + t == s;
    } else {
      RunsExtend(cmp, s, o[..p], t, o[p..], big);
    }
  }

  method PassStep<T(!new)>(a: array<T>, d: nat, swap: array<T>, swapSize: nat, nmemb: nat, block: nat, right: nat, rotate: bool,
                           cmp: (T, T) -> int, ghost o: seq<T>, p: nat, ghost was: seq<T>)
    requires a != swap && swapSize <= swap.Length && 2 <= block && |o| == nmemb
    requires if rotate then 2 <= swapSize && 4 <= block && PowerOfTwo(block) else block <= swapSize
    requires p + block < nmemb && 0 < right <= block && p + block + right <= nmemb
    requires right == block || p + block + right == nmemb
    requires Pass(a, d, cmp, o, block, block + block, p, was) && TotalPreorder(cmp)
    modifies a, swap
    ensures Pass(a, d, cmp, o, block, block + block, p + block + right, was)
  {
    hide Pass, At, TotalPreorder, Sort, Runs;
    ghost var y1, y2 := o[p..][..block], o[p..][block..][..right];
    PassCut(a, d, cmp, o, block, right, p, was);
    PassFrame(a, d, cmp, o, block, block + block, p, was);
    ghost var before := a[..];
    assert before[d + p + block + right..d + |o|] == a[d + p + block + right..d + |o|];
    MergePair(a, d + p, swap, swapSize, block, right, rotate, cmp, y1, y2);
    assert y1 + y2 == o[p..p + block + right];
    PassJoin(a, d, cmp, o, block, block + block, p, p + block + right, was, before);
  }

  lemma PassCut<T(!new)>(a: array<T>, d: nat, cmp: (T, T) -> int, o: seq<T>, block: nat, right: nat, p: nat, was: seq<T>)
    requires p + block < |o| && 0 < right <= block && p + block + right <= |o|
    requires right == block || p + block + right == |o|
    requires Pass(a, d, cmp, o, block, block + block, p, was)
    ensures At(a, d + p, Sort(cmp, o[p..][..block])) && At(a, d + p + block, Sort(cmp, o[p..][block..][..right]))
    ensures Runs(cmp, a[d + p + block + right..d + |o|], o[p + block + right..], block)
    ensures Multiple(p, block + block)
  {
    hide Sort;
    var t, x := a[d + p..d + |o|], o[p..];
    RunsHead(cmp, t, x, block, block);
    RunsHead(cmp, t[block..], x[block..], block, right);
    assert t[..block] == a[d + p..d + p + block];
    assert t[block..][..right] == a[d + p + block..d + p + block + right];
    assert t[block..][right..] == a[d + p + block + right..d + |o|];
    assert x[block..][right..] == o[p + block + right..];
  }

  /** Stores confined to lo..hi leave every slice outside alone. */
  lemma SliceKept<T>(a: array<T>, before: seq<T>, lo: int, hi: int, i: int, j: int)
    requires |before| == a.Length && 0 <= i <= j <= a.Length && (j <= lo || hi <= i)
    requires forall q :: 0 <= q < a.Length && !(lo <= q < hi) ==> a[q] == before[q]
    ensures a[i..j] == before[i..j]
  {
  }

  /** A stretch p..next that has become one run of at most `big` elements joins the finished part. */
  lemma PassJoin<T(!new)>(a: array<T>, d: nat, cmp: (T, T) -> int, o: seq<T>, block: nat, big: nat, p: nat, next: nat, was: seq<T>,
                          before: seq<T>)
    requires p < next <= |o| && next - p <= big && d + |o| <= a.Length == |before| == |was|
    requires next - p == big || next == |o|
    requires Runs(cmp, before[d..d + p], o[..p], big) && Multiple(p, big)
    requires Runs(cmp, before[d + next..d + |o|], o[next..], block)
    requires forall q :: 0 <= q < a.Length && !(d + p <= q < d + next) ==> a[q] == before[q]
    requires forall q :: 0 <= q < a.Length && !(d <= q < d + |o|) ==> before[q] == was[q]
    requires At(a, d + p, Sort(cmp, o[p..next]))
    ensures Pass(a, d, cmp, o, block, big, next, was)
  {
    hide Sort, Runs, Multiple, At;
    AtSlice(a, d + p, d + next, Sort(cmp, o[p..next]));
    SliceKept(a, before, d + p, d + next, d, d + p);
    SliceKept(a, before, d + p, d + next, d + next, d + |o|);
    HeadJoin(cmp, o, p, next, big, before[d..d + p], a[d + p..d + next]);
    assert a[d..d + p] + a[d + p..d + next] == a[d..d + next];
  }

  lemma AtSlice<T>(a: array<T>, i: int, j: int, s: seq<T>)
    requires At(a, i, s) && j == i + |s|
    ensures a[i..j] == s
  {
  }

  lemma HeadJoin<T(!new)>(cmp: (T, T) -> int, o: seq<T>, p: nat, next: nat, block: nat, h: seq<T>, m: seq<T>)
    requires p <= next <= |o| && next - p <= block && Multiple(p, block)
    requires Runs(cmp, h, o[..p], block) && m == Sort(cmp, o[p..next])
    ensures Runs(cmp, h + m, o[..next], block)
    ensures next - p == block ==> Multiple(next, block)
  {
    hide Runs, Sort, Multiple;
    RunsExtend(cmp, h, o[..p], m, o[p..next], block);
    assert o[..p] + o[p..next] == o[..next];
  }

  lemma PassFrame<T(!new)>(a: array<T>, d: nat, cmp: (T, T) -> int, o: seq<T>, block: nat, big: nat, p: int, was: seq<T>)
    requires Pass(a, d, cmp, o, block, big, p, was)
    ensures 0 <= p <= |o| && d + |o| <= a.Length == |was|
    ensures Runs(cmp, a[..][d..d + p], o[..p], big)
    ensures Multiple(p, big) || p == |o|
    ensures forall q :: 0 <= q < a.Length && !(d <= q < d + |o|) ==> a[..][q] == was[q]
  {
    assert a[..][d..d + p] == a[d..d + p];
  }
}
