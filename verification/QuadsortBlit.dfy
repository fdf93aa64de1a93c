/** Rotate-merge fallback of quadsort.c: merging two sorted blocks of any size with a small buffer. */
module QuadsortBlit {
  import opened StableMerge
  import opened QuadsortMerge
  import opened QuadsortPartial
  import opened QuadsortRotate

  /** Stores confined to lo..hi leave `s` where it was. */
  lemma AtKeepRange<T>(a: array<T>, at: int, s: seq<T>, lo: int, hi: int, was: seq<T>)
    requires InSeq(was, at, s) && |was| == a.Length
    requires forall p :: 0 <= p < a.Length && !(lo <= p < hi) ==> a[p] == was[p]
    requires at + |s| <= lo || hi <= at
    ensures At(a, at, s)
  {
    assert a[at..at + |s|] == was[at..at + |s|];
  }

  /** The number of leading elements that are strictly before `value`, by bisection without early exit. */
  method MonoboundBinaryFirst<T(!new)>(a: array<T>, d: nat, value: nat, top: nat, cmp: (T, T) -> int, ghost s: seq<T>)
      returns (first: nat)
    requires top == |s| > 0 && At(a, d, s) && value < a.Length
    requires TotalPreorder(cmp) && Sorted(cmp, s)
    ensures first <= top
    ensures forall k :: 0 <= k < first ==> !Le(cmp, a[value], s[k])
    ensures forall k :: first <= k < top ==> Le(cmp, a[value], s[k])
  {
    hide At;
    var end, rest := d + top, top;
    ghost var v := a[value];
    while rest > 1
      invariant 1 <= rest <= end - d <= top
      invariant forall k :: 0 <= k < end - d - rest ==> !Le(cmp, v, s[k])
      invariant forall k :: end - d <= k < top ==> Le(cmp, v, s[k])
    {
      var mid := rest / 2;
      AtIndex(a, d, s, end - mid - d);
      BoundSide(cmp, s, v, end - mid - d);
      if cmp(a[value], a[end - mid]) <= 0 {
        end := end - mid;
      }
      rest := rest - mid;
    }
    AtIndex(a, d, s, end - 1 - d);
    if cmp(a[value], a[end - 1]) <= 0 {
      end := end - 1;
    }
    return end - d;
  }

  lemma BoundSide<T(!new)>(cmp: (T, T) -> int, s: seq<T>, v: T, k: int)
    requires TotalPreorder(cmp) && Sorted(cmp, s) && 0 <= k < |s|
    ensures Le(cmp, v, s[k]) ==> forall i :: k <= i < |s| ==> Le(cmp, v, s[i])
    ensures !Le(cmp, v, s[k]) ==> forall i :: 0 <= i <= k ==> !Le(cmp, v, s[i])
  {
    forall i | 0 <= i < |s| ensures if i < k then Le(cmp, s[i], s[k]) else Le(cmp, s[k], s[i]) {
    }
  }

  ghost predicate PowerOfTwo(n: nat) {
    n == 1 || (n > 1 && n % 2 == 0 && PowerOfTwo(n / 2))
  }

  /** Cutting both operands at the middle of the left one splits their merge in two independent merges. */
  lemma {:induction false} MedianCut<T(!new)>(cmp: (T, T) -> int, l: seq<T>, r: seq<T>, h: nat, n: nat)
    requires TotalPreorder(cmp) && Sorted(cmp, l) && Sorted(cmp, r)
    requires h < |l| && n <= |r|
    requires forall k :: 0 <= k < n ==> !Le(cmp, l[h], r[k])
    requires forall k :: n <= k < |r| ==> Le(cmp, l[h], r[k])
    ensures Merge(cmp, l, r) == Merge(cmp, l[..h], r[..n]) + Merge(cmp, l[h..], r[n..])
    ensures Sorted(cmp, l[..h]) && Sorted(cmp, l[h..]) && Sorted(cmp, r[..n]) && Sorted(cmp, r[n..])
  {
    forall x, y | 0 <= x < h && n <= y < |r| ensures Le(cmp, l[x], r[y]) {
      assert Le(cmp, l[x], l[h]);
    }
    forall x, y | h <= x < |l| && 0 <= y < n ensures !Le(cmp, l[x], r[y]) {
      assert x == h || Le(cmp, l[h], l[x]);
    }
    MergeSplit(cmp, l, r, h, n);
  }

  /** Merges adjacent sorted blocks in place; the buffer only has to hold two elements. */
  method BlitMergeBlock<T(!new)>(a: array<T>, d: nat, swap: array<T>, swapSize: nat, block: nat, right: nat, cmp: (T, T) -> int,
                                 ghost l: seq<T>, ghost r: seq<T>)
    requires a != swap && 2 <= swapSize <= swap.Length && 4 <= block && PowerOfTwo(block) && right > 0
    requires |l| == block && |r| == right && At(a, d, l) && At(a, d + block, r)
    requires TotalPreorder(cmp) && Sorted(cmp, l) && Sorted(cmp, r)
    modifies a, swap
    ensures At(a, d, Merge(cmp, l, r))
    ensures forall p :: 0 <= p < a.Length && !(d <= p < d + block + right) ==> a[p] == old(a[p])
    decreases block, 0
  {
    hide TotalPreorder, Sorted, Merge, At, InSeq;
    AtIndex(a, d, l, block - 1);
    AtIndex(a, d + block, r, 0);
    if cmp(a[d + block - 1], a[d + block]) <= 0 {
      MergeOrdered(cmp, l, r);
      AtJoin(a, d, l, r);
      return;
    }
    AtIndex(a, d, l, block / 2);
    var left := MonoboundBinaryFirst(a, d + block, d + block / 2, right, cmp, r);
    var h := block / 2;
    MedianCut(cmp, l, r, h, left);
    ghost var l1, l2, r1, r2 := l[..h], l[h..], r[..left], r[left..];
    assert l == l1 + l2 && r == r1 + r2;
    CutBlocks(a, d, swap, swapSize, h, left, right, cmp, l1, l2, r1, r2);
  }

  /** Exchanges the middle parts around the cut and merges both halves. */
  method CutBlocks<T(!new)>(a: array<T>, d: nat, swap: array<T>, swapSize: nat, h: nat, left: nat, right: nat, cmp: (T, T) -> int,
                            ghost l1: seq<T>, ghost l2: seq<T>, ghost r1: seq<T>, ghost r2: seq<T>)
    requires a != swap && 2 <= swapSize <= swap.Length && 2 <= h && PowerOfTwo(h) && left <= right
    requires |l1| == |l2| == h && |r1| == left && |r2| == right - left && At(a, d, l1 + l2) && At(a, d + h + h, r1 + r2)
    requires TotalPreorder(cmp) && Sorted(cmp, l1) && Sorted(cmp, l2) && Sorted(cmp, r1) && Sorted(cmp, r2)
    modifies a, swap
    ensures At(a, d, Merge(cmp, l1, r1) + Merge(cmp, l2, r2))
    ensures forall p :: 0 <= p < a.Length && !(d <= p < d + h + h + right) ==> a[p] == old(a[p])
    decreases h, 3
  {
    hide TotalPreorder, Sorted, Merge, At, PowerOfTwo;
    AtSplit(a, d, l1, l2);
    AtSplit(a, d + h + h, r1, r2);
    if left > 0 {
      ExchangeMiddle(a, d, swap, swapSize, h, left, l1, l2, r1, r2);
    } else {
      AtEmpty(a, d + h, r1);
    }
    MergeHalves(a, d, swap, swapSize, h, left, right - left, cmp, l1, l2, r1, r2);
  }

  lemma AtEmpty<T>(a: array<T>, at: int, s: seq<T>)
    requires s == [] && 0 <= at <= a.Length
    ensures At(a, at, s)
  {
  }

  /** [l1][l2][r1][r2] becomes [l1][r1][l2][r2]. */
  method ExchangeMiddle<T>(a: array<T>, d: nat, swap: array<T>, swapSize: nat, h: nat, left: nat,
                           ghost l1: seq<T>, ghost l2: seq<T>, ghost r1: seq<T>, ghost r2: seq<T>)
    requires a != swap && 1 <= swapSize <= swap.Length && |l1| == |l2| == h && |r1| == left
    requires At(a, d, l1) && At(a, d + h, l2) && At(a, d + h + h, r1) && At(a, d + h + h + left, r2)
    modifies a, swap
    ensures At(a, d, l1) && At(a, d + h, r1) && At(a, d + h + left, l2) && At(a, d + h + h + left, r2)
    ensures forall p :: 0 <= p < a.Length && !(d + h <= p < d + h + h + left) ==> a[p] == old(a[p])
  {
    hide At, InSeq;
    AtJoin(a, d + h, l2, r1);
    AtBefore(a, d, l1);
    AtBefore(a, d + h + h + left, r2);
    ghost var was := a[..];
    TrinityRotation(a, d + h, swap, swapSize, h + left, h, l2, r1);
    AtKeepRange(a, d, l1, d + h, d + h + h + left, was);
    AtKeepRange(a, d + h + h + left, r2, d + h, d + h + h + left, was);
    AtSplit(a, d + h, r1, l2);
  }

  /** [l1][r1][l2][r2] becomes the merge of the first two followed by the merge of the last two. */
  method MergeHalves<T(!new)>(a: array<T>, d: nat, swap: array<T>, swapSize: nat, h: nat, left: nat, rest: nat, cmp: (T, T) -> int,
                              ghost l1: seq<T>, ghost l2: seq<T>, ghost r1: seq<T>, ghost r2: seq<T>)
    requires a != swap && 2 <= swapSize <= swap.Length && 2 <= h && PowerOfTwo(h)
    requires |l1| == |l2| == h && |r1| == left && |r2| == rest
    requires At(a, d, l1) && At(a, d + h, r1) && At(a, d + h + left, l2) && At(a, d + h + h + left, r2)
    requires TotalPreorder(cmp) && Sorted(cmp, l1) && Sorted(cmp, l2) && Sorted(cmp, r1) && Sorted(cmp, r2)
    modifies a, swap
    ensures At(a, d, Merge(cmp, l1, r1) + Merge(cmp, l2, r2))
    ensures forall p :: 0 <= p < a.Length && !(d <= p < d + h + h + left + rest) ==> a[p] == old(a[p])
    decreases h, 2
  {
    hide TotalPreorder, Sorted, Merge, At, InSeq, PowerOfTwo;
    ghost var m1, m2 := Merge(cmp, l1, r1), Merge(cmp, l2, r2);
    if left > 0 {
      AtBefore(a, d + h + left, l2);
      AtBefore(a, d + h + h + left, r2);
      ghost var was := a[..];
      MergeHalf(a, d, swap, swapSize, h, left, cmp, l1, r1);
      AtKeepRange(a, d + h + left, l2, d, d + h + left, was);
      AtKeepRange(a, d + h + h + left, r2, d, d + h + left, was);
    } else {
      MergeWithEmpty(cmp, l1, r1);
    }
    if rest > 0 {
      AtBefore(a, d, m1);
      ghost var was := a[..];
      MergeHalf(a, d + h + left, swap, swapSize, h, rest, cmp, l2, r2);
      AtKeepRange(a, d, m1, d + h + left, d + h + h + left + rest, was);
    } else {
      MergeWithEmpty(cmp, l2, r2);
    }
    AtJoin(a, d, m1, m2);
  }

  lemma MergeWithEmpty<T(!new)>(cmp: (T, T) -> int, l: seq<T>, r: seq<T>)
    requires r == []
    ensures Merge(cmp, l, r) == l
  {
  }

  /** One half: through the buffer if either side fits, else by cutting again. */
  method MergeHalf<T(!new)>(a: array<T>, d: nat, swap: array<T>, swapSize: nat, block: nat, right: nat, cmp: (T, T) -> int,
                            ghost l: seq<T>, ghost r: seq<T>)
    requires a != swap && 2 <= swapSize <= swap.Length && 2 <= block && PowerOfTwo(block) && right > 0
    requires |l| == block && |r| == right && At(a, d, l) && At(a, d + block, r)
    requires TotalPreorder(cmp) && Sorted(cmp, l) && Sorted(cmp, r)
    modifies a, swap
    ensures At(a, d, Merge(cmp, l, r))
    ensures forall p :: 0 <= p < a.Length && !(d <= p < d + block + right) ==> a[p] == old(a[p])
    decreases block, 1
  {
    hide TotalPreorder, Sorted, Merge, At;
    if right <= swapSize {
      PartialBackwardMerge(a, d, swap, block + right, block, cmp, l, r);
    } else if block <= swapSize {
      PartialForwardMerge(a, d, swap, block + right, block, cmp, l, r);
    } else {
      BlitMergeBlock(a, d, swap, swapSize, block, right, cmp, l, r);
    }
  }
}
