/** quad_swap of quadsort.c: sorts aligned blocks of 32, turning strictly descending stretches around on the way. */
module QuadsortSwap {
  import opened StableMerge
  import opened QuadsortMerge
  import opened QuadsortPartial
  import opened QuadsortRotate
  import opened QuadsortBlit
  import opened QuadsortRuns
  import opened QuadsortSmall

  // ---------------------------------------------------------------- reversal of strictly descending stretches

  ghost predicate Descending<T(!new)>(cmp: (T, T) -> int, s: seq<T>) {
    forall i :: 0 < i < |s| ==> !Le(cmp, s[i - 1], s[i])
  }

  ghost function Rev<T>(s: seq<T>): (r: seq<T>)
    ensures |r| == |s|
    ensures forall i :: 0 <= i < |s| ==> r[i] == s[|s| - 1 - i]
  {
    seq(|s|, i requires 0 <= i < |s| => s[|s| - 1 - i])
  }

  lemma {:induction false} DescendingFar<T(!new)>(cmp: (T, T) -> int, s: seq<T>, i: int, j: int)
    requires TotalPreorder(cmp) && Descending(cmp, s) && 0 <= i < j < |s|
    ensures !Le(cmp, s[i], s[j])
    decreases j - i
  {
    if i + 1 < j {
      DescendingFar(cmp, s, i, j - 1);
      assert !Le(cmp, s[j - 1], s[j]);
    } else {
      assert !Le(cmp, s[j - 1], s[j]);
    }
  }

  lemma RevSorted<T(!new)>(cmp: (T, T) -> int, s: seq<T>)
    requires TotalPreorder(cmp) && Descending(cmp, s)
    ensures Sorted(cmp, Rev(s))
  {
    forall i, j | 0 <= i < j < |s| ensures Le(cmp, Rev(s)[i], Rev(s)[j]) {
      DescendingFar(cmp, s, |s| - 1 - j, |s| - 1 - i);
    }
  }

  /** A strictly descending stretch has no equivalent elements, so reversing it reorders none. */
  lemma {:induction false} RevStable<T(!new)>(cmp: (T, T) -> int, s: seq<T>)
    requires TotalPreorder(cmp) && Descending(cmp, s)
    ensures StablePermutation(cmp, s, Rev(s))
  {
    if s == [] {
      assert Rev(s) == s;
    } else {
      var n := |s| - 1;
      var front, last := s[..n], [s[n]];
      RevStable(cmp, front);
      assert s == front + last && Rev(s) == last + Rev(front);
      forall x ensures Class(cmp, x, s) == Class(cmp, x, Rev(s)) {
        assert Class(cmp, x, front) == Class(cmp, x, Rev(front));
        ClassAppend(cmp, x, front, last);
        ClassAppend(cmp, x, last, Rev(front));
        if Le(cmp, x, s[n]) && Le(cmp, s[n], x) {
          forall k | 0 <= k < n ensures !Le(cmp, front[k], x) { DescendingFar(cmp, s, k, n); }
          ClassEmpty(cmp, x, front);
        } else {
          ClassEmpty(cmp, x, last);
        }
      }
    }
  }

  lemma SpliceStable<T(!new)>(cmp: (T, T) -> int, h: seq<T>, s: seq<T>, t: seq<T>, e: seq<T>)
    requires StablePermutation(cmp, s, t)
    ensures StablePermutation(cmp, h + s + e, h + t + e)
  {
    forall x ensures Class(cmp, x, h + s + e) == Class(cmp, x, h + t + e) {
      ClassAppend(cmp, x, h + s, e);
      ClassAppend(cmp, x, h, s);
      ClassAppend(cmp, x, h + t, e);
      ClassAppend(cmp, x, h, t);
      assert Class(cmp, x, s) == Class(cmp, x, t);
    }
  }

  /** Stable permutations of one another sort to the same sequence. */
  lemma SortSame<T(!new)>(cmp: (T, T) -> int, s: seq<T>, t: seq<T>)
    requires TotalPreorder(cmp) && StablePermutation(cmp, s, t)
    ensures Sort(cmp, s) == Sort(cmp, t)
  {
    SortIsStable(cmp, s);
    SortIsStable(cmp, t);
    forall x ensures Class(cmp, x, Sort(cmp, s)) == Class(cmp, x, Sort(cmp, t)) {
      assert Class(cmp, x, s) == Class(cmp, x, t);
    }
    StableSortUnique(cmp, Sort(cmp, s), Sort(cmp, t));
  }

  ghost function HalfMirrored<T>(s: seq<T>, k: int, i: int): T
    requires 0 <= i < |s|
  {
    if i < k || |s| - k <= i then s[|s| - 1 - i] else s[i]
  }

  ghost predicate Mirroring<T>(t: seq<T>, s: seq<T>, k: int) {
    |t| == |s| && forall i :: 0 <= i < |t| ==> t[i] == HalfMirrored(s, k, i)
  }

  lemma MirroringStep<T>(t: seq<T>, u: seq<T>, s: seq<T>, k: int)
    requires Mirroring(t, s, k) && 0 <= k <= |s| - 1 - k && |u| == |t|
    requires u[k] == t[|s| - 1 - k] && u[|s| - 1 - k] == t[k]
    requires forall i :: 0 <= i < |t| && i != k && i != |s| - 1 - k ==> u[i] == t[i]
    ensures Mirroring(u, s, k + 1)
  {
    forall i | 0 <= i < |u| ensures u[i] == HalfMirrored(s, k + 1, i) {
      assert t[i] == HalfMirrored(s, k, i);
    }
  }

  /** Swaps from both ends; an odd middle element is swapped with itself. */
  method Reverse<T>(a: array<T>, pts0: nat, n: nat, ghost s: seq<T>)
    requires n == |s| > 0 && At(a, pts0, s)
    modifies a
    ensures At(a, pts0, Rev(s))
    ensures forall p :: 0 <= p < a.Length && !(pts0 <= p < pts0 + n) ==> a[p] == old(a[p])
  {
    hide Mirroring;
    var pts, pte := pts0, pts0 + n - 1;
    var rest := (pte - pts) / 2 + 1;
    ghost var k := 0;
    MirroringStart(s);
    while rest > 0
      invariant 0 <= rest && rest == (n - 1) / 2 + 1 - k && pts == pts0 + k && pte == pts0 + n - 1 - k
      invariant Mirroring(a[pts0..pts0 + n], s, k)
      invariant forall p :: 0 <= p < a.Length && !(pts0 <= p < pts0 + n) ==> a[p] == old(a[p])
    {
      ghost var t := a[pts0..pts0 + n];
      a[pts], a[pte] := a[pte], a[pts];
      ghost var u := a[pts0..pts0 + n];
      assert u[k] == t[n - 1 - k] && u[n - 1 - k] == t[k];
      MirroringStep(t, u, s, k);
      pts, pte, rest, k := pts + 1, pte - 1, rest - 1, k + 1;
    }
    MirroringEnd(a[pts0..pts0 + n], s, k);
  }

  lemma MirroringStart<T>(s: seq<T>)
    ensures Mirroring(s, s, 0)
  {
  }

  lemma MirroringEnd<T>(t: seq<T>, s: seq<T>, k: int)
    requires Mirroring(t, s, k) && k + k >= |s|
    ensures t == Rev(s)
  {
    forall i | 0 <= i < |t| ensures t[i] == Rev(s)[i] {
      assert t[i] == HalfMirrored(s, k, i);
    }
  }

  // ---------------------------------------------------------------- four elements

  /** First stage of a group: orders both pairs, unless all four elements are strictly descending
      (and, when a descending stretch is open, continue it). */
  method FirstStage<T(!new)>(a: array<T>, p: nat, cmp: (T, T) -> int, chained: bool, ghost g: seq<T>) returns (turned: bool)
    requires |g| == 4 && At(a, p, g) && (chained ==> p > 0)
    modifies a
    ensures turned ==> Descending(cmp, g) && a[..] == old(a[..]) && (chained ==> !Le(cmp, a[p - 1], g[0]))
    ensures !turned ==> At(a, p, Sort(cmp, g[..2]) + Sort(cmp, g[2..]))
    ensures forall q :: 0 <= q < a.Length && !(p <= q < p + 4) ==> a[q] == old(a[q])
  {
    hide At, Sort;
    AtIndex(a, p, g, 0);
    AtIndex(a, p, g, 1);
    AtIndex(a, p, g, 2);
    AtIndex(a, p, g, 3);
    SortPair(cmp, g[0], g[1]);
    SortPair(cmp, g[2], g[3]);
    assert g[..2] == [g[0], g[1]] && g[2..] == [g[2], g[3]];
    if cmp(a[p], a[p + 1]) > 0 {
      if cmp(a[p + 2], a[p + 3]) > 0 {
        if cmp(a[p + 1], a[p + 2]) > 0 {
          if !chained || cmp(a[p - 1], a[p]) > 0 {
            return true;
          }
        }
        a[p + 2], a[p + 3] := a[p + 3], a[p + 2];
      }
      a[p], a[p + 1] := a[p + 1], a[p];
    } else if cmp(a[p + 2], a[p + 3]) > 0 {
      a[p + 2], a[p + 3] := a[p + 3], a[p + 2];
    }
    turned := false;
    PairsAt(a, p, Sort(cmp, g[..2]), Sort(cmp, g[2..]));
  }

  lemma PairsAt<T>(a: array<T>, p: int, x: seq<T>, y: seq<T>)
    requires 0 <= p && p + 4 <= a.Length && |x| == |y| == 2
    requires a[p] == x[0] && a[p + 1] == x[1] && a[p + 2] == y[0] && a[p + 3] == y[1]
    ensures At(a, p, x + y)
  {
  }

  /** The six ways two ordered pairs interleave. */
  lemma MergeTwoPairs<T(!new)>(cmp: (T, T) -> int, x: seq<T>, y: seq<T>)
    requires |x| == |y| == 2
    ensures Merge(cmp, x, y) ==
      if Le(cmp, x[0], y[0]) then
        if Le(cmp, x[1], y[0]) then [x[0], x[1], y[0], y[1]]
        else if Le(cmp, x[1], y[1]) then [x[0], y[0], x[1], y[1]] else [x[0], y[0], y[1], x[1]]
      else if !Le(cmp, x[0], y[1]) then [y[0], y[1], x[0], x[1]]
      else if Le(cmp, x[1], y[1]) then [y[0], x[0], x[1], y[1]] else [y[0], x[0], y[1], x[1]]
  {
    MergeSingles(cmp, x[1..], y);
    MergeSingles(cmp, x[1..], y[1..]);
    MergeSingles(cmp, x, y[1..]);
    if Le(cmp, x[0], y[0]) { MergeTakeLeft(cmp, x, y); } else { MergeTakeRight(cmp, x, y); }
  }

  lemma MergeSingles<T(!new)>(cmp: (T, T) -> int, x: seq<T>, y: seq<T>)
    requires 1 <= |x| <= 2 && 1 <= |y| <= 2
    ensures |x| == 1 && |y| == 1 ==> Merge(cmp, x, y) == if Le(cmp, x[0], y[0]) then [x[0], y[0]] else [y[0], x[0]]
    ensures |x| == 1 && |y| == 2 ==>
      Merge(cmp, x, y) == if Le(cmp, x[0], y[0]) then [x[0], y[0], y[1]]
      else if Le(cmp, x[0], y[1]) then [y[0], x[0], y[1]] else [y[0], y[1], x[0]]
    ensures |x| == 2 && |y| == 1 ==>
      Merge(cmp, x, y) == if !Le(cmp, x[0], y[0]) then [y[0], x[0], x[1]]
      else if !Le(cmp, x[1], y[0]) then [x[0], y[0], x[1]] else [x[0], x[1], y[0]]
  {
  }

  /** Second stage: two ordered pairs become four ordered elements. */
  method SecondStage<T(!new)>(a: array<T>, p: nat, cmp: (T, T) -> int, ghost x: seq<T>, ghost y: seq<T>)
    requires |x| == |y| == 2 && At(a, p, x + y)
    requires TotalPreorder(cmp) && Sorted(cmp, x) && Sorted(cmp, y)
    modifies a
    ensures At(a, p, Merge(cmp, x, y))
    ensures forall q :: 0 <= q < a.Length && !(p <= q < p + 4) ==> a[q] == old(a[q])
  {
    hide At, Merge, TotalPreorder, Sorted;
    SeamDecides(cmp, x, y);
    AtIndex(a, p, x + y, 0);
    AtIndex(a, p, x + y, 1);
    AtIndex(a, p, x + y, 2);
    AtIndex(a, p, x + y, 3);
    MergeTwoPairs(cmp, x, y);
    if cmp(a[p + 1], a[p + 2]) > 0 {
      if cmp(a[p], a[p + 2]) <= 0 {
        if cmp(a[p + 1], a[p + 3]) <= 0 {
          a[p + 1], a[p + 2] := a[p + 2], a[p + 1];
        } else {
          a[p + 1], a[p + 2], a[p + 3] := a[p + 2], a[p + 3], a[p + 1];
        }
      } else if cmp(a[p], a[p + 3]) > 0 {
        a[p + 1], a[p + 3] := a[p + 3], a[p + 1];
        a[p], a[p + 2] := a[p + 2], a[p];
      } else if cmp(a[p + 1], a[p + 3]) <= 0 {
        a[p], a[p + 1], a[p + 2] := a[p + 2], a[p], a[p + 1];
      } else {
        a[p], a[p + 1], a[p + 2], a[p + 3] := a[p + 2], a[p], a[p + 3], a[p + 1];
      }
    }
    ghost var m := Merge(cmp, x, y);
    FourAt(a, p, m);
  }

  lemma SeamDecides<T(!new)>(cmp: (T, T) -> int, x: seq<T>, y: seq<T>)
    requires |x| == |y| == 2 && TotalPreorder(cmp) && Sorted(cmp, x) && Sorted(cmp, y)
    ensures Le(cmp, x[1], y[0]) ==> Le(cmp, x[0], y[0])
  {
    assert Le(cmp, x[0], x[1]);
  }

  lemma FourAt<T>(a: array<T>, p: int, m: seq<T>)
    requires 0 <= p && p + 4 <= a.Length && |m| == 4
    requires a[p] == m[0] && a[p + 1] == m[1] && a[p + 2] == m[2] && a[p + 3] == m[3]
    ensures At(a, p, m)
  {
  }

  /** One group of four: either part of a strictly descending stretch, or sorted. */
  method SortGroup<T(!new)>(a: array<T>, p: nat, cmp: (T, T) -> int, chained: bool, ghost g: seq<T>) returns (turned: bool)
    requires |g| == 4 && At(a, p, g) && (chained ==> p > 0) && TotalPreorder(cmp)
    modifies a
    ensures turned ==> Descending(cmp, g) && a[..] == old(a[..]) && (chained ==> !Le(cmp, a[p - 1], g[0]))
    ensures !turned ==> At(a, p, Sort(cmp, g))
    ensures forall q :: 0 <= q < a.Length && !(p <= q < p + 4) ==> a[q] == old(a[q])
  {
    hide At, Sort, Merge, TotalPreorder, Sorted, Descending;
    turned := FirstStage(a, p, cmp, chained, g);
    if !turned {
      SortSorted(cmp, g[..2]);
      SortSorted(cmp, g[2..]);
      SecondStage(a, p, cmp, Sort(cmp, g[..2]), Sort(cmp, g[2..]));
      SortConcat(cmp, g[..2], g[2..]);
      assert g[..2] + g[2..] == g;
    }
  }

  // ---------------------------------------------------------------- runs of eight

  /** The first p elements of `a` are `o` in sorted runs of eight, the others are `o` itself. */
  ghost predicate Eights<T(!new)>(a: array<T>, cmp: (T, T) -> int, o: seq<T>, p: int)
    reads a
  {
    && a.Length == |o| && 0 <= p <= |o| && p % 8 == 0
    && Runs(cmp, a[..p], o[..p], 8)
    && At(a, p, o[p..])
  }

  lemma {:induction false} MultipleOfEight(n: nat)
    requires n % 8 == 0
    ensures Multiple(n, 8)
    decreases n
  {
    if n > 0 { MultipleOfEight(n - 8); }
  }

  lemma {:induction false} SortedRuns<T(!new)>(cmp: (T, T) -> int, s: seq<T>)
    requires TotalPreorder(cmp) && Sorted(cmp, s)
    ensures Runs(cmp, s, s, 8)
    decreases |s|
  {
    if |s| <= 8 {
      SortOfSorted(cmp, s);
    } else {
      SortOfSorted(cmp, s[..8]);
      SortedRuns(cmp, s[8..]);
    }
  }

  /** Sorted material behind whole runs of eight. */
  lemma EightsGrow<T(!new)>(a: array<T>, cmp: (T, T) -> int, o: seq<T>, h: seq<T>, t: seq<T>, p: nat, q: nat)
    requires a.Length == |o| && p <= q <= |o| && p % 8 == 0 && q % 8 == 0
    requires |h| == p && At(a, 0, h) && Runs(cmp, h, o[..p], 8)
    requires At(a, p, t) && Runs(cmp, t, o[p..q], 8) && At(a, q, o[q..])
    ensures Eights(a, cmp, o, q)
  {
    MultipleOfEight(p);
    RunsAppend(cmp, h, o[..p], t, o[p..q], 8);
    assert o[..p] + o[p..q] == o[..q];
    assert a[..q] == a[0..p] + a[p..q];
  }

  lemma EightsParts<T(!new)>(a: array<T>, cmp: (T, T) -> int, o: seq<T>, p: nat)
    requires Eights(a, cmp, o, p)
    ensures p <= |o| == a.Length && p % 8 == 0
    ensures At(a, 0, a[..p]) && Runs(cmp, a[..p], o[..p], 8) && At(a, p, o[p..])
  {
  }

  /** Eight elements whose first group was sorted by itself. */
  method FinishEight<T(!new)>(a: array<T>, p: nat, cmp: (T, T) -> int, ghost o: seq<T>, ghost h: seq<T>, ghost s: nat, ghost t: seq<T>)
    requires a.Length == |o| && s <= p && p + 8 <= |o| && s % 8 == 0 && p % 8 == 0 && TotalPreorder(cmp)
    requires |h| == s && At(a, 0, h) && Runs(cmp, h, o[..s], 8)
    requires At(a, s, t) && Runs(cmp, t, o[s..p], 8)
    requires At(a, p, Sort(cmp, o[p..p + 4])) && At(a, p + 4, o[p + 4..])
    modifies a
    ensures Eights(a, cmp, o, p + 8)
  {
    hide At, InSeq, Sort, Runs, TotalPreorder, Eights;
    assert o[p + 4..] == o[p + 4..p + 8] + o[p + 8..];
    AtSplit(a, p + 4, o[p + 4..p + 8], o[p + 8..]);
    assert o[p..p + 4] + o[p + 4..p + 8] == o[p..p + 8];
    RunOfEight(cmp, t, o, s, p);
    AtBefore(a, 0, h);
    AtBefore(a, s, t);
    AtBefore(a, p + 8, o[p + 8..]);
    ghost var was := a[..];
    ParityTailSwapEight(a, p, cmp, o[p..p + 4], o[p + 4..p + 8]);
    AtKeepRange(a, 0, h, p, p + 8, was);
    AtKeepRange(a, s, t, p, p + 8, was);
    AtKeepRange(a, p + 8, o[p + 8..], p, p + 8, was);
    AtJoin(a, s, t, Sort(cmp, o[p..p + 8]));
    EightsGrow(a, cmp, o, h, t + Sort(cmp, o[p..p + 8]), s, p + 8);
  }

  lemma RunsLength<T(!new)>(cmp: (T, T) -> int, s: seq<T>, o: seq<T>, block: nat)
    requires Runs(cmp, s, o, block)
    ensures |s| == |o|
  {
  }

  lemma RunOfEight<T(!new)>(cmp: (T, T) -> int, t: seq<T>, o: seq<T>, s: nat, p: nat)
    requires s <= p && p + 8 <= |o| && s % 8 == 0 && p % 8 == 0
    requires Runs(cmp, t, o[s..p], 8)
    ensures |t| == p - s
    ensures Runs(cmp, t + Sort(cmp, o[p..p + 8]), o[s..p + 8], 8)
  {
    hide Runs, Sort;
    RunsLength(cmp, t, o[s..p], 8);
    MultipleOfEight(p - s);
    RunsExtend(cmp, t, o[s..p], Sort(cmp, o[p..p + 8]), o[p..p + 8], 8);
    assert o[s..p] + o[p..p + 8] == o[s..p + 8];
  }

  /** Eight elements made of the last group of a reversed stretch and the sorted group after it. */
  method FlipEight<T(!new)>(a: array<T>, p: nat, cmp: (T, T) -> int, ghost o: seq<T>, ghost h: seq<T>, ghost s: nat, ghost t: seq<T>)
    requires a.Length == |o| && s <= p && p + 8 <= |o| && s % 8 == 0 && p % 8 == 0 && TotalPreorder(cmp)
    requires |h| == s && At(a, 0, h) && Runs(cmp, h, o[..s], 8)
    requires At(a, s, t) && Runs(cmp, t, o[s..p], 8)
    requires At(a, p, Sort(cmp, o[p..p + 4])) && At(a, p + 4, Sort(cmp, o[p + 4..p + 8])) && At(a, p + 8, o[p + 8..])
    modifies a
    ensures Eights(a, cmp, o, p + 8)
  {
    hide At, InSeq, Sort, Runs, TotalPreorder, Eights;
    assert o[p..p + 4] + o[p + 4..p + 8] == o[p..p + 8];
    RunOfEight(cmp, t, o, s, p);
    AtBefore(a, 0, h);
    AtBefore(a, s, t);
    AtBefore(a, p + 8, o[p + 8..]);
    ghost var was := a[..];
    ParityTailFlipEight(a, p, cmp, o[p..p + 4], o[p + 4..p + 8]);
    AtKeepRange(a, 0, h, p, p + 8, was);
    AtKeepRange(a, s, t, p, p + 8, was);
    AtKeepRange(a, p + 8, o[p + 8..], p, p + 8, was);
    AtJoin(a, s, t, Sort(cmp, o[p..p + 8]));
    EightsGrow(a, cmp, o, h, t + Sort(cmp, o[p..p + 8]), s, p + 8);
  }

  // ---------------------------------------------------------------- the scan

  /** The array in pieces: runs of eight, an open stretch, one sorted group, the rest. */
  ghost predicate Pieces<T(!new)>(a: array<T>, cmp: (T, T) -> int, o: seq<T>, h: seq<T>, pts: int, p: int, g: seq<T>, rest: seq<T>)
    reads a
  {
    && a.Length == |o| && 0 <= pts <= p <= |o| && pts % 8 == 0 && |h| == pts && p + |g| + |rest| == |o|
    && At(a, 0, h) && Runs(cmp, h, o[..pts], 8)
    && At(a, pts, o[pts..p]) && At(a, p, g) && At(a, p + |g|, rest)
  }

  lemma EightsOpen<T(!new)>(a: array<T>, cmp: (T, T) -> int, o: seq<T>, pts: nat, p: nat, k: nat)
    requires Eights(a, cmp, o, pts) && pts <= p && p + k <= |o|
    ensures Pieces(a, cmp, o, a[..pts], pts, p, o[p..p + k], o[p + k..])
  {
    hide At, Runs;
    EightsParts(a, cmp, o, pts);
    assert o[pts..] == o[pts..p] + o[p..] && o[p..] == o[p..p + k] + o[p + k..];
    AtSplit(a, pts, o[pts..p], o[p..]);
    AtSplit(a, p, o[p..p + k], o[p + k..]);
  }

  /** Handles the group at `p` while the stretch pts..p is open. */
  method OpenGroup<T(!new)>(a: array<T>, ghost pts: nat, p: nat, cmp: (T, T) -> int, chained: bool, ghost o: seq<T>) returns (turned: bool, ghost h: seq<T>)
    requires Eights(a, cmp, o, pts) && pts <= p && p + 4 <= |o| && (chained ==> pts < p) && TotalPreorder(cmp)
    modifies a
    ensures turned ==> Eights(a, cmp, o, pts) && Descending(cmp, o[p..p + 4]) && (chained ==> !Le(cmp, o[p - 1], o[p]))
    ensures !turned ==> Pieces(a, cmp, o, h, pts, p, Sort(cmp, o[p..p + 4]), o[p + 4..])
  {
    hide At, InSeq, Runs, Sort, TotalPreorder, Eights, Descending, Pieces;
    EightsParts(a, cmp, o, pts);
    h := a[..pts];
    EightsOpen(a, cmp, o, pts, p, 4);
    PiecesParts(a, cmp, o, h, pts, p, o[p..p + 4], o[p + 4..]);
    AtBefore(a, p, o[p..p + 4]);
    AtBefore(a, 0, h);
    AtBefore(a, pts, o[pts..p]);
    AtBefore(a, p + 4, o[p + 4..]);
    ghost var was := a[..];
    if chained { AtIndex(a, pts, o[pts..p], p - pts - 1); }
    turned := SortGroup(a, p, cmp, chained, o[p..p + 4]);
    AtKeepRange(a, 0, h, p, p + 4, was);
    AtKeepRange(a, pts, o[pts..p], p, p + 4, was);
    AtKeepRange(a, p + 4, o[p + 4..], p, p + 4, was);
    if turned {
      AtSame(a, p, o[p..p + 4], was);
      RejoinPieces(a, cmp, o, h, pts, p);
    } else {
      MakePieces(a, cmp, o, h, pts, p, Sort(cmp, o[p..p + 4]), o[p + 4..]);
    }
  }

  lemma AtSame<T>(a: array<T>, at: int, s: seq<T>, was: seq<T>)
    requires InSeq(was, at, s) && a[..] == was
    ensures At(a, at, s)
  {
    assert a[at..at + |s|] == a[..][at..at + |s|];
  }

  lemma PiecesParts<T(!new)>(a: array<T>, cmp: (T, T) -> int, o: seq<T>, h: seq<T>, pts: int, p: int, g: seq<T>, rest: seq<T>)
    requires Pieces(a, cmp, o, h, pts, p, g, rest)
    ensures a.Length == |o| && 0 <= pts <= p <= |o| && pts % 8 == 0 && |h| == pts && p + |g| + |rest| == |o|
    ensures At(a, 0, h) && Runs(cmp, h, o[..pts], 8) && At(a, pts, o[pts..p]) && At(a, p, g) && At(a, p + |g|, rest)
  {
  }

  lemma MakePieces<T(!new)>(a: array<T>, cmp: (T, T) -> int, o: seq<T>, h: seq<T>, pts: int, p: int, g: seq<T>, rest: seq<T>)
    requires a.Length == |o| && 0 <= pts <= p <= |o| && pts % 8 == 0 && |h| == pts && p + |g| + |rest| == |o|
    requires At(a, 0, h) && Runs(cmp, h, o[..pts], 8) && At(a, pts, o[pts..p]) && At(a, p, g) && At(a, p + |g|, rest)
    ensures Pieces(a, cmp, o, h, pts, p, g, rest)
  {
  }

  lemma RejoinPieces<T(!new)>(a: array<T>, cmp: (T, T) -> int, o: seq<T>, h: seq<T>, pts: nat, p: nat)
    requires a.Length == |o| && pts <= p && p + 4 <= |o| && pts % 8 == 0 && |h| == pts
    requires At(a, 0, h) && Runs(cmp, h, o[..pts], 8)
    requires At(a, pts, o[pts..p]) && At(a, p, o[p..p + 4]) && At(a, p + 4, o[p + 4..])
    ensures Eights(a, cmp, o, pts)
  {
    hide At, Runs, Eights;
    AtJoin(a, p, o[p..p + 4], o[p + 4..]);
    assert o[p..p + 4] + o[p + 4..] == o[p..];
    AtJoin(a, pts, o[pts..p], o[p..]);
    assert o[pts..p] + o[p..] == o[pts..];
    EightsClose(a, cmp, o, h, pts);
  }

  lemma EightsClose<T(!new)>(a: array<T>, cmp: (T, T) -> int, o: seq<T>, h: seq<T>, p: nat)
    requires a.Length == |o| && p <= |o| && p % 8 == 0 && |h| == p
    requires At(a, 0, h) && Runs(cmp, h, o[..p], 8) && At(a, p, o[p..])
    ensures Eights(a, cmp, o, p)
  {
    assert a[..p] == a[0..p];
  }

  lemma DescendingJoin<T(!new)>(cmp: (T, T) -> int, o: seq<T>, i: nat, j: nat, k: nat)
    requires i < j < k <= |o| && Descending(cmp, o[i..j]) && Descending(cmp, o[j..k]) && !Le(cmp, o[j - 1], o[j])
    ensures Descending(cmp, o[i..k])
  {
    var s := o[i..k];
    forall q | 0 < q < |s| ensures !Le(cmp, s[q - 1], s[q]) {
      if q < j - i {
        assert s[q - 1] == o[i..j][q - 1] && s[q] == o[i..j][q];
      } else if q > j - i {
        assert s[q - 1] == o[j..k][q - 1 - (j - i)] && s[q] == o[j..k][q - (j - i)];
      }
    }
  }

  /** The open stretch is turned around; what was sorted stands for a stable rearrangement of the input from now on. */
  method TurnAround<T(!new)>(a: array<T>, pts: nat, p: nat, cmp: (T, T) -> int, ghost o: seq<T>, ghost h: seq<T>, ghost g: seq<T>, ghost rest: seq<T>)
      returns (ghost o2: seq<T>)
    requires Pieces(a, cmp, o, h, pts, p, g, rest) && pts < p && Descending(cmp, o[pts..p]) && TotalPreorder(cmp)
    modifies a
    ensures |o2| == |o| && o2[p..] == o[p..] && StablePermutation(cmp, o, o2)
    ensures Sorted(cmp, o2[pts..p])
    ensures Pieces(a, cmp, o2, h, pts, p, g, rest)
  {
    hide At, InSeq, Runs, TotalPreorder, Sorted, Descending, StablePermutation;
    ghost var mid := o[pts..p];
    o2 := o[..pts] + Rev(mid) + o[p..];
    assert o2[..pts] == o[..pts] && o2[pts..p] == Rev(mid) && o2[p..] == o[p..];
    assert o == o[..pts] + mid + o[p..];
    RevStable(cmp, mid);
    RevSorted(cmp, mid);
    SpliceStable(cmp, o[..pts], mid, Rev(mid), o[p..]);
    AtBefore(a, 0, h);
    AtBefore(a, p, g);
    AtBefore(a, p + |g|, rest);
    ghost var was := a[..];
    Reverse(a, pts, p - pts, mid);
    AtKeepRange(a, 0, h, pts, p, was);
    AtKeepRange(a, p, g, pts, p, was);
    AtKeepRange(a, p + |g|, rest, pts, p, was);
  }

  lemma StableTrans<T(!new)>(cmp: (T, T) -> int, s: seq<T>, t: seq<T>, u: seq<T>)
    requires StablePermutation(cmp, s, t) && StablePermutation(cmp, t, u)
    ensures StablePermutation(cmp, s, u)
  {
    forall x ensures Class(cmp, x, s) == Class(cmp, x, u) {
      assert Class(cmp, x, s) == Class(cmp, x, t) && Class(cmp, x, t) == Class(cmp, x, u);
    }
  }

  /** A stretch ends in front of a sorted group: it is turned around and the group's eight elements are completed. */
  method CloseStretch<T(!new)>(a: array<T>, pts: nat, p: nat, count: nat, cmp: (T, T) -> int, ghost o: seq<T>, ghost h: seq<T>)
      returns (ghost o2: seq<T>)
    requires pts < p && p + 4 + 4 * count <= |o| && p % 4 == 0 && (p + 4 + 4 * count) % 8 == 0
    requires Pieces(a, cmp, o, h, pts, p, Sort(cmp, o[p..p + 4]), o[p + 4..])
    requires Descending(cmp, o[pts..p]) && TotalPreorder(cmp)
    modifies a
    ensures |o2| == |o| && StablePermutation(cmp, o, o2)
    ensures Eights(a, cmp, o2, if count % 2 == 0 then p + 4 else p + 8)
  {
    hide At, Runs, Sort, TotalPreorder, Sorted, Descending, StablePermutation, Eights, Pieces;
    PiecesParts(a, cmp, o, h, pts, p, Sort(cmp, o[p..p + 4]), o[p + 4..]);
    o2 := TurnAround(a, pts, p, cmp, o, h, Sort(cmp, o[p..p + 4]), o[p + 4..]);
    SameTail(o, o2, p);
    PiecesParts(a, cmp, o2, h, pts, p, Sort(cmp, o2[p..p + 4]), o2[p + 4..]);
    StretchParity(pts, p, count, |o|);
    if count % 2 == 0 {
      SplitStretch(a, cmp, o2, pts, p);
      FlipEight(a, p - 4, cmp, o2, h, pts, o2[pts..p - 4]);
    } else {
      SortedRuns(cmp, o2[pts..p]);
      FinishEight(a, p, cmp, o2, h, pts, o2[pts..p]);
    }
  }

  lemma StretchParity(pts: nat, p: nat, count: nat, n: nat)
    requires pts < p && pts % 8 == 0 && p % 4 == 0 && (p + 4 + 4 * count) % 8 == 0 && p + 4 + 4 * count <= n
    ensures count % 2 == 0 ==> p % 8 == 4 && pts + 4 <= p && (p - 4) % 8 == 0 && p + 4 <= n
    ensures count % 2 != 0 ==> p % 8 == 0 && p + 8 <= n
  {
  }

  lemma SameTail<T>(o: seq<T>, o2: seq<T>, p: nat)
    requires |o| == |o2| && p + 4 <= |o| && o2[p..] == o[p..]
    ensures o2[p..p + 4] == o[p..p + 4] && o2[p + 4..] == o[p + 4..]
  {
    assert o2[p..][..4] == o2[p..p + 4] && o[p..][..4] == o[p..p + 4];
    assert o2[p..][4..] == o2[p + 4..] && o[p..][4..] == o[p + 4..];
  }

  /** The last four elements of a sorted stretch open a run of eight of their own. */
  lemma SplitStretch<T(!new)>(a: array<T>, cmp: (T, T) -> int, o: seq<T>, pts: nat, p: nat)
    requires pts + 4 <= p <= |o| && Sorted(cmp, o[pts..p]) && At(a, pts, o[pts..p]) && TotalPreorder(cmp)
    ensures At(a, pts, o[pts..p - 4]) && Runs(cmp, o[pts..p - 4], o[pts..p - 4], 8)
    ensures At(a, p - 4, Sort(cmp, o[p - 4..p]))
  {
    hide At, Runs, Sort, TotalPreorder, Sorted;
    var t, e := o[pts..p - 4], o[p - 4..p];
    assert o[pts..p] == t + e;
    SortedParts(cmp, t, e);
    SortedRuns(cmp, t);
    SortOfSorted(cmp, e);
    AtSplit(a, pts, t, e);
  }

  lemma SortedParts<T(!new)>(cmp: (T, T) -> int, s: seq<T>, t: seq<T>)
    requires Sorted(cmp, s + t)
    ensures Sorted(cmp, s) && Sorted(cmp, t)
  {
    forall i, j | 0 <= i < j < |s| ensures Le(cmp, s[i], s[j]) { assert s[i] == (s + t)[i] && s[j] == (s + t)[j]; }
    forall i, j | 0 <= i < j < |t| ensures Le(cmp, t[i], t[j]) { assert t[i] == (s + t)[|s| + i] && t[j] == (s + t)[|s| + j]; }
  }

  /** How following an open stretch ends: back to the scan, at the last whole group, or with everything turned around. */
  datatype Outcome = Resume | LastGroup | WholeArray

  /** The stretch opened at `pts` is followed group by group until it ends. */
  method FollowStretch<T(!new)>(a: array<T>, pts: nat, p0: nat, count0: nat, cmp: (T, T) -> int, ghost o: seq<T>)
      returns (outcome: Outcome, p: nat, count: nat, ghost o2: seq<T>)
    requires pts < p0 && p0 % 4 == 0 && p0 + 4 * count0 == a.Length / 8 * 8
    requires Eights(a, cmp, o, pts) && Descending(cmp, o[pts..p0]) && TotalPreorder(cmp) && |o| == a.Length
    modifies a
    ensures |o2| == |o| && StablePermutation(cmp, o, o2)
    ensures outcome.WholeArray? ==> a[..] == Sort(cmp, o2)
    ensures outcome.LastGroup? ==> p == a.Length / 8 * 8 && Eights(a, cmp, o2, p)
    ensures outcome.Resume? ==> p + 4 * count == a.Length / 8 * 8 && count < count0 && Eights(a, cmp, o2, p)
  {
    hide At, Runs, Sort, TotalPreorder, Sorted, Descending, StablePermutation, Eights, Pieces;
    p, count := p0, count0;
    while count > 0
      invariant p0 <= p && p % 4 == 0 && count <= count0 && p + 4 * count == a.Length / 8 * 8
      invariant Eights(a, cmp, o, pts) && Descending(cmp, o[pts..p])
    {
      count := count - 1;
      ghost var h;
      var turned;
      turned, h := OpenGroup(a, pts, p, cmp, true, o);
      if turned {
        DescendingJoin(cmp, o, pts, p, p + 4);
        p := p + 4;
        continue;
      }
      o2 := CloseStretch(a, pts, p, count, cmp, o, h);
      if count % 2 == 0 {
        p := p - 4;
      } else {
        count := count - 1;
      }
      p := p + 8;
      outcome := Resume;
      return;
    }
    outcome, o2 := EndOfGroups(a, pts, p, cmp, o);
  }

  /** A descending stretch up to the last whole group: the tail may continue it to the whole array, or it ends here. */
  method EndOfGroups<T(!new)>(a: array<T>, pts: nat, p: nat, cmp: (T, T) -> int, ghost o: seq<T>) returns (outcome: Outcome, ghost o2: seq<T>)
    requires pts < p && p == a.Length / 8 * 8 && |o| == a.Length
    requires Eights(a, cmp, o, pts) && Descending(cmp, o[pts..p]) && TotalPreorder(cmp)
    modifies a
    ensures |o2| == |o| && StablePermutation(cmp, o, o2) && !outcome.Resume?
    ensures outcome.WholeArray? ==> a[..] == Sort(cmp, o2)
    ensures outcome.LastGroup? ==> Eights(a, cmp, o2, p)
  {
    hide At, Runs, Sort, TotalPreorder, Sorted, Descending, StablePermutation, Eights, Pieces;
    if pts == 0 {
      var whole := TailContinues(a, p, cmp, o);
      if whole {
        EightsParts(a, cmp, o, 0);
        assert o[0..] == o;
        Reverse(a, 0, a.Length, o);
        RevIsSort(cmp, o);
        WholeAt(a, Rev(o));
        StableRefl(cmp, o);
        return WholeArray, o;
      }
    }
    EightsParts(a, cmp, o, pts);
    EightsOpen(a, cmp, o, pts, p, 0);
    ghost var h := a[..pts];
    assert o[p..p + 0] == [];
    o2 := TurnAround(a, pts, p, cmp, o, h, [], o[p..]);
    EndStretch(a, cmp, o2, h, pts, p, [], o[p..]);
    outcome := LastGroup;
  }

  lemma WholeAt<T>(a: array<T>, s: seq<T>)
    requires At(a, 0, s) && |s| == a.Length
    ensures a[..] == s
  {
  }

  lemma StableRefl<T(!new)>(cmp: (T, T) -> int, s: seq<T>)
    ensures StablePermutation(cmp, s, s)
  {
  }

  lemma RevIsSort<T(!new)>(cmp: (T, T) -> int, s: seq<T>)
    requires TotalPreorder(cmp) && Descending(cmp, s)
    ensures Rev(s) == Sort(cmp, s)
  {
    RevStable(cmp, s);
    RevSorted(cmp, s);
    SortSame(cmp, s, Rev(s));
    SortOfSorted(cmp, Rev(s));
  }

  /** Does the whole array descend strictly, its last incomplete group included? */
  method TailContinues<T(!new)>(a: array<T>, p: nat, cmp: (T, T) -> int, ghost o: seq<T>) returns (whole: bool)
    requires 0 < p == a.Length / 8 * 8 && |o| == a.Length && Eights(a, cmp, o, 0) && Descending(cmp, o[0..p])
    ensures whole ==> Descending(cmp, o)
  {
    EightsParts(a, cmp, o, 0);
    assert o[0..] == o;
    hide At, Runs, Eights;
    var k := a.Length % 8;
    whole := true;
    while k > 0 && whole
      invariant 0 <= k <= a.Length % 8
      invariant whole ==> forall i :: p + k <= i < |o| ==> !Le(cmp, o[i - 1], o[i])
    {
      AtIndex(a, 0, o, p + k - 2);
      AtIndex(a, 0, o, p + k - 1);
      whole := cmp(a[p + k - 2], a[p + k - 1]) > 0;
      k := k - 1;
    }
    if whole {
      forall i | 0 < i < |o| ensures !Le(cmp, o[i - 1], o[i]) {
        if i < p { assert o[0..p][i - 1] == o[i - 1] && o[0..p][i] == o[i]; }
      }
    }
  }

  lemma EndStretch<T(!new)>(a: array<T>, cmp: (T, T) -> int, o: seq<T>, h: seq<T>, pts: nat, p: nat, g: seq<T>, rest: seq<T>)
    requires pts <= p <= |o| && p % 8 == 0 && pts % 8 == 0 && g == [] && rest == o[p..] && TotalPreorder(cmp)
    requires Pieces(a, cmp, o, h, pts, p, g, rest)
    requires Sorted(cmp, o[pts..p])
    ensures Eights(a, cmp, o, p)
  {
    hide At, Runs, TotalPreorder, Sorted, Eights, Pieces;
    PiecesParts(a, cmp, o, h, pts, p, g, rest);
    SortedRuns(cmp, o[pts..p]);
    EightsGrow(a, cmp, o, h, o[pts..p], pts, p);
  }

  /** The scan over groups of four: leaves sorted runs of eight of a stable rearrangement of the input. */
  method ScanGroups<T(!new)>(a: array<T>, cmp: (T, T) -> int, ghost o: seq<T>) returns (whole: bool, ghost o2: seq<T>)
    requires a[..] == o && TotalPreorder(cmp)
    modifies a
    ensures |o2| == |o| && StablePermutation(cmp, o, o2)
    ensures if whole then a[..] == Sort(cmp, o2) else Eights(a, cmp, o2, a.Length / 8 * 8)
  {
    hide At, Runs, Sort, TotalPreorder, Sorted, Descending, StablePermutation, Eights, Pieces;
    var p, count := 0, a.Length / 8 * 2;
    o2 := o;
    EightsStart(a, cmp, o);
    StableRefl(cmp, o);
    var last := false;
    while count > 0 && !last
      invariant 0 <= count && |o2| == |o| == a.Length && (if last then p else p + 4 * count) == a.Length / 8 * 8
      invariant StablePermutation(cmp, o, o2)
      invariant Eights(a, cmp, o2, p)
      decreases !last, count
    {
      var outcome;
      ghost var o3;
      outcome, p, count, o3 := ScanGroup(a, p, count, cmp, o2);
      StableTrans(cmp, o, o2, o3);
      o2 := o3;
      if outcome.WholeArray? { return true, o2; }
      last := outcome.LastGroup?;
    }
    whole := false;
    assert p == a.Length / 8 * 8;
  }

  lemma EightsAligned<T(!new)>(a: array<T>, cmp: (T, T) -> int, o: seq<T>, p: nat)
    requires Eights(a, cmp, o, p)
    ensures p % 8 == 0
  {
  }

  lemma EvenGroups(p: nat, count: nat, n: nat)
    requires p % 8 == 0 && count > 0 && p + 4 * count == n / 8 * 8
    ensures count >= 2 && p + 8 <= n && p % 4 == 0
  {
  }

  /** One iteration of the scan. */
  method ScanGroup<T(!new)>(a: array<T>, p0: nat, count0: nat, cmp: (T, T) -> int, ghost o: seq<T>)
      returns (outcome: Outcome, p: nat, count: nat, ghost o2: seq<T>)
    requires count0 > 0 && p0 + 4 * count0 == a.Length / 8 * 8 && |o| == a.Length
    requires Eights(a, cmp, o, p0) && TotalPreorder(cmp)
    modifies a
    ensures |o2| == |o| && StablePermutation(cmp, o, o2)
    ensures outcome.WholeArray? ==> a[..] == Sort(cmp, o2)
    ensures outcome.LastGroup? ==> p == a.Length / 8 * 8 && Eights(a, cmp, o2, p)
    ensures outcome.Resume? ==> p + 4 * count == a.Length / 8 * 8 && count < count0 && Eights(a, cmp, o2, p)
  {
    hide At, Runs, Sort, TotalPreorder, Sorted, Descending, StablePermutation, Eights, Pieces;
    EightsAligned(a, cmp, o, p0);
    EvenGroups(p0, count0, a.Length);
    p, count := p0, count0 - 1;
    ghost var h;
    var turned;
    turned, h := OpenGroup(a, p, p, cmp, false, o);
    if turned {
      outcome, p, count, o2 := FollowStretch(a, p, p + 4, count, cmp, o);
    } else {
      count := count - 1;
      FinishPlain(a, p, cmp, o, h);
      StableRefl(cmp, o);
      outcome, p, o2 := Resume, p + 8, o;
    }
  }

  method FinishPlain<T(!new)>(a: array<T>, p: nat, cmp: (T, T) -> int, ghost o: seq<T>, ghost h: seq<T>)
    requires p % 8 == 0 && p + 8 <= |o| && TotalPreorder(cmp)
    requires Pieces(a, cmp, o, h, p, p, Sort(cmp, o[p..p + 4]), o[p + 4..])
    modifies a
    ensures Eights(a, cmp, o, p + 8)
  {
    hide At, Runs, Sort, TotalPreorder, Eights, Pieces;
    PiecesParts(a, cmp, o, h, p, p, Sort(cmp, o[p..p + 4]), o[p + 4..]);
    NothingYet(a, cmp, o, p);
    FinishEight(a, p, cmp, o, h, p, []);
  }

  lemma EightsStart<T(!new)>(a: array<T>, cmp: (T, T) -> int, o: seq<T>)
    requires a[..] == o
    ensures Eights(a, cmp, o, 0)
  {
    assert o[0..] == o && a[0..a.Length] == o && a[..0] == [] && o[..0] == [];
  }

  lemma NothingYet<T(!new)>(a: array<T>, cmp: (T, T) -> int, o: seq<T>, p: nat)
    requires p <= |o| && p <= a.Length
    ensures At(a, p, []) && Runs(cmp, [], o[p..p], 8)
  {
    assert a[p..p] == [];
  }
}
