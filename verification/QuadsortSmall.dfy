/** The fixed-size sorts of quadsort.c: insertion, and branch-free parity merges of 2, 4 and 8 elements. */
module QuadsortSmall {
  import opened StableMerge
  import opened QuadsortMerge
  import opened QuadsortPartial
  import opened QuadsortRotate
  import opened QuadsortBlit

  // ---------------------------------------------------------------- insertion

  lemma {:induction false} InsertAt<T(!new)>(cmp: (T, T) -> int, s: seq<T>, key: T, k: nat)
    requires TotalPreorder(cmp) && Sorted(cmp, s) && k <= |s|
    requires forall x :: 0 <= x < k ==> Le(cmp, s[x], key)
    requires forall x :: k <= x < |s| ==> !Le(cmp, s[x], key)
    ensures Merge(cmp, s, [key]) == s[..k] + [key] + s[k..]
  {
    var r := [key];
    MergeSplit(cmp, s, r, k, 1);
    assert r[..1] == r && r[1..] == [];
    MergeOrdered(cmp, s[..k], r);
  }

  /** `s` with a hole before its element k: everything from k on sits one higher. */
  ghost predicate Hole<T>(a: array<T>, d: int, s: seq<T>, k: int, was: seq<T>)
    reads a
  {
    && 0 <= d && 0 <= k <= |s| && d + |s| < a.Length == |was|
    && (forall p :: 0 <= p < |s| ==> s[p] == if p < k then a[d + p] else a[d + p + 1])
    && (forall p :: 0 <= p < a.Length && !(d <= p <= d + |s|) ==> a[p] == was[p])
  }

  lemma HoleStart<T>(a: array<T>, d: int, s: seq<T>)
    requires At(a, d, s) && d + |s| < a.Length
    ensures Hole(a, d, s, |s|, a[..])
  {
    forall p | 0 <= p < |s| ensures s[p] == a[d + p] { AtIndex(a, d, s, p); }
  }

  method HoleDown<T>(a: array<T>, ghost d: int, end: nat, ghost s: seq<T>, ghost k: int, ghost was: seq<T>)
    requires Hole(a, d, s, k, was) && k > 0 && end == d + k
    modifies a
    ensures Hole(a, d, s, k - 1, was)
  {
    a[end] := a[end - 1];
  }

  lemma HoleIndex<T>(a: array<T>, d: int, s: seq<T>, k: int, was: seq<T>, p: int)
    requires Hole(a, d, s, k, was) && 0 <= p < k
    ensures 0 <= d + p < a.Length && a[d + p] == s[p]
  {
  }

  method HoleFill<T>(a: array<T>, ghost d: int, end: nat, key: T, ghost s: seq<T>, ghost k: int, ghost was: seq<T>)
    requires Hole(a, d, s, k, was) && end == d + k
    modifies a
    ensures At(a, d, s[..k] + [key] + s[k..])
    ensures forall p :: 0 <= p < a.Length && !(d <= p <= d + |s|) ==> a[p] == was[p]
  {
    ghost var t := s[..k] + [key] + s[k..];
    a[end] := key;
    forall p | 0 <= p < |t| ensures a[d..d + |t|][p] == t[p] {
      assert p < k ==> t[p] == s[p];
      assert p > k ==> t[p] == s[p - 1];
    }
  }

  /** Inserts the element behind a sorted stretch; a first element not after it stops the downward scan. */
  method InsertLast<T(!new)>(a: array<T>, d: nat, i: nat, cmp: (T, T) -> int, ghost s: seq<T>)
    requires i == |s| > 0 && d + i < a.Length && At(a, d, s)
    requires TotalPreorder(cmp) && Sorted(cmp, s)
    modifies a
    ensures At(a, d, Merge(cmp, s, [old(a[d + i])]))
    ensures forall p :: 0 <= p < a.Length && !(d <= p < d + i + 1) ==> a[p] == old(a[p])
  {
    hide TotalPreorder, Sorted, Merge, At, Hole;
    AtIndex(a, d, s, i - 1);
    AtIndex(a, d, s, 0);
    if cmp(a[d + i - 1], a[d + i]) <= 0 {
      ghost var last := a[d + i];
      MergeOrdered(cmp, s, [last]);
      OneElement(a, d + i, last);
      AtJoin(a, d, s, [last]);
      return;
    }
    var key := a[d + i];
    HoleStart(a, d, s);
    ghost var was := a[..];
    var end := i;
    if cmp(a[d], key) > 0 {
      FirstAfterKey(cmp, s, key);
      while end > 0
        invariant 0 <= end <= i && Hole(a, d, s, end, was)
      {
        HoleDown(a, d, d + end, s, end, was);
        end := end - 1;
      }
    } else {
      ScanDown(cmp, s, key);
      var again := true;
      while again
        invariant 0 <= end <= i && Hole(a, d, s, end, was) && (again ==> 0 < end)
        invariant again ==> !Le(cmp, s[end - 1], key)
        invariant !again ==> 0 < end && Le(cmp, s[end - 1], key)
        invariant forall x :: end <= x < |s| ==> !Le(cmp, s[x], key)
        decreases again, end
      {
        HoleDown(a, d, d + end, s, end, was);
        end := end - 1;
        assert end > 0;
        HoleIndex(a, d, s, end, was, end - 1);
        again := cmp(a[d + end - 1], key) > 0;
      }
      UpToEnd(cmp, s, key, end);
    }
    InsertAt(cmp, s, key, end);
    HoleFill(a, d, d + end, key, s, end, was);
  }

  /** The first element does not exceed the key, so an element that does is not the first. */
  lemma ScanDown<T(!new)>(cmp: (T, T) -> int, s: seq<T>, key: T)
    requires s != [] && Le(cmp, s[0], key)
    ensures forall x :: 0 <= x < |s| && !Le(cmp, s[x], key) ==> 0 < x
  {
  }

  lemma UpToEnd<T(!new)>(cmp: (T, T) -> int, s: seq<T>, key: T, end: nat)
    requires TotalPreorder(cmp) && Sorted(cmp, s) && 0 < end <= |s| && Le(cmp, s[end - 1], key)
    ensures forall x :: 0 <= x < end ==> Le(cmp, s[x], key)
  {
    forall x | 0 <= x < end ensures Le(cmp, s[x], key) {
      assert x == end - 1 || Le(cmp, s[x], s[end - 1]);
    }
  }

  /** Sorts the elements from `offset` on into the sorted stretch before them. */
  method UnguardedInsert<T(!new)>(a: array<T>, d: nat, offset: nat, nmemb: nat, cmp: (T, T) -> int, ghost o: seq<T>)
    requires 1 <= offset && |o| == nmemb && (offset <= nmemb || nmemb == 0) && d + nmemb <= a.Length
    requires nmemb > 0 ==> At(a, d, Sort(cmp, o[..offset])) && At(a, d + offset, o[offset..])
    requires TotalPreorder(cmp)
    modifies a
    ensures At(a, d, Sort(cmp, o))
    ensures forall p :: 0 <= p < a.Length && !(d <= p < d + nmemb) ==> a[p] == old(a[p])
  {
    hide TotalPreorder, Sort, At;
    if nmemb == 0 {
      AtEmpty(a, d, Sort(cmp, o));
      return;
    }
    for i := offset to nmemb
      invariant At(a, d, Sort(cmp, o[..i])) && At(a, d + i, o[i..])
      invariant forall p :: 0 <= p < a.Length && !(d <= p < d + nmemb) ==> a[p] == old(a[p])
    {
      InsertNext(a, d, i, cmp, o);
    }
    assert o[..nmemb] == o;
  }

  method InsertNext<T(!new)>(a: array<T>, d: nat, i: nat, cmp: (T, T) -> int, ghost o: seq<T>)
    requires 0 < i < |o| && At(a, d, Sort(cmp, o[..i])) && At(a, d + i, o[i..]) && TotalPreorder(cmp)
    modifies a
    ensures At(a, d, Sort(cmp, o[..i + 1])) && At(a, d + i + 1, o[i + 1..])
    ensures forall p :: 0 <= p < a.Length && !(d <= p < d + |o|) ==> a[p] == old(a[p])
  {
    hide TotalPreorder, Merge, At, InSeq, Sort, Sorted;
    SortSorted(cmp, o[..i]);
    AtIndex(a, d + i, o[i..], 0);
    AtTail(a, d + i, o[i..], 1);
    assert o[i..][1..] == o[i + 1..];
    AtBefore(a, d + i + 1, o[i + 1..]);
    ghost var was := a[..];
    InsertLast(a, d, i, cmp, Sort(cmp, o[..i]));
    AtKeepRange(a, d + i + 1, o[i + 1..], d, d + i + 1, was);
    SortSnoc(cmp, o, i);
  }

  lemma SortSnoc<T(!new)>(cmp: (T, T) -> int, o: seq<T>, i: nat)
    requires i < |o|
    ensures Sort(cmp, o[..i + 1]) == Merge(cmp, Sort(cmp, o[..i]), [o[i]])
  {
    var s := o[..i + 1];
    assert s[..|s| - 1] == o[..i] && s[|s| - 1] == o[i];
  }

  lemma OneElement<T>(a: array<T>, i: int, x: T)
    requires 0 <= i < a.Length && a[i] == x
    ensures At(a, i, [x])
  {
  }

  lemma FirstAfterKey<T(!new)>(cmp: (T, T) -> int, s: seq<T>, key: T)
    requires TotalPreorder(cmp) && Sorted(cmp, s) && s != [] && !Le(cmp, s[0], key)
    ensures forall x :: 0 <= x < |s| ==> !Le(cmp, s[x], key)
  {
    forall x | 0 <= x < |s| ensures !Le(cmp, s[x], key) {
      assert x == 0 || Le(cmp, s[0], s[x]);
    }
  }

  // ---------------------------------------------------------------- unrolled parity merges

  /** The last element of the forward half. */
  method FrontLast<T(!new)>(dest: array<T>, ghost d: int, pts: nat, from: array<T>, ptl: nat, ptr: nat, cmp: (T, T) -> int,
                            ghost hi: int, ghost was: seq<T>, ghost m: seq<T>, ghost l: seq<T>, ghost r: seq<T>, ghost i: int, ghost j: int)
    requires dest != from && pts == d + i + j && i + j < hi
    requires Filled(dest, d, m, i + j, hi, was)
    requires Front(cmp, m, l, r, i, j) && 0 <= i < |l| && 0 <= j < |r|
    requires At(from, ptl - i, l) && At(from, ptr - j, r)
    modifies dest
    ensures Filled(dest, d, m, i + j + 1, hi, was)
  {
    hide At, Front, Merge;
    AtIndex(from, ptl - i, l, i);
    AtIndex(from, ptr - j, r, j);
    FrontStep(cmp, m, l, r, i, j);
    dest[pts] := if cmp(from[ptl], from[ptr]) <= 0 then from[ptl] else from[ptr];
  }

  /** The last element of the backward half. */
  method BackLast<T(!new)>(dest: array<T>, ghost d: int, pts: nat, from: array<T>, ptl: nat, ptr: nat, cmp: (T, T) -> int,
                           ghost lo: int, ghost was: seq<T>, ghost m: seq<T>, ghost l: seq<T>, ghost r: seq<T>, ghost i: int, ghost j: int)
    requires TotalPreorder(cmp) && Sorted(cmp, l) && Sorted(cmp, r)
    requires dest != from && pts + 1 == d + i + j && lo < i + j
    requires Filled(dest, d, m, lo, i + j, was)
    requires Back(cmp, m, l, r, i, j) && 0 < i <= |l| && 0 < j <= |r|
    requires At(from, ptl + 1 - i, l) && At(from, ptr + 1 - j, r)
    modifies dest
    ensures Filled(dest, d, m, lo, i + j - 1, was)
  {
    hide At, Back, Merge, TotalPreorder, Sorted;
    AtIndex(from, ptl + 1 - i, l, i - 1);
    AtIndex(from, ptr + 1 - j, r, j - 1);
    BackStep(cmp, m, l, r, i, j);
    dest[pts] := if cmp(from[ptl], from[ptr]) > 0 then from[ptl] else from[ptr];
  }

  /** parity_merge_two: two sorted pairs. */
  method ParityMergeTwo<T(!new)>(a: array<T>, f: nat, swap: array<T>, d: nat, cmp: (T, T) -> int, ghost l: seq<T>, ghost r: seq<T>)
    requires a != swap && |l| == |r| == 2 && At(a, f, l) && At(a, f + 2, r) && d + 4 <= swap.Length
    requires TotalPreorder(cmp) && Sorted(cmp, l) && Sorted(cmp, r)
    modifies swap
    ensures At(swap, d, Merge(cmp, l, r))
    ensures forall p :: 0 <= p < swap.Length && !(d <= p < d + 4) ==> swap[p] == old(swap[p])
  {
    hide At, Front, Back, Filled, Merge, TotalPreorder, Sorted;
    ghost var m, was := Merge(cmp, l, r), swap[..];
    MergeStart(cmp, l, r);
    FillStart(swap, d, m);
    var ptl, ptr := ForwardStep(swap, d, d, a, f, f + 2, cmp, 4, was, m, l, r, 0, 0);
    FrontLast(swap, d, d + 1, a, ptl, ptr, cmp, 4, was, m, l, r, ptl - f, ptr - f - 2);
    var tpl, tpr := BackwardStep(swap, d, d + 3, a, f + 1, f + 3, cmp, 2, was, m, l, r, 2, 2);
    BackLast(swap, d, d + 2, a, tpl, tpr, cmp, 2, was, m, l, r, tpl + 1 - f, tpr + 1 - f - 2);
    FillEnd(swap, d, m, 2, was);
  }

  /** parity_merge_four: two sorted blocks of four. */
  method ParityMergeFour<T(!new)>(a: array<T>, f: nat, swap: array<T>, d: nat, cmp: (T, T) -> int, ghost l: seq<T>, ghost r: seq<T>)
    requires a != swap && |l| == |r| == 4 && At(a, f, l) && At(a, f + 4, r) && d + 8 <= swap.Length
    requires TotalPreorder(cmp) && Sorted(cmp, l) && Sorted(cmp, r)
    modifies swap
    ensures At(swap, d, Merge(cmp, l, r))
    ensures forall p :: 0 <= p < swap.Length && !(d <= p < d + 8) ==> swap[p] == old(swap[p])
  {
    hide At, Front, Back, Filled, Merge, TotalPreorder, Sorted;
    ghost var m, was := Merge(cmp, l, r), swap[..];
    MergeStart(cmp, l, r);
    FillStart(swap, d, m);
    var ptl, ptr := ForwardStep(swap, d, d, a, f, f + 4, cmp, 8, was, m, l, r, 0, 0);
    ptl, ptr := ForwardStep(swap, d, d + 1, a, ptl, ptr, cmp, 8, was, m, l, r, ptl - f, ptr - f - 4);
    ptl, ptr := ForwardStep(swap, d, d + 2, a, ptl, ptr, cmp, 8, was, m, l, r, ptl - f, ptr - f - 4);
    FrontLast(swap, d, d + 3, a, ptl, ptr, cmp, 8, was, m, l, r, ptl - f, ptr - f - 4);
    var tpl, tpr := BackwardStep(swap, d, d + 7, a, f + 3, f + 7, cmp, 4, was, m, l, r, 4, 4);
    tpl, tpr := BackwardStep(swap, d, d + 6, a, tpl, tpr, cmp, 4, was, m, l, r, tpl + 1 - f, tpr + 1 - f - 4);
    tpl, tpr := BackwardStep(swap, d, d + 5, a, tpl, tpr, cmp, 4, was, m, l, r, tpl + 1 - f, tpr + 1 - f - 4);
    BackLast(swap, d, d + 4, a, tpl, tpr, cmp, 4, was, m, l, r, tpl + 1 - f, tpr + 1 - f - 4);
    FillEnd(swap, d, m, 4, was);
  }

  // ---------------------------------------------------------------- four, eight, sixteen

  lemma SortPair<T(!new)>(cmp: (T, T) -> int, x: T, y: T)
    ensures Sort(cmp, [x, y]) == if Le(cmp, x, y) then [x, y] else [y, x]
  {
    var s := [x, y];
    assert s[..1] == [x] && s[1] == y && [x][..0] == [];
    assert Sort(cmp, [x]) == Merge(cmp, [], [x]) == [x];
    assert Sort(cmp, s) == Merge(cmp, [x], [y]);
    if Le(cmp, x, y) { MergeTakeLeft(cmp, [x], [y]); } else { MergeTakeRight(cmp, [x], [y]); }
  }

  lemma PairAt<T>(a: array<T>, i: int, x: T, y: T)
    requires 0 <= i && i + 1 < a.Length && a[i] == x && a[i + 1] == y
    ensures At(a, i, [x, y])
  {
  }

  /** Orders a[i] and a[i+1]. */
  method OrderPair<T(!new)>(a: array<T>, i: nat, cmp: (T, T) -> int, ghost o: seq<T>) returns (swapped: bool)
    requires |o| == 2 && At(a, i, o)
    modifies a
    ensures At(a, i, Sort(cmp, o))
    ensures forall p :: 0 <= p < a.Length && !(i <= p < i + 2) ==> a[p] == old(a[p])
  {
    hide At, Sort;
    AtIndex(a, i, o, 0);
    AtIndex(a, i, o, 1);
    SortPair(cmp, o[0], o[1]);
    assert o == [o[0], o[1]];
    swapped := cmp(a[i], a[i + 1]) > 0;
    if swapped {
      a[i], a[i + 1] := a[i + 1], a[i];
      PairAt(a, i, o[1], o[0]);
    }
  }

  /** Sorts four elements: two ordered pairs are staged in a local buffer and merged back. */
  method ParitySwapFour<T(!new)>(a: array<T>, d: nat, cmp: (T, T) -> int, ghost o: seq<T>)
    requires |o| == 4 && At(a, d, o) && TotalPreorder(cmp)
    modifies a
    ensures At(a, d, Sort(cmp, o))
    ensures forall p :: 0 <= p < a.Length && !(d <= p < d + 4) ==> a[p] == old(a[p])
  {
    hide At, Sort, Merge, TotalPreorder, Sorted;
    AtIndex(a, d, o, 0);
    AtIndex(a, d, o, 1);
    AtIndex(a, d, o, 2);
    AtIndex(a, d, o, 3);
    SortPair(cmp, o[0], o[1]);
    SortPair(cmp, o[2], o[3]);
    var first := a[d];
    var swap := new T[4](_ => first);
    var x := if cmp(a[d], a[d + 1]) <= 0 then 1 else 0;
    swap[1 - x] := a[d];
    swap[x] := a[d + 1];
    x := if cmp(a[d + 2], a[d + 3]) <= 0 then 1 else 0;
    swap[2 + 1 - x] := a[d + 2];
    swap[2 + x] := a[d + 3];
    ghost var l, r := Sort(cmp, [o[0], o[1]]), Sort(cmp, [o[2], o[3]]);
    PairAt(swap, 0, l[0], l[1]);
    PairAt(swap, 2, r[0], r[1]);
    SortSorted(cmp, [o[0], o[1]]);
    SortSorted(cmp, [o[2], o[3]]);
    SortConcat(cmp, [o[0], o[1]], [o[2], o[3]]);
    assert o == [o[0], o[1]] + [o[2], o[3]];
    assert l == [l[0], l[1]] && r == [r[0], r[1]];
    ParityMergeTwo(swap, 0, a, d, cmp, l, r);
  }

  /** Two sorted blocks whose seam is in order are their own merge. */
  lemma SeamInOrder<T(!new)>(a: array<T>, d: int, cmp: (T, T) -> int, x: seq<T>, y: seq<T>)
    requires At(a, d, Sort(cmp, x)) && At(a, d + |x|, Sort(cmp, y)) && TotalPreorder(cmp) && x != [] && y != []
    requires Le(cmp, a[d + |x| - 1], a[d + |x|])
    ensures At(a, d, Sort(cmp, x + y))
  {
    hide At, Sort, TotalPreorder, Sorted, Merge;
    var l, r := Sort(cmp, x), Sort(cmp, y);
    AtIndex(a, d, l, |x| - 1);
    AtIndex(a, d + |x|, r, 0);
    SortSorted(cmp, x);
    SortSorted(cmp, y);
    MergeOrdered(cmp, l, r);
    SortConcat(cmp, x, y);
    AtJoin(a, d, l, r);
  }

  /** Merges four sorted pairs of the array through a local buffer. */
  method MergePairs<T(!new)>(a: array<T>, d: nat, swap: array<T>, cmp: (T, T) -> int,
                             ghost p0: seq<T>, ghost p1: seq<T>, ghost p2: seq<T>, ghost p3: seq<T>)
    requires a != swap && swap.Length == 8 && |p0| == |p1| == |p2| == |p3| == 2 && TotalPreorder(cmp)
    requires At(a, d, Sort(cmp, p0)) && At(a, d + 2, Sort(cmp, p1))
    requires At(a, d + 4, Sort(cmp, p2)) && At(a, d + 6, Sort(cmp, p3))
    modifies a, swap
    ensures At(a, d, Sort(cmp, p0 + p1 + (p2 + p3)))
    ensures forall p :: 0 <= p < a.Length && !(d <= p < d + 8) ==> a[p] == old(a[p])
  {
    hide At, InSeq, Sort, Merge, TotalPreorder, Sorted;
    SortSorted(cmp, p0);
    SortSorted(cmp, p1);
    SortSorted(cmp, p2);
    SortSorted(cmp, p3);
    ghost var l, r := Sort(cmp, p0 + p1), Sort(cmp, p2 + p3);
    SortConcat(cmp, p0, p1);
    SortConcat(cmp, p2, p3);
    SortConcat(cmp, p0 + p1, p2 + p3);
    SortSorted(cmp, p0 + p1);
    SortSorted(cmp, p2 + p3);
    AtIndex(a, d + 6, Sort(cmp, p3), 1);
    ParityMergeTwo(a, d, swap, 0, cmp, Sort(cmp, p0), Sort(cmp, p1));
    AtBefore(swap, 0, l);
    ghost var was := swap[..];
    ParityMergeTwo(a, d + 4, swap, 4, cmp, Sort(cmp, p2), Sort(cmp, p3));
    AtKeepRange(swap, 0, l, 4, 8, was);
    ParityMergeFour(swap, 0, a, d, cmp, l, r);
  }

  lemma FourPairs<T>(a: array<T>, d: nat, o: seq<T>)
    requires |o| == 8 && At(a, d, o)
    ensures At(a, d, o[..2]) && At(a, d + 2, o[2..4]) && At(a, d + 4, o[4..6]) && At(a, d + 6, o[6..])
    ensures o[..2] + o[2..4] + (o[4..6] + o[6..]) == o
  {
    assert a[d..d + 8] == o;
    assert a[d..d + 2] == a[d..d + 8][..2] && a[d + 2..d + 4] == a[d..d + 8][2..4];
    assert a[d + 4..d + 6] == a[d..d + 8][4..6] && a[d + 6..d + 8] == a[d..d + 8][6..];
  }

  /** Sorts eight elements. */
  method ParitySwapEight<T(!new)>(a: array<T>, d: nat, cmp: (T, T) -> int, ghost o: seq<T>)
    requires |o| == 8 && At(a, d, o) && TotalPreorder(cmp)
    modifies a
    ensures At(a, d, Sort(cmp, o))
    ensures forall p :: 0 <= p < a.Length && !(d <= p < d + 8) ==> a[p] == old(a[p])
  {
    hide At, Sort, Merge, TotalPreorder, Sorted;
    ghost var p0, p1, p2, p3 := o[..2], o[2..4], o[4..6], o[6..];
    FourPairs(a, d, o);
    AtIndex(a, d, o, 0);
    AtIndex(a, d + 6, p3, 1);
    var first := a[d];
    var swapped := OrderPairs(a, d, cmp, p0, p1, p2, p3);
    if !swapped && cmp(a[d + 1], a[d + 2]) <= 0 && cmp(a[d + 3], a[d + 4]) <= 0 && cmp(a[d + 5], a[d + 6]) <= 0 {
      SeamInOrder(a, d, cmp, p0, p1);
      SeamInOrder(a, d + 4, cmp, p2, p3);
      SeamInOrder(a, d, cmp, p0 + p1, p2 + p3);
      return;
    }
    var swap := new T[8](_ => first);
    MergePairs(a, d, swap, cmp, p0, p1, p2, p3);
  }

  /** Orders four neighbouring pairs; tells whether the last one had to be swapped. */
  method OrderPairs<T(!new)>(a: array<T>, d: nat, cmp: (T, T) -> int,
                             ghost p0: seq<T>, ghost p1: seq<T>, ghost p2: seq<T>, ghost p3: seq<T>) returns (swapped: bool)
    requires |p0| == |p1| == |p2| == |p3| == 2
    requires At(a, d, p0) && At(a, d + 2, p1) && At(a, d + 4, p2) && At(a, d + 6, p3)
    modifies a
    ensures At(a, d, Sort(cmp, p0)) && At(a, d + 2, Sort(cmp, p1))
    ensures At(a, d + 4, Sort(cmp, p2)) && At(a, d + 6, Sort(cmp, p3))
    ensures forall p :: 0 <= p < a.Length && !(d <= p < d + 8) ==> a[p] == old(a[p])
  {
    hide At, InSeq, Sort;
    AtBefore(a, d + 4, p2);
    AtBefore(a, d + 6, p3);
    ghost var was := a[..];
    swapped := OrderTwoPairs(a, d, cmp, p0, p1);
    AtKeepRange(a, d + 4, p2, d, d + 4, was);
    AtKeepRange(a, d + 6, p3, d, d + 4, was);
    AtBefore(a, d, Sort(cmp, p0));
    AtBefore(a, d + 2, Sort(cmp, p1));
    was := a[..];
    swapped := OrderTwoPairs(a, d + 4, cmp, p2, p3);
    AtKeepRange(a, d, Sort(cmp, p0), d + 4, d + 8, was);
    AtKeepRange(a, d + 2, Sort(cmp, p1), d + 4, d + 8, was);
  }

  method OrderTwoPairs<T(!new)>(a: array<T>, d: nat, cmp: (T, T) -> int, ghost p0: seq<T>, ghost p1: seq<T>) returns (swapped: bool)
    requires |p0| == |p1| == 2 && At(a, d, p0) && At(a, d + 2, p1)
    modifies a
    ensures At(a, d, Sort(cmp, p0)) && At(a, d + 2, Sort(cmp, p1))
    ensures forall p :: 0 <= p < a.Length && !(d <= p < d + 4) ==> a[p] == old(a[p])
  {
    hide At, InSeq, Sort;
    AtBefore(a, d + 2, p1);
    ghost var was := a[..];
    swapped := OrderPair(a, d, cmp, p0);
    AtKeepRange(a, d + 2, p1, d, d + 2, was);
    AtBefore(a, d, Sort(cmp, p0));
    was := a[..];
    swapped := OrderPair(a, d + 2, cmp, p1);
    AtKeepRange(a, d, Sort(cmp, p0), d + 2, d + 4, was);
  }

  /** Four neighbouring stretches of four, one of them sorted by the caller's method: the others stay. */
  method SwapFourOf<T(!new)>(a: array<T>, d: nat, k: nat, cmp: (T, T) -> int, ghost x: seq<T>, ghost y: seq<T>, ghost z: seq<T>)
    requires |y| == 4 && k == |x| && TotalPreorder(cmp)
    requires At(a, d, x) && At(a, d + k, y) && At(a, d + k + 4, z)
    modifies a
    ensures At(a, d, x) && At(a, d + k, Sort(cmp, y)) && At(a, d + k + 4, z)
    ensures forall p :: 0 <= p < a.Length && !(d + k <= p < d + k + 4) ==> a[p] == old(a[p])
  {
    hide At, InSeq, Sort, TotalPreorder;
    AtBefore(a, d, x);
    AtBefore(a, d + k + 4, z);
    ghost var was := a[..];
    ParitySwapFour(a, d + k, cmp, y);
    AtKeepRange(a, d, x, d + k, d + k + 4, was);
    AtKeepRange(a, d + k + 4, z, d + k, d + k + 4, was);
  }

  /** Sorts sixteen elements. */
  method ParitySwapSixteen<T(!new)>(a: array<T>, d: nat, cmp: (T, T) -> int, ghost o: seq<T>)
    requires |o| == 16 && At(a, d, o) && TotalPreorder(cmp)
    modifies a
    ensures At(a, d, Sort(cmp, o))
    ensures forall p :: 0 <= p < a.Length && !(d <= p < d + 16) ==> a[p] == old(a[p])
  {
    hide At, Sort, Merge, TotalPreorder, Sorted;
    ghost var q0, q1, q2, q3 := o[..4], o[4..8], o[8..12], o[12..];
    assert o == q0 + q1 + (q2 + q3);
    SwapFours(a, d, cmp, q0, q1, q2, q3);
    AtIndex(a, d + 12, Sort(cmp, q3), 3);
    if cmp(a[d + 3], a[d + 4]) <= 0 && cmp(a[d + 7], a[d + 8]) <= 0 && cmp(a[d + 11], a[d + 12]) <= 0 {
      SeamInOrder(a, d, cmp, q0, q1);
      SeamInOrder(a, d + 8, cmp, q2, q3);
      SeamInOrder(a, d, cmp, q0 + q1, q2 + q3);
      return;
    }
    var first := a[d];
    var swap := new T[16](_ => first);
    MergeFours(a, d, swap, cmp, q0, q1, q2, q3);
  }

  method SwapFours<T(!new)>(a: array<T>, d: nat, cmp: (T, T) -> int,
                            ghost q0: seq<T>, ghost q1: seq<T>, ghost q2: seq<T>, ghost q3: seq<T>)
    requires |q0| == |q1| == |q2| == |q3| == 4 && At(a, d, q0 + q1 + (q2 + q3)) && TotalPreorder(cmp)
    modifies a
    ensures At(a, d, Sort(cmp, q0)) && At(a, d + 4, Sort(cmp, q1)) && At(a, d + 8, Sort(cmp, q2)) && At(a, d + 12, Sort(cmp, q3))
    ensures forall p :: 0 <= p < a.Length && !(d <= p < d + 16) ==> a[p] == old(a[p])
  {
    hide At, Sort, TotalPreorder;
    ghost var s0, s1, s2, s3 := Sort(cmp, q0), Sort(cmp, q1), Sort(cmp, q2), Sort(cmp, q3);
    AtIndex(a, d, q0 + q1 + (q2 + q3), 15);
    assert q0 + q1 + (q2 + q3) == [] + (q0 + (q1 + q2 + q3));
    AtSplit(a, d, [], q0 + (q1 + q2 + q3));
    AtSplit(a, d, q0, q1 + q2 + q3);
    SwapFourOf(a, d, 0, cmp, [], q0, q1 + q2 + q3);
    assert q1 + q2 + q3 == q1 + (q2 + q3);
    AtSplit(a, d + 4, q1, q2 + q3);
    SwapFourOf(a, d, 4, cmp, s0, q1, q2 + q3);
    AtSplit(a, d + 8, q2, q3);
    AtJoin(a, d, s0, s1);
    SwapFourOf(a, d, 8, cmp, s0 + s1, q2, q3);
    AtJoin(a, d, s0 + s1, s2);
    AtNone(a, d + 16, q3);
    SwapFourOf(a, d, 12, cmp, s0 + s1 + s2, q3, []);
    AtSplit(a, d, s0 + s1, s2);
    AtSplit(a, d, s0, s1);
  }

  lemma AtNone<T>(a: array<T>, e: int, s: seq<T>)
    requires At(a, e - |s|, s)
    ensures At(a, e, [])
  {
  }

  method MergeFours<T(!new)>(a: array<T>, d: nat, swap: array<T>, cmp: (T, T) -> int,
                             ghost q0: seq<T>, ghost q1: seq<T>, ghost q2: seq<T>, ghost q3: seq<T>)
    requires a != swap && swap.Length == 16 && |q0| == |q1| == |q2| == |q3| == 4 && TotalPreorder(cmp)
    requires At(a, d, Sort(cmp, q0)) && At(a, d + 4, Sort(cmp, q1))
    requires At(a, d + 8, Sort(cmp, q2)) && At(a, d + 12, Sort(cmp, q3))
    modifies a, swap
    ensures At(a, d, Sort(cmp, q0 + q1 + (q2 + q3)))
    ensures forall p :: 0 <= p < a.Length && !(d <= p < d + 16) ==> a[p] == old(a[p])
  {
    hide At, InSeq, Sort, Merge, TotalPreorder, Sorted;
    SortSorted(cmp, q0);
    SortSorted(cmp, q1);
    SortSorted(cmp, q2);
    SortSorted(cmp, q3);
    ghost var l, r := Sort(cmp, q0 + q1), Sort(cmp, q2 + q3);
    SortConcat(cmp, q0, q1);
    SortConcat(cmp, q2, q3);
    SortConcat(cmp, q0 + q1, q2 + q3);
    SortSorted(cmp, q0 + q1);
    SortSorted(cmp, q2 + q3);
    AtIndex(a, d + 12, Sort(cmp, q3), 3);
    ParityMergeFour(a, d, swap, 0, cmp, Sort(cmp, q0), Sort(cmp, q1));
    AtBefore(swap, 0, l);
    ghost var was := swap[..];
    ParityMergeFour(a, d + 8, swap, 8, cmp, Sort(cmp, q2), Sort(cmp, q3));
    AtKeepRange(swap, 0, l, 8, 16, was);
    ParityMerge(a, d, swap, 0, 8, 16, cmp, l, r);
  }

  /** Sorts fewer than 32 elements: the largest fixed-size sort that fits, the rest by insertion. */
  method TailSwap<T(!new)>(a: array<T>, d: nat, nmemb: nat, cmp: (T, T) -> int, ghost o: seq<T>)
    requires |o| == nmemb < 32 && d <= a.Length && At(a, d, o) && TotalPreorder(cmp)
    modifies a
    ensures At(a, d, Sort(cmp, o))
    ensures forall p :: 0 <= p < a.Length && !(d <= p < d + nmemb) ==> a[p] == old(a[p])
  {
    hide At, InSeq, Sort, TotalPreorder;
    if nmemb == 0 {
      AtNone(a, d, o);
      UnguardedInsert(a, d, 1, nmemb, cmp, o);
      return;
    }
    var k := if nmemb < 4 then 1 else if nmemb < 8 then 4 else if nmemb < 16 then 8 else 16;
    ghost var x, y := o[..k], o[k..];
    assert o == x + y;
    AtSplit(a, d, x, y);
    AtIndex(a, d, o, nmemb - 1);
    AtBefore(a, d + k, y);
    ghost var was := a[..];
    if nmemb < 4 {
      SortSingle(cmp, x);
    } else if nmemb < 8 {
      ParitySwapFour(a, d, cmp, x);
    } else if nmemb < 16 {
      ParitySwapEight(a, d, cmp, x);
    } else {
      ParitySwapSixteen(a, d, cmp, x);
    }
    AtKeepRange(a, d + k, y, d, d + k, was);
    UnguardedInsert(a, d, k, nmemb, cmp, o);
  }

  lemma SortSingle<T(!new)>(cmp: (T, T) -> int, x: seq<T>)
    requires |x| == 1
    ensures Sort(cmp, x) == x
  {
    assert x[..0] == [] && Sort(cmp, []) == [] && x == [x[0]];
  }

  // ---------------------------------------------------------------- eight with a sorted first half

  /** Completes eight elements whose first four are sorted already. */
  method ParityTailSwapEight<T(!new)>(a: array<T>, d: nat, cmp: (T, T) -> int, ghost x: seq<T>, ghost y: seq<T>)
    requires |x| == |y| == 4 && At(a, d, Sort(cmp, x)) && At(a, d + 4, y) && TotalPreorder(cmp)
    modifies a
    ensures At(a, d, Sort(cmp, x + y))
    ensures forall p :: 0 <= p < a.Length && !(d <= p < d + 8) ==> a[p] == old(a[p])
  {
    hide At, InSeq, Sort, Merge, TotalPreorder, Sorted;
    ghost var p2, p3 := y[..2], y[2..];
    assert y == p2 + p3;
    AtSplit(a, d + 4, p2, p3);
    AtBefore(a, d, Sort(cmp, x));
    ghost var was := a[..];
    AtIndex(a, d, Sort(cmp, x), 0);
    AtIndex(a, d + 6, p3, 1);
    var first := a[d];
    var swapped := OrderTwoPairs(a, d + 4, cmp, p2, p3);
    AtKeepRange(a, d, Sort(cmp, x), d + 4, d + 8, was);
    if !swapped && cmp(a[d + 3], a[d + 4]) <= 0 && cmp(a[d + 5], a[d + 6]) <= 0 {
      SeamInOrder(a, d + 4, cmp, p2, p3);
      SeamInOrder(a, d, cmp, x, y);
      return;
    }
    var swap := new T[8](_ => first);
    CopyBlock(swap, 0, a, d, 4, Sort(cmp, x));
    MergeHighHalf(a, d, swap, cmp, x, p2, p3);
  }

  method MergeHighHalf<T(!new)>(a: array<T>, d: nat, swap: array<T>, cmp: (T, T) -> int, ghost x: seq<T>, ghost p2: seq<T>, ghost p3: seq<T>)
    requires a != swap && swap.Length == 8 && |x| == 4 && |p2| == |p3| == 2 && TotalPreorder(cmp)
    requires At(swap, 0, Sort(cmp, x)) && At(a, d + 4, Sort(cmp, p2)) && At(a, d + 6, Sort(cmp, p3))
    modifies a, swap
    ensures At(a, d, Sort(cmp, x + (p2 + p3)))
    ensures forall p :: 0 <= p < a.Length && !(d <= p < d + 8) ==> a[p] == old(a[p])
  {
    hide At, InSeq, Sort, Merge, TotalPreorder, Sorted;
    SortSorted(cmp, x);
    SortSorted(cmp, p2);
    SortSorted(cmp, p3);
    SortSorted(cmp, p2 + p3);
    SortConcat(cmp, p2, p3);
    SortConcat(cmp, x, p2 + p3);
    AtIndex(a, d + 6, Sort(cmp, p3), 1);
    AtBefore(swap, 0, Sort(cmp, x));
    ghost var was := swap[..];
    ParityMergeTwo(a, d + 4, swap, 4, cmp, Sort(cmp, p2), Sort(cmp, p3));
    AtKeepRange(swap, 0, Sort(cmp, x), 4, 8, was);
    ParityMergeFour(swap, 0, a, d, cmp, Sort(cmp, x), Sort(cmp, p2 + p3));
  }

  /** Completes eight elements both of whose halves are sorted already. */
  method ParityTailFlipEight<T(!new)>(a: array<T>, d: nat, cmp: (T, T) -> int, ghost x: seq<T>, ghost y: seq<T>)
    requires |x| == |y| == 4 && At(a, d, Sort(cmp, x)) && At(a, d + 4, Sort(cmp, y)) && TotalPreorder(cmp)
    modifies a
    ensures At(a, d, Sort(cmp, x + y))
    ensures forall p :: 0 <= p < a.Length && !(d <= p < d + 8) ==> a[p] == old(a[p])
  {
    hide At, Sort, Merge, TotalPreorder, Sorted;
    AtIndex(a, d, Sort(cmp, x), 0);
    AtIndex(a, d + 4, Sort(cmp, y), 3);
    if cmp(a[d + 3], a[d + 4]) <= 0 {
      SeamInOrder(a, d, cmp, x, y);
      return;
    }
    var first := a[d];
    var swap := new T[8](_ => first);
    ghost var l, r := Sort(cmp, x), Sort(cmp, y);
    SortSorted(cmp, x);
    SortSorted(cmp, y);
    SortConcat(cmp, x, y);
    AtJoin(a, d, l, r);
    CopyBlock(swap, 0, a, d, 8, l + r);
    AtSplit(swap, 0, l, r);
    ParityMergeFour(swap, 0, a, d, cmp, l, r);
  }
}
