/** The out-of-place merges of wow_iot/inc/algorithm/quadsort.c. A C pointer is an array and an index into it. */
module QuadsortMerge {
  import opened StableMerge

  // ---------------------------------------------------------------- progress of a merge

  /** Positions from i + j on of the merge `m` are still to be produced from `l[i..]` and `r[j..]`. */
  ghost predicate Front<T(!new)>(cmp: (T, T) -> int, m: seq<T>, l: seq<T>, r: seq<T>, i: int, j: int) {
    && 0 <= i <= |l| && 0 <= j <= |r| && |m| == |l| + |r|
    && m[i + j..] == Merge(cmp, l[i..], r[j..])
  }

  /** Positions before i + j of the merge `m` are still to be produced from `l[..i]` and `r[..j]`. */
  ghost predicate Back<T(!new)>(cmp: (T, T) -> int, m: seq<T>, l: seq<T>, r: seq<T>, i: int, j: int) {
    && 0 <= i <= |l| && 0 <= j <= |r| && |m| == |l| + |r|
    && m[..i + j] == Merge(cmp, l[..i], r[..j])
  }

  lemma MergeStart<T(!new)>(cmp: (T, T) -> int, l: seq<T>, r: seq<T>)
    ensures Front(cmp, Merge(cmp, l, r), l, r, 0, 0)
    ensures Back(cmp, Merge(cmp, l, r), l, r, |l|, |r|)
  {
    assert l[0..] == l && r[0..] == r && l[..|l|] == l && r[..|r|] == r;
    var m := Merge(cmp, l, r);
    assert m[0..] == m && m[..|l| + |r|] == m;
  }

  lemma {:induction false} FrontLeft<T(!new)>(cmp: (T, T) -> int, m: seq<T>, l: seq<T>, r: seq<T>, i: int, j: int)
    requires Front(cmp, m, l, r, i, j) && i < |l|
    requires j == |r| || Le(cmp, l[i], r[j])
    ensures m[i + j] == l[i] && Front(cmp, m, l, r, i + 1, j)
  {
    var l', r', m' := l[i..], r[j..], m[i + j..];
    MergeTakeLeft(cmp, l', r');
    assert l'[1..] == l[i + 1..];
    assert m'[0] == m[i + j];
    assert m'[1..] == m[i + 1 + j..];
  }

  lemma {:induction false} FrontRight<T(!new)>(cmp: (T, T) -> int, m: seq<T>, l: seq<T>, r: seq<T>, i: int, j: int)
    requires Front(cmp, m, l, r, i, j) && j < |r|
    requires i == |l| || !Le(cmp, l[i], r[j])
    ensures m[i + j] == r[j] && Front(cmp, m, l, r, i, j + 1)
  {
    var l', r', m' := l[i..], r[j..], m[i + j..];
    MergeTakeRight(cmp, l', r');
    assert r'[1..] == r[j + 1..];
    assert m'[0] == m[i + j];
    assert m'[1..] == m[i + (j + 1)..];
  }

  lemma {:induction false} BackLeft<T(!new)>(cmp: (T, T) -> int, m: seq<T>, l: seq<T>, r: seq<T>, i: int, j: int)
    requires TotalPreorder(cmp) && Sorted(cmp, l) && Sorted(cmp, r)
    requires Back(cmp, m, l, r, i, j) && i > 0
    requires j == 0 || !Le(cmp, l[i - 1], r[j - 1])
    ensures m[i + j - 1] == l[i - 1] && Back(cmp, m, l, r, i - 1, j)
  {
    var l', r', m' := l[..i], r[..j], m[..i + j];
    if j > 0 {
      MergeLast(cmp, l', r');
    } else {
      assert Merge(cmp, l'[..i - 1], r') == l'[..i - 1];
    }
    assert l'[..i - 1] == l[..i - 1];
    assert m' == Merge(cmp, l'[..i - 1], r') + [l[i - 1]];
    assert m'[i + j - 1] == m[i + j - 1];
    assert m'[..i + j - 1] == m[..i - 1 + j];
  }

  lemma {:induction false} BackRight<T(!new)>(cmp: (T, T) -> int, m: seq<T>, l: seq<T>, r: seq<T>, i: int, j: int)
    requires TotalPreorder(cmp) && Sorted(cmp, l) && Sorted(cmp, r)
    requires Back(cmp, m, l, r, i, j) && j > 0
    requires i == 0 || Le(cmp, l[i - 1], r[j - 1])
    ensures m[i + j - 1] == r[j - 1] && Back(cmp, m, l, r, i, j - 1)
  {
    var l', r', m' := l[..i], r[..j], m[..i + j];
    if i > 0 {
      MergeLast(cmp, l', r');
    } else {
      assert Merge(cmp, l', r'[..j - 1]) == r'[..j - 1];
    }
    assert r'[..j - 1] == r[..j - 1];
    assert m' == Merge(cmp, l', r'[..j - 1]) + [r[j - 1]];
    assert m'[i + j - 1] == m[i + j - 1];
    assert m'[..i + j - 1] == m[..i + (j - 1)];
  }

  lemma {:induction false} FrontStep<T(!new)>(cmp: (T, T) -> int, m: seq<T>, l: seq<T>, r: seq<T>, i: int, j: int)
    requires Front(cmp, m, l, r, i, j) && i < |l| && j < |r|
    ensures Le(cmp, l[i], r[j]) ==> m[i + j] == l[i] && Front(cmp, m, l, r, i + 1, j)
    ensures !Le(cmp, l[i], r[j]) ==> m[i + j] == r[j] && Front(cmp, m, l, r, i, j + 1)
  {
    if Le(cmp, l[i], r[j]) { FrontLeft(cmp, m, l, r, i, j); } else { FrontRight(cmp, m, l, r, i, j); }
  }

  lemma {:induction false} BackStep<T(!new)>(cmp: (T, T) -> int, m: seq<T>, l: seq<T>, r: seq<T>, i: int, j: int)
    requires TotalPreorder(cmp) && Sorted(cmp, l) && Sorted(cmp, r)
    requires Back(cmp, m, l, r, i, j) && i > 0 && j > 0
    ensures Le(cmp, l[i - 1], r[j - 1]) ==> m[i + j - 1] == r[j - 1] && Back(cmp, m, l, r, i, j - 1)
    ensures !Le(cmp, l[i - 1], r[j - 1]) ==> m[i + j - 1] == l[i - 1] && Back(cmp, m, l, r, i - 1, j)
  {
    if Le(cmp, l[i - 1], r[j - 1]) { BackRight(cmp, m, l, r, i, j); } else { BackLeft(cmp, m, l, r, i, j); }
  }

  // ---------------------------------------------------------------- storage

  /** `s` is stored in `a` from index `at` on. */
  ghost predicate At<T>(a: array<T>, at: int, s: seq<T>)
    reads a
  {
    0 <= at && at + |s| <= a.Length && a[at..at + |s|] == s
  }

  lemma AtIndex<T>(a: array<T>, at: int, s: seq<T>, k: int)
    requires At(a, at, s) && 0 <= k < |s|
    ensures 0 <= at + k < a.Length && a[at + k] == s[k]
  {
    assert a[at..at + |s|][k] == a[at + k];
  }

  /** `m` is being written to `dest` from index `d` on: all but its positions lo..hi are in place,
      and outside of it `dest` is what it was. */
  ghost predicate Filled<T>(dest: array<T>, d: int, m: seq<T>, lo: int, hi: int, was: seq<T>)
    reads dest
  {
    && 0 <= d && 0 <= lo <= hi <= |m| && d + |m| <= dest.Length == |was|
    && (forall p :: 0 <= p < |m| && (p < lo || hi <= p) ==> dest[d + p] == m[p])
    && (forall p :: 0 <= p < dest.Length && !(d <= p < d + |m|) ==> dest[p] == was[p])
  }

  lemma FillStart<T>(dest: array<T>, d: int, m: seq<T>)
    requires 0 <= d && d + |m| <= dest.Length
    ensures Filled(dest, d, m, 0, |m|, dest[..])
  {
  }

  lemma FillEnd<T>(dest: array<T>, d: int, m: seq<T>, k: int, was: seq<T>)
    requires Filled(dest, d, m, k, k, was)
    ensures At(dest, d, m)
    ensures forall p :: 0 <= p < dest.Length && !(d <= p < d + |m|) ==> dest[p] == was[p]
  {
  }

  // ---------------------------------------------------------------- parity merges

  /** One branch-free step from the front: both candidates are stored, the winner first; the loser is overwritten later. */
  method ForwardStep<T(!new)>(dest: array<T>, ghost d: int, ptd: nat, from: array<T>, ptl: nat, ptr: nat,
                              cmp: (T, T) -> int, ghost hi: int, ghost was: seq<T>,
                              ghost m: seq<T>, ghost l: seq<T>, ghost r: seq<T>, ghost i: int, ghost j: int)
      returns (ptl': nat, ptr': nat)
    requires dest != from && ptd == d + i + j && i + j + 1 < hi
    requires Filled(dest, d, m, i + j, hi, was)
    requires Front(cmp, m, l, r, i, j) && 0 <= i < |l| && 0 <= j < |r|
    requires At(from, ptl - i, l) && At(from, ptr - j, r)
    modifies dest
    ensures ptl' - ptl + ptr' - ptr == 1 && 0 <= ptl' - ptl <= 1
    ensures Front(cmp, m, l, r, i + ptl' - ptl, j + ptr' - ptr)
    ensures Filled(dest, d, m, i + j + 1, hi, was)
  {
    hide At, Front, Merge;
    AtIndex(from, ptl - i, l, i);
    AtIndex(from, ptr - j, r, j);
    FrontStep(cmp, m, l, r, i, j);
    var x := if cmp(from[ptl], from[ptr]) <= 0 then 1 else 0;
    var y := 1 - x;
    dest[ptd + x] := from[ptr];
    ptr' := ptr + y;
    dest[ptd + y] := from[ptl];
    ptl' := ptl + x;
  }

  /** One branch-free step from the back: the winner lands at `tpd`, the loser one below. */
  method BackwardStep<T(!new)>(dest: array<T>, ghost d: int, tpd: nat, from: array<T>, tpl: nat, tpr: nat,
                               cmp: (T, T) -> int, ghost lo: int, ghost was: seq<T>,
                               ghost m: seq<T>, ghost l: seq<T>, ghost r: seq<T>, ghost i: int, ghost j: int)
      returns (tpl': int, tpr': int)
    requires TotalPreorder(cmp) && Sorted(cmp, l) && Sorted(cmp, r)
    requires dest != from && tpd + 1 == d + i + j && lo < i + j - 1
    requires Filled(dest, d, m, lo, i + j, was)
    requires Back(cmp, m, l, r, i, j) && 0 < i <= |l| && 0 < j <= |r|
    requires At(from, tpl + 1 - i, l) && At(from, tpr + 1 - j, r)
    modifies dest
    ensures tpl - tpl' + tpr - tpr' == 1 && 0 <= tpl - tpl' <= 1
    ensures Back(cmp, m, l, r, i + tpl' - tpl, j + tpr' - tpr)
    ensures Filled(dest, d, m, lo, i + j - 1, was)
  {
    hide At, Back, Merge, TotalPreorder, Sorted;
    AtIndex(from, tpl + 1 - i, l, i - 1);
    AtIndex(from, tpr + 1 - j, r, j - 1);
    BackStep(cmp, m, l, r, i, j);
    var x := if cmp(from[tpl], from[tpr]) <= 0 then 1 else 0;
    var y := 1 - x;
    dest[tpd - 1 + x] := from[tpr];
    tpr' := tpr - x;
    dest[tpd - 1 + y] := from[tpl];
    tpl' := tpl - y;
  }

  /** Merges two sorted blocks of `block` elements from both ends at once, with no bounds check in either direction. */
  method ParityMerge<T(!new)>(dest: array<T>, d: nat, from: array<T>, f: nat, block: nat, nmemb: nat, cmp: (T, T) -> int,
                              ghost l: seq<T>, ghost r: seq<T>)
    requires dest != from && block > 0 && nmemb == 2 * block && d + nmemb <= dest.Length
    requires |l| == block && |r| == block && At(from, f, l) && At(from, f + block, r)
    requires TotalPreorder(cmp) && Sorted(cmp, l) && Sorted(cmp, r)
    modifies dest
    ensures At(dest, d, Merge(cmp, l, r))
    ensures forall p :: 0 <= p < dest.Length && !(d <= p < d + nmemb) ==> dest[p] == old(dest[p])
  {
    hide Sorted, TotalPreorder, Merge, At, Front, Back, Filled;
    ghost var m, was := Merge(cmp, l, r), dest[..];
    MergeStart(cmp, l, r);
    FillStart(dest, d, m);
    var ptl, ptr, ptd := f, f + block, d;
    var tpl, tpr, tpd := f + block - 1, f + nmemb - 1, d + nmemb - 1;
    var left := block - 1;
    while left > 0
      invariant 0 <= left < block
      invariant ptd == d + block - 1 - left && tpd == d + block + left
      invariant f <= ptl && f + block <= ptr && ptl + ptr + left == f + f + block + block - 1
      invariant tpl < f + block && tpr < f + nmemb && tpl + tpr == f + f + block + block + left - 1
      invariant Front(cmp, m, l, r, ptl - f, ptr - f - block)
      invariant Back(cmp, m, l, r, tpl + 1 - f, tpr + 1 - f - block)
      invariant At(from, f, l) && At(from, f + block, r)
      invariant Filled(dest, d, m, ptd - d, tpd + 1 - d, was)
    {
      ptl, ptr := ForwardStep(dest, d, ptd, from, ptl, ptr, cmp, tpd + 1 - d, was, m, l, r, ptl - f, ptr - f - block);
      ptd := ptd + 1;
      tpl, tpr := BackwardStep(dest, d, tpd, from, tpl, tpr, cmp, ptd - d, was, m, l, r, tpl + 1 - f, tpr + 1 - f - block);
      tpd := tpd - 1;
      left := left - 1;
    }
    ParityEnd(dest, d, ptd, tpd, from, ptl, ptr, tpl, tpr, cmp, was, m, l, r, ptl - f, ptr - f - block);
    FillEnd(dest, d, m, block, was);
  }

  /** The two middle elements of a parity merge: one comparison each, nothing stored twice. */
  method ParityEnd<T(!new)>(dest: array<T>, ghost d: int, ptd: nat, tpd: nat, from: array<T>,
                            ptl: nat, ptr: nat, tpl: nat, tpr: nat, cmp: (T, T) -> int, ghost was: seq<T>,
                            ghost m: seq<T>, ghost l: seq<T>, ghost r: seq<T>, ghost i: int, ghost j: int)
    requires TotalPreorder(cmp) && Sorted(cmp, l) && Sorted(cmp, r)
    requires dest != from && tpd == ptd + 1 && ptd == d + i + j
    requires Filled(dest, d, m, i + j, i + j + 2, was)
    requires Front(cmp, m, l, r, i, j) && i < |l| && j < |r|
    requires Back(cmp, m, l, r, tpl + 1 - (ptl - i), tpr + 1 - (ptr - j)) && ptl - i <= tpl && ptr - j <= tpr
    requires tpl + tpr == ptl + ptr
    requires At(from, ptl - i, l) && At(from, ptr - j, r)
    modifies dest
    ensures Filled(dest, d, m, i + j + 1, i + j + 1, was)
  {
    hide At, Merge, TotalPreorder, Sorted;
    FrontStep(cmp, m, l, r, i, j);
    BackStep(cmp, m, l, r, tpl + 1 - (ptl - i), tpr + 1 - (ptr - j));
    AtIndex(from, ptl - i, l, i);
    AtIndex(from, ptr - j, r, j);
    AtIndex(from, ptl - i, l, tpl - (ptl - i));
    AtIndex(from, ptr - j, r, tpr - (ptr - j));
    dest[ptd] := if cmp(from[ptl], from[ptr]) <= 0 then from[ptl] else from[ptr];
    dest[tpd] := if cmp(from[tpl], from[tpr]) > 0 then from[tpl] else from[tpr];
  }

  // ---------------------------------------------------------------- guarded forward merge

  ghost predicate InSeq<T>(was: seq<T>, at: int, s: seq<T>) {
    0 <= at && at + |s| <= |was| && was[at..at + |s|] == s
  }

  lemma AtBefore<T>(a: array<T>, at: int, s: seq<T>)
    requires At(a, at, s)
    ensures InSeq(a[..], at, s)
  {
  }

  /** A store outside of it leaves `s` where it was. */
  lemma AtKeep<T>(a: array<T>, at: int, s: seq<T>, pos: int, was: seq<T>)
    requires InSeq(was, at, s) && |was| == a.Length
    requires forall p :: 0 <= p < a.Length && p != pos ==> a[p] == was[p]
    requires pos < at || at + |s| <= pos
    ensures At(a, at, s)
  {
    assert a[at..at + |s|] == was[at..at + |s|];
  }

  /** One comparison of an unrolled loop: moves the smaller head to `dest[pos]`, the left one on ties. */
  method MoveHead<T(!new)>(dest: array<T>, ghost d: int, pos: nat, la: array<T>, pl: nat, ra: array<T>, pr: nat,
                           cmp: (T, T) -> int, ghost was: seq<T>,
                           ghost m: seq<T>, ghost l: seq<T>, ghost r: seq<T>, ghost i: int, ghost j: int)
      returns (left: bool)
    requires dest != la && (dest != ra || pos < pr) && pos == d + i + j
    requires Filled(dest, d, m, i + j, |m|, was)
    requires Front(cmp, m, l, r, i, j) && i < |l| && j < |r|
    requires At(la, pl, l[i..]) && At(ra, pr, r[j..])
    modifies dest
    ensures left <==> Le(cmp, l[i], r[j])
    ensures left ==> Front(cmp, m, l, r, i + 1, j)
    ensures !left ==> Front(cmp, m, l, r, i, j + 1)
    ensures Filled(dest, d, m, i + j + 1, |m|, was)
    ensures At(ra, pr, r[j..])
  {
    hide At, InSeq, Merge;
    AtIndex(la, pl, l[i..], 0);
    AtIndex(ra, pr, r[j..], 0);
    FrontStep(cmp, m, l, r, i, j);
    AtBefore(ra, pr, r[j..]);
    ghost var before := ra[..];
    left := cmp(la[pl], ra[pr]) <= 0;
    dest[pos] := if left then la[pl] else ra[pr];
    if dest == ra { AtKeep(ra, pr, r[j..], pos, before); }
  }

  ghost predicate RightStops<T(!new)>(cmp: (T, T) -> int, l: seq<T>, r: seq<T>, k: int) {
    forall i, j :: 0 <= i < |l| && 0 <= j < |r| && !Le(cmp, l[i], r[j]) ==> j < k
  }

  ghost predicate LeftStops<T(!new)>(cmp: (T, T) -> int, l: seq<T>, r: seq<T>, k: int) {
    forall i, j :: 0 <= i < |l| && 0 <= j < |r| && Le(cmp, l[i], r[j]) ==> i < k
  }

  /** A right element that precedes some left element also precedes any right element the last left one does not exceed. */
  lemma RightBound<T(!new)>(cmp: (T, T) -> int, l: seq<T>, r: seq<T>, k: int)
    requires TotalPreorder(cmp) && Sorted(cmp, l) && Sorted(cmp, r)
    requires l != [] && 0 <= k < |r| && Le(cmp, l[|l| - 1], r[k])
    ensures RightStops(cmp, l, r, k)
  {
    forall i, j | 0 <= i < |l| && k <= j < |r| ensures Le(cmp, l[i], r[j]) {
      assert i == |l| - 1 || Le(cmp, l[i], l[|l| - 1]);
      assert j == k || Le(cmp, r[k], r[j]);
    }
  }

  /** A left element not after some right element precedes any left element that exceeds the last right one. */
  lemma LeftBound<T(!new)>(cmp: (T, T) -> int, l: seq<T>, r: seq<T>, k: int)
    requires TotalPreorder(cmp) && Sorted(cmp, l) && Sorted(cmp, r)
    requires r != [] && 0 <= k < |l| && !Le(cmp, l[k], r[|r| - 1])
    ensures LeftStops(cmp, l, r, k)
  {
    forall i, j | k <= i < |l| && 0 <= j < |r| ensures !Le(cmp, l[i], r[j]) {
      assert j == |r| - 1 || Le(cmp, r[j], r[|r| - 1]);
      assert i == k || Le(cmp, l[k], l[i]);
    }
  }

  lemma AtTail<T>(a: array<T>, at: int, s: seq<T>, k: int)
    requires At(a, at, s) && 0 <= k <= |s|
    ensures At(a, at + k, s[k..])
  {
    assert a[at..at + |s|][k..] == a[at + k..at + |s|];
  }

  /** The loop that only guards the left block: the up-front comparison keeps the right pointer inside its block. */
  method ForwardGuardLeft<T(!new)>(dest: array<T>, d: nat, from: array<T>, f: nat, block: nat, cmp: (T, T) -> int,
                                   ghost l: seq<T>, ghost r: seq<T>, ghost k: int)
    requires dest != from && block > 0 && d + 2 * block <= dest.Length
    requires |l| == block && |r| == block && At(from, f, l) && At(from, f + block, r)
    requires RightStops(cmp, l, r, k) && 0 <= k < block
    modifies dest
    ensures At(dest, d, Merge(cmp, l, r))
    ensures forall p :: 0 <= p < dest.Length && !(d <= p < d + 2 * block) ==> dest[p] == old(dest[p])
  {
    hide Merge, Front, Filled, At;
    ghost var m, was := Merge(cmp, l, r), dest[..];
    MergeStart(cmp, l, r);
    FillStart(dest, d, m);
    var ptl, ptr, ptd, mid, e := f, f + block, d, f + block, f + 2 * block;
    while ptl < mid
      invariant f <= ptl <= mid && mid <= ptr <= mid + k && ptd == d + ptl - f + ptr - mid
      invariant Front(cmp, m, l, r, ptl - f, ptr - mid)
      invariant Filled(dest, d, m, ptl - f + ptr - mid, |m|, was)
      decreases mid - ptl + e - ptr
    {
      AtTail(from, f, l, ptl - f);
      AtTail(from, mid, r, ptr - mid);
      var left := MoveHead(dest, d, ptd, from, ptl, from, ptr, cmp, was, m, l, r, ptl - f, ptr - mid);
      ptd := ptd + 1;
      if left { ptl := ptl + 1; continue; }
      ptr := ptr + 1;
      AtTail(from, mid, r, ptr - mid);
      left := MoveHead(dest, d, ptd, from, ptl, from, ptr, cmp, was, m, l, r, ptl - f, ptr - mid);
      ptd := ptd + 1;
      if left { ptl := ptl + 1; continue; }
      ptr := ptr + 1;
      AtTail(from, mid, r, ptr - mid);
      left := MoveHead(dest, d, ptd, from, ptl, from, ptr, cmp, was, m, l, r, ptl - f, ptr - mid);
      ptd := ptd + 1;
      if left { ptl := ptl + 1; continue; }
      ptr := ptr + 1;
    }
    CopyRight(dest, d, ptd, from, ptr, e, cmp, was, m, l, r, ptr - mid);
    FillEnd(dest, d, m, |m|, was);
  }

  /** The left block is used up: the rest of the right block follows. */
  method CopyRight<T(!new)>(dest: array<T>, ghost d: int, ptd: nat, from: array<T>, ptr: nat, e: nat, cmp: (T, T) -> int, ghost was: seq<T>,
                            ghost m: seq<T>, ghost l: seq<T>, ghost r: seq<T>, ghost j: int)
    requires dest != from && At(from, ptr - j, r) && e == ptr - j + |r| && ptd == d + |l| + j
    requires Front(cmp, m, l, r, |l|, j) && 0 <= j <= |r| && |m| == |l| + |r|
    requires Filled(dest, d, m, |l| + j, |m|, was)
    modifies dest
    ensures Filled(dest, d, m, |m|, |m|, was)
  {
    hide Merge, Front, At;
    var c, q := ptd, ptr;
    while q < e
      invariant ptr <= q <= e && c - ptd == q - ptr
      invariant Front(cmp, m, l, r, |l|, j + q - ptr)
      invariant Filled(dest, d, m, |l| + j + q - ptr, |m|, was)
    {
      FrontRight(cmp, m, l, r, |l|, j + q - ptr);
      AtIndex(from, ptr - j, r, j + q - ptr);
      dest[c] := from[q];
      c, q := c + 1, q + 1;
    }
  }

  /** The loop that only guards the right block. */
  method ForwardGuardRight<T(!new)>(dest: array<T>, d: nat, from: array<T>, f: nat, block: nat, cmp: (T, T) -> int,
                                    ghost l: seq<T>, ghost r: seq<T>, ghost k: int)
    requires dest != from && block > 0 && d + 2 * block <= dest.Length
    requires |l| == block && |r| == block && At(from, f, l) && At(from, f + block, r)
    requires LeftStops(cmp, l, r, k) && 0 <= k < block
    modifies dest
    ensures At(dest, d, Merge(cmp, l, r))
    ensures forall p :: 0 <= p < dest.Length && !(d <= p < d + 2 * block) ==> dest[p] == old(dest[p])
  {
    hide Merge, Front, Filled, At;
    ghost var m, was := Merge(cmp, l, r), dest[..];
    MergeStart(cmp, l, r);
    FillStart(dest, d, m);
    var ptl, ptr, ptd, mid, e := f, f + block, d, f + block, f + 2 * block;
    while ptr < e
      invariant f <= ptl <= f + k && mid <= ptr <= e && ptd == d + ptl - f + ptr - mid
      invariant Front(cmp, m, l, r, ptl - f, ptr - mid)
      invariant Filled(dest, d, m, ptl - f + ptr - mid, |m|, was)
      decreases mid - ptl + e - ptr
    {
      AtTail(from, f, l, ptl - f);
      AtTail(from, mid, r, ptr - mid);
      var left := MoveHead(dest, d, ptd, from, ptl, from, ptr, cmp, was, m, l, r, ptl - f, ptr - mid);
      ptd := ptd + 1;
      if !left { ptr := ptr + 1; continue; }
      ptl := ptl + 1;
      AtTail(from, f, l, ptl - f);
      left := MoveHead(dest, d, ptd, from, ptl, from, ptr, cmp, was, m, l, r, ptl - f, ptr - mid);
      ptd := ptd + 1;
      if !left { ptr := ptr + 1; continue; }
      ptl := ptl + 1;
      AtTail(from, f, l, ptl - f);
      left := MoveHead(dest, d, ptd, from, ptl, from, ptr, cmp, was, m, l, r, ptl - f, ptr - mid);
      ptd := ptd + 1;
      if !left { ptr := ptr + 1; continue; }
      ptl := ptl + 1;
    }
    CopyLeft(dest, d, ptd, from, ptl, mid, cmp, was, m, l, r, ptl - f);
    FillEnd(dest, d, m, |m|, was);
  }

  /** The right block is used up: the rest of the left block follows. */
  method CopyLeft<T(!new)>(dest: array<T>, ghost d: int, ptd: nat, from: array<T>, ptl: nat, e: nat, cmp: (T, T) -> int,
                           ghost was: seq<T>, ghost m: seq<T>, ghost l: seq<T>, ghost r: seq<T>, ghost i: int)
    requires dest != from && At(from, ptl - i, l) && e == ptl - i + |l| && ptd == d + i + |r|
    requires Front(cmp, m, l, r, i, |r|) && 0 <= i <= |l| && |m| == |l| + |r|
    requires Filled(dest, d, m, i + |r|, |m|, was)
    modifies dest
    ensures Filled(dest, d, m, |m|, |m|, was)
  {
    hide Merge, Front, At;
    var c, q := ptd, ptl;
    while q < e
      invariant ptl <= q <= e && c - ptd == q - ptl
      invariant Front(cmp, m, l, r, i + q - ptl, |r|)
      invariant Filled(dest, d, m, i + q - ptl + |r|, |m|, was)
    {
      FrontLeft(cmp, m, l, r, i + q - ptl, |r|);
      AtIndex(from, ptl - i, l, i + q - ptl);
      dest[c] := from[q];
      c, q := c + 1, q + 1;
    }
  }

  /** Merges two sorted blocks; one comparison up front picks the loop that needs a bound on one side only. */
  method ForwardMerge<T(!new)>(dest: array<T>, d: nat, from: array<T>, f: nat, block: nat, cmp: (T, T) -> int,
                               ghost l: seq<T>, ghost r: seq<T>)
    requires dest != from && block >= 4 && d + 2 * block <= dest.Length
    requires |l| == block && |r| == block && At(from, f, l) && At(from, f + block, r)
    requires TotalPreorder(cmp) && Sorted(cmp, l) && Sorted(cmp, r)
    modifies dest
    ensures At(dest, d, Merge(cmp, l, r))
    ensures forall p :: 0 <= p < dest.Length && !(d <= p < d + 2 * block) ==> dest[p] == old(dest[p])
  {
    hide TotalPreorder, Sorted, Merge, At;
    var mid, e := f + block, f + 2 * block;
    AtIndex(from, f, l, block - 1);
    AtIndex(from, f, l, block - block / 4);
    AtIndex(from, f + block, r, block - 1);
    AtIndex(from, f + block, r, block - block / 4);
    if cmp(from[mid - 1], from[e - block / 4]) <= 0 {
      RightBound(cmp, l, r, block - block / 4);
      ForwardGuardLeft(dest, d, from, f, block, cmp, l, r, block - block / 4);
    } else if cmp(from[mid - block / 4], from[e - 1]) > 0 {
      LeftBound(cmp, l, r, block - block / 4);
      ForwardGuardRight(dest, d, from, f, block, cmp, l, r, block - block / 4);
    } else {
      ParityMerge(dest, d, from, f, block, block * 2, cmp, l, r);
    }
  }
}
