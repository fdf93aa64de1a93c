/** The partial merges of quadsort.c: one block is parked in the swap buffer, the merge fills the array in place. */
module QuadsortPartial {
  import opened StableMerge
  import opened QuadsortMerge

  /** memcpy between two arrays. */
  method CopyBlock<T>(dest: array<T>, d: nat, src: array<T>, s: nat, n: nat, ghost x: seq<T>)
    requires dest != src && d + n <= dest.Length && |x| == n && At(src, s, x)
    modifies dest
    ensures At(dest, d, x)
    ensures forall p :: 0 <= p < dest.Length && !(d <= p < d + n) ==> dest[p] == old(dest[p])
  {
    forall i | 0 <= i < n {
      dest[d + i] := src[s + i];
    }
    assert dest[d..d + n] == src[s..s + n];
  }

  lemma AtHead<T>(a: array<T>, at: int, s: seq<T>, k: int)
    requires At(a, at, s) && 0 <= k <= |s|
    ensures At(a, at, s[..k])
  {
    assert a[at..at + |s|][..k] == a[at..at + k];
  }

  lemma AtPrefix<T>(a: array<T>, at: int, s: seq<T>, n: int, k: int)
    requires 0 <= k <= n <= |s| && At(a, at, s[..n])
    ensures At(a, at, s[..k])
  {
    AtHead(a, at, s[..n], k);
    assert s[..n][..k] == s[..k];
  }

  /** Once the left block is used up, the rest of the right block is already where it belongs. */
  lemma RestInPlace<T(!new)>(a: array<T>, d: int, cmp: (T, T) -> int, was: seq<T>, m: seq<T>, l: seq<T>, r: seq<T>, j: int)
    requires Front(cmp, m, l, r, |l|, j)
    requires Filled(a, d, m, |l| + j, |m|, was)
    requires At(a, d + |l| + j, r[j..])
    ensures Filled(a, d, m, |m|, |m|, was)
  {
    var rest := m[|l| + j..];
    assert l[|l|..] == [] && rest == r[j..];
    forall p | |l| + j <= p < |m| ensures a[d + p] == m[p] {
      AtIndex(a, d + |l| + j, r[j..], p - |l| - j);
      assert rest[p - |l| - j] == m[p];
    }
  }

  method PartialForwardMerge<T(!new)>(a: array<T>, d: nat, swap: array<T>, nmemb: nat, block: nat, cmp: (T, T) -> int,
                                      ghost l: seq<T>, ghost r: seq<T>)
    requires a != swap && 0 < block < nmemb && block <= swap.Length
    requires |l| == block && |l| + |r| == nmemb && At(a, d, l) && At(a, d + block, r)
    requires TotalPreorder(cmp) && Sorted(cmp, l) && Sorted(cmp, r)
    modifies a, swap
    ensures At(a, d, Merge(cmp, l, r))
    ensures forall p :: 0 <= p < a.Length && !(d <= p < d + nmemb) ==> a[p] == old(a[p])
  {
    hide TotalPreorder, Sorted, Merge, At, Filled, Front;
    ghost var m, was := Merge(cmp, l, r), a[..];
    MergeStart(cmp, l, r);
    AtIndex(a, d + block, r, |r| - 1);
    FillStart(a, d, m);
    CopyBlock(swap, 0, a, d, block, l);
    AtIndex(swap, 0, l, block - 1);
    if cmp(swap[block - 1], a[d + nmemb - 1]) <= 0 {
      RightBound(cmp, l, r, |r| - 1);
      ForwardFromSwap(a, d, swap, nmemb, block, cmp, was, m, l, r);
    } else {
      LeftBound(cmp, l, r, |l| - 1);
      ForwardFromArray(a, d, swap, nmemb, block, cmp, was, m, l, r);
    }
    FillEnd(a, d, m, |m|, was);
  }

  /** The last left element may stay before the last right one: only the left side is guarded. */
  method ForwardFromSwap<T(!new)>(a: array<T>, d: nat, swap: array<T>, nmemb: nat, block: nat, cmp: (T, T) -> int,
                                  ghost was: seq<T>, ghost m: seq<T>, ghost l: seq<T>, ghost r: seq<T>)
    requires a != swap && 0 < block < nmemb && |l| == block && |l| + |r| == nmemb
    requires At(swap, 0, l) && At(a, d + block, r)
    requires RightStops(cmp, l, r, |r| - 1)
    requires Front(cmp, m, l, r, 0, 0) && Filled(a, d, m, 0, |m|, was) && |m| == nmemb
    modifies a
    ensures Filled(a, d, m, |m|, |m|, was)
  {
    hide Merge, At, Filled, Front;
    var s, q, pos := 0, d + block, d;
    AtTail(a, d + block, r, 0);
    while s < block
      invariant 0 <= s <= block && d + block <= q < d + nmemb && pos == d + s + q - d - block
      invariant At(swap, 0, l) && At(a, q, r[q - d - block..])
      invariant Front(cmp, m, l, r, s, q - d - block)
      invariant Filled(a, d, m, s + q - d - block, |m|, was)
      decreases block - s
    {
      ghost var s0 := s;
      var left := false;
      while !left
        invariant 0 <= s0 <= s <= block && (left <==> s0 < s) && (!left ==> s < block)
        invariant d + block <= q < d + nmemb && pos == d + s + q - d - block
        invariant At(swap, 0, l) && At(a, q, r[q - d - block..])
        invariant Front(cmp, m, l, r, s, q - d - block)
        invariant Filled(a, d, m, s + q - d - block, |m|, was)
        decreases !left, d + nmemb - q
      {
        AtTail(swap, 0, l, s);
        left := MoveHead(a, d, pos, swap, s, a, q, cmp, was, m, l, r, s, q - d - block);
        pos := pos + 1;
        if left { s := s + 1; } else { AtTail(a, q, r[q - d - block..], 1); q := q + 1; }
      }
    }
    RestInPlace(a, d, cmp, was, m, l, r, q - d - block);
  }

  /** The last left element goes last: only the right side is guarded, the left remainder is copied at the end. */
  method ForwardFromArray<T(!new)>(a: array<T>, d: nat, swap: array<T>, nmemb: nat, block: nat, cmp: (T, T) -> int,
                                   ghost was: seq<T>, ghost m: seq<T>, ghost l: seq<T>, ghost r: seq<T>)
    requires a != swap && 0 < block < nmemb && |l| == block && |l| + |r| == nmemb
    requires At(swap, 0, l) && At(a, d + block, r)
    requires LeftStops(cmp, l, r, |l| - 1)
    requires Front(cmp, m, l, r, 0, 0) && Filled(a, d, m, 0, |m|, was) && |m| == nmemb
    modifies a
    ensures Filled(a, d, m, |m|, |m|, was)
  {
    hide Merge, At, Filled, Front;
    var s, q, pos, e := 0, d + block, d, d + nmemb - 1;
    AtTail(a, d + block, r, 0);
    while q <= e
      invariant 0 <= s < block && d + block <= q <= d + nmemb && pos == d + s + q - d - block
      invariant At(swap, 0, l) && At(a, q, r[q - d - block..])
      invariant Front(cmp, m, l, r, s, q - d - block)
      invariant Filled(a, d, m, s + q - d - block, |m|, was)
      decreases block - s + e + 1 - q
    {
      AtTail(swap, 0, l, s);
      var left := MoveHead(a, d, pos, swap, s, a, q, cmp, was, m, l, r, s, q - d - block);
      pos := pos + 1;
      if !left { AtTail(a, q, r[q - d - block..], 1); q := q + 1; continue; }
      s := s + 1;
      AtTail(swap, 0, l, s);
      left := MoveHead(a, d, pos, swap, s, a, q, cmp, was, m, l, r, s, q - d - block);
      pos := pos + 1;
      if !left { AtTail(a, q, r[q - d - block..], 1); q := q + 1; continue; }
      s := s + 1;
      AtTail(swap, 0, l, s);
      left := MoveHead(a, d, pos, swap, s, a, q, cmp, was, m, l, r, s, q - d - block);
      pos := pos + 1;
      if !left { AtTail(a, q, r[q - d - block..], 1); q := q + 1; continue; }
      s := s + 1;
    }
    CopyLeft(a, d, pos, swap, s, block, cmp, was, m, l, r, s);
  }

  // ---------------------------------------------------------------- backward

  /** One comparison of an unrolled backward loop: moves the larger tail to `dest[pos]`, the right one on ties. */
  method MoveTail<T(!new)>(dest: array<T>, ghost d: int, pos: nat, pl: nat, ra: array<T>, pr: nat,
                           cmp: (T, T) -> int, ghost was: seq<T>,
                           ghost m: seq<T>, ghost l: seq<T>, ghost r: seq<T>, ghost i: int, ghost j: int)
      returns (left: bool)
    requires TotalPreorder(cmp) && Sorted(cmp, l) && Sorted(cmp, r)
    requires dest != ra && pos == d + i + j - 1 && pl == d + i - 1 && pr == j - 1
    requires Filled(dest, d, m, 0, i + j, was)
    requires Back(cmp, m, l, r, i, j) && 0 < i <= |l| && 0 < j <= |r|
    requires At(dest, d, l[..i]) && At(ra, 0, r[..j])
    modifies dest
    ensures left <==> !Le(cmp, l[i - 1], r[j - 1])
    ensures left ==> Back(cmp, m, l, r, i - 1, j)
    ensures !left ==> Back(cmp, m, l, r, i, j - 1)
    ensures Filled(dest, d, m, 0, i + j - 1, was)
    ensures At(dest, d, l[..i])
  {
    hide At, InSeq, Merge, TotalPreorder, Sorted;
    AtIndex(dest, d, l[..i], i - 1);
    AtIndex(ra, 0, r[..j], j - 1);
    BackStep(cmp, m, l, r, i, j);
    AtBefore(dest, d, l[..i]);
    ghost var before := dest[..];
    left := cmp(dest[pl], ra[pr]) > 0;
    dest[pos] := if left then dest[pl] else ra[pr];
    AtKeep(dest, d, l[..i], pos, before);
  }

  /** Once the right block is used up, the rest of the left block is already where it belongs. */
  lemma HeadInPlace<T(!new)>(a: array<T>, d: int, cmp: (T, T) -> int, was: seq<T>, m: seq<T>, l: seq<T>, r: seq<T>, i: int)
    requires Back(cmp, m, l, r, i, 0)
    requires Filled(a, d, m, 0, i, was)
    requires At(a, d, l[..i])
    ensures Filled(a, d, m, 0, 0, was)
  {
    var head := m[..i];
    assert r[..0] == [] && head == l[..i];
    forall p | 0 <= p < i ensures a[d + p] == m[p] {
      AtIndex(a, d, l[..i], p);
      assert head[p] == m[p];
    }
  }

  /** The first left element may stay first: no right element can be taken past it. */
  lemma FirstLeftStays<T(!new)>(cmp: (T, T) -> int, l: seq<T>, r: seq<T>)
    requires TotalPreorder(cmp) && Sorted(cmp, r) && l != [] && r != [] && Le(cmp, l[0], r[0])
    ensures forall j :: 0 <= j < |r| ==> Le(cmp, l[0], r[j])
  {
    forall j | 0 <= j < |r| ensures Le(cmp, l[0], r[j]) {
      assert j == 0 || Le(cmp, r[0], r[j]);
    }
  }

  /** The first right element goes first: no left element may stay before it. */
  lemma FirstRightLeads<T(!new)>(cmp: (T, T) -> int, l: seq<T>, r: seq<T>)
    requires TotalPreorder(cmp) && Sorted(cmp, l) && l != [] && r != [] && !Le(cmp, l[0], r[0])
    ensures forall i :: 0 <= i < |l| ==> !Le(cmp, l[i], r[0])
  {
    forall i | 0 <= i < |l| ensures !Le(cmp, l[i], r[0]) {
      assert i == 0 || Le(cmp, l[0], l[i]);
    }
  }

  method PartialBackwardMerge<T(!new)>(a: array<T>, d: nat, swap: array<T>, nmemb: nat, block: nat, cmp: (T, T) -> int,
                                       ghost l: seq<T>, ghost r: seq<T>)
    requires a != swap && 2 <= block < nmemb && nmemb - block <= swap.Length
    requires |l| == block && |l| + |r| == nmemb && At(a, d, l) && At(a, d + block, r)
    requires TotalPreorder(cmp) && Sorted(cmp, l) && Sorted(cmp, r)
    modifies a, swap
    ensures At(a, d, Merge(cmp, l, r))
    ensures forall p :: 0 <= p < a.Length && !(d <= p < d + nmemb) ==> a[p] == old(a[p])
  {
    hide TotalPreorder, Sorted, Merge, At, Filled, Back;
    ghost var m, was := Merge(cmp, l, r), a[..];
    MergeStart(cmp, l, r);
    AtIndex(a, d, l, block - 1);
    AtIndex(a, d + block, r, 0);
    AtIndex(a, d + block, r, |r| - 1);
    FillStart(a, d, m);
    if cmp(a[d + block - 1], a[d + block]) <= 0 {
      MergeOrdered(cmp, l, r);
      AtJoin(a, d, l, r);
      return;
    }
    var e := SkipInPlace(a, d, nmemb, block, cmp, was, m, l, r);
    ghost var n := e + 1 - d - block;
    AtHead(a, d + block, r, n);
    CopyBlock(swap, 0, a, d + block, e + 1 - d - block, r[..n]);
    BackLeft(cmp, m, l, r, |l|, n);
    assert l[..|l|] == l;
    MoveLast(a, d, e, d + block - 1, was, m, l, |l| + n - 1);
    AtHead(a, d, l, block - 1);
    AtIndex(a, d, l, 0);
    AtIndex(swap, 0, r[..n], 0);
    if cmp(a[d], swap[0]) <= 0 {
      FirstLeftStays(cmp, l, r);
      BackwardFromSwap(a, d, swap, block - 1, e - d - block + 1, cmp, was, m, l, r);
    } else {
      FirstRightLeads(cmp, l, r);
      BackwardFromArray(a, d, swap, block - 1, e - d - block + 1, cmp, was, m, l, r);
    }
    FillEnd(a, d, m, 0, was);
  }

  /** Right elements that the last left one does not exceed are in place already. */
  method SkipInPlace<T(!new)>(a: array<T>, d: nat, nmemb: nat, block: nat, cmp: (T, T) -> int,
                              ghost was: seq<T>, ghost m: seq<T>, ghost l: seq<T>, ghost r: seq<T>) returns (e: nat)
    requires |l| == block > 0 && |r| > 0 && |l| + |r| == nmemb == |m| && At(a, d, l) && At(a, d + block, r)
    requires TotalPreorder(cmp) && Sorted(cmp, l) && Sorted(cmp, r)
    requires !Le(cmp, l[|l| - 1], r[0])
    requires Back(cmp, m, l, r, |l|, |r|) && Filled(a, d, m, 0, |m|, was)
    ensures d + block <= e < d + nmemb
    ensures !Le(cmp, l[|l| - 1], r[e - d - block])
    ensures Back(cmp, m, l, r, |l|, e + 1 - d - block)
    ensures Filled(a, d, m, 0, e + 1 - d, was)
  {
    hide TotalPreorder, Sorted, Merge, At, Filled, Back;
    e := d + nmemb - 1;
    AtIndex(a, d, l, block - 1);
    AtIndex(a, d + block, r, |r| - 1);
    while cmp(a[d + block - 1], a[e]) <= 0
      invariant d + block <= e < d + nmemb <= a.Length && a[e] == r[e - d - block]
      invariant Back(cmp, m, l, r, |l|, e + 1 - d - block)
      invariant Filled(a, d, m, 0, e + 1 - d, was)
      decreases e
    {
      BackRight(cmp, m, l, r, |l|, e + 1 - d - block);
      SkipTail(a, d, m, e - d, was);
      AtIndex(a, d + block, r, e - d - block - 1);
      e := e - 1;
    }
  }

  lemma AtJoin<T>(a: array<T>, d: int, l: seq<T>, r: seq<T>)
    requires At(a, d, l) && At(a, d + |l|, r)
    ensures At(a, d, l + r)
  {
    assert a[d..d + |l + r|] == a[d..d + |l|] + a[d + |l|..d + |l| + |r|];
  }

  lemma SkipTail<T>(a: array<T>, d: int, m: seq<T>, k: int, was: seq<T>)
    requires Filled(a, d, m, 0, k + 1, was) && 0 <= k < |m| && a[d + k] == m[k]
    ensures Filled(a, d, m, 0, k, was)
  {
  }

  /** The last left element exceeds what is left of the right block, so it is stored first. */
  method MoveLast<T>(a: array<T>, ghost d: int, e: nat, p: nat, ghost was: seq<T>, ghost m: seq<T>, ghost l: seq<T>, ghost k: int)
    requires l != [] && At(a, d, l) && p == d + |l| - 1 && e == d + k && |l| <= k < |m| && m[k] == l[|l| - 1]
    requires Filled(a, d, m, 0, k + 1, was)
    modifies a
    ensures Filled(a, d, m, 0, k, was) && At(a, d, l)
  {
    hide At, InSeq;
    AtIndex(a, d, l, |l| - 1);
    AtBefore(a, d, l);
    ghost var before := a[..];
    a[e] := a[p];
    AtKeep(a, d, l, e, before);
  }

  /** The first left element stays first: only the swap buffer is guarded. */
  method BackwardFromSwap<T(!new)>(a: array<T>, d: nat, swap: array<T>, i0: nat, j0: nat, cmp: (T, T) -> int,
                                   ghost was: seq<T>, ghost m: seq<T>, ghost l: seq<T>, ghost r: seq<T>)
    requires TotalPreorder(cmp) && Sorted(cmp, l) && Sorted(cmp, r)
    requires a != swap && 0 < i0 <= |l| && 0 < j0 <= |r|
    requires At(a, d, l[..i0]) && At(swap, 0, r[..j0])
    requires forall j :: 0 <= j < |r| ==> Le(cmp, l[0], r[j])
    requires Back(cmp, m, l, r, i0, j0) && Filled(a, d, m, 0, i0 + j0, was)
    modifies a
    ensures Filled(a, d, m, 0, 0, was)
  {
    hide TotalPreorder, Sorted, Merge, At, Filled, Back;
    var i, j := i0, j0;
    while j > 0
      invariant 0 < i <= i0 && 0 <= j <= j0
      invariant At(a, d, l[..i]) && At(swap, 0, r[..j0])
      invariant Back(cmp, m, l, r, i, j) && Filled(a, d, m, 0, i + j, was)
    {
      ghost var j1 := j;
      var left := true;
      while left
        invariant 0 < i <= i0 && 0 <= j <= j1 && (!left <==> j < j1)
        invariant At(a, d, l[..i]) && At(swap, 0, r[..j0])
        invariant Back(cmp, m, l, r, i, j) && Filled(a, d, m, 0, i + j, was)
        decreases left, i
      {
        AtPrefix(swap, 0, r, j0, j);
        left := MoveTail(a, d, d + i + j - 1, d + i - 1, swap, j - 1, cmp, was, m, l, r, i, j);
        if left {
          AtPrefix(a, d, l, i, i - 1);
          i := i - 1;
        } else {
          j := j - 1;
        }
      }
    }
    HeadInPlace(a, d, cmp, was, m, l, r, i);
  }

  /** The first right element goes first: only the left block is guarded, the right remainder is copied at the end. */
  method BackwardFromArray<T(!new)>(a: array<T>, d: nat, swap: array<T>, i0: nat, j0: nat, cmp: (T, T) -> int,
                                    ghost was: seq<T>, ghost m: seq<T>, ghost l: seq<T>, ghost r: seq<T>)
    requires TotalPreorder(cmp) && Sorted(cmp, l) && Sorted(cmp, r)
    requires a != swap && 0 < i0 <= |l| && 0 < j0 <= |r|
    requires At(a, d, l[..i0]) && At(swap, 0, r[..j0])
    requires forall i :: 0 <= i < |l| ==> !Le(cmp, l[i], r[0])
    requires Back(cmp, m, l, r, i0, j0) && Filled(a, d, m, 0, i0 + j0, was)
    modifies a
    ensures Filled(a, d, m, 0, 0, was)
  {
    hide TotalPreorder, Sorted, Merge, At, Filled, Back;
    var i, j := i0, j0;
    while i > 0
      invariant 0 <= i <= i0 && 0 < j <= j0
      invariant At(a, d, l[..i]) && At(swap, 0, r[..j0])
      invariant Back(cmp, m, l, r, i, j) && Filled(a, d, m, 0, i + j, was)
      decreases i + j
    {
      AtPrefix(swap, 0, r, j0, j);
      var left := MoveTail(a, d, d + i + j - 1, d + i - 1, swap, j - 1, cmp, was, m, l, r, i, j);
      if left { AtPrefix(a, d, l, i, i - 1); i := i - 1; continue; }
      j := j - 1;
      AtPrefix(swap, 0, r, j0, j);
      left := MoveTail(a, d, d + i + j - 1, d + i - 1, swap, j - 1, cmp, was, m, l, r, i, j);
      if left { AtPrefix(a, d, l, i, i - 1); i := i - 1; continue; }
      j := j - 1;
      AtPrefix(swap, 0, r, j0, j);
      left := MoveTail(a, d, d + i + j - 1, d + i - 1, swap, j - 1, cmp, was, m, l, r, i, j);
      if left { AtPrefix(a, d, l, i, i - 1); i := i - 1; continue; }
      j := j - 1;
    }
    while j > 0
      invariant 0 <= j <= j0
      invariant At(swap, 0, r[..j0])
      invariant Back(cmp, m, l, r, 0, j) && Filled(a, d, m, 0, j, was)
    {
      BackRight(cmp, m, l, r, 0, j);
      AtIndex(swap, 0, r[..j0], j - 1);
      StoreTail(a, d, d + j - 1, swap[j - 1], m, j - 1, was);
      j := j - 1;
    }
  }

  method StoreTail<T>(a: array<T>, ghost d: int, pos: nat, x: T, ghost m: seq<T>, ghost k: int, ghost was: seq<T>)
    requires Filled(a, d, m, 0, k + 1, was) && 0 <= k < |m| && pos == d + k && x == m[k]
    modifies a
    ensures Filled(a, d, m, 0, k, was)
  {
    a[pos] := x;
  }
}
