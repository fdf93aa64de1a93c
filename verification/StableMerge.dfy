/** Stable merging and sorting of sequences under a caller-supplied three-way comparison.
    `cmp(a, b) <= 0` says that `a` may stay before `b`; this is the only question the sorting code asks. */
module StableMerge {

  ghost predicate TotalPreorder<T(!new)>(cmp: (T, T) -> int) {
    && (forall a, b :: Le(cmp, a, b) || Le(cmp, b, a))
    && (forall a, b, c :: Le(cmp, a, b) && Le(cmp, b, c) ==> Le(cmp, a, c))
  }

  predicate Le<T>(cmp: (T, T) -> int, a: T, b: T) {
    cmp(a, b) <= 0
  }

  ghost predicate Sorted<T(!new)>(cmp: (T, T) -> int, s: seq<T>) {
    forall i, j :: 0 <= i < j < |s| ==> Le(cmp, s[i], s[j])
  }

  /** The elements of `s` equivalent to `x`, in their order of appearance. */
  ghost function Class<T(!new)>(cmp: (T, T) -> int, x: T, s: seq<T>): seq<T> {
    if s == [] then []
    else (if Le(cmp, x, s[0]) && Le(cmp, s[0], x) then [s[0]] else []) + Class(cmp, x, s[1..])
  }

  /** `t` is a rearrangement of `s` that never reorders equivalent elements. */
  ghost predicate StablePermutation<T(!new)>(cmp: (T, T) -> int, s: seq<T>, t: seq<T>) {
    forall x :: Class(cmp, x, s) == Class(cmp, x, t)
  }

  /** Two-way merge preferring the left operand on ties. */
  ghost function Merge<T(!new)>(cmp: (T, T) -> int, l: seq<T>, r: seq<T>): (m: seq<T>)
    ensures |m| == |l| + |r|
    decreases |l| + |r|
  {
    if l == [] then r
    else if r == [] then l
    else if Le(cmp, l[0], r[0]) then [l[0]] + Merge(cmp, l[1..], r)
    else [r[0]] + Merge(cmp, l, r[1..])
  }

  /** Reference sort: insert the last element into the sorted rest, after its equals. */
  ghost function Sort<T(!new)>(cmp: (T, T) -> int, s: seq<T>): (t: seq<T>)
    ensures |t| == |s|
  {
    if |s| == 0 then [] else Merge(cmp, Sort(cmp, s[..|s| - 1]), [s[|s| - 1]])
  }

  // ---------------------------------------------------------------- merging

  lemma {:induction false} MergeTakeLeft<T(!new)>(cmp: (T, T) -> int, l: seq<T>, r: seq<T>)
    requires l != [] && (r == [] || Le(cmp, l[0], r[0]))
    ensures Merge(cmp, l, r) == [l[0]] + Merge(cmp, l[1..], r)
  {
    if r == [] {
      assert Merge(cmp, l[1..], r) == l[1..];
    }
  }

  lemma {:induction false} MergeTakeRight<T(!new)>(cmp: (T, T) -> int, l: seq<T>, r: seq<T>)
    requires r != [] && (l == [] || !Le(cmp, l[0], r[0]))
    ensures Merge(cmp, l, r) == [r[0]] + Merge(cmp, l, r[1..])
  {
  }

  /** Every comparison across the cut (i, j) is decided: the first parts win. */
  ghost predicate Cut<T(!new)>(cmp: (T, T) -> int, l: seq<T>, r: seq<T>, i: nat, j: nat) {
    && i <= |l| && j <= |r|
    && (forall x, y :: 0 <= x < i && j <= y < |r| ==> Le(cmp, l[x], r[y]))
    && (forall x, y :: i <= x < |l| && 0 <= y < j ==> !Le(cmp, l[x], r[y]))
  }

  /** A merge falls apart at any cut (i, j) across which every comparison is already decided. */
  lemma {:induction false} MergeSplit<T(!new)>(cmp: (T, T) -> int, l: seq<T>, r: seq<T>, i: nat, j: nat)
    requires Cut(cmp, l, r, i, j)
    ensures Merge(cmp, l, r) == Merge(cmp, l[..i], r[..j]) + Merge(cmp, l[i..], r[j..])
    decreases |l| + |r|
  {
    if i == 0 && j == 0 {
      assert l[0..] == l && r[0..] == r;
    } else if j == 0 || (i > 0 && Le(cmp, l[0], r[0])) {
      MergeSplit(cmp, l[1..], r, i - 1, j);
      MergeSplitLeft(cmp, l, r, i, j);
    } else {
      MergeSplit(cmp, l, r[1..], i, j - 1);
      MergeSplitRight(cmp, l, r, i, j);
    }
  }

  lemma {:induction false} MergeSplitLeft<T(!new)>(cmp: (T, T) -> int, l: seq<T>, r: seq<T>, i: nat, j: nat)
    requires 0 < i <= |l| && j <= |r| && (r == [] || Le(cmp, l[0], r[0]))
    requires Merge(cmp, l[1..], r) == Merge(cmp, l[1..][..i - 1], r[..j]) + Merge(cmp, l[1..][i - 1..], r[j..])
    ensures Merge(cmp, l, r) == Merge(cmp, l[..i], r[..j]) + Merge(cmp, l[i..], r[j..])
  {
    hide Merge;
    var front := l[..i];
    assert front[0] == l[0] && l[1..][i - 1..] == l[i..] && front[1..] == l[1..][..i - 1];
    MergeTakeLeft(cmp, l, r);
    MergeTakeLeft(cmp, front, r[..j]);
  }

  lemma {:induction false} MergeSplitRight<T(!new)>(cmp: (T, T) -> int, l: seq<T>, r: seq<T>, i: nat, j: nat)
    requires i <= |l| && 0 < j <= |r| && (l == [] || !Le(cmp, l[0], r[0]))
    requires Merge(cmp, l, r[1..]) == Merge(cmp, l[..i], r[1..][..j - 1]) + Merge(cmp, l[i..], r[1..][j - 1..])
    ensures Merge(cmp, l, r) == Merge(cmp, l[..i], r[..j]) + Merge(cmp, l[i..], r[j..])
  {
    hide Merge;
    var front := r[..j];
    assert front[0] == r[0] && r[1..][j - 1..] == r[j..] && front[1..] == r[1..][..j - 1];
    MergeTakeRight(cmp, l, r);
    MergeTakeRight(cmp, l[..i], front);
  }

  /** The last element of a merge of sorted sequences is the last of the right operand, unless that is strictly smaller. */
  lemma {:induction false} MergeLast<T(!new)>(cmp: (T, T) -> int, l: seq<T>, r: seq<T>)
    requires TotalPreorder(cmp)
    requires Sorted(cmp, l) && Sorted(cmp, r) && l != [] && r != []
    ensures Le(cmp, l[|l| - 1], r[|r| - 1]) ==>
              Merge(cmp, l, r) == Merge(cmp, l, r[..|r| - 1]) + [r[|r| - 1]]
    ensures !Le(cmp, l[|l| - 1], r[|r| - 1]) ==>
              Merge(cmp, l, r) == Merge(cmp, l[..|l| - 1], r) + [l[|l| - 1]]
  {
    var m, n := |l| - 1, |r| - 1;
    if Le(cmp, l[m], r[n]) {
      MergeSplit(cmp, l, r, m + 1, n);
      assert l[..m + 1] == l && l[m + 1..] == [] && r[n..] == [r[n]];
    } else {
      MergeSplit(cmp, l, r, m, n + 1);
      assert r[..n + 1] == r && r[n + 1..] == [] && l[m..] == [l[m]];
    }
  }

  /** Nothing moves when the left operand's last element may stay before the right operand's first. */
  lemma {:induction false} MergeOrdered<T(!new)>(cmp: (T, T) -> int, l: seq<T>, r: seq<T>)
    requires TotalPreorder(cmp)
    requires Sorted(cmp, l) && Sorted(cmp, r)
    requires l != [] && r != [] ==> Le(cmp, l[|l| - 1], r[0])
    ensures Merge(cmp, l, r) == l + r
  {
    if l != [] && r != [] {
      forall x, y | 0 <= x < |l| && 0 <= y < |r| ensures Le(cmp, l[x], r[y]) {
        assert Le(cmp, l[x], l[|l| - 1]) || x == |l| - 1;
        assert Le(cmp, r[0], r[y]) || y == 0;
      }
      MergeSplit(cmp, l, r, |l|, 0);
      assert l[..|l|] == l && l[|l|..] == [] && r[..0] == [] && r[0..] == r;
    }
  }

  lemma {:induction false} MergeSorted<T(!new)>(cmp: (T, T) -> int, l: seq<T>, r: seq<T>)
    requires TotalPreorder(cmp)
    requires Sorted(cmp, l) && Sorted(cmp, r)
    ensures Sorted(cmp, Merge(cmp, l, r))
    decreases |l| + |r|
  {
    if l == [] || r == [] {
    } else {
      var m := Merge(cmp, l, r);
      var lo := if Le(cmp, l[0], r[0]) then l[0] else r[0];
      if Le(cmp, l[0], r[0]) { MergeSorted(cmp, l[1..], r); } else { MergeSorted(cmp, l, r[1..]); }
      forall k | 0 <= k < |m| ensures Le(cmp, lo, m[k]) {
        MergeMember(cmp, l, r, k);
      }
    }
  }

  lemma {:induction false} MergeElements<T(!new)>(cmp: (T, T) -> int, l: seq<T>, r: seq<T>)
    ensures multiset(Merge(cmp, l, r)) == multiset(l) + multiset(r)
    decreases |l| + |r|
  {
    if l != [] && r != [] {
      hide Merge;
      if Le(cmp, l[0], r[0]) {
        MergeTakeLeft(cmp, l, r);
        MergeElements(cmp, l[1..], r);
        FirstElement(l);
        FirstElement(Merge(cmp, l, r));
        assert Merge(cmp, l, r)[1..] == Merge(cmp, l[1..], r);
      } else {
        MergeTakeRight(cmp, l, r);
        MergeElements(cmp, l, r[1..]);
        FirstElement(r);
        FirstElement(Merge(cmp, l, r));
        assert Merge(cmp, l, r)[1..] == Merge(cmp, l, r[1..]);
      }
    }
  }

  lemma FirstElement<T(!new)>(s: seq<T>)
    requires s != []
    ensures multiset(s) == multiset{s[0]} + multiset(s[1..])
  {
    assert s == [s[0]] + s[1..];
  }

  lemma {:induction false} MergeMember<T(!new)>(cmp: (T, T) -> int, l: seq<T>, r: seq<T>, k: nat)
    requires k < |l| + |r|
    ensures Merge(cmp, l, r)[k] in l || Merge(cmp, l, r)[k] in r
  {
    MergeElements(cmp, l, r);
    assert Merge(cmp, l, r)[k] in multiset(Merge(cmp, l, r));
  }

  // ---------------------------------------------------------------- stability

  lemma {:induction false} ClassAppend<T(!new)>(cmp: (T, T) -> int, x: T, s: seq<T>, t: seq<T>)
    ensures Class(cmp, x, s + t) == Class(cmp, x, s) + Class(cmp, x, t)
  {
    if s == [] {
      assert s + t == t;
    } else {
      assert (s + t)[0] == s[0] && (s + t)[1..] == s[1..] + t;
      ClassAppend(cmp, x, s[1..], t);
    }
  }

  lemma {:induction false} ClassEmpty<T(!new)>(cmp: (T, T) -> int, x: T, s: seq<T>)
    requires forall k :: 0 <= k < |s| ==> !(Le(cmp, x, s[k]) && Le(cmp, s[k], x))
    ensures Class(cmp, x, s) == []
  {
    if s != [] { ClassEmpty(cmp, x, s[1..]); }
  }

  lemma {:induction false} ClassCons<T(!new)>(cmp: (T, T) -> int, x: T, y: T, s: seq<T>)
    ensures Class(cmp, x, [y] + s) == (if Le(cmp, x, y) && Le(cmp, y, x) then [y] else []) + Class(cmp, x, s)
  {
    assert ([y] + s)[1..] == s;
  }

  lemma SwapBlocks<T>(c: seq<T>, s: seq<T>, t: seq<T>)
    requires c == [] || s == []
    ensures c + (s + t) == s + (c + t)
  {
  }

  /** Merging never reorders equivalent elements of the concatenation. */
  lemma {:induction false} MergeStable<T(!new)>(cmp: (T, T) -> int, x: T, l: seq<T>, r: seq<T>)
    requires TotalPreorder(cmp)
    requires Sorted(cmp, l)
    ensures Class(cmp, x, Merge(cmp, l, r)) == Class(cmp, x, l) + Class(cmp, x, r)
    decreases |l| + |r|
  {
    if l == [] || r == [] {
    } else if Le(cmp, l[0], r[0]) {
      MergeStable(cmp, x, l[1..], r);
      MergeStableLeft(cmp, x, l[0], l[1..], r, Merge(cmp, l[1..], r));
      assert l == [l[0]] + l[1..];
    } else {
      MergeStable(cmp, x, l, r[1..]);
      if Le(cmp, x, r[0]) && Le(cmp, r[0], x) {
        ClassAbove(cmp, x, l, r[0]);
      }
      MergeStableRight(cmp, x, l, r[0], r[1..], Merge(cmp, l, r[1..]));
      assert r == [r[0]] + r[1..];
    }
  }

  lemma {:induction false} MergeStableLeft<T(!new)>(cmp: (T, T) -> int, x: T, a: T, l: seq<T>, r: seq<T>, m: seq<T>)
    requires Class(cmp, x, m) == Class(cmp, x, l) + Class(cmp, x, r)
    ensures Class(cmp, x, [a] + m) == Class(cmp, x, [a] + l) + Class(cmp, x, r)
  {
    ClassCons(cmp, x, a, m);
    ClassCons(cmp, x, a, l);
  }

  lemma {:induction false} MergeStableRight<T(!new)>(cmp: (T, T) -> int, x: T, l: seq<T>, b: T, r: seq<T>, m: seq<T>)
    requires Class(cmp, x, m) == Class(cmp, x, l) + Class(cmp, x, r)
    requires Le(cmp, x, b) && Le(cmp, b, x) ==> Class(cmp, x, l) == []
    ensures Class(cmp, x, [b] + m) == Class(cmp, x, l) + Class(cmp, x, [b] + r)
  {
    ClassCons(cmp, x, b, m);
    ClassCons(cmp, x, b, r);
    SwapBlocks(if Le(cmp, x, b) && Le(cmp, b, x) then [b] else [], Class(cmp, x, l), Class(cmp, x, r));
  }

  lemma {:induction false} ClassAbove<T(!new)>(cmp: (T, T) -> int, x: T, l: seq<T>, y: T)
    requires TotalPreorder(cmp) && Sorted(cmp, l) && l != []
    requires !Le(cmp, l[0], y) && Le(cmp, x, y)
    ensures Class(cmp, x, l) == []
  {
    forall k | 0 <= k < |l| ensures !Le(cmp, l[k], x) {
      assert k == 0 || Le(cmp, l[0], l[k]);
    }
    ClassEmpty(cmp, x, l);
  }

  // ---------------------------------------------------------------- sorting

  lemma {:induction false} SortSorted<T(!new)>(cmp: (T, T) -> int, s: seq<T>)
    requires TotalPreorder(cmp)
    ensures Sorted(cmp, Sort(cmp, s))
  {
    if |s| > 0 {
      SortSorted(cmp, s[..|s| - 1]);
      MergeSorted(cmp, Sort(cmp, s[..|s| - 1]), [s[|s| - 1]]);
    }
  }

  /** The reference sort is a sorted, stable permutation of its argument. */
  lemma {:induction false} SortIsStable<T(!new)>(cmp: (T, T) -> int, s: seq<T>)
    requires TotalPreorder(cmp)
    ensures Sorted(cmp, Sort(cmp, s))
    ensures StablePermutation(cmp, s, Sort(cmp, s))
    ensures multiset(Sort(cmp, s)) == multiset(s)
  {
    SortSorted(cmp, s);
    if |s| > 0 {
      var front, last := s[..|s| - 1], [s[|s| - 1]];
      assert s == front + last;
      SortIsStable(cmp, front);
      MergeElements(cmp, Sort(cmp, front), last);
      forall x ensures Class(cmp, x, s) == Class(cmp, x, Sort(cmp, s)) {
        MergeStable(cmp, x, Sort(cmp, front), last);
        ClassAppend(cmp, x, front, last);
      }
    }
  }

  /** What that means for any two places of the result: the comparison never says that the later one comes first. */
  lemma SortAscends<T(!new)>(cmp: (T, T) -> int, s: seq<T>, i: nat, j: nat)
    requires TotalPreorder(cmp) && i < j < |s|
    ensures cmp(Sort(cmp, s)[i], Sort(cmp, s)[j]) <= 0
  {
    hide Sort;
    SortIsStable(cmp, s);
  }

  lemma {:induction false} ClassesEmpty<T(!new)>(cmp: (T, T) -> int, s: seq<T>, t: seq<T>)
    requires TotalPreorder(cmp) && StablePermutation(cmp, s, t)
    ensures s == [] <==> t == []
  {
    if s != [] { assert Class(cmp, s[0], s)[0] == s[0]; }
    if t != [] { assert Class(cmp, t[0], t)[0] == t[0]; }
  }

  /** A sorted sequence is determined by its classes: sorted stable permutations are unique. */
  lemma {:induction false} StableSortUnique<T(!new)>(cmp: (T, T) -> int, s: seq<T>, t: seq<T>)
    requires TotalPreorder(cmp)
    requires Sorted(cmp, s) && Sorted(cmp, t)
    requires StablePermutation(cmp, s, t)
    ensures s == t
  {
    ClassesEmpty(cmp, s, t);
    if s != [] {
      StableHeads(cmp, s, t);
      forall x ensures Class(cmp, x, s[1..]) == Class(cmp, x, t[1..]) {
        assert Class(cmp, x, s) == Class(cmp, x, t);
        var pre := if Le(cmp, x, s[0]) && Le(cmp, s[0], x) then [s[0]] else [];
        assert Class(cmp, x, s)[|pre|..] == Class(cmp, x, s[1..]);
        assert Class(cmp, x, t)[|pre|..] == Class(cmp, x, t[1..]);
      }
      StableSortUnique(cmp, s[1..], t[1..]);
      assert s == [s[0]] + s[1..] && t == [t[0]] + t[1..];
    }
  }

  lemma {:induction false} StableHeads<T(!new)>(cmp: (T, T) -> int, s: seq<T>, t: seq<T>)
    requires TotalPreorder(cmp)
    requires Sorted(cmp, s) && Sorted(cmp, t) && s != [] && t != []
    requires StablePermutation(cmp, s, t)
    ensures s[0] == t[0]
  {
    assert Class(cmp, s[0], s)[0] == s[0] && Class(cmp, t[0], t)[0] == t[0];
    ClassMember(cmp, s[0], t);
    ClassMember(cmp, t[0], s);
    assert s[0] in Class(cmp, s[0], t) && t[0] in Class(cmp, t[0], s);
    assert Le(cmp, s[0], t[0]) && Le(cmp, t[0], s[0]);
    assert Class(cmp, s[0], t)[0] == t[0];
  }

  lemma {:induction false} ClassMember<T(!new)>(cmp: (T, T) -> int, x: T, s: seq<T>)
    ensures forall y :: y in Class(cmp, x, s) ==> y in s
  {
    if s != [] { ClassMember(cmp, x, s[1..]); }
  }

  /** Sorting distributes over concatenation; this is what lets run merging stand for sorting. */
  lemma {:induction false} SortConcat<T(!new)>(cmp: (T, T) -> int, s: seq<T>, t: seq<T>)
    requires TotalPreorder(cmp)
    ensures Sort(cmp, s + t) == Merge(cmp, Sort(cmp, s), Sort(cmp, t))
  {
    var a, b := Sort(cmp, s + t), Merge(cmp, Sort(cmp, s), Sort(cmp, t));
    SortIsStable(cmp, s);
    SortIsStable(cmp, t);
    SortIsStable(cmp, s + t);
    MergeSorted(cmp, Sort(cmp, s), Sort(cmp, t));
    forall x ensures Class(cmp, x, a) == Class(cmp, x, b) {
      assert Class(cmp, x, a) == Class(cmp, x, s + t);
      ClassAppend(cmp, x, s, t);
      MergeStable(cmp, x, Sort(cmp, s), Sort(cmp, t));
    }
    StableSortUnique(cmp, a, b);
  }

  lemma {:induction false} SortOfSorted<T(!new)>(cmp: (T, T) -> int, s: seq<T>)
    requires TotalPreorder(cmp) && Sorted(cmp, s)
    ensures Sort(cmp, s) == s
  {
    SortIsStable(cmp, s);
    StableSortUnique(cmp, s, Sort(cmp, s));
  }
}
