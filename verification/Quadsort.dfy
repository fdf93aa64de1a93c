/** quadsort and quadsort_swap of wow_iot/inc/algorithm/quadsort.c. */
module Quadsort {
  import opened StableMerge
  import opened QuadsortMerge
  import opened QuadsortPartial
  import opened QuadsortBlit
  import opened QuadsortRuns
  import opened QuadsortPasses
  import opened QuadsortSmall
  import opened QuadsortSwap

  /** Four runs of eight at `p`: nothing to do if their seams are in order, else three parity merges. */
  method BlockOf32<T(!new)>(a: array<T>, p: nat, swap: array<T>, cmp: (T, T) -> int,
                            ghost x: seq<T>, ghost y: seq<T>, ghost z: seq<T>, ghost w: seq<T>)
    requires a != swap && swap.Length == 32 && |x| == |y| == |z| == |w| == 8 && TotalPreorder(cmp)
    requires At(a, p, Sort(cmp, x)) && At(a, p + 8, Sort(cmp, y)) && At(a, p + 16, Sort(cmp, z)) && At(a, p + 24, Sort(cmp, w))
    modifies a, swap
    ensures At(a, p, Sort(cmp, x + y + (z + w)))
    ensures forall q :: 0 <= q < a.Length && !(p <= q < p + 32) ==> a[q] == old(a[q])
  {
    hide At, Sort, TotalPreorder;
    AtIndex(a, p, Sort(cmp, x), 7);
    AtIndex(a, p + 8, Sort(cmp, y), 0);
    AtIndex(a, p + 24, Sort(cmp, w), 7);
    if cmp(a[p + 7], a[p + 8]) <= 0 && cmp(a[p + 15], a[p + 16]) <= 0 && cmp(a[p + 23], a[p + 24]) <= 0 {
      SeamInOrder(a, p, cmp, x, y);
      SeamInOrder(a, p + 16, cmp, z, w);
      SeamInOrder(a, p, cmp, x + y, z + w);
    } else {
      MergeEights(a, p, swap, cmp, x, y, z, w);
    }
  }

  method MergeEights<T(!new)>(a: array<T>, p: nat, swap: array<T>, cmp: (T, T) -> int,
                              ghost x: seq<T>, ghost y: seq<T>, ghost z: seq<T>, ghost w: seq<T>)
    requires a != swap && swap.Length == 32 && |x| == |y| == |z| == |w| == 8 && TotalPreorder(cmp)
    requires At(a, p, Sort(cmp, x)) && At(a, p + 8, Sort(cmp, y)) && At(a, p + 16, Sort(cmp, z)) && At(a, p + 24, Sort(cmp, w))
    modifies a, swap
    ensures At(a, p, Sort(cmp, x + y + (z + w)))
    ensures forall q :: 0 <= q < a.Length && !(p <= q < p + 32) ==> a[q] == old(a[q])
  {
    hide At, InSeq, Sort, Merge, TotalPreorder, Sorted;
    SortSorted(cmp, x);
    SortSorted(cmp, y);
    SortSorted(cmp, z);
    SortSorted(cmp, w);
    ghost var l, r := Sort(cmp, x + y), Sort(cmp, z + w);
    SortConcat(cmp, x, y);
    SortConcat(cmp, z, w);
    SortConcat(cmp, x + y, z + w);
    SortSorted(cmp, x + y);
    SortSorted(cmp, z + w);
    AtIndex(a, p + 24, Sort(cmp, w), 7);
    ParityMerge(swap, 0, a, p, 8, 16, cmp, Sort(cmp, x), Sort(cmp, y));
    AtBefore(swap, 0, l);
    ghost var was := swap[..];
    ParityMerge(swap, 16, a, p + 16, 8, 16, cmp, Sort(cmp, z), Sort(cmp, w));
    AtKeepRange(swap, 0, l, 16, 32, was);
    ParityMerge(a, p, swap, 0, 16, 32, cmp, l, r);
  }

  method Step32<T(!new)>(a: array<T>, p: nat, swap: array<T>, cmp: (T, T) -> int, ghost o: seq<T>, ghost was: seq<T>)
    requires a != swap && swap.Length == 32 && p + 32 <= |o|
    requires Pass(a, 0, cmp, o, 8, 32, p, was) && TotalPreorder(cmp)
    modifies a, swap
    ensures Pass(a, 0, cmp, o, 8, 32, p + 32, was)
  {
    hide Pass, At, TotalPreorder, Sort, Runs, Multiple;
    ghost var x, y, z, w := o[p..p + 8], o[p + 8..p + 16], o[p + 16..p + 24], o[p + 24..p + 32];
    QuadCut(a, 0, cmp, o, 8, 32, p, was);
    PassFrame(a, 0, cmp, o, 8, 32, p, was);
    ghost var before := a[..];
    assert before[p + 32..|o|] == a[p + 32..|o|];
    BlockOf32(a, p, swap, cmp, x, y, z, w);
    FourSlices(o, p, 8);
    PassJoin(a, 0, cmp, o, 8, 32, p, p + 32, was, before);
  }

  /** Leaves sorted runs of 32 of a stable rearrangement of the input, or the whole array sorted. */
  method QuadSwap<T(!new)>(a: array<T>, cmp: (T, T) -> int, ghost o: seq<T>) returns (whole: bool, ghost o2: seq<T>)
    requires a[..] == o && a.Length >= 32 && TotalPreorder(cmp)
    modifies a
    ensures |o2| == |o| && StablePermutation(cmp, o, o2)
    ensures if whole then a[..] == Sort(cmp, o2) else RunsAt(a, 0, cmp, o2, 32)
  {
    hide Pass, At, TotalPreorder, Sort, Runs, RunsAt, Eights, Multiple, StablePermutation;
    whole, o2 := ScanGroups(a, cmp, o);
    if whole { return; }
    SortRemainder(a, cmp, o2);
    ghost var was := a[..];
    PassStart(a, 0, cmp, o2, 8, 32);
    var first := a[0];
    var swap := new T[32](_ => first);
    var p, count := 0, a.Length / 32;
    while count > 0
      invariant 0 <= count && p + 32 * count == a.Length / 32 * 32
      invariant Pass(a, 0, cmp, o2, 8, 32, p, was)
    {
      Step32(a, p, swap, cmp, o2, was);
      p, count := p + 32, count - 1;
    }
    if a.Length % 32 > 8 {
      QuadRest(a, 0, swap, 32, a.Length, 8, cmp, o2, p, was);
      PassEnd(a, 0, cmp, o2, 8, 32, a.Length, was);
    } else {
      PassEnd(a, 0, cmp, o2, 8, 32, p, was);
    }
  }

  /** The fewer than eight elements after the last whole group. */
  method SortRemainder<T(!new)>(a: array<T>, cmp: (T, T) -> int, ghost o: seq<T>)
    requires Eights(a, cmp, o, a.Length / 8 * 8) && TotalPreorder(cmp)
    modifies a
    ensures RunsAt(a, 0, cmp, o, 8) && a.Length == |o|
  {
    hide At, InSeq, TotalPreorder, Sort, Runs, RunsAt, Eights;
    var p := a.Length / 8 * 8;
    EightsParts(a, cmp, o, p);
    ghost var h, rest := a[..p], o[p..];
    AtBefore(a, 0, h);
    ghost var was := a[..];
    TailSwap(a, p, a.Length % 8, cmp, rest);
    AtKeepRange(a, 0, h, p, a.Length, was);
    MultipleOfEight(p);
    RunsExtend(cmp, h, o[..p], Sort(cmp, rest), rest, 8);
    assert o[..p] + rest == o;
    AtJoin(a, 0, h, Sort(cmp, rest));
    AtRuns(a, 0, cmp, h + Sort(cmp, rest), o, 8);
  }

  lemma AtRuns<T(!new)>(a: array<T>, d: int, cmp: (T, T) -> int, s: seq<T>, o: seq<T>, block: nat)
    requires At(a, d, s) && Runs(cmp, s, o, block)
    ensures RunsAt(a, d, cmp, o, block)
  {
  }

  lemma {:induction false} DoublesOnce(block: int, size: int)
    requires Doubles(block, size) && block > 0
    ensures Doubles(block, size + size)
    decreases size - block
  {
    if block < size {
      DoublesOnce(block + block, size);
    } else {
      assert Doubles(block + block, size + size);
    }
  }

  /** What both entry points promise: the stable sort of the input, and nothing else. */
  ghost predicate StablySorted<T(!new)>(cmp: (T, T) -> int, input: seq<T>, output: seq<T>) {
    Sorted(cmp, output) && StablePermutation(cmp, input, output) && multiset(output) == multiset(input)
  }

  lemma SortedVia<T(!new)>(cmp: (T, T) -> int, o: seq<T>, o2: seq<T>, s: seq<T>)
    requires TotalPreorder(cmp) && StablePermutation(cmp, o, o2) && s == Sort(cmp, o2)
    ensures StablySorted(cmp, o, s) && s == Sort(cmp, o)
  {
    SortSame(cmp, o, o2);
    SortIsStable(cmp, o);
  }

  /** Sorts any array under any total preorder, whichever allocation succeeds: the large buffer, 512 elements, or none. */
  method QuadSort<T(!new)>(a: array<T>, cmp: (T, T) -> int, largeAllocated: bool, smallAllocated: bool)
    requires TotalPreorder(cmp)
    modifies a
    ensures StablySorted(cmp, old(a[..]), a[..]) && a[..] == Sort(cmp, old(a[..]))
  {
    hide TotalPreorder, Sort, StablySorted, StablePermutation, At, RunsAt;
    ghost var o := a[..];
    if a.Length < 32 {
      WholeArrayAt(a);
      TailSwap(a, 0, a.Length, cmp, o);
      WholeAt(a, Sort(cmp, o));
      StableRefl(cmp, o);
      SortedVia(cmp, o, o, a[..]);
      return;
    }
    var whole;
    ghost var o2;
    whole, o2 := QuadSwap(a, cmp, o);
    if !whole {
      MergeRuns(a, cmp, largeAllocated, smallAllocated, o2);
    }
    SortedVia(cmp, o, o2, a[..]);
  }

  lemma WholeArrayAt<T>(a: array<T>)
    ensures At(a, 0, a[..])
  {
  }

  /** Runs of 32 become one, with the buffer that could be had. */
  method MergeRuns<T(!new)>(a: array<T>, cmp: (T, T) -> int, largeAllocated: bool, smallAllocated: bool, ghost o: seq<T>)
    requires RunsAt(a, 0, cmp, o, 32) && a.Length == |o| >= 32 && TotalPreorder(cmp)
    modifies a
    ensures a[..] == Sort(cmp, o)
  {
    hide TotalPreorder, Sort, At, RunsAt, Doubles, PowerOfTwo;
    var first := a[0];
    var swapSize := 32;
    DoublesRefl(32);
    PowersOfTwo();
    while swapSize * 4 <= a.Length
      invariant 32 <= swapSize && Doubles(32, swapSize) && PowerOfTwo(swapSize)
      invariant RunsAt(a, 0, cmp, o, 32)
    {
      DoublesOnce(32, swapSize);
      DoublesOnce(32, swapSize + swapSize);
      PowerDouble(swapSize);
      PowerDouble(swapSize + swapSize);
      swapSize := swapSize * 4;
    }
    if !largeAllocated {
      swapSize := 512;
      if !smallAllocated {
        var stack := new T[32](_ => first);
        TailMerge(a, 0, stack, 32, a.Length, 32, cmp, o);
        BlitMerge(a, 0, stack, 32, a.Length, 64, cmp, o);
        WholeAt(a, Sort(cmp, o));
        return;
      }
    }
    var swap := new T[swapSize](_ => first);
    QuadMerge(a, 0, swap, swapSize, a.Length, 32, cmp, o);
    PowerDouble(swapSize);
    BlitMerge(a, 0, swap, swapSize, a.Length, swapSize + swapSize, cmp, o);
    WholeAt(a, Sort(cmp, o));
  }

  lemma DoublesRefl(n: int)
    ensures Doubles(n, n)
  {
  }

  lemma PowersOfTwo()
    ensures PowerOfTwo(32) && PowerOfTwo(64) && PowerOfTwo(512) && Doubles(32, 512)
  {
    PowerDouble(1);
    PowerDouble(2);
    PowerDouble(4);
    PowerDouble(8);
    PowerDouble(16);
    PowerDouble(32);
    PowerDouble(64);
    PowerDouble(128);
    PowerDouble(256);
    DoublesOnce(32, 32);
    DoublesOnce(32, 64);
    DoublesOnce(32, 128);
    DoublesOnce(32, 256);
  }

  /** quadsort_swap: the caller's buffer is as long as the array. */
  method SortWithSwap<T(!new)>(a: array<T>, swap: array<T>, cmp: (T, T) -> int)
    requires a != swap && swap.Length >= a.Length && TotalPreorder(cmp)
    modifies a, swap
    ensures StablySorted(cmp, old(a[..]), a[..]) && a[..] == Sort(cmp, old(a[..]))
  {
    hide TotalPreorder, Sort, StablySorted, StablePermutation, At, RunsAt;
    ghost var o := a[..];
    if a.Length < 32 {
      WholeArrayAt(a);
      TailSwap(a, 0, a.Length, cmp, o);
      WholeAt(a, Sort(cmp, o));
      StableRefl(cmp, o);
      SortedVia(cmp, o, o, a[..]);
      return;
    }
    var whole;
    ghost var o2;
    whole, o2 := QuadSwap(a, cmp, o);
    if !whole {
      QuadMerge(a, 0, swap, a.Length, a.Length, 32, cmp, o2);
      WholeAt(a, Sort(cmp, o2));
    }
    SortedVia(cmp, o, o2, a[..]);
  }
}
