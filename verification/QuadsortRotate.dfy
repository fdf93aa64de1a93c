/** In-place rotation (trinity_rotation of quadsort.c): the swap buffer may be as small as one element. */
module QuadsortRotate {
  import opened QuadsortMerge
  import opened QuadsortPartial

  /** memmove inside one array. */
  method MoveBlock<T>(a: array<T>, d: nat, s: nat, n: nat, ghost x: seq<T>)
    requires d + n <= a.Length && |x| == n && At(a, s, x)
    modifies a
    ensures At(a, d, x)
    ensures forall p :: 0 <= p < a.Length && !(d <= p < d + n) ==> a[p] == old(a[p])
  {
    forall i | 0 <= i < n {
      a[d + i] := a[s + i];
    }
    assert a[d..d + n] == old(a[s..s + n]);
  }

  /** Element p of `o` rotated left by `left`. */
  ghost function Turned<T>(o: seq<T>, left: int, p: int): T
    requires 0 <= left <= |o| && 0 <= p < |o|
  {
    if p < |o| - left then o[left + p] else o[p - (|o| - left)]
  }

  /** A rotation in progress: final elements outside pa..n-pa, the untouched original in pa..pb and pc..n-pa,
      and in pb..pc the final elements mirrored around the middle of the whole. */
  ghost function Stage<T>(o: seq<T>, left: int, pa: int, pb: int, pc: int, p: int): T
    requires 0 <= left <= |o| && 0 <= p < |o|
  {
    if p < pa || |o| - pa <= p then Turned(o, left, p)
    else if p < pb || pc <= p then o[p]
    else Turned(o, left, |o| - 1 - p)
  }

  ghost predicate Rotating<T>(s: seq<T>, o: seq<T>, left: int, pa: int, pb: int, pc: int) {
    && 0 <= left <= |o| == |s|
    && 0 <= pa <= pb <= pc <= |o| - pa
    && (forall p :: 0 <= p < |s| ==> s[p] == Stage(o, left, pa, pb, pc, p))
  }

  lemma RotationDone<T>(s: seq<T>, o: seq<T>, left: int, pa: int)
    requires Rotating(s, o, left, pa, pa, |o| - pa) && |o| - pa - pa <= 1
    ensures s == o[left..] + o[..left]
  {
    forall p | 0 <= p < |s| ensures s[p] == Turned(o, left, p) {
      assert s[p] == Stage(o, left, pa, pa, |o| - pa, p);
      assert pa <= p < |o| - pa ==> p == |o| - 1 - p;
    }
  }

  /** First phase: four cells change places around both ends and the seam. */
  method CrossStep<T>(a: array<T>, d: nat, n: nat, swap: array<T>, pa: nat, pb: nat, pc: nat, ghost o: seq<T>, ghost left: int)
    requires a != swap && swap.Length > 0 && n == |o| && d + n <= a.Length
    requires pb == left - pa && pc == left + pa && pa + 1 <= pb - 1 && pc + 1 <= n - pa - 1
    requires Rotating(a[d..d + n], o, left, pa, pb, pc)
    modifies a, swap
    ensures Rotating(a[d..d + n], o, left, pa + 1, pb - 1, pc + 1)
    ensures forall p :: 0 <= p < a.Length && !(d <= p < d + n) ==> a[p] == old(a[p])
  {
    hide Rotating;
    ghost var s := a[d..d + n];
    swap[0] := a[d + pb - 1];
    a[d + pb - 1] := a[d + pa];
    a[d + pa] := a[d + pc];
    a[d + pc] := a[d + n - pa - 1];
    a[d + n - pa - 1] := swap[0];
    ghost var t := a[d..d + n];
    assert |t| == |s| && t[pb - 1] == s[pa] && t[pa] == s[pc] && t[pc] == s[n - pa - 1] && t[n - pa - 1] == s[pb - 1];
    CrossKeeps(s, t, o, left, pa, pb, pc);
  }

  lemma CrossKeeps<T>(s: seq<T>, t: seq<T>, o: seq<T>, left: int, pa: nat, pb: nat, pc: nat)
    requires pb == left - pa && pc == left + pa && pa + 1 <= pb - 1 && pc + 1 <= |o| - pa - 1
    requires Rotating(s, o, left, pa, pb, pc) && |t| == |s|
    requires t[pb - 1] == s[pa] && t[pa] == s[pc] && t[pc] == s[|o| - pa - 1] && t[|o| - pa - 1] == s[pb - 1]
    requires forall p :: 0 <= p < |s| && p != pa && p != pb - 1 && p != pc && p != |o| - pa - 1 ==> t[p] == s[p]
    ensures Rotating(t, o, left, pa + 1, pb - 1, pc + 1)
  {
    forall p | 0 <= p < |t| ensures t[p] == Stage(o, left, pa + 1, pb - 1, pc + 1, p) {
      assert s[p] == Stage(o, left, pa, pb, pc, p);
    }
  }

  /** Second phase with the longer part on the right. */
  method RightStep<T>(a: array<T>, d: nat, n: nat, swap: array<T>, pa: nat, pc: nat, ghost o: seq<T>, ghost left: int)
    requires a != swap && swap.Length > 0 && n == |o| && d + n <= a.Length
    requires pc == left + pa && 0 < left && pc + 1 <= n - pa - 1
    requires Rotating(a[d..d + n], o, left, pa, pa, pc)
    modifies a, swap
    ensures Rotating(a[d..d + n], o, left, pa + 1, pa + 1, pc + 1)
    ensures forall p :: 0 <= p < a.Length && !(d <= p < d + n) ==> a[p] == old(a[p])
  {
    hide Rotating;
    ghost var s := a[d..d + n];
    swap[0] := a[d + pc];
    a[d + pc] := a[d + n - pa - 1];
    a[d + n - pa - 1] := a[d + pa];
    a[d + pa] := swap[0];
    ghost var t := a[d..d + n];
    assert |t| == |s| && t[pc] == s[n - pa - 1] && t[n - pa - 1] == s[pa] && t[pa] == s[pc];
    RightKeeps(s, t, o, left, pa, pc);
  }

  lemma RightKeeps<T>(s: seq<T>, t: seq<T>, o: seq<T>, left: int, pa: nat, pc: nat)
    requires pc == left + pa && 0 < left && pc + 1 <= |o| - pa - 1
    requires Rotating(s, o, left, pa, pa, pc) && |t| == |s|
    requires t[pc] == s[|o| - pa - 1] && t[|o| - pa - 1] == s[pa] && t[pa] == s[pc]
    requires forall p :: 0 <= p < |s| && p != pa && p != pc && p != |o| - pa - 1 ==> t[p] == s[p]
    ensures Rotating(t, o, left, pa + 1, pa + 1, pc + 1)
  {
    forall p | 0 <= p < |t| ensures t[p] == Stage(o, left, pa + 1, pa + 1, pc + 1, p) {
      assert s[p] == Stage(o, left, pa, pa, pc, p);
    }
  }

  /** Second phase with the longer part on the left. */
  method LeftStep<T>(a: array<T>, d: nat, n: nat, swap: array<T>, pa: nat, pb: nat, ghost o: seq<T>, ghost left: int)
    requires a != swap && swap.Length > 0 && n == |o| && d + n <= a.Length
    requires pb == left - pa && left < n && pa + 1 <= pb - 1
    requires Rotating(a[d..d + n], o, left, pa, pb, n - pa)
    modifies a, swap
    ensures Rotating(a[d..d + n], o, left, pa + 1, pb - 1, n - pa - 1)
    ensures forall p :: 0 <= p < a.Length && !(d <= p < d + n) ==> a[p] == old(a[p])
  {
    hide Rotating;
    ghost var s := a[d..d + n];
    swap[0] := a[d + pb - 1];
    a[d + pb - 1] := a[d + pa];
    a[d + pa] := a[d + n - pa - 1];
    a[d + n - pa - 1] := swap[0];
    ghost var t := a[d..d + n];
    assert |t| == |s| && t[pb - 1] == s[pa] && t[pa] == s[n - pa - 1] && t[n - pa - 1] == s[pb - 1];
    LeftKeeps(s, t, o, left, pa, pb);
  }

  lemma LeftKeeps<T>(s: seq<T>, t: seq<T>, o: seq<T>, left: int, pa: nat, pb: nat)
    requires pb == left - pa && left < |o| && pa + 1 <= pb - 1
    requires Rotating(s, o, left, pa, pb, |o| - pa) && |t| == |s|
    requires t[pb - 1] == s[pa] && t[pa] == s[|o| - pa - 1] && t[|o| - pa - 1] == s[pb - 1]
    requires forall p :: 0 <= p < |s| && p != pa && p != pb - 1 && p != |o| - pa - 1 ==> t[p] == s[p]
    ensures Rotating(t, o, left, pa + 1, pb - 1, |o| - pa - 1)
  {
    forall p | 0 <= p < |t| ensures t[p] == Stage(o, left, pa + 1, pb - 1, |o| - pa - 1, p) {
      assert s[p] == Stage(o, left, pa, pb, |o| - pa, p);
    }
  }

  /** Last phase: plain reversal of what is still mirrored. */
  method MirrorStep<T>(a: array<T>, d: nat, n: nat, swap: array<T>, pa: nat, ghost o: seq<T>, ghost left: int)
    requires a != swap && swap.Length > 0 && n == |o| && d + n <= a.Length
    requires pa + 1 <= n - pa - 1
    requires Rotating(a[d..d + n], o, left, pa, pa, n - pa)
    modifies a, swap
    ensures Rotating(a[d..d + n], o, left, pa + 1, pa + 1, n - pa - 1)
    ensures forall p :: 0 <= p < a.Length && !(d <= p < d + n) ==> a[p] == old(a[p])
  {
    hide Rotating;
    ghost var s := a[d..d + n];
    swap[0] := a[d + pa];
    a[d + pa] := a[d + n - pa - 1];
    a[d + n - pa - 1] := swap[0];
    ghost var t := a[d..d + n];
    assert |t| == |s| && t[pa] == s[n - pa - 1] && t[n - pa - 1] == s[pa];
    MirrorKeeps(s, t, o, left, pa);
  }

  lemma MirrorKeeps<T>(s: seq<T>, t: seq<T>, o: seq<T>, left: int, pa: nat)
    requires pa + 1 <= |o| - pa - 1
    requires Rotating(s, o, left, pa, pa, |o| - pa) && |t| == |s|
    requires t[pa] == s[|o| - pa - 1] && t[|o| - pa - 1] == s[pa]
    requires forall p :: 0 <= p < |s| && p != pa && p != |o| - pa - 1 ==> t[p] == s[p]
    ensures Rotating(t, o, left, pa + 1, pa + 1, |o| - pa - 1)
  {
    forall p | 0 <= p < |t| ensures t[p] == Stage(o, left, pa + 1, pa + 1, |o| - pa - 1, p) {
      assert s[p] == Stage(o, left, pa, pa, |o| - pa, p);
    }
  }

  /** An odd element left in the middle of either part is its own mirror image. */
  lemma SettleLeft<T>(s: seq<T>, o: seq<T>, left: int, pa: int, pb: int, pc: int)
    requires Rotating(s, o, left, pa, pb, pc) && pb == left - pa && pb - pa <= 1 && left < |o|
    ensures Rotating(s, o, left, pa, pa, pc)
  {
    forall p | 0 <= p < |s| ensures s[p] == Stage(o, left, pa, pa, pc, p) {
      assert s[p] == Stage(o, left, pa, pb, pc, p);
    }
  }

  lemma SettleRight<T>(s: seq<T>, o: seq<T>, left: int, pa: int, pb: int, pc: int)
    requires Rotating(s, o, left, pa, pb, pc) && pc == left + pa && |o| - pa - pc <= 1 && left > 0
    ensures Rotating(s, o, left, pa, pb, |o| - pa)
  {
    forall p | 0 <= p < |s| ensures s[p] == Stage(o, left, pa, pb, |o| - pa, p) {
      assert s[p] == Stage(o, left, pa, pb, pc, p);
    }
  }

  method MirrorRest<T>(a: array<T>, d: nat, n: nat, swap: array<T>, pa0: nat, ghost o: seq<T>, ghost left: int)
    requires a != swap && swap.Length > 0 && n == |o| && d + n <= a.Length && 2 * pa0 <= n
    requires Rotating(a[d..d + n], o, left, pa0, pa0, n - pa0)
    modifies a, swap
    ensures a[d..d + n] == o[left..] + o[..left]
    ensures forall p :: 0 <= p < a.Length && !(d <= p < d + n) ==> a[p] == old(a[p])
  {
    hide Rotating;
    var bridge, pta := (n - pa0 - pa0) / 2, pa0;
    while bridge > 0
      invariant bridge >= 0 && pa0 <= pta && bridge == (n - pta - pta) / 2 && pta + pta <= n
      invariant Rotating(a[d..d + n], o, left, pta, pta, n - pta)
      invariant forall p :: 0 <= p < a.Length && !(d <= p < d + n) ==> a[p] == old(a[p])
    {
      MirrorStep(a, d, n, swap, pta, o, left);
      bridge, pta := bridge - 1, pta + 1;
    }
    RotationDone(a[d..d + n], o, left, pta);
  }

  /** Rotation by three reversals at once, needing one spare element; the right part is the longer one. */
  method TripleReverseRight<T>(a: array<T>, d: nat, n: nat, swap: array<T>, left: nat, ghost o: seq<T>)
    requires a != swap && swap.Length > 0 && n == |o| && d + n <= a.Length && 0 < left < n - left
    requires a[d..d + n] == o
    modifies a, swap
    ensures a[d..d + n] == o[left..] + o[..left]
    ensures forall p :: 0 <= p < a.Length && !(d <= p < d + n) ==> a[p] == old(a[p])
  {
    hide Rotating;
    var bridge, pta := left / 2, 0;
    RotationStart(o, left);
    while bridge > 0
      invariant bridge >= 0 && bridge == left / 2 - pta
      invariant Rotating(a[d..d + n], o, left, pta, left - pta, left + pta)
      invariant forall p :: 0 <= p < a.Length && !(d <= p < d + n) ==> a[p] == old(a[p])
    {
      CrossStep(a, d, n, swap, pta, left - pta, left + pta, o, left);
      bridge, pta := bridge - 1, pta + 1;
    }
    SettleLeft(a[d..d + n], o, left, pta, left - pta, left + pta);
    bridge := (n - pta - (left + pta)) / 2;
    while bridge > 0
      invariant bridge >= 0 && bridge == (n - pta - (left + pta)) / 2 && left + pta <= n - pta
      invariant Rotating(a[d..d + n], o, left, pta, pta, left + pta)
      invariant forall p :: 0 <= p < a.Length && !(d <= p < d + n) ==> a[p] == old(a[p])
    {
      RightStep(a, d, n, swap, pta, left + pta, o, left);
      bridge, pta := bridge - 1, pta + 1;
    }
    SettleRight(a[d..d + n], o, left, pta, pta, left + pta);
    MirrorRest(a, d, n, swap, pta, o, left);
  }

  lemma RotationStart<T>(o: seq<T>, left: int)
    requires 0 < left < |o|
    ensures Rotating(o, o, left, 0, left, left)
  {
  }

  /** The same with the longer part on the left. */
  method TripleReverseLeft<T>(a: array<T>, d: nat, n: nat, swap: array<T>, left: nat, ghost o: seq<T>)
    requires a != swap && swap.Length > 0 && n == |o| && d + n <= a.Length && 0 < n - left < left
    requires a[d..d + n] == o
    modifies a, swap
    ensures a[d..d + n] == o[left..] + o[..left]
    ensures forall p :: 0 <= p < a.Length && !(d <= p < d + n) ==> a[p] == old(a[p])
  {
    hide Rotating;
    var bridge, pta := (n - left) / 2, 0;
    RotationStart(o, left);
    while bridge > 0
      invariant bridge >= 0 && bridge == (n - left) / 2 - pta
      invariant Rotating(a[d..d + n], o, left, pta, left - pta, left + pta)
      invariant forall p :: 0 <= p < a.Length && !(d <= p < d + n) ==> a[p] == old(a[p])
    {
      CrossStep(a, d, n, swap, pta, left - pta, left + pta, o, left);
      bridge, pta := bridge - 1, pta + 1;
    }
    SettleRight(a[d..d + n], o, left, pta, left - pta, left + pta);
    bridge := (left - pta - pta) / 2;
    while bridge > 0
      invariant bridge >= 0 && bridge == (left - pta - pta) / 2 && pta <= left - pta
      invariant Rotating(a[d..d + n], o, left, pta, left - pta, n - pta)
      invariant forall p :: 0 <= p < a.Length && !(d <= p < d + n) ==> a[p] == old(a[p])
    {
      LeftStep(a, d, n, swap, pta, left - pta, o, left);
      bridge, pta := bridge - 1, pta + 1;
    }
    SettleLeft(a[d..d + n], o, left, pta, left - pta, n - pta);
    MirrorRest(a, d, n, swap, pta, o, left);
  }

  // ---------------------------------------------------------------- with a bridge in the swap buffer

  /** The last k elements of the right part sit before index `right`, the last k of the left part at the very end. */
  ghost function RightShifted<T>(o: seq<T>, left: int, right: int, k: int, p: int): T
    requires |o| == left + right && 0 <= k <= left <= right && 0 <= p < |o|
  {
    if |o| - k <= p then o[p - right] else if right - k <= p < right then o[left + p] else o[p]
  }

  ghost predicate ShiftedRight<T>(s: seq<T>, o: seq<T>, left: int, right: int, k: int) {
    && |s| == |o| == left + right && 0 <= k <= left <= right
    && (forall p :: 0 <= p < |s| ==> s[p] == RightShifted(o, left, right, k, p))
  }

  lemma ShiftRightStep<T>(s: seq<T>, t: seq<T>, o: seq<T>, left: int, right: int, k: int)
    requires ShiftedRight(s, o, left, right, k) && k < left < right && |t| == |s|
    requires t[right - k - 1] == s[|o| - k - 1] && t[|o| - k - 1] == s[left - k - 1]
    requires forall p :: 0 <= p < |s| && p != right - k - 1 && p != |o| - k - 1 ==> t[p] == s[p]
    ensures ShiftedRight(t, o, left, right, k + 1)
  {
  }

  lemma ShiftRightEnd<T>(s: seq<T>, o: seq<T>, left: int, right: int)
    requires ShiftedRight(s, o, left, right, left)
    ensures o[left..right] + s[right - left..] == o[left..] + o[..left]
  {
    var u, v := o[left..right] + s[right - left..], o[left..] + o[..left];
    assert |u| == |v| == |o|;
    forall p | 0 <= p < |o| ensures u[p] == v[p] {
      if p < right - left {
        assert u[p] == o[left + p];
      } else {
        assert u[p] == s[p] == RightShifted(o, left, right, left, p);
      }
      assert v[p] == if p < right then o[left + p] else o[p - right];
    }
  }

  /** The first k elements of the right part lead, the first k of the left part sit from index `right` on. */
  ghost function LeftShifted<T>(o: seq<T>, left: int, right: int, k: int, p: int): T
    requires |o| == left + right && 0 <= k <= right <= left && 0 <= p < |o|
  {
    if p < k then o[left + p] else if right <= p < right + k then o[p - right] else o[p]
  }

  ghost predicate ShiftedLeft<T>(s: seq<T>, o: seq<T>, left: int, right: int, k: int) {
    && |s| == |o| == left + right && 0 <= k <= right <= left
    && (forall p :: 0 <= p < |s| ==> s[p] == LeftShifted(o, left, right, k, p))
  }

  lemma ShiftLeftStep<T>(s: seq<T>, t: seq<T>, o: seq<T>, left: int, right: int, k: int)
    requires ShiftedLeft(s, o, left, right, k) && k < right <= left && |t| == |s|
    requires t[right + k] == s[k] && t[k] == s[left + k]
    requires forall p :: 0 <= p < |s| && p != k && p != right + k ==> t[p] == s[p]
    ensures ShiftedLeft(t, o, left, right, k + 1)
  {
    forall p | 0 <= p < |t| ensures t[p] == LeftShifted(o, left, right, k + 1, p) {
      assert s[p] == LeftShifted(o, left, right, k, p);
    }
  }

  lemma ShiftLeftEnd<T>(s: seq<T>, o: seq<T>, left: int, right: int)
    requires ShiftedLeft(s, o, left, right, right)
    ensures s[..right + right] + o[right..left] == o[left..] + o[..left]
  {
    var u, v := s[..right + right] + o[right..left], o[left..] + o[..left];
    assert |u| == |v| == |o|;
    forall p | 0 <= p < |o| ensures u[p] == v[p] {
      if p < right + right {
        assert u[p] == s[p] == LeftShifted(o, left, right, right, p);
      } else {
        assert u[p] == o[right..left][p - (right + right)] == o[p - right];
      }
      assert v[p] == if p < right then o[left + p] else o[p - right];
    }
  }

  lemma SliceIndex<T>(a: array<T>, d: int, n: int, i: int, j: int)
    requires 0 <= d && 0 <= i <= j <= n && d + n <= a.Length
    ensures a[d..d + n][i..j] == a[d + i..d + j]
  {
    var u, v := a[d..d + n][i..j], a[d + i..d + j];
    forall p | 0 <= p < j - i ensures u[p] == v[p] {
      assert u[p] == a[d..d + n][i + p] == a[d + i + p];
    }
  }

  /** The difference of the part lengths fits the buffer; the right part is the longer one. */
  method BridgeRight<T>(a: array<T>, d: nat, n: nat, swap: array<T>, left: nat, ghost o: seq<T>)
    requires a != swap && n == |o| && d + n <= a.Length && 0 < left < n - left && n - left - left <= swap.Length
    requires a[d..d + n] == o
    modifies a, swap
    ensures a[d..d + n] == o[left..] + o[..left]
    ensures forall p :: 0 <= p < a.Length && !(d <= p < d + n) ==> a[p] == old(a[p])
  {
    hide ShiftedRight;
    var right := n - left;
    var bridge := right - left;
    ghost var gap := o[left..right];
    SliceIndex(a, d, n, left, right);
    CopyBlock(swap, 0, a, d + left, bridge, gap);
    ShiftRightStart(o, left, right);
    var t, ptb, ptc, ptd := left, left, right, n;
    while t > 0
      invariant 0 <= t <= left && ptb == t && ptc == right - left + t && ptd == n - left + t
      invariant ShiftedRight(a[d..d + n], o, left, right, left - t)
      invariant At(swap, 0, gap)
      invariant forall p :: 0 <= p < a.Length && !(d <= p < d + n) ==> a[p] == old(a[p])
    {
      t, ptb, ptc, ptd := t - 1, ptb - 1, ptc - 1, ptd - 1;
      BridgeRightStep(a, d, n, ptb, ptc, ptd, o, left, right, left - t - 1);
    }
    ghost var s := a[d..d + n];
    ShiftRightEnd(s, o, left, right);
    CopyHead(a, d, n, swap, bridge, gap, s);
  }

  method BridgeRightStep<T>(a: array<T>, d: nat, n: nat, ptb: nat, ptc: nat, ptd: nat,
                            ghost o: seq<T>, ghost left: int, ghost right: int, ghost k: int)
    requires n == |o| && d + n <= a.Length && 0 <= k < left < right
    requires ptb == left - k - 1 && ptc == right - k - 1 && ptd == n - k - 1
    requires ShiftedRight(a[d..d + n], o, left, right, k)
    modifies a
    ensures ShiftedRight(a[d..d + n], o, left, right, k + 1)
    ensures forall p :: 0 <= p < a.Length && !(d <= p < d + n) ==> a[p] == old(a[p])
  {
    assert left + right == n;
    hide ShiftedRight;
    ghost var s := a[d..d + n];
    a[d + ptc] := a[d + ptd];
    a[d + ptd] := a[d + ptb];
    ghost var u := a[d..d + n];
    assert |u| == |s| && u[ptc] == s[ptd] && u[ptd] == s[ptb];
    ShiftRightStep(s, u, o, left, right, k);
  }

  lemma ShiftRightStart<T>(o: seq<T>, left: int, right: int)
    requires |o| == left + right && 0 <= left <= right
    ensures ShiftedRight(o, o, left, right, 0)
  {
  }

  method CopyHead<T>(a: array<T>, d: nat, n: nat, swap: array<T>, k: nat, ghost x: seq<T>, ghost s: seq<T>)
    requires a != swap && k == |x| <= n && d + n <= a.Length && a[d..d + n] == s && At(swap, 0, x)
    modifies a
    ensures a[d..d + n] == x + s[k..]
    ensures forall p :: 0 <= p < a.Length && !(d <= p < d + n) ==> a[p] == old(a[p])
  {
    CopyBlock(a, d, swap, 0, k, x);
    forall p | k <= p < n ensures a[d + p] == s[p] {
      assert s[p] == old(a[d + p]);
    }
    assert a[d..d + n][..k] == a[d..d + k];
  }

  method CopyEnd<T>(a: array<T>, d: nat, n: nat, swap: array<T>, k: nat, ghost x: seq<T>, ghost s: seq<T>)
    requires a != swap && k == |x| <= n && d + n <= a.Length && a[d..d + n] == s && At(swap, 0, x)
    modifies a
    ensures a[d..d + n] == s[..n - k] + x
    ensures forall p :: 0 <= p < a.Length && !(d <= p < d + n) ==> a[p] == old(a[p])
  {
    CopyBlock(a, d + n - k, swap, 0, k, x);
    forall p | 0 <= p < n - k ensures a[d + p] == s[p] {
      assert s[p] == old(a[d + p]);
    }
    assert a[d..d + n][n - k..] == a[d + n - k..d + n];
  }

  /** The same with the longer part on the left. */
  method BridgeLeft<T>(a: array<T>, d: nat, n: nat, swap: array<T>, left: nat, ghost o: seq<T>)
    requires a != swap && n == |o| && d + n <= a.Length && 0 < n - left < left && left - (n - left) <= swap.Length
    requires a[d..d + n] == o
    modifies a, swap
    ensures a[d..d + n] == o[left..] + o[..left]
    ensures forall p :: 0 <= p < a.Length && !(d <= p < d + n) ==> a[p] == old(a[p])
  {
    hide ShiftedLeft;
    var right := n - left;
    var bridge := left - right;
    ghost var gap := o[right..left];
    SliceIndex(a, d, n, right, left);
    CopyBlock(swap, 0, a, d + right, bridge, gap);
    ShiftLeftStart(o, left, right);
    var t, pta := right, 0;
    while t > 0
      invariant 0 <= t <= right && pta == right - t
      invariant ShiftedLeft(a[d..d + n], o, left, right, pta)
      invariant At(swap, 0, gap)
      invariant forall p :: 0 <= p < a.Length && !(d <= p < d + n) ==> a[p] == old(a[p])
    {
      BridgeLeftStep(a, d, n, pta, left, right, o);
      t, pta := t - 1, pta + 1;
    }
    ghost var s := a[d..d + n];
    ShiftLeftEnd(s, o, left, right);
    CopyEnd(a, d, n, swap, bridge, gap, s);
  }

  method BridgeLeftStep<T>(a: array<T>, d: nat, n: nat, pta: nat, left: nat, right: nat, ghost o: seq<T>)
    requires n == |o| == left + right && d + n <= a.Length && pta < right < left
    requires ShiftedLeft(a[d..d + n], o, left, right, pta)
    modifies a
    ensures ShiftedLeft(a[d..d + n], o, left, right, pta + 1)
    ensures forall p :: 0 <= p < a.Length && !(d <= p < d + n) ==> a[p] == old(a[p])
  {
    hide ShiftedLeft;
    ghost var s := a[d..d + n];
    a[d + right + pta] := a[d + pta];
    a[d + pta] := a[d + left + pta];
    ghost var u := a[d..d + n];
    assert |u| == |s| && u[right + pta] == s[pta] && u[pta] == s[left + pta];
    ShiftLeftStep(s, u, o, left, right, pta);
  }

  lemma ShiftLeftStart<T>(o: seq<T>, left: int, right: int)
    requires |o| == left + right && 0 <= right <= left
    ensures ShiftedLeft(o, o, left, right, 0)
  {
  }

  /** Equal parts change places element by element. */
  method SwapHalves<T>(a: array<T>, d: nat, swap: array<T>, left: nat, ghost o: seq<T>)
    requires a != swap && swap.Length > 0 && |o| == left + left && d + |o| <= a.Length
    requires a[d..d + |o|] == o
    modifies a, swap
    ensures a[d..d + |o|] == o[left..] + o[..left]
    ensures forall p :: 0 <= p < a.Length && !(d <= p < d + |o|) ==> a[p] == old(a[p])
  {
    hide ShiftedLeft;
    var t, pta := left, 0;
    ghost var n := |o|;
    ShiftLeftStart(o, left, left);
    while t > 0
      invariant 0 <= t <= left && pta == left - t
      invariant ShiftedLeft(a[d..d + n], o, left, left, pta)
      invariant forall p :: 0 <= p < a.Length && !(d <= p < d + n) ==> a[p] == old(a[p])
    {
      ghost var s := a[d..d + n];
      swap[0] := a[d + pta];
      a[d + pta] := a[d + left + pta];
      a[d + left + pta] := swap[0];
      ghost var u := a[d..d + n];
      assert u[left + pta] == s[pta] && u[pta] == s[left + pta];
      ShiftLeftStep(s, u, o, left, left, pta);
      t, pta := t - 1, pta + 1;
    }
    ghost var s := a[d..d + n];
    ShiftLeftEnd(s, o, left, left);
    assert s[..left + left] + o[left..left] == s;
  }

  /** Rotates a[d..d+nmemb] left by `left`, whatever the sizes and however small the buffer. */
  method TrinityRotation<T>(a: array<T>, d: nat, swap: array<T>, swapSize: nat, nmemb: nat, left: nat, ghost x: seq<T>, ghost y: seq<T>)
    requires a != swap && 1 <= swapSize <= swap.Length && |x| == left && |x| + |y| == nmemb
    requires At(a, d, x + y)
    modifies a, swap
    ensures At(a, d, y + x)
    ensures forall p :: 0 <= p < a.Length && !(d <= p < d + nmemb) ==> a[p] == old(a[p])
  {
    ghost var o := x + y;
    assert o[left..] == y && o[..left] == x;
    var right := nmemb - left;
    if left < right {
      if left <= swapSize {
        RotateThroughSwap(a, d, swap, left, right, x, y);
      } else {
        var bridge := right - left;
        if bridge <= swapSize && bridge > 3 {
          BridgeRight(a, d, nmemb, swap, left, o);
        } else {
          TripleReverseRight(a, d, nmemb, swap, left, o);
        }
      }
    } else if right < left {
      if right <= swapSize {
        RotateThroughSwapRight(a, d, swap, left, right, x, y);
      } else {
        var bridge := left - right;
        if bridge <= swapSize && bridge > 3 {
          BridgeLeft(a, d, nmemb, swap, left, o);
        } else {
          TripleReverseLeft(a, d, nmemb, swap, left, o);
        }
      }
    } else {
      SwapHalves(a, d, swap, left, o);
    }
  }

  /** The shorter left part fits the buffer: three block copies. */
  method RotateThroughSwap<T>(a: array<T>, d: nat, swap: array<T>, left: nat, right: nat, ghost x: seq<T>, ghost y: seq<T>)
    requires a != swap && |x| == left <= swap.Length && |y| == right && At(a, d, x + y)
    modifies a, swap
    ensures At(a, d, y + x)
    ensures forall p :: 0 <= p < a.Length && !(d <= p < d + left + right) ==> a[p] == old(a[p])
  {
    AtSplit(a, d, x, y);
    CopyBlock(swap, 0, a, d, left, x);
    MoveBlock(a, d, d + left, right, y);
    CopyBlock(a, d + right, swap, 0, left, x);
    AtJoin(a, d, y, x);
  }

  method RotateThroughSwapRight<T>(a: array<T>, d: nat, swap: array<T>, left: nat, right: nat, ghost x: seq<T>, ghost y: seq<T>)
    requires a != swap && |x| == left && |y| == right <= swap.Length && At(a, d, x + y)
    modifies a, swap
    ensures At(a, d, y + x)
    ensures forall p :: 0 <= p < a.Length && !(d <= p < d + left + right) ==> a[p] == old(a[p])
  {
    AtSplit(a, d, x, y);
    CopyBlock(swap, 0, a, d + left, right, y);
    MoveBlock(a, d + right, d, left, x);
    CopyBlock(a, d, swap, 0, right, y);
    AtJoin(a, d, y, x);
  }

  lemma AtSplit<T>(a: array<T>, at: int, x: seq<T>, y: seq<T>)
    requires At(a, at, x + y)
    ensures At(a, at, x) && At(a, at + |x|, y)
  {
    assert (x + y)[..|x|] == x && (x + y)[|x|..] == y;
    AtTail(a, at, x + y, |x|);
    AtHead(a, at, x + y, |x|);
  }
}
