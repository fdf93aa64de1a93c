/** Bytes of messages: with their bits in the opposite order, combined by exclusive or, and as the bits they stand for. */
module CrcBytes {
  /** The digits 1 to 9, the message that check values are given for. */
  const DIGITS: seq<bv8> := [0x31, 0x32, 0x33, 0x34, 0x35, 0x36, 0x37, 0x38, 0x39]

  function Mirror8(x: bv8): bv8 {
    var a := ((x & 0x55) << 1) | ((x >> 1) & 0x55);
    var b := ((a & 0x33) << 2) | ((a >> 2) & 0x33);
    (b << 4) | (b >> 4)
  }

  function MirrorBytes(data: seq<bv8>): (r: seq<bv8>)
    ensures |r| == |data| && forall i :: 0 <= i < |data| ==> r[i] == Mirror8(data[i])
  {
    seq(|data|, i requires 0 <= i < |data| => Mirror8(data[i]))
  }

  function Xor8(x: bv8, y: bv8): bv8 { x ^ y }

  function XorBytes(a: seq<bv8>, b: seq<bv8>): (r: seq<bv8>)
    requires |a| == |b|
    ensures |r| == |a| && forall i :: 0 <= i < |a| ==> r[i] == Xor8(a[i], b[i])
  {
    seq(|a|, i requires 0 <= i < |a| => Xor8(a[i], b[i]))
  }

  lemma Mirror8Twice(x: bv8)
    ensures Mirror8(Mirror8(x)) == x
  {
  }

  lemma Mirror8Xor(x: bv8, y: bv8)
    ensures Mirror8(Xor8(x, y)) == Xor8(Mirror8(x), Mirror8(y))
  {
  }

  lemma MirrorXorBytes(a: seq<bv8>, b: seq<bv8>)
    requires |a| == |b|
    ensures MirrorBytes(XorBytes(a, b)) == XorBytes(MirrorBytes(a), MirrorBytes(b))
  {
    hide Mirror8, Xor8;
    forall i | 0 <= i < |a| ensures MirrorBytes(XorBytes(a, b))[i] == XorBytes(MirrorBytes(a), MirrorBytes(b))[i] {
      Mirror8Xor(a[i], b[i]);
    }
  }

  lemma MirrorAppend(a: seq<bv8>, b: seq<bv8>)
    ensures MirrorBytes(a + b) == MirrorBytes(a) + MirrorBytes(b)
  {
    hide Mirror8;
  }

  // ---------------------------------------------------------------- bits

  function Up8(b: bv8): bv8 { b << 1 }

  predicate Top8(b: bv8) { b & 0x80 != 0 }

  function UpN(b: bv8, n: nat): bv8
    decreases n
  {
    if n == 0 then b else UpN(Up8(b), n - 1)
  }

  /** The bits that n shifts bring to the top. */
  function TopBits(b: bv8, n: nat): (bits: seq<bool>)
    ensures |bits| == n
    decreases n
  {
    if n == 0 then [] else [Top8(b)] + TopBits(Up8(b), n - 1)
  }

  lemma NothingLeft(b: bv8)
    ensures UpN(b, 8) == 0
  {
    hide Up8;
    var b4 := Up8(Up8(Up8(Up8(b))));
    assert UpN(b4, 4) == Up8(Up8(Up8(Up8(b4))));
    EightShifts(b);
  }

  lemma EightShifts(b: bv8)
    ensures Up8(Up8(Up8(Up8(Up8(Up8(Up8(Up8(b)))))))) == 0
  {
  }

  /** The bits of a byte, highest first. */
  function Bits8(b: bv8): (bits: seq<bool>)
    ensures |bits| == 8
  {
    TopBits(b, 8)
  }

  lemma {:induction false} TopBitsInjective(a: bv8, b: bv8, n: nat)
    requires TopBits(a, n) == TopBits(b, n) && UpN(a, n) == UpN(b, n)
    ensures a == b
    decreases n
  {
    hide Up8, Top8;
    if n > 0 {
      var u, v := TopBits(a, n), TopBits(b, n);
      assert u[0] == v[0] && u[1..] == TopBits(Up8(a), n - 1) && v[1..] == TopBits(Up8(b), n - 1);
      TopBitsInjective(Up8(a), Up8(b), n - 1);
      Up8Injective(a, b);
    }
  }

  lemma Up8Injective(a: bv8, b: bv8)
    requires Up8(a) == Up8(b) && (Top8(a) <==> Top8(b))
    ensures a == b
  {
  }

  function BitsOf(data: seq<bv8>): (bits: seq<bool>)
    ensures |bits| == 8 * |data|
  {
    if data == [] then [] else Bits8(data[0]) + BitsOf(data[1..])
  }

  lemma {:induction false} BitsInjective(a: seq<bv8>, b: seq<bv8>)
    requires |a| == |b| && BitsOf(a) == BitsOf(b)
    ensures a == b
    decreases |a|
  {
    hide TopBits, UpN;
    if a != [] {
      var u, v := BitsOf(a), BitsOf(b);
      assert u[..8] == Bits8(a[0]) && v[..8] == Bits8(b[0]);
      assert u[8..] == BitsOf(a[1..]) && v[8..] == BitsOf(b[1..]);
      NothingLeft(a[0]);
      NothingLeft(b[0]);
      TopBitsInjective(a[0], b[0], 8);
      BitsInjective(a[1..], b[1..]);
      assert a == [a[0]] + a[1..] && b == [b[0]] + b[1..];
    }
  }

  /** Bits that differ, if at all, in an error burst of n bits from the i-th on. */
  predicate Burst(u: seq<bool>, v: seq<bool>, i: nat, n: nat) {
    |u| == |v| && forall j :: 0 <= j < |u| && !(i <= j < i + n) ==> u[j] == v[j]
  }

  /** The parts before, in and behind a burst. */
  lemma BurstParts(u: seq<bool>, v: seq<bool>, i: nat, n: nat) returns (front: seq<bool>, s: seq<bool>, t: seq<bool>, back: seq<bool>)
    requires Burst(u, v, i, n)
    ensures u == front + s + back && v == front + t + back && |s| == |t| <= n
  {
    var lo := if i < |u| then i else |u|;
    var hi := if i + n < |u| then i + n else |u|;
    front, s, t, back := u[..lo], u[lo..hi], v[lo..hi], u[hi..];
    assert front == v[..lo] && back == v[hi..];
  }

  lemma MirrorInjective(a: seq<bv8>, b: seq<bv8>)
    requires |a| == |b| && MirrorBytes(a) == MirrorBytes(b)
    ensures a == b
  {
    hide Mirror8;
    forall i | 0 <= i < |a| ensures a[i] == b[i] {
      assert MirrorBytes(a)[i] == MirrorBytes(b)[i];
      Mirror8Twice(a[i]);
      Mirror8Twice(b[i]);
    }
  }
}
