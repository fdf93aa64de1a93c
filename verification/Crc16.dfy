/** The 16-bit checksums of wow_crc.c: a register that shifts to the left (XMODEM) or, with everything mirrored, to the right (CCITT). */
module Crc16 {
  import opened CrcBytes

  const POLY: bv16 := 0x1021

  // ---------------------------------------------------------------- words

  function Xor(x: bv16, y: bv16): bv16 { x ^ y }

  function Up(x: bv16): bv16 { x << 1 }

  function Down(x: bv16): bv16 { x >> 1 }

  predicate Top(x: bv16) { x & 0x8000 != 0 }

  predicate Bottom(x: bv16) { x & 1 != 0 }

  /** A byte at the low or at the high end of a word. */
  function Low(b: bv8): bv16 { b as bv16 }

  function High(b: bv8): bv16 { (b as bv16) << 8 }

  function Mirror(x: bv16): bv16 {
    var a := ((x & 0x5555) << 1) | ((x >> 1) & 0x5555);
    var b := ((a & 0x3333) << 2) | ((a >> 2) & 0x3333);
    var c := ((b & 0x0F0F) << 4) | ((b >> 4) & 0x0F0F);
    (c << 8) | (c >> 8)
  }

  /** What makes it the mirror image: bit i is bit 15 - i. */
  lemma MirrorBit(x: bv16, i: bv16)
    requires i < 16
    ensures Mirror(x) & (1 << (15 - i)) != 0 <==> x & (1 << i) != 0
  {
  }

  lemma MirrorTwice(x: bv16)
    ensures Mirror(Mirror(x)) == x
  {
  }

  lemma MirrorXor(x: bv16, y: bv16)
    ensures Mirror(Xor(x, y)) == Xor(Mirror(x), Mirror(y))
  {
  }

  lemma MirrorShift(x: bv16)
    ensures Mirror(x >> 1) == Mirror(x) << 1
  {
  }

  lemma MirrorBottom(x: bv16)
    ensures Bottom(x) <==> Top(Mirror(x))
  {
  }

  lemma MirrorLow(b: bv8)
    ensures Mirror(Low(b)) == High(Mirror8(b))
  {
  }

  /** The part of a word above bit i, one bit at a time. */
  function Above(m: bv16, i: bv16): bv16
    requires i <= 16
  {
    m & !(0xFFFF >> i)
  }

  lemma AboveNone(m: bv16)
    ensures Above(m, 0) == 0 && Above(m, 16) == m
  {
  }

  lemma AboveNext(m: bv16, i: bv16)
    requires i < 16
    ensures Above(m, i + 1) == Above(m, i) | (m & (1 << (15 - i)))
  {
    var r, t: bv16 := 0xFFFF >> i, 0xFFFF >> (i + 1);
    assert t & r == t && r ^ t == 1 << (15 - i);
    SplitMask(m, r, t);
  }

  lemma SplitMask(m: bv16, r: bv16, t: bv16)
    requires t & r == t
    ensures m & !t == (m & !r) | (m & (r ^ t))
  {
  }

  lemma SingleBit(m: bv16, i: bv16)
    requires i < 16
    ensures m & (1 << i) == 0 || m & (1 << i) == 1 << i
  {
  }

  /** The body of InvertUint16's loop. */
  method CopyBit(src: bv16, i: bv16, tmp: bv16) returns (r: bv16)
    requires i < 16 && tmp == Above(Mirror(src), i)
    ensures r == Above(Mirror(src), i + 1)
  {
    hide Mirror, Above;
    MirrorBit(src, i);
    AboveNext(Mirror(src), i);
    SingleBit(Mirror(src), 15 - i);
    OrNothing(tmp);
    r := tmp;
    if src & (1 << i) != 0 { r := tmp | (1 << (15 - i)); }
  }

  lemma OrNothing(x: bv16)
    ensures x | 0 == x
  {
  }

  /** InvertUint16. */
  method InvertUint16(src: bv16) returns (dest: bv16)
    ensures dest == Mirror(src)
  {
    hide Mirror, Above;
    var i: bv16 := 0;
    dest := 0;
    AboveNone(Mirror(src));
    while i < 16
      invariant i <= 16 && dest == Above(Mirror(src), i)
      decreases 16 - i
    {
      dest := CopyBit(src, i, dest);
      i := i + 1;
    }
  }

  // ---------------------------------------------------------------- the registers

  function Left1(p: bv16, x: bv16): bv16 {
    if Top(x) then Xor(Up(x), p) else Up(x)
  }

  function Right1(p: bv16, x: bv16): bv16 {
    if Bottom(x) then Xor(Down(x), p) else Down(x)
  }

  function LeftN(p: bv16, x: bv16, n: nat): bv16
    decreases n
  {
    if n == 0 then x else LeftN(p, Left1(p, x), n - 1)
  }

  function RightN(p: bv16, x: bv16, n: nat): bv16
    decreases n
  {
    if n == 0 then x else RightN(p, Right1(p, x), n - 1)
  }

  function Left(p: bv16, x: bv16, data: seq<bv8>): bv16
    decreases |data|
  {
    if data == [] then x else Left(p, LeftN(p, Xor(x, High(data[0])), 8), data[1..])
  }

  function Right(p: bv16, x: bv16, data: seq<bv8>): bv16
    decreases |data|
  {
    if data == [] then x else Right(p, RightN(p, Xor(x, Low(data[0])), 8), data[1..])
  }

  /** The body of the bit loops. */
  method ShiftLeft(crc: bv16, poly: bv16) returns (r: bv16)
    ensures r == Left1(poly, crc)
  {
    if crc & 0x8000 != 0 { r := (crc << 1) ^ poly; } else { r := crc << 1; }
  }

  method ShiftRight(crc: bv16, poly: bv16) returns (r: bv16)
    ensures r == Right1(poly, crc)
  {
    if crc & 0x01 != 0 { r := (crc >> 1) ^ poly; } else { r := crc >> 1; }
  }

  /** wow_crc16_ccitt. */
  method Ccitt(data: seq<bv8>) returns (crc: bv16)
    ensures crc == Right(Mirror(POLY), 0, data)
  {
    hide Mirror, Right1, Xor, Low;
    crc := 0;
    var poly := InvertUint16(POLY);
    var k := 0;
    assert data[0..] == data;
    while k < |data|
      invariant 0 <= k <= |data| && Right(poly, crc, data[k..]) == Right(poly, 0, data)
    {
      assert data[k..][1..] == data[k + 1..];
      crc := Xor(crc, Low(data[k]));
      ghost var start := crc;
      for i := 0 to 8
        invariant RightN(poly, crc, 8 - i) == RightN(poly, start, 8)
      {
        crc := ShiftRight(crc, poly);
      }
      k := k + 1;
    }
  }

  /** wow_crc16_xmodem. */
  method Xmodem(data: seq<bv8>) returns (crc: bv16)
    ensures crc == Left(POLY, 0, data)
  {
    hide Left1, Xor, High;
    crc := 0;
    var poly := POLY;
    var k := 0;
    assert data[0..] == data;
    while k < |data|
      invariant 0 <= k <= |data| && Left(poly, crc, data[k..]) == Left(poly, 0, data)
    {
      assert data[k..][1..] == data[k + 1..];
      crc := Xor(crc, High(data[k]));
      ghost var start := crc;
      for i := 0 to 8
        invariant LeftN(poly, crc, 8 - i) == LeftN(poly, start, 8)
      {
        crc := ShiftLeft(crc, poly);
      }
      k := k + 1;
    }
  }

  // ---------------------------------------------------------------- left and right are mirror images

  lemma {:induction false} MirrorN(p: bv16, x: bv16, n: nat)
    ensures Mirror(RightN(Mirror(p), x, n)) == LeftN(p, Mirror(x), n)
    decreases n
  {
    hide Mirror, Xor, Top, Bottom;
    if n > 0 {
      var y := Right1(Mirror(p), x);
      MirrorBottom(x);
      MirrorShift(x);
      MirrorXor(Down(x), Mirror(p));
      MirrorTwice(p);
      assert Mirror(y) == Left1(p, Mirror(x));
      MirrorN(p, y, n - 1);
    }
  }

  lemma {:induction false} MirrorRegisters(p: bv16, x: bv16, data: seq<bv8>)
    ensures Mirror(Right(Mirror(p), x, data)) == Left(p, Mirror(x), MirrorBytes(data))
    decreases |data|
  {
    hide Mirror, RightN, LeftN, Mirror8, Xor, Low, High;
    if data != [] {
      var y := Xor(x, Low(data[0]));
      MirrorXor(x, Low(data[0]));
      MirrorLow(data[0]);
      MirrorN(p, y, 8);
      MirrorRegisters(p, RightN(Mirror(p), y, 8), data[1..]);
      assert MirrorBytes(data)[1..] == MirrorBytes(data[1..]);
    }
  }

  /** The CCITT checksum is the mirror image of the XMODEM checksum of the mirrored bytes. */
  lemma CcittMirrorsXmodem(data: seq<bv8>)
    ensures Right(Mirror(POLY), 0, data) == Mirror(Left(POLY, 0, MirrorBytes(data)))
  {
    hide Mirror, Left, Right;
    MirrorRegisters(POLY, 0, data);
    MirrorTwice(Right(Mirror(POLY), 0, data));
    MirrorZero();
  }

  lemma MirrorZero()
    ensures Mirror(0) == 0
  {
  }

  // ---------------------------------------------------------------- linearity

  lemma XorCommutes(x: bv16, y: bv16)
    ensures Xor(x, y) == Xor(y, x)
  {
  }

  lemma XorAssociates(x: bv16, y: bv16, z: bv16)
    ensures Xor(Xor(x, y), z) == Xor(x, Xor(y, z))
  {
  }

  lemma XorSelf(x: bv16)
    ensures Xor(x, x) == 0 && Xor(x, 0) == x
  {
  }

  lemma Swap4(x: bv16, y: bv16, u: bv16, v: bv16)
    ensures Xor(Xor(x, y), Xor(u, v)) == Xor(Xor(x, u), Xor(y, v))
  {
    hide Xor;
    XorAssociates(x, y, Xor(u, v));
    XorAssociates(y, u, v);
    XorCommutes(y, u);
    XorAssociates(u, y, v);
    XorAssociates(x, u, Xor(y, v));
  }

  lemma Linear1(p: bv16, x: bv16, y: bv16)
    ensures Left1(p, Xor(x, y)) == Xor(Left1(p, x), Left1(p, y))
  {
    hide Xor, Up, Top;
    UpLinear(x, y);
    TopLinear(x, y);
    var a, b := Up(x), Up(y);
    Swap4(a, p, b, p);
    XorSelf(p);
    XorSelf(Xor(a, b));
    XorAssociates(a, b, p);
    XorAssociates(a, p, b);
    XorCommutes(p, b);
  }

  lemma UpLinear(x: bv16, y: bv16)
    ensures Up(Xor(x, y)) == Xor(Up(x), Up(y))
  {
  }

  lemma TopLinear(x: bv16, y: bv16)
    ensures Top(Xor(x, y)) <==> Top(x) != Top(y)
  {
  }

  lemma {:induction false} LinearN(p: bv16, x: bv16, y: bv16, n: nat)
    ensures LeftN(p, Xor(x, y), n) == Xor(LeftN(p, x, n), LeftN(p, y, n))
    decreases n
  {
    hide Xor, Left1;
    if n > 0 {
      Linear1(p, x, y);
      LinearN(p, Left1(p, x), Left1(p, y), n - 1);
    }
  }

  lemma HighLinear(a: bv8, b: bv8)
    ensures High(Xor8(a, b)) == Xor(High(a), High(b))
  {
  }

  /** The register is linear in its start and the message, for every polynomial. */
  lemma {:induction false} Linear(p: bv16, x: bv16, y: bv16, a: seq<bv8>, b: seq<bv8>)
    requires |a| == |b|
    ensures Left(p, Xor(x, y), XorBytes(a, b)) == Xor(Left(p, x, a), Left(p, y, b))
    decreases |a|
  {
    hide Xor, High, LeftN, Xor8;
    if a != [] {
      HighLinear(a[0], b[0]);
      var u, v := Xor(x, High(a[0])), Xor(y, High(b[0]));
      Swap4(x, y, High(a[0]), High(b[0]));
      LinearN(p, u, v, 8);
      Linear(p, LeftN(p, u, 8), LeftN(p, v, 8), a[1..], b[1..]);
      assert XorBytes(a, b)[0] == Xor8(a[0], b[0]);
      assert XorBytes(a, b)[1..] == XorBytes(a[1..], b[1..]);
    }
  }

  /** The zero-initialised checksum of the exclusive or of two messages of one length. */
  lemma XmodemLinear(a: seq<bv8>, b: seq<bv8>)
    requires |a| == |b|
    ensures Left(POLY, 0, XorBytes(a, b)) == Xor(Left(POLY, 0, a), Left(POLY, 0, b))
  {
    hide Xor;
    XorSelf(0);
    Linear(POLY, 0, 0, a, b);
  }

  /** So is the register that shifts to the right. */
  lemma RightLinear(p: bv16, x: bv16, y: bv16, a: seq<bv8>, b: seq<bv8>)
    requires |a| == |b|
    ensures Right(Mirror(p), Xor(x, y), XorBytes(a, b)) == Xor(Right(Mirror(p), x, a), Right(Mirror(p), y, b))
  {
    hide Mirror, Xor, Left, Right, XorBytes;
    var u, v := Right(Mirror(p), x, a), Right(Mirror(p), y, b);
    MirrorRegisters(p, x, a);
    MirrorRegisters(p, y, b);
    MirrorRegisters(p, Xor(x, y), XorBytes(a, b));
    MirrorXorBytes(a, b);
    MirrorXor(x, y);
    Linear(p, Mirror(x), Mirror(y), MirrorBytes(a), MirrorBytes(b));
    MirrorXor(u, v);
    MirrorTwice(Xor(u, v));
    MirrorTwice(Right(Mirror(p), Xor(x, y), XorBytes(a, b)));
  }

  /** The CCITT checksum of the exclusive or of two messages of one length. */
  lemma CcittLinear(a: seq<bv8>, b: seq<bv8>)
    requires |a| == |b|
    ensures Right(Mirror(POLY), 0, XorBytes(a, b)) == Xor(Right(Mirror(POLY), 0, a), Right(Mirror(POLY), 0, b))
  {
    hide Xor, Right;
    XorSelf(0);
    RightLinear(POLY, 0, 0, a, b);
  }

  // ---------------------------------------------------------------- bit by bit

  /** One bit into the register. */
  function Step(p: bv16, x: bv16, bit: bool): bv16 {
    if Top(x) != bit then Xor(Up(x), p) else Up(x)
  }

  function Feed(p: bv16, x: bv16, bits: seq<bool>): bv16
    decreases |bits|
  {
    if bits == [] then x else Feed(p, Step(p, x, bits[0]), bits[1..])
  }

  lemma StepIs(p: bv16, x: bv16, b: bv8)
    ensures Left1(p, Xor(x, High(b))) == Xor(Step(p, x, Top8(b)), High(Up8(b)))
  {
    hide Xor, High, Up, Up8, Top, Top8;
    TopOfXor(x, b);
    UpOfXor(x, b);
    XorAssociates(Up(x), High(Up8(b)), p);
    XorCommutes(High(Up8(b)), p);
    XorAssociates(Up(x), p, High(Up8(b)));
  }

  lemma TopOfXor(x: bv16, b: bv8)
    ensures Top(Xor(x, High(b))) <==> Top(x) != Top8(b)
  {
  }

  lemma UpOfXor(x: bv16, b: bv8)
    ensures Up(Xor(x, High(b))) == Xor(Up(x), High(Up8(b)))
  {
  }

  /** Shifts of the register with a byte in it take in the byte's bits from the top. */
  lemma {:induction false} TakesBits(p: bv16, x: bv16, b: bv8, n: nat)
    ensures LeftN(p, Xor(x, High(b)), n) == Xor(Feed(p, x, TopBits(b, n)), High(UpN(b, n)))
    decreases n
  {
    hide Xor, High, Up8, Top8, Step, Left1;
    if n > 0 {
      StepIs(p, x, b);
      TakesBits(p, Step(p, x, Top8(b)), Up8(b), n - 1);
      assert TopBits(b, n)[1..] == TopBits(Up8(b), n - 1);
    }
  }

  /** A byte is taken in like its bits, one after the other. */
  lemma TakesByte(p: bv16, x: bv16, b: bv8)
    ensures LeftN(p, Xor(x, High(b)), 8) == Feed(p, x, Bits8(b))
  {
    hide Xor, High, TopBits, UpN, LeftN;
    TakesBits(p, x, b, 8);
    NothingLeft(b);
    NoBits(Feed(p, x, Bits8(b)));
  }

  lemma NoBits(x: bv16)
    ensures Xor(x, High(0)) == x
  {
  }

  lemma {:induction false} FeedAppend(p: bv16, x: bv16, u: seq<bool>, v: seq<bool>)
    ensures Feed(p, x, u + v) == Feed(p, Feed(p, x, u), v)
    decreases |u|
  {
    hide Step;
    if u == [] {
      assert u + v == v;
    } else {
      assert (u + v)[0] == u[0] && (u + v)[1..] == u[1..] + v;
      FeedAppend(p, Step(p, x, u[0]), u[1..], v);
    }
  }

  /** The register takes a message in bit by bit. */
  lemma {:induction false} LeftIsFeed(p: bv16, x: bv16, data: seq<bv8>)
    ensures Left(p, x, data) == Feed(p, x, BitsOf(data))
    decreases |data|
  {
    hide LeftN, Xor, High, Step, Bits8;
    if data != [] {
      TakesByte(p, x, data[0]);
      FeedAppend(p, x, Bits8(data[0]), BitsOf(data[1..]));
      LeftIsFeed(p, LeftN(p, Xor(x, High(data[0])), 8), data[1..]);
    }
  }

  // ---------------------------------------------------------------- what the checksum detects

  /** All bits but the top k. */
  function Mask(k: nat): bv16 {
    if k == 0 then 0xFFFF else Down(Mask(k - 1))
  }

  /** Bits set below the lowest one that is not. */
  predicate Solid(m: bv16) { m & (m + 1) == 0 }

  lemma {:induction false} MaskSolid(k: nat)
    ensures Solid(Mask(k))
  {
    if k > 0 {
      MaskSolid(k - 1);
      SolidDown(Mask(k - 1));
    }
  }

  lemma SolidDown(m: bv16)
    requires Solid(m)
    ensures Solid(Down(m)) && (Bottom(Down(m)) ==> Bottom(m))
  {
  }

  lemma {:induction false} MaskBottom(k: nat)
    requires k < 16
    ensures Bottom(Mask(k))
    decreases 16 - k
  {
    hide Solid, Down, Bottom;
    if k == 15 {
      LastMask();
    } else {
      MaskBottom(k + 1);
      MaskSolid(k);
      SolidDown(Mask(k));
    }
  }

  lemma LastMask()
    ensures Bottom(Mask(15))
  {
    assert Mask(15) == 1;
  }

  /** Registers that agree where the mask has ones. */
  predicate Agree(x: bv16, y: bv16, m: bv16) { Xor(x, y) & m == 0 }

  /** Registers that k bits each lead to the same register have the same lower bits, but for the top k. */
  lemma {:induction false} SameBelow(p: bv16, x: bv16, y: bv16, u: seq<bool>, v: seq<bool>)
    requires Bottom(p) && |u| == |v| <= 16 && Feed(p, x, u) == Feed(p, y, v)
    ensures Agree(x, y, Mask(|u|))
    decreases |u|
  {
    hide Step, Mask, Agree, Bottom;
    if u == [] {
      AgreeSelf(x, Mask(0));
    } else {
      SameBelow(p, Step(p, x, u[0]), Step(p, y, v[0]), u[1..], v[1..]);
      MaskBottom(|u| - 1);
      StepsDiffer(p, x, y, u[0], v[0], Mask(|u| - 1));
      MaskNext(|u|);
    }
  }

  lemma AgreeSelf(x: bv16, m: bv16)
    ensures Agree(x, x, m)
  {
  }

  lemma MaskNext(k: nat)
    requires k > 0
    ensures Mask(k) == Down(Mask(k - 1))
  {
  }

  lemma StepsDiffer(p: bv16, x: bv16, y: bv16, a: bool, b: bool, m: bv16)
    requires Bottom(p) && Bottom(m) && Agree(Step(p, x, a), Step(p, y, b), m)
    ensures Agree(x, y, Down(m))
  {
    hide Xor, Up, Down, Top, Bottom;
    UpBottom(x, p);
    UpBottom(y, p);
    BottomsSame(Step(p, x, a), Step(p, y, b), m);
    Swap4(Up(x), p, Up(y), p);
    XorSelf(p);
    XorSelf(Xor(Up(x), Up(y)));
    UpLinear(x, y);
    MaskDown(Xor(x, y), m);
  }

  lemma BottomsSame(x: bv16, y: bv16, m: bv16)
    requires Bottom(m) && Xor(x, y) & m == 0
    ensures Bottom(x) <==> Bottom(y)
  {
  }

  lemma MaskDown(x: bv16, m: bv16)
    requires Up(x) & m == 0
    ensures x & Down(m) == 0
  {
  }

  /** Bursts of up to the register's width that lead from one register to the same register are the same. */
  lemma {:induction false} BurstInjective(p: bv16, x: bv16, u: seq<bool>, v: seq<bool>)
    requires Bottom(p) && |u| == |v| <= 16 && Feed(p, x, u) == Feed(p, x, v)
    ensures u == v
    decreases |u|
  {
    hide Step, Mask, Bottom, Agree;
    if u != [] {
      SameBelow(p, Step(p, x, u[0]), Step(p, x, v[0]), u[1..], v[1..]);
      MaskBottom(|u| - 1);
      OneBitOff(p, x, u[0], v[0], Mask(|u| - 1));
      BurstInjective(p, Step(p, x, u[0]), u[1..], v[1..]);
      assert u == [u[0]] + u[1..] && v == [v[0]] + v[1..];
    }
  }

  lemma OneBitOff(p: bv16, x: bv16, a: bool, b: bool, m: bv16)
    requires Bottom(p) && Bottom(m) && Agree(Step(p, x, a), Step(p, x, b), m)
    ensures a == b
  {
    hide Xor, Up, Down, Top, Bottom;
    UpBottom(x, p);
    BottomsSame(Step(p, x, a), Step(p, x, b), m);
  }

  /** No bit that goes in alike makes different registers the same. */
  lemma {:induction false} FeedInjective(p: bv16, x: bv16, y: bv16, u: seq<bool>)
    requires Bottom(p) && Feed(p, x, u) == Feed(p, y, u)
    ensures x == y
    decreases |u|
  {
    hide Step, Bottom;
    if u != [] {
      FeedInjective(p, Step(p, x, u[0]), Step(p, y, u[0]), u[1..]);
      StepInjective(p, x, y, u[0]);
    }
  }

  lemma StepInjective(p: bv16, x: bv16, y: bv16, bit: bool)
    requires Bottom(p) && Step(p, x, bit) == Step(p, y, bit)
    ensures x == y
  {
    hide Xor, Up, Top, Bottom;
    UpBottom(x, p);
    UpBottom(y, p);
    if Top(x) != bit && Top(y) != bit { XorCancels(Up(x), Up(y), p); }
    if Up(x) == Up(y) && (Top(x) <==> Top(y)) { UpInjective(x, y); }
  }

  lemma UpBottom(x: bv16, p: bv16)
    ensures !Bottom(Up(x)) && (Bottom(p) ==> Bottom(Xor(Up(x), p)))
  {
  }

  lemma UpInjective(x: bv16, y: bv16)
    requires Up(x) == Up(y) && (Top(x) <==> Top(y))
    ensures x == y
  {
  }

  lemma XorCancels(x: bv16, y: bv16, z: bv16)
    requires Xor(x, z) == Xor(y, z)
    ensures x == y
  {
  }

  /** Messages that differ in an error burst of at most the register's width, at any bit, have different checksums. */
  lemma BurstDetected(p: bv16, x: bv16, a: seq<bv8>, b: seq<bv8>, i: nat)
    requires Bottom(p) && |a| == |b| && a != b && Burst(BitsOf(a), BitsOf(b), i, 16)
    ensures Left(p, x, a) != Left(p, x, b)
  {
    hide Left, Feed, Bottom, BitsOf, Burst;
    var front, u, v, back := BurstParts(BitsOf(a), BitsOf(b), i, 16);
    LeftIsFeed(p, x, a);
    LeftIsFeed(p, x, b);
    FeedParts(p, x, front, u, back);
    FeedParts(p, x, front, v, back);
    var s := Feed(p, x, front);
    if Left(p, x, a) == Left(p, x, b) {
      FeedInjective(p, Feed(p, s, u), Feed(p, s, v), back);
      BurstInjective(p, s, u, v);
      BitsInjective(a, b);
    }
  }

  lemma FeedParts(p: bv16, x: bv16, front: seq<bool>, u: seq<bool>, back: seq<bool>)
    ensures Feed(p, x, front + u + back) == Feed(p, Feed(p, Feed(p, x, front), u), back)
  {
    hide Feed;
    FeedAppend(p, x, front + u, back);
    FeedAppend(p, x, front, u);
  }

  /** So have they in the register that shifts to the right, which takes the lowest bit of a byte first. */
  lemma RightBurstDetected(p: bv16, x: bv16, a: seq<bv8>, b: seq<bv8>, i: nat)
    requires Bottom(p) && |a| == |b| && a != b && Burst(BitsOf(MirrorBytes(a)), BitsOf(MirrorBytes(b)), i, 16)
    ensures Right(Mirror(p), x, a) != Right(Mirror(p), x, b)
  {
    hide Mirror, Left, Right, Bottom, BitsOf, Burst, MirrorBytes;
    MirrorRegisters(p, x, a);
    MirrorRegisters(p, x, b);
    if MirrorBytes(a) == MirrorBytes(b) { MirrorInjective(a, b); }
    BurstDetected(p, Mirror(x), MirrorBytes(a), MirrorBytes(b), i);
  }

  // ---------------------------------------------------------------- a message with its checksum

  lemma {:induction false} LeftAppend(p: bv16, x: bv16, a: seq<bv8>, b: seq<bv8>)
    ensures Left(p, x, a + b) == Left(p, Left(p, x, a), b)
    decreases |a|
  {
    hide LeftN, Xor, High;
    if a == [] {
      assert a + b == b;
    } else {
      assert (a + b)[0] == a[0] && (a + b)[1..] == a[1..] + b;
      LeftAppend(p, LeftN(p, Xor(x, High(a[0])), 8), a[1..], b);
    }
  }

  /** Two bytes as one word. */
  function Word(hi: bv8, lo: bv8): bv16 { Xor(High(hi), Low(lo)) }

  lemma {:induction false} LeftNPlus(p: bv16, x: bv16, m: nat, n: nat)
    ensures LeftN(p, x, m + n) == LeftN(p, LeftN(p, x, m), n)
    decreases m
  {
    hide Left1;
    if m > 0 { LeftNPlus(p, Left1(p, x), m - 1, n); }
  }

  /** Eight steps move a byte from the low to the high end, without feedback. */
  lemma LowBecomesHigh(p: bv16, b: bv8)
    ensures LeftN(p, Low(b), 8) == High(b)
  {
    hide LeftN;
    var x := b as bv16;
    LeftStep(p, x, 8);
    LeftStep(p, x << 1, 7);
    LeftStep(p, x << 2, 6);
    LeftStep(p, x << 3, 5);
    LeftStep(p, x << 4, 4);
    LeftStep(p, x << 5, 3);
    LeftStep(p, x << 6, 2);
    LeftStep(p, x << 7, 1);
    LeftStep(p, x << 8, 0);
  }

  lemma LeftStep(p: bv16, x: bv16, n: nat)
    ensures n == 0 ==> LeftN(p, x, n) == x
    ensures n > 0 && x & 0x8000 == 0 ==> LeftN(p, x, n) == LeftN(p, x << 1, n - 1)
  {
  }

  /** Two bytes are taken in like one word. */
  lemma TakesWord(p: bv16, x: bv16, hi: bv8, lo: bv8)
    ensures Left(p, x, [hi, lo]) == LeftN(p, Xor(x, Word(hi, lo)), 16)
  {
    hide LeftN, Xor, High, Low;
    var u := Xor(x, High(hi));
    assert [hi, lo][1..] == [lo];
    XorAssociates(x, High(hi), Low(lo));
    LinearN(p, u, Low(lo), 8);
    LowBecomesHigh(p, lo);
    LeftNPlus(p, Xor(u, Low(lo)), 8, 8);
    TwoBytes(p, x, hi, lo);
  }

  lemma TwoBytes(p: bv16, x: bv16, hi: bv8, lo: bv8)
    ensures Left(p, x, [hi, lo]) == LeftN(p, Xor(LeftN(p, Xor(x, High(hi)), 8), High(lo)), 8)
  {
    hide LeftN, Xor, High;
    assert [hi, lo][1..] == [lo];
    var y := LeftN(p, Xor(x, High(hi)), 8);
    assert [lo][1..] == [];
    assert Left(p, y, [lo]) == Left(p, LeftN(p, Xor(y, High(lo)), 8), []);
  }

  /** A message followed by its own checksum, high byte first, has checksum zero. */
  lemma AppendedChecksum(p: bv16, x: bv16, data: seq<bv8>, hi: bv8, lo: bv8)
    requires Word(hi, lo) == Left(p, x, data)
    ensures Left(p, x, data + [hi, lo]) == 0
  {
    hide LeftN, Xor, Word, Left;
    LeftAppend(p, x, data, [hi, lo]);
    TakesWord(p, Left(p, x, data), hi, lo);
    XorSelf(Word(hi, lo));
    StaysZero(p, 16);
  }

  lemma {:induction false} StaysZero(p: bv16, n: nat)
    ensures LeftN(p, 0, n) == 0
    decreases n
  {
    if n > 0 { StaysZero(p, n - 1); }
  }

  // ---------------------------------------------------------------- check values

  lemma {:induction false} RightAppend(p: bv16, x: bv16, a: seq<bv8>, b: seq<bv8>)
    ensures Right(p, x, a + b) == Right(p, Right(p, x, a), b)
    decreases |a|
  {
    hide RightN, Xor, Low;
    if a == [] {
      assert a + b == b;
    } else {
      assert (a + b)[0] == a[0] && (a + b)[1..] == a[1..] + b;
      RightAppend(p, RightN(p, Xor(x, Low(a[0])), 8), a[1..], b);
    }
  }

  /** The XMODEM checksum of the digits 1 to 9. */
  lemma XmodemCheck()
    ensures Left(POLY, 0, DIGITS) == 0x31C3
  {
    assert Left(POLY, 0, [0x31, 0x32, 0x33]) == 0x9752;
    assert Left(POLY, 0x9752, [0x34, 0x35, 0x36]) == 0x20E4;
    assert Left(POLY, 0x20E4, [0x37, 0x38, 0x39]) == 0x31C3;
    LeftAppend(POLY, 0, [0x31, 0x32, 0x33] + [0x34, 0x35, 0x36], [0x37, 0x38, 0x39]);
    LeftAppend(POLY, 0, [0x31, 0x32, 0x33], [0x34, 0x35, 0x36]);
    assert DIGITS == [0x31, 0x32, 0x33] + [0x34, 0x35, 0x36] + [0x37, 0x38, 0x39];
  }

  /** The CCITT checksum of the digits 1 to 9. */
  lemma CcittCheck()
    ensures Right(Mirror(POLY), 0, DIGITS) == 0x2189
  {
    assert Mirror(POLY) == 0x8408;
    assert Right(0x8408, 0, [0x31, 0x32, 0x33]) == 0x5A78;
    assert Right(0x8408, 0x5A78, [0x34, 0x35, 0x36]) == 0x11FD;
    assert Right(0x8408, 0x11FD, [0x37, 0x38, 0x39]) == 0x2189;
    RightAppend(0x8408, 0, [0x31, 0x32, 0x33] + [0x34, 0x35, 0x36], [0x37, 0x38, 0x39]);
    RightAppend(0x8408, 0, [0x31, 0x32, 0x33], [0x34, 0x35, 0x36]);
    assert DIGITS == [0x31, 0x32, 0x33] + [0x34, 0x35, 0x36] + [0x37, 0x38, 0x39];
  }
}
