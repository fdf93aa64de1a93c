/** The 32-bit checksums of wow_crc.c: a register that shifts to the left (MPEG-2) or, with everything mirrored, to the right (CRC-32). */
module Crc32 {
  import opened CrcBytes

  const POLY: bv32 := 0x04C1_1DB7

  // ---------------------------------------------------------------- words

  function Xor(x: bv32, y: bv32): bv32 { x ^ y }

  function Up(x: bv32): bv32 { x << 1 }

  function Down(x: bv32): bv32 { x >> 1 }

  predicate Top(x: bv32) { x & 0x8000_0000 != 0 }

  predicate Bottom(x: bv32) { x & 1 != 0 }

  /** A byte at the low or at the high end of a word. */
  function Low(b: bv8): bv32 { b as bv32 }

  function High(b: bv8): bv32 { (b as bv32) << 24 }

  function Mirror(x: bv32): bv32 {
    var a := ((x & 0x5555_5555) << 1) | ((x >> 1) & 0x5555_5555);
    var b := ((a & 0x3333_3333) << 2) | ((a >> 2) & 0x3333_3333);
    var c := ((b & 0x0F0F_0F0F) << 4) | ((b >> 4) & 0x0F0F_0F0F);
    var d := ((c & 0x00FF_00FF) << 8) | ((c >> 8) & 0x00FF_00FF);
    (d << 16) | (d >> 16)
  }

  /** What makes it the mirror image: bit i is bit 31 - i. */
  lemma MirrorBit(x: bv32, i: bv32)
    requires i < 32
    ensures Mirror(x) & (1 << (31 - i)) != 0 <==> x & (1 << i) != 0
  {
  }

  lemma MirrorTwice(x: bv32)
    ensures Mirror(Mirror(x)) == x
  {
  }

  lemma MirrorXor(x: bv32, y: bv32)
    ensures Mirror(Xor(x, y)) == Xor(Mirror(x), Mirror(y))
  {
  }

  lemma MirrorShift(x: bv32)
    ensures Mirror(x >> 1) == Mirror(x) << 1
  {
  }

  lemma MirrorBottom(x: bv32)
    ensures Bottom(x) <==> Top(Mirror(x))
  {
  }

  lemma MirrorLow(b: bv8)
    ensures Mirror(Low(b)) == High(Mirror8(b))
  {
  }

  /** The part of a word above bit i, one bit at a time. */
  function Above(m: bv32, i: bv32): bv32
    requires i <= 32
  {
    m & !(0xFFFF_FFFF >> i)
  }

  lemma AboveNone(m: bv32)
    ensures Above(m, 0) == 0 && Above(m, 32) == m
  {
  }

  lemma AboveNext(m: bv32, i: bv32)
    requires i < 32
    ensures Above(m, i + 1) == Above(m, i) | (m & (1 << (31 - i)))
  {
    var r, t: bv32 := 0xFFFF_FFFF >> i, 0xFFFF_FFFF >> (i + 1);
    assert t & r == t && r ^ t == 1 << (31 - i);
    SplitMask(m, r, t);
  }

  lemma SplitMask(m: bv32, r: bv32, t: bv32)
    requires t & r == t
    ensures m & !t == (m & !r) | (m & (r ^ t))
  {
  }

  lemma SingleBit(m: bv32, i: bv32)
    requires i < 32
    ensures m & (1 << i) == 0 || m & (1 << i) == 1 << i
  {
  }

  /** The body of InvertUint32's loop. */
  method CopyBit(src: bv32, i: bv32, tmp: bv32) returns (r: bv32)
    requires i < 32 && tmp == Above(Mirror(src), i)
    ensures r == Above(Mirror(src), i + 1)
  {
    hide Mirror, Above;
    MirrorBit(src, i);
    AboveNext(Mirror(src), i);
    SingleBit(Mirror(src), 31 - i);
    OrNothing(tmp);
    r := tmp;
    if src & (1 << i) != 0 { r := tmp | (1 << (31 - i)); }
  }

  lemma OrNothing(x: bv32)
    ensures x | 0 == x
  {
  }

  /** InvertUint32. */
  method InvertUint32(src: bv32) returns (dest: bv32)
    ensures dest == Mirror(src)
  {
    hide Mirror, Above;
    var i: bv32 := 0;
    dest := 0;
    AboveNone(Mirror(src));
    while i < 32
      invariant i <= 32 && dest == Above(Mirror(src), i)
      decreases 32 - i
    {
      dest := CopyBit(src, i, dest);
      i := i + 1;
    }
  }

  // ---------------------------------------------------------------- the registers

  function Left1(p: bv32, x: bv32): bv32 {
    if Top(x) then Xor(Up(x), p) else Up(x)
  }

  function Right1(p: bv32, x: bv32): bv32 {
    if Bottom(x) then Xor(Down(x), p) else Down(x)
  }

  function LeftN(p: bv32, x: bv32, n: nat): bv32
    decreases n
  {
    if n == 0 then x else LeftN(p, Left1(p, x), n - 1)
  }

  function RightN(p: bv32, x: bv32, n: nat): bv32
    decreases n
  {
    if n == 0 then x else RightN(p, Right1(p, x), n - 1)
  }

  function Left(p: bv32, x: bv32, data: seq<bv8>): bv32
    decreases |data|
  {
    if data == [] then x else Left(p, LeftN(p, Xor(x, High(data[0])), 8), data[1..])
  }

  function Right(p: bv32, x: bv32, data: seq<bv8>): bv32
    decreases |data|
  {
    if data == [] then x else Right(p, RightN(p, Xor(x, Low(data[0])), 8), data[1..])
  }

  /** The body of the bit loops. */
  method ShiftLeft(crc: bv32, poly: bv32) returns (r: bv32)
    ensures r == Left1(poly, crc)
  {
    if crc & 0x8000_0000 != 0 { r := (crc << 1) ^ poly; } else { r := crc << 1; }
  }

  method ShiftRight(crc: bv32, poly: bv32) returns (r: bv32)
    ensures r == Right1(poly, crc)
  {
    if crc & 0x01 != 0 { r := (crc >> 1) ^ poly; } else { r := crc >> 1; }
  }

  function Not(x: bv32): bv32 { x ^ 0xFFFF_FFFF }

  const ONES: bv32 := 0xFFFF_FFFF

  /** wow_crc32. */
  method Reflected(data: seq<bv8>) returns (crc: bv32)
    ensures crc == Not(Right(Mirror(POLY), ONES, data))
  {
    hide Mirror, Right1, Xor, Low;
    crc := ONES;
    var poly := InvertUint32(POLY);
    var k := 0;
    assert data[0..] == data;
    while k < |data|
      invariant 0 <= k <= |data| && Right(poly, crc, data[k..]) == Right(poly, ONES, data)
    {
      assert data[k..][1..] == data[k + 1..];
      crc := Xor(crc, Low(data[k]));
      ghost var start := crc;
      for i := 0 to 8
        invariant RightN(poly, crc, 8 - i) == RightN(poly, start, 8)
      {
        crc := ShiftRight(crc, poly);
      }
      k := k + 1;
    }
    crc := Not(crc);
  }

  /** wow_crc32_mpeg. */
  method Mpeg(data: seq<bv8>) returns (crc: bv32)
    ensures crc == Left(POLY, ONES, data)
  {
    hide Left1, Xor, High;
    crc := ONES;
    var poly := POLY;
    var k := 0;
    assert data[0..] == data;
    while k < |data|
      invariant 0 <= k <= |data| && Left(poly, crc, data[k..]) == Left(poly, ONES, data)
    {
      assert data[k..][1..] == data[k + 1..];
      crc := Xor(crc, High(data[k]));
      ghost var start := crc;
      for i := 0 to 8
        invariant LeftN(poly, crc, 8 - i) == LeftN(poly, start, 8)
      {
        crc := ShiftLeft(crc, poly);
      }
      k := k + 1;
    }
  }

  // ---------------------------------------------------------------- left and right are mirror images

  lemma {:induction false} MirrorN(p: bv32, x: bv32, n: nat)
    ensures Mirror(RightN(Mirror(p), x, n)) == LeftN(p, Mirror(x), n)
    decreases n
  {
    hide Mirror, Xor, Top, Bottom;
    if n > 0 {
      var y := Right1(Mirror(p), x);
      MirrorBottom(x);
      MirrorShift(x);
      MirrorXor(Down(x), Mirror(p));
      MirrorTwice(p);
      assert Mirror(y) == Left1(p, Mirror(x));
      MirrorN(p, y, n - 1);
    }
  }

  lemma {:induction false} MirrorRegisters(p: bv32, x: bv32, data: seq<bv8>)
    ensures Mirror(Right(Mirror(p), x, data)) == Left(p, Mirror(x), MirrorBytes(data))
    decreases |data|
  {
    hide Mirror, RightN, LeftN, Mirror8, Xor, Low, High;
    if data != [] {
      var y := Xor(x, Low(data[0]));
      MirrorXor(x, Low(data[0]));
      MirrorLow(data[0]);
      MirrorN(p, y, 8);
      MirrorRegisters(p, RightN(Mirror(p), y, 8), data[1..]);
      assert MirrorBytes(data)[1..] == MirrorBytes(data[1..]);
    }
  }

  /** The reflected checksum is the complement of the mirror image of the MPEG-2 checksum of the mirrored bytes. */
  lemma ReflectedMirrorsMpeg(data: seq<bv8>)
    ensures Not(Right(Mirror(POLY), ONES, data)) == Not(Mirror(Left(POLY, ONES, MirrorBytes(data))))
  {
    hide Mirror, Left, Right, Not;
    MirrorRegisters(POLY, ONES, data);
    MirrorTwice(Right(Mirror(POLY), ONES, data));
    MirrorOnes();
  }

  lemma MirrorOnes()
    ensures Mirror(ONES) == ONES
  {
  }

  // ---------------------------------------------------------------- linearity

  lemma XorCommutes(x: bv32, y: bv32)
    ensures Xor(x, y) == Xor(y, x)
  {
  }

  lemma XorAssociates(x: bv32, y: bv32, z: bv32)
    ensures Xor(Xor(x, y), z) == Xor(x, Xor(y, z))
  {
  }

  lemma XorSelf(x: bv32)
    ensures Xor(x, x) == 0 && Xor(x, 0) == x
  {
  }

  lemma Swap4(x: bv32, y: bv32, u: bv32, v: bv32)
    ensures Xor(Xor(x, y), Xor(u, v)) == Xor(Xor(x, u), Xor(y, v))
  {
    hide Xor;
    XorAssociates(x, y, Xor(u, v));
    XorAssociates(y, u, v);
    XorCommutes(y, u);
    XorAssociates(u, y, v);
    XorAssociates(x, u, Xor(y, v));
  }

  lemma Linear1(p: bv32, x: bv32, y: bv32)
    ensures Left1(p, Xor(x, y)) == Xor(Left1(p, x), Left1(p, y))
  {
    hide Xor, Up, Top;
    UpLinear(x, y);
    TopLinear(x, y);
    var a, b := Up(x), Up(y);
    Swap4(a, p, b, p);
    XorSelf(p);
    XorSelf(Xor(a, b));
    XorAssociates(a, b, p);
    XorAssociates(a, p, b);
    XorCommutes(p, b);
  }

  lemma UpLinear(x: bv32, y: bv32)
    ensures Up(Xor(x, y)) == Xor(Up(x), Up(y))
  {
  }

  lemma TopLinear(x: bv32, y: bv32)
    ensures Top(Xor(x, y)) <==> Top(x) != Top(y)
  {
  }

  lemma {:induction false} LinearN(p: bv32, x: bv32, y: bv32, n: nat)
    ensures LeftN(p, Xor(x, y), n) == Xor(LeftN(p, x, n), LeftN(p, y, n))
    decreases n
  {
    hide Xor, Left1;
    if n > 0 {
      Linear1(p, x, y);
      LinearN(p, Left1(p, x), Left1(p, y), n - 1);
    }
  }

  lemma HighLinear(a: bv8, b: bv8)
    ensures High(Xor8(a, b)) == Xor(High(a), High(b))
  {
  }

  /** The register is linear in its start and the message, for every polynomial. */
  lemma {:induction false} Linear(p: bv32, x: bv32, y: bv32, a: seq<bv8>, b: seq<bv8>)
    requires |a| == |b|
    ensures Left(p, Xor(x, y), XorBytes(a, b)) == Xor(Left(p, x, a), Left(p, y, b))
    decreases |a|
  {
    hide Xor, High, LeftN, Xor8;
    if a != [] {
      HighLinear(a[0], b[0]);
      var u, v := Xor(x, High(a[0])), Xor(y, High(b[0]));
      Swap4(x, y, High(a[0]), High(b[0]));
      LinearN(p, u, v, 8);
      Linear(p, LeftN(p, u, 8), LeftN(p, v, 8), a[1..], b[1..]);
      assert XorBytes(a, b)[0] == Xor8(a[0], b[0]);
      assert XorBytes(a, b)[1..] == XorBytes(a[1..], b[1..]);
    }
  }

  /** The register starts at all ones, so the checksums of three messages of one length combine, not those of two. */
  lemma MpegAffine(a: seq<bv8>, b: seq<bv8>, c: seq<bv8>)
    requires |a| == |b| == |c|
    ensures Left(POLY, ONES, XorBytes(XorBytes(a, b), c))
         == Xor(Xor(Left(POLY, ONES, a), Left(POLY, ONES, b)), Left(POLY, ONES, c))
  {
    hide Xor, Left, XorBytes;
    var zero := Xor(ONES, ONES);
    XorOnes();
    Linear(POLY, ONES, ONES, a, b);
    Linear(POLY, zero, ONES, XorBytes(a, b), c);
  }

  lemma XorOnes()
    ensures Xor(Xor(ONES, ONES), ONES) == ONES
  {
  }

  /** So do those of the register that shifts to the right, complemented at the end. */
  lemma ReflectedAffine(a: seq<bv8>, b: seq<bv8>, c: seq<bv8>)
    requires |a| == |b| == |c|
    ensures Not(Right(Mirror(POLY), ONES, XorBytes(XorBytes(a, b), c)))
         == Xor(Xor(Not(Right(Mirror(POLY), ONES, a)), Not(Right(Mirror(POLY), ONES, b))), Not(Right(Mirror(POLY), ONES, c)))
  {
    hide Xor, Left, Right, Mirror, Not, XorBytes, MirrorBytes;
    MirrorXorBytes(a, b);
    MirrorXorBytes(XorBytes(a, b), c);
    MpegAffine(MirrorBytes(a), MirrorBytes(b), MirrorBytes(c));
    ReflectedMirrorsMpeg(a);
    ReflectedMirrorsMpeg(b);
    ReflectedMirrorsMpeg(c);
    ReflectedMirrorsMpeg(XorBytes(XorBytes(a, b), c));
    var u, v, w := Left(POLY, ONES, MirrorBytes(a)), Left(POLY, ONES, MirrorBytes(b)), Left(POLY, ONES, MirrorBytes(c));
    MirrorXor(Xor(u, v), w);
    MirrorXor(u, v);
    NotThree(Mirror(u), Mirror(v), Mirror(w));
  }

  lemma NotThree(x: bv32, y: bv32, z: bv32)
    ensures Not(Xor(Xor(x, y), z)) == Xor(Xor(Not(x), Not(y)), Not(z))
  {
  }

  // ---------------------------------------------------------------- bit by bit

  /** One bit into the register. */
  function Step(p: bv32, x: bv32, bit: bool): bv32 {
    if Top(x) != bit then Xor(Up(x), p) else Up(x)
  }

  function Feed(p: bv32, x: bv32, bits: seq<bool>): bv32
    decreases |bits|
  {
    if bits == [] then x else Feed(p, Step(p, x, bits[0]), bits[1..])
  }

  lemma StepIs(p: bv32, x: bv32, b: bv8)
    ensures Left1(p, Xor(x, High(b))) == Xor(Step(p, x, Top8(b)), High(Up8(b)))
  {
    hide Xor, High, Up, Up8, Top, Top8;
    TopOfXor(x, b);
    UpOfXor(x, b);
    XorAssociates(Up(x), High(Up8(b)), p);
    XorCommutes(High(Up8(b)), p);
    XorAssociates(Up(x), p, High(Up8(b)));
  }

  lemma TopOfXor(x: bv32, b: bv8)
    ensures Top(Xor(x, High(b))) <==> Top(x) != Top8(b)
  {
  }

  lemma UpOfXor(x: bv32, b: bv8)
    ensures Up(Xor(x, High(b))) == Xor(Up(x), High(Up8(b)))
  {
  }

  /** Shifts of the register with a byte in it take in the byte's bits from the top. */
  lemma {:induction false} TakesBits(p: bv32, x: bv32, b: bv8, n: nat)
    ensures LeftN(p, Xor(x, High(b)), n) == Xor(Feed(p, x, TopBits(b, n)), High(UpN(b, n)))
    decreases n
  {
    hide Xor, High, Up8, Top8, Step, Left1;
    if n > 0 {
      StepIs(p, x, b);
      TakesBits(p, Step(p, x, Top8(b)), Up8(b), n - 1);
      assert TopBits(b, n)[1..] == TopBits(Up8(b), n - 1);
    }
  }

  /** A byte is taken in like its bits, one after the other. */
  lemma TakesByte(p: bv32, x: bv32, b: bv8)
    ensures LeftN(p, Xor(x, High(b)), 8) == Feed(p, x, Bits8(b))
  {
    hide Xor, High, TopBits, UpN, LeftN;
    TakesBits(p, x, b, 8);
    NothingLeft(b);
    NoBits(Feed(p, x, Bits8(b)));
  }

  lemma NoBits(x: bv32)
    ensures Xor(x, High(0)) == x
  {
  }

  lemma {:induction false} FeedAppend(p: bv32, x: bv32, u: seq<bool>, v: seq<bool>)
    ensures Feed(p, x, u + v) == Feed(p, Feed(p, x, u), v)
    decreases |u|
  {
    hide Step;
    if u == [] {
      assert u + v == v;
    } else {
      assert (u + v)[0] == u[0] && (u + v)[1..] == u[1..] + v;
      FeedAppend(p, Step(p, x, u[0]), u[1..], v);
    }
  }

  /** The register takes a message in bit by bit. */
  lemma {:induction false} LeftIsFeed(p: bv32, x: bv32, data: seq<bv8>)
    ensures Left(p, x, data) == Feed(p, x, BitsOf(data))
    decreases |data|
  {
    hide LeftN, Xor, High, Step, Bits8;
    if data != [] {
      TakesByte(p, x, data[0]);
      FeedAppend(p, x, Bits8(data[0]), BitsOf(data[1..]));
      LeftIsFeed(p, LeftN(p, Xor(x, High(data[0])), 8), data[1..]);
    }
  }

  // ---------------------------------------------------------------- what the checksum detects

  /** All bits but the top k. */
  function Mask(k: nat): bv32 {
    if k == 0 then 0xFFFF_FFFF else Down(Mask(k - 1))
  }

  /** Bits set below the lowest one that is not. */
  predicate Solid(m: bv32) { m & (m + 1) == 0 }

  lemma {:induction false} MaskSolid(k: nat)
    ensures Solid(Mask(k))
  {
    if k > 0 {
      MaskSolid(k - 1);
      SolidDown(Mask(k - 1));
    }
  }

  lemma SolidDown(m: bv32)
    requires Solid(m)
    ensures Solid(Down(m)) && (Bottom(Down(m)) ==> Bottom(m))
  {
  }

  lemma {:induction false} MaskBottom(k: nat)
    requires k < 32
    ensures Bottom(Mask(k))
    decreases 32 - k
  {
    hide Solid, Down, Bottom;
    if k == 31 {
      LastMask();
    } else {
      MaskBottom(k + 1);
      MaskSolid(k);
      SolidDown(Mask(k));
    }
  }

  lemma LastMask()
    ensures Bottom(Mask(31))
  {
    assert Mask(8) == 0x00FF_FFFF;
    assert Mask(16) == 0xFFFF;
    assert Mask(24) == 0xFF;
    assert Mask(31) == 1;
  }

  /** Registers that agree where the mask has ones. */
  predicate Agree(x: bv32, y: bv32, m: bv32) { Xor(x, y) & m == 0 }

  /** Registers that k bits each lead to the same register have the same lower bits, but for the top k. */
  lemma {:induction false} SameBelow(p: bv32, x: bv32, y: bv32, u: seq<bool>, v: seq<bool>)
    requires Bottom(p) && |u| == |v| <= 32 && Feed(p, x, u) == Feed(p, y, v)
    ensures Agree(x, y, Mask(|u|))
    decreases |u|
  {
    hide Step, Mask, Agree, Bottom;
    if u == [] {
      AgreeSelf(x, Mask(0));
    } else {
      SameBelow(p, Step(p, x, u[0]), Step(p, y, v[0]), u[1..], v[1..]);
      MaskBottom(|u| - 1);
      StepsDiffer(p, x, y, u[0], v[0], Mask(|u| - 1));
      MaskNext(|u|);
    }
  }

  lemma AgreeSelf(x: bv32, m: bv32)
    ensures Agree(x, x, m)
  {
  }

  lemma MaskNext(k: nat)
    requires k > 0
    ensures Mask(k) == Down(Mask(k - 1))
  {
  }

  lemma StepsDiffer(p: bv32, x: bv32, y: bv32, a: bool, b: bool, m: bv32)
    requires Bottom(p) && Bottom(m) && Agree(Step(p, x, a), Step(p, y, b), m)
    ensures Agree(x, y, Down(m))
  {
    hide Xor, Up, Down, Top, Bottom;
    UpBottom(x, p);
    UpBottom(y, p);
    BottomsSame(Step(p, x, a), Step(p, y, b), m);
    Swap4(Up(x), p, Up(y), p);
    XorSelf(p);
    XorSelf(Xor(Up(x), Up(y)));
    UpLinear(x, y);
    MaskDown(Xor(x, y), m);
  }

  lemma BottomsSame(x: bv32, y: bv32, m: bv32)
    requires Bottom(m) && Xor(x, y) & m == 0
    ensures Bottom(x) <==> Bottom(y)
  {
  }

  lemma MaskDown(x: bv32, m: bv32)
    requires Up(x) & m == 0
    ensures x & Down(m) == 0
  {
  }

  /** Bursts of up to the register's width that lead from one register to the same register are the same. */
  lemma {:induction false} BurstInjective(p: bv32, x: bv32, u: seq<bool>, v: seq<bool>)
    requires Bottom(p) && |u| == |v| <= 32 && Feed(p, x, u) == Feed(p, x, v)
    ensures u == v
    decreases |u|
  {
    hide Step, Mask, Bottom, Agree;
    if u != [] {
      SameBelow(p, Step(p, x, u[0]), Step(p, x, v[0]), u[1..], v[1..]);
      MaskBottom(|u| - 1);
      OneBitOff(p, x, u[0], v[0], Mask(|u| - 1));
      BurstInjective(p, Step(p, x, u[0]), u[1..], v[1..]);
      assert u == [u[0]] + u[1..] && v == [v[0]] + v[1..];
    }
  }

  lemma OneBitOff(p: bv32, x: bv32, a: bool, b: bool, m: bv32)
    requires Bottom(p) && Bottom(m) && Agree(Step(p, x, a), Step(p, x, b), m)
    ensures a == b
  {
    hide Xor, Up, Down, Top, Bottom;
    UpBottom(x, p);
    BottomsSame(Step(p, x, a), Step(p, x, b), m);
  }

  /** No bit that goes in alike makes different registers the same. */
  lemma {:induction false} FeedInjective(p: bv32, x: bv32, y: bv32, u: seq<bool>)
    requires Bottom(p) && Feed(p, x, u) == Feed(p, y, u)
    ensures x == y
    decreases |u|
  {
    hide Step, Bottom;
    if u != [] {
      FeedInjective(p, Step(p, x, u[0]), Step(p, y, u[0]), u[1..]);
      StepInjective(p, x, y, u[0]);
    }
  }

  lemma StepInjective(p: bv32, x: bv32, y: bv32, bit: bool)
    requires Bottom(p) && Step(p, x, bit) == Step(p, y, bit)
    ensures x == y
  {
    hide Xor, Up, Top, Bottom;
    UpBottom(x, p);
    UpBottom(y, p);
    if Top(x) != bit && Top(y) != bit { XorCancels(Up(x), Up(y), p); }
    if Up(x) == Up(y) && (Top(x) <==> Top(y)) { UpInjective(x, y); }
  }

  lemma UpBottom(x: bv32, p: bv32)
    ensures !Bottom(Up(x)) && (Bottom(p) ==> Bottom(Xor(Up(x), p)))
  {
  }

  lemma UpInjective(x: bv32, y: bv32)
    requires Up(x) == Up(y) && (Top(x) <==> Top(y))
    ensures x == y
  {
  }

  lemma XorCancels(x: bv32, y: bv32, z: bv32)
    requires Xor(x, z) == Xor(y, z)
    ensures x == y
  {
  }

  /** Messages that differ in an error burst of at most the register's width, at any bit, have different checksums. */
  lemma BurstDetected(p: bv32, x: bv32, a: seq<bv8>, b: seq<bv8>, i: nat)
    requires Bottom(p) && |a| == |b| && a != b && Burst(BitsOf(a), BitsOf(b), i, 32)
    ensures Left(p, x, a) != Left(p, x, b)
  {
    hide Left, Feed, Bottom, BitsOf, Burst;
    var front, u, v, back := BurstParts(BitsOf(a), BitsOf(b), i, 32);
    LeftIsFeed(p, x, a);
    LeftIsFeed(p, x, b);
    FeedParts(p, x, front, u, back);
    FeedParts(p, x, front, v, back);
    var s := Feed(p, x, front);
    if Left(p, x, a) == Left(p, x, b) {
      FeedInjective(p, Feed(p, s, u), Feed(p, s, v), back);
      BurstInjective(p, s, u, v);
      BitsInjective(a, b);
    }
  }

  lemma FeedParts(p: bv32, x: bv32, front: seq<bool>, u: seq<bool>, back: seq<bool>)
    ensures Feed(p, x, front + u + back) == Feed(p, Feed(p, Feed(p, x, front), u), back)
  {
    hide Feed;
    FeedAppend(p, x, front + u, back);
    FeedAppend(p, x, front, u);
  }

  /** So have they in the register that shifts to the right, which takes the lowest bit of a byte first. */
  lemma RightBurstDetected(p: bv32, x: bv32, a: seq<bv8>, b: seq<bv8>, i: nat)
    requires Bottom(p) && |a| == |b| && a != b && Burst(BitsOf(MirrorBytes(a)), BitsOf(MirrorBytes(b)), i, 32)
    ensures Right(Mirror(p), x, a) != Right(Mirror(p), x, b)
  {
    hide Mirror, Left, Right, Bottom, BitsOf, Burst, MirrorBytes;
    MirrorRegisters(p, x, a);
    MirrorRegisters(p, x, b);
    if MirrorBytes(a) == MirrorBytes(b) { MirrorInjective(a, b); }
    BurstDetected(p, Mirror(x), MirrorBytes(a), MirrorBytes(b), i);
  }

  // ---------------------------------------------------------------- a message with its checksum

  lemma {:induction false} LeftAppend(p: bv32, x: bv32, a: seq<bv8>, b: seq<bv8>)
    ensures Left(p, x, a + b) == Left(p, Left(p, x, a), b)
    decreases |a|
  {
    hide LeftN, Xor, High;
    if a == [] {
      assert a + b == b;
    } else {
      assert (a + b)[0] == a[0] && (a + b)[1..] == a[1..] + b;
      LeftAppend(p, LeftN(p, Xor(x, High(a[0])), 8), a[1..], b);
    }
  }

  function TopByte(x: bv32): bv8 { ((x >> 24) & 0xFF) as bv8 }

  function LowByte(x: bv32): bv8 { (x & 0xFF) as bv8 }

  function LeftByte(x: bv32): bv32 { x << 8 }

  function RightByte(x: bv32): bv32 { x >> 8 }

  /** The bytes of a checksum, highest first. */
  function Bytes(x: bv32): seq<bv8> {
    [TopByte(x), TopByte(LeftByte(x)), TopByte(LeftByte(LeftByte(x))), TopByte(LeftByte(LeftByte(LeftByte(x))))]
  }

  /** The bytes of a checksum, lowest first. */
  function BytesLow(x: bv32): seq<bv8> {
    [LowByte(x), LowByte(RightByte(x)), LowByte(RightByte(RightByte(x))), LowByte(RightByte(RightByte(RightByte(x))))]
  }

  /** Taking in the register's own top byte shifts the rest up, without feedback. */
  lemma TakesTopByte(p: bv32, x: bv32)
    ensures LeftN(p, Xor(x, High(TopByte(x))), 8) == LeftByte(x)
  {
    hide LeftN, Xor, High, TopByte;
    WithoutTop(x);
    EightUps(p, x & 0x00FF_FFFF);
  }

  lemma EightUps(p: bv32, y: bv32)
    requires y & 0xFF00_0000 == 0
    ensures LeftN(p, y, 8) == y << 8
  {
    hide Up, Top;
    NoTops(y);
    UpOnce(p, y, 8);
    UpOnce(p, Up(y), 7);
    UpOnce(p, Up(Up(y)), 6);
    UpOnce(p, Up(Up(Up(y))), 5);
    UpOnce(p, Up(Up(Up(Up(y)))), 4);
    UpOnce(p, Up(Up(Up(Up(Up(y))))), 3);
    UpOnce(p, Up(Up(Up(Up(Up(Up(y)))))), 2);
    UpOnce(p, Up(Up(Up(Up(Up(Up(Up(y))))))), 1);
  }

  lemma NoTops(y: bv32)
    requires y & 0xFF00_0000 == 0
    ensures !Top(y) && !Top(Up(y)) && !Top(Up(Up(y))) && !Top(Up(Up(Up(y)))) && !Top(Up(Up(Up(Up(y)))))
    ensures !Top(Up(Up(Up(Up(Up(y)))))) && !Top(Up(Up(Up(Up(Up(Up(y)))))))
    ensures !Top(Up(Up(Up(Up(Up(Up(Up(y))))))))
    ensures Up(Up(Up(Up(Up(Up(Up(Up(y)))))))) == y << 8
  {
  }

  lemma UpOnce(p: bv32, x: bv32, n: nat)
    requires n > 0 && !Top(x)
    ensures LeftN(p, x, n) == LeftN(p, Up(x), n - 1)
  {
    hide Top, Up;
  }

  lemma WithoutTop(x: bv32)
    ensures Xor(x, High(TopByte(x))) == x & 0x00FF_FFFF
    ensures (x & 0x00FF_FFFF) & 0xFF00_0000 == 0 && (x & 0x00FF_FFFF) << 8 == x << 8
  {
  }

  lemma TakesItself(p: bv32, x: bv32)
    ensures Left(p, x, Bytes(x)) == 0
  {
    hide LeftN, Xor, High, TopByte, LeftByte;
    var x1 := LeftByte(x);
    var x2 := LeftByte(x1);
    var x3 := LeftByte(x2);
    TakesTopByte(p, x);
    TakesTopByte(p, x1);
    TakesTopByte(p, x2);
    TakesTopByte(p, x3);
    ShiftedOut(x);
    OneMore(p, x3, TopByte(x3), []);
    OneMore(p, x2, TopByte(x2), [TopByte(x3)]);
    OneMore(p, x1, TopByte(x1), [TopByte(x2), TopByte(x3)]);
    OneMore(p, x, TopByte(x), [TopByte(x1), TopByte(x2), TopByte(x3)]);
  }

  lemma ShiftedOut(x: bv32)
    ensures LeftByte(LeftByte(LeftByte(LeftByte(x)))) == 0
  {
  }

  lemma OneMore(p: bv32, x: bv32, b: bv8, rest: seq<bv8>)
    ensures Left(p, x, [b] + rest) == Left(p, LeftN(p, Xor(x, High(b)), 8), rest)
  {
    assert ([b] + rest)[1..] == rest;
  }

  /** A message followed by its own checksum, high byte first, has checksum zero. */
  lemma AppendedChecksum(p: bv32, x: bv32, data: seq<bv8>)
    ensures Left(p, x, data + Bytes(Left(p, x, data))) == 0
  {
    hide Left, Bytes;
    LeftAppend(p, x, data, Bytes(Left(p, x, data)));
    TakesItself(p, Left(p, x, data));
  }

  lemma MirrorBytesLow(x: bv32)
    ensures MirrorBytes(BytesLow(x)) == Bytes(Mirror(x))
  {
    hide Mirror, Mirror8, LowByte, TopByte, LeftByte, RightByte;
    var x1 := RightByte(x);
    var x2 := RightByte(x1);
    var x3 := RightByte(x2);
    MirrorLowByte(x);
    MirrorLowByte(x1);
    MirrorLowByte(x2);
    MirrorLowByte(x3);
    MirrorRightByte(x);
    MirrorRightByte(x1);
    MirrorRightByte(x2);
  }

  lemma MirrorLowByte(x: bv32)
    ensures Mirror8(LowByte(x)) == TopByte(Mirror(x))
  {
  }

  lemma MirrorRightByte(x: bv32)
    ensures Mirror(RightByte(x)) == LeftByte(Mirror(x))
  {
    hide Mirror;
    MirrorShiftByte(x);
  }

  lemma MirrorShiftByte(x: bv32)
    ensures Mirror(x >> 8) == Mirror(x) << 8
  {
  }

  /** What taking in the complement of the register leaves of it: nothing that depends on it. */
  lemma TakesComplement(p: bv32, x: bv32)
    ensures Left(p, x, Bytes(Not(x))) == Left(p, 0, [0xFF, 0xFF, 0xFF, 0xFF])
  {
    hide Left, Xor, Not, TopByte, Xor8;
    var ones: seq<bv8> := [0xFF, 0xFF, 0xFF, 0xFF];
    ComplementBytes(x);
    TakesItself(p, x);
    Linear(p, x, 0, Bytes(x), ones);
    XorSelf(x);
    XorSelf(Left(p, 0, ones));
    XorCommutes(0, Left(p, 0, ones));
  }

  lemma ComplementBytes(x: bv32)
    ensures XorBytes(Bytes(x), [0xFF, 0xFF, 0xFF, 0xFF]) == Bytes(Not(x))
  {
    hide TopByte, Not, Xor8, LeftByte;
    ComplementByte(x);
    ComplementByte(LeftByte(x));
    ComplementByte(LeftByte(LeftByte(x)));
    ComplementByte(LeftByte(LeftByte(LeftByte(x))));
    ComplementLeft(x);
  }

  lemma ComplementByte(x: bv32)
    ensures Xor8(TopByte(x), 0xFF) == TopByte(Not(x))
  {
  }

  lemma ComplementLeft(x: bv32)
    ensures TopByte(Not(LeftByte(x))) == TopByte(LeftByte(Not(x)))
    ensures TopByte(Not(LeftByte(LeftByte(x)))) == TopByte(LeftByte(LeftByte(Not(x))))
    ensures TopByte(Not(LeftByte(LeftByte(LeftByte(x))))) == TopByte(LeftByte(LeftByte(LeftByte(Not(x)))))
  {
  }

  /** A message followed by its own CRC-32, low byte first, has the same CRC-32 whatever the message is. */
  lemma AppendedReflected(data: seq<bv8>)
    ensures var crc := Not(Right(Mirror(POLY), ONES, data));
            Not(Right(Mirror(POLY), ONES, data + BytesLow(crc))) == 0x2144_DF1C
  {
    hide Mirror, Left, Right, Not, Xor, MirrorBytes, Bytes, BytesLow;
    var r := Right(Mirror(POLY), ONES, data);
    var l := Left(POLY, ONES, MirrorBytes(data));
    var tail := BytesLow(Not(r));
    MirrorRegisters(POLY, ONES, data);
    MirrorRegisters(POLY, ONES, data + tail);
    MirrorOnes();
    MirrorAppend(data, tail);
    MirrorBytesLow(Not(r));
    NotIsXor(r);
    NotIsXor(Mirror(r));
    MirrorXor(r, ONES);
    LeftAppend(POLY, ONES, MirrorBytes(data), MirrorBytes(tail));
    TakesComplement(POLY, l);
    MirrorTwice(Right(Mirror(POLY), ONES, data + tail));
    Residue();
  }

  lemma NotIsXor(x: bv32)
    ensures Not(x) == Xor(x, ONES)
  {
  }

  lemma Residue()
    ensures Not(Mirror(Left(POLY, 0, [0xFF, 0xFF, 0xFF, 0xFF]))) == 0x2144_DF1C
  {
    assert Left(POLY, 0, [0xFF, 0xFF, 0xFF, 0xFF]) == 0xC704_DD7B;
  }

  // ---------------------------------------------------------------- check values

  lemma {:induction false} RightAppend(p: bv32, x: bv32, a: seq<bv8>, b: seq<bv8>)
    ensures Right(p, x, a + b) == Right(p, Right(p, x, a), b)
    decreases |a|
  {
    hide RightN, Xor, Low;
    if a == [] {
      assert a + b == b;
    } else {
      assert (a + b)[0] == a[0] && (a + b)[1..] == a[1..] + b;
      RightAppend(p, RightN(p, Xor(x, Low(a[0])), 8), a[1..], b);
    }
  }

  /** The MPEG-2 checksum of the digits 1 to 9. */
  lemma MpegCheck()
    ensures Left(POLY, ONES, DIGITS) == 0x0376_E6E7
  {
    hide Left;
    MpegDigits1();
    MpegDigits2();
    MpegDigits3();
    LeftAppend(POLY, 0xFFFF_FFFF, [0x31, 0x32, 0x33] + [0x34, 0x35, 0x36], [0x37, 0x38, 0x39]);
    LeftAppend(POLY, 0xFFFF_FFFF, [0x31, 0x32, 0x33], [0x34, 0x35, 0x36]);
    assert DIGITS == [0x31, 0x32, 0x33] + [0x34, 0x35, 0x36] + [0x37, 0x38, 0x39];
  }

  lemma MpegDigits1()
    ensures Left(POLY, 0xFFFF_FFFF, [0x31, 0x32, 0x33]) == 0xD952_F164
  {
  }

  lemma MpegDigits2()
    ensures Left(POLY, 0xD952_F164, [0x34, 0x35, 0x36]) == 0xD8F0_6C8F
  {
  }

  lemma MpegDigits3()
    ensures Left(POLY, 0xD8F0_6C8F, [0x37, 0x38, 0x39]) == 0x0376_E6E7
  {
  }

  /** The CRC-32 of the digits 1 to 9. */
  lemma ReflectedCheck()
    ensures Not(Right(Mirror(POLY), ONES, DIGITS)) == 0xCBF4_3926
  {
    hide Right;
    assert Mirror(POLY) == 0xEDB8_8320;
    ReflectedDigits1();
    ReflectedDigits2();
    ReflectedDigits3();
    RightAppend(0xEDB8_8320, 0xFFFF_FFFF, [0x31, 0x32, 0x33] + [0x34, 0x35, 0x36], [0x37, 0x38, 0x39]);
    RightAppend(0xEDB8_8320, 0xFFFF_FFFF, [0x31, 0x32, 0x33], [0x34, 0x35, 0x36]);
    assert DIGITS == [0x31, 0x32, 0x33] + [0x34, 0x35, 0x36] + [0x37, 0x38, 0x39];
  }

  lemma ReflectedDigits1()
    ensures Right(0xEDB8_8320, 0xFFFF_FFFF, [0x31, 0x32, 0x33]) == 0x77B7_9C2D
  {
  }

  lemma ReflectedDigits2()
    ensures Right(0xEDB8_8320, 0x77B7_9C2D, [0x34, 0x35, 0x36]) == 0xF68D_2C9E
  {
  }

  lemma ReflectedDigits3()
    ensures Right(0xEDB8_8320, 0xF68D_2C9E, [0x37, 0x38, 0x39]) == 0x340B_C6D9
  {
  }
}
