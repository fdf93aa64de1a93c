/** wow_base64.c against section 4 of RFC 4648. */
module Base64 {
  type Byte = x: int | 0 <= x < 256

  const PAD: Byte := 61

  // ---------------------------------------------------------------- the alphabet

  /** g_encodingTable: A-Z, a-z, 0-9, +, /. */
  function Letter(v: int): Byte
    requires 0 <= v < 64
  {
    if v < 26 then 65 + v else if v < 52 then 97 + v - 26 else if v < 62 then 48 + v - 52 else if v == 62 then 43 else 47
  }

  /** g_decodingTable: 0 for everything outside the alphabet. */
  function Sextet(ch: Byte): (v: int)
    ensures 0 <= v < 64
  {
    if 65 <= ch <= 90 then ch - 65 else if 97 <= ch <= 122 then ch - 97 + 26 else if 48 <= ch <= 57 then ch - 48 + 52
    else if ch == 43 then 62 else if ch == 47 then 63 else 0
  }

  lemma LetterSextet(v: int)
    requires 0 <= v < 64
    ensures Sextet(Letter(v)) == v && Letter(v) != PAD
  {
  }

  /** The alphabet of the RFC's table 1. */
  lemma LetterIs(v: int)
    requires 0 <= v < 64
    ensures v < 26 ==> Letter(v) == 'A' as int + v
    ensures 26 <= v < 52 ==> Letter(v) == 'a' as int + (v - 26)
    ensures 52 <= v < 62 ==> Letter(v) == '0' as int + (v - 52)
    ensures Letter(62) == '+' as int && Letter(63) == '/' as int && PAD == '=' as int
  {
  }

  /** A character outside the alphabet counts as zero. */
  lemma SextetExactly(ch: Byte)
    ensures (exists v :: 0 <= v < 64 && Letter(v) == ch && Sextet(ch) == v)
            || (Sextet(ch) == 0 && forall v :: 0 <= v < 64 ==> Letter(v) != ch)
  {
    if Letter(Sextet(ch)) == ch {
      assert 0 <= Sextet(ch) < 64;
    } else {
      forall v | 0 <= v < 64 ensures Letter(v) != ch { LetterSextet(v); }
    }
  }

  // ---------------------------------------------------------------- RFC 4648, section 4

  /** The four letters of a whole group. */
  function Letters(a: Byte, b: Byte, c: Byte): (q: seq<Byte>)
    ensures |q| == 4
  {
    [Letter(a / 4), Letter(a % 4 * 16 + b / 16), Letter(b % 16 * 4 + c / 64), Letter(c % 64)]
  }

  /** Groups of 24 bits become four letters; a last group of 8 or 16 bits is filled with zero bits to whole letters and padded. */
  function Rfc(data: seq<Byte>): (text: seq<Byte>)
    ensures |text| == (|data| + 2) / 3 * 4
  {
    if |data| == 0 then []
    else if |data| == 1 then [Letter(data[0] / 4), Letter(data[0] % 4 * 16), PAD, PAD]
    else if |data| == 2 then
      [Letter(data[0] / 4), Letter(data[0] % 4 * 16 + data[1] / 16), Letter(data[1] % 16 * 4), PAD]
    else Letters(data[0], data[1], data[2]) + Rfc(data[3..])
  }

  /** Test vectors of section 10 of the RFC: "foob", "fooba" and "foobar". */
  lemma RfcVectors()
    ensures Rfc([102, 111, 111, 98]) == [90, 109, 57, 118, 89, 103, 61, 61]
    ensures Rfc([102, 111, 111, 98, 97]) == [90, 109, 57, 118, 89, 109, 69, 61]
    ensures Rfc([102, 111, 111, 98, 97, 114]) == [90, 109, 57, 118, 89, 109, 70, 121]
  {
    assert [102, 111, 111, 98][3..] == [98];
    assert [102, 111, 111, 98, 97][3..] == [98, 97];
    assert [102, 111, 111, 98, 97, 114][3..] == [98, 97, 114] && [98, 97, 114][3..] == [];
    assert Rfc([98, 97, 114]) == Letters(98, 97, 114) + Rfc([]);
  }

  // ---------------------------------------------------------------- the code's view: zero-filled groups

  function At(data: seq<Byte>, i: nat): Byte {
    if i < |data| then data[i] else 0
  }

  function Quad(triple: int): (q: seq<Byte>)
    requires 0 <= triple < 0x100_0000
    ensures |q| == 4
  {
    [Letter(triple / 0x4_0000 % 64), Letter(triple / 0x1000 % 64), Letter(triple / 64 % 64), Letter(triple % 64)]
  }

  function Triple(a: Byte, b: Byte, c: Byte): (t: int)
    ensures 0 <= t < 0x100_0000
  {
    a * 0x1_0000 + b * 0x100 + c
  }

  function Tail(data: seq<Byte>, n: nat): seq<Byte> {
    if n <= |data| then data[n..] else []
  }

  /** All letters, before padding overwrites the last ones. */
  function Raw(data: seq<Byte>): (text: seq<Byte>)
    ensures |text| == (|data| + 2) / 3 * 4
    decreases |data|
  {
    hide Quad, Triple;
    OneGroup(|data|);
    if data == [] then [] else Quad(Triple(data[0], At(data, 1), At(data, 2))) + Raw(Tail(data, 3))
  }

  lemma OneGroup(n: nat)
    ensures n >= 3 ==> (n + 2) / 3 == (n - 3 + 2) / 3 + 1
    ensures 1 <= n <= 3 ==> (n + 2) / 3 == 1
  {
  }

  /** g_modTable. */
  function Padding(n: nat): (p: nat)
    ensures p <= 2
  {
    if n % 3 == 0 then 0 else if n % 3 == 1 then 2 else 1
  }

  function Pads(n: nat): (s: seq<Byte>)
    ensures |s| == n && forall i :: 0 <= i < n ==> s[i] == PAD
  {
    seq(n, i => PAD)
  }

  /** Masking six bits out of the 24 gives the same letters. */
  lemma QuadLetters(a: Byte, b: Byte, c: Byte)
    ensures Quad(Triple(a, b, c)) == Letters(a, b, c)
  {
    hide Letter, Triple;
    TripleIs(a, b, c);
    SecondSextet(a, b);
    ThirdSextet(a, b, c);
    FourthSextet(a, b, c);
  }

  lemma TripleIs(a: Byte, b: Byte, c: Byte)
    ensures var t := Triple(a, b, c);
            t / 0x4_0000 % 64 == a / 4 && t / 0x1000 == a * 16 + b / 16 && t / 64 == a * 1024 + b * 4 + c / 64
            && t == (a * 1024 + b * 4) * 64 + c
  {
    var x, y := a * 1024 + b * 4 + c / 64, a * 16 + b / 16;
    DivBy64(x, c % 64);
    DivBy64(y, b % 16 * 4 + c / 64);
    DivBy64(a / 4, a % 4 * 16 + b / 16);
    assert Triple(a, b, c) == x * 64 + c % 64;
  }

  lemma DivBy64(x: int, r: int)
    requires 0 <= r < 64
    ensures (x * 64 + r) / 64 == x
  {
  }

  lemma SecondSextet(a: Byte, b: Byte)
    ensures (a * 16 + b / 16) % 64 == a % 4 * 16 + b / 16
  {
  }

  lemma ThirdSextet(a: Byte, b: Byte, c: Byte)
    ensures (a * 1024 + b * 4 + c / 64) % 64 == b % 16 * 4 + c / 64
  {
  }

  lemma FourthSextet(a: Byte, b: Byte, c: Byte)
    ensures ((a * 1024 + b * 4) * 64 + c) % 64 == c % 64
  {
  }

  /** Zero-filled groups, with padding written over their last letters, are the RFC's encoding. */
  lemma {:induction false} RawIsRfc(data: seq<Byte>)
    ensures Rfc(data) == Raw(data)[..|Raw(data)| - Padding(|data|)] + Pads(Padding(|data|))
    decreases |data|
  {
    if |data| >= 3 {
      hide Rfc, Raw, Quad, Triple, Letters, Padding;
      RawIsRfc(data[3..]);
      RfcRest(data);
      RawRest(data);
      PadLater(Letters(data[0], data[1], data[2]), Raw(data[3..]), Padding(|data|));
    } else if data != [] {
      hide Rfc, Raw, Quad, Triple, Letters, Padding;
      ShortRaw(data);
      ShortRfc(data);
    } else {
      assert Pads(0) == [];
    }
  }

  lemma ShortRaw(data: seq<Byte>)
    requires 1 <= |data| <= 2
    ensures Raw(data) == Letters(data[0], At(data, 1), 0) && Padding(|data|) == 3 - |data|
  {
    hide Letters, Quad, Triple;
    QuadLetters(data[0], At(data, 1), At(data, 2));
    assert Raw(Tail(data, 3)) == [];
  }

  lemma ShortRfc(data: seq<Byte>)
    requires 1 <= |data| <= 2
    ensures Rfc(data) == Letters(data[0], At(data, 1), 0)[..|data| + 1] + Pads(3 - |data|)
  {
    hide Letters, Rfc, Pads;
    if |data| == 1 {
      OneByte(data[0]);
      assert data == [data[0]];
    } else {
      TwoBytes(data[0], data[1]);
      assert data == [data[0], data[1]];
    }
  }

  lemma OneByte(a: Byte)
    ensures Rfc([a]) == Letters(a, 0, 0)[..2] + Pads(2)
  {
    hide Letter;
    var q := Letters(a, 0, 0);
    assert q[..2] == [q[0], q[1]] && Pads(2) == [PAD, PAD];
  }

  lemma TwoBytes(a: Byte, b: Byte)
    ensures Rfc([a, b]) == Letters(a, b, 0)[..3] + Pads(1)
  {
    hide Letter;
    var q := Letters(a, b, 0);
    assert q[..3] == [q[0], q[1], q[2]] && Pads(1) == [PAD];
  }

  lemma RfcRest(data: seq<Byte>)
    requires |data| >= 3
    ensures Rfc(data) == Letters(data[0], data[1], data[2]) + Rfc(data[3..])
  {
    hide Letters;
  }

  lemma RawRest(data: seq<Byte>)
    requires |data| >= 3
    ensures Raw(data) == Letters(data[0], data[1], data[2]) + Raw(data[3..])
    ensures Padding(|data|) == Padding(|data| - 3) && Padding(|data|) <= |Raw(data[3..])|
  {
    hide Letters, Quad, Triple;
    QuadLetters(data[0], data[1], data[2]);
  }

  lemma PadLater(q: seq<Byte>, raw: seq<Byte>, p: nat)
    requires p <= |raw|
    ensures (q + raw)[..|q + raw| - p] + Pads(p) == q + (raw[..|raw| - p] + Pads(p))
  {
  }

  // ---------------------------------------------------------------- decoding

  function Value(text: seq<Byte>, i: nat): (v: int)
    requires i < |text|
    ensures 0 <= v < 64
  {
    if text[i] == PAD then 0 else Sextet(text[i])
  }

  /** The 24 bits of the four letters from i on. */
  function Bits(text: seq<Byte>, i: nat): (t: int)
    requires i + 4 <= |text|
    ensures 0 <= t < 0x100_0000
  {
    Value(text, i) * 0x4_0000 + Value(text, i + 1) * 0x1000 + Value(text, i + 2) * 64 + Value(text, i + 3)
  }

  /** Byte k of the decoded bits. */
  function Decoded(text: seq<Byte>, k: nat): Byte
    requires k / 3 * 4 + 4 <= |text|
  {
    var t := Bits(text, k / 3 * 4);
    if k % 3 == 0 then t / 0x1_0000 else if k % 3 == 1 then t / 0x100 % 0x100 else t % 0x100
  }

  function DecodedLength(text: seq<Byte>): (n: int)
    requires |text| > 0 && |text| % 4 == 0
    ensures 1 <= n <= |text| / 4 * 3
  {
    |text| / 4 * 3 - (if text[|text| - 1] == PAD then 1 else 0) - (if text[|text| - 2] == PAD then 1 else 0)
  }

  function Decoding(text: seq<Byte>): (data: seq<Byte>)
    requires |text| > 0 && |text| % 4 == 0
    ensures |data| == DecodedLength(text)
  {
    seq(DecodedLength(text), k requires 0 <= k < DecodedLength(text) => Decoded(text, k))
  }

  /** The three bytes of any group make up the same 24 bits as its four letters, of which padding counts as zero. */
  lemma GroupDecodes(text: seq<Byte>, g: nat)
    requires 4 * g + 4 <= |text|
    ensures 3 * g / 3 == g && (3 * g + 1) / 3 == g && (3 * g + 2) / 3 == g
    ensures (Decoded(text, 3 * g) * 0x100 + Decoded(text, 3 * g + 1)) * 0x100 + Decoded(text, 3 * g + 2)
         == ((Value(text, 4 * g) * 64 + Value(text, 4 * g + 1)) * 64 + Value(text, 4 * g + 2)) * 64 + Value(text, 4 * g + 3)
    ensures forall i :: 4 * g <= i < 4 * g + 4 ==> Value(text, i) == if text[i] == '=' as int then 0 else Sextet(text[i])
  {
    hide Sextet;
    var t := Bits(text, 4 * g);
    assert t == t / 0x1_0000 * 0x1_0000 + t / 0x100 % 0x100 * 0x100 + t % 0x100 by {
      assert t / 0x1_0000 == t / 0x100 / 0x100;
    }
  }

  // ---------------------------------------------------------------- the loops

  /** wow_base64_encode. */
  method Encode(data: seq<Byte>, out: array<Byte>) returns (n: int)
    requires 4 * ((|data| + 2) / 3) < 0x1_0000_0000
    modifies out
    ensures n == if data == [] || out.Length < 4 * ((|data| + 2) / 3) then -1 else |Rfc(data)|
    ensures n < 0 ==> out[..] == old(out[..])
    ensures n >= 0 ==> out[..n] == Rfc(data) && out[n..] == old(out[n..])
  {
    hide Rfc, Raw;
    if |data| == 0 || out.Length == 0 { return -1; }
    var len := 4 * ((|data| + 2) / 3);
    if out.Length < len { return -1; }
    EncodeGroups(data, out, len);
    Pad(out, len, Padding(|data|));
    RawIsRfc(data);
    n := len;
  }

  /** The encoding loop, three bytes at a time. */
  method EncodeGroups(data: seq<Byte>, out: array<Byte>, len: nat)
    requires len == |Raw(data)| <= out.Length
    modifies out
    ensures out[..len] == Raw(data) && out[len..] == old(out[len..])
  {
    hide Raw, Quad, Triple, Tail, At;
    ghost var raw := Raw(data);
    var i, j := 0, 0;
    RawStart(data);
    while i < |data|
      invariant 0 <= i && 0 <= j <= len && len - j == |Raw(Tail(data, i))|
      invariant out[..j] + Raw(Tail(data, i)) == raw && out[len..] == old(out[len..])
      decreases |data| - i
    {
      RawStep(data, i);
      ghost var after := out[j + 4..];
      assert out[len..] == after[len - j - 4..];
      var a := data[i];
      var b := if i + 1 < |data| then data[i + 1] else 0;
      var c := if i + 2 < |data| then data[i + 2] else 0;
      StoreQuad(out, j, Triple(a, b, c));
      i, j := i + 3, j + 4;
    }
    RawEnd(data, i);
  }

  lemma RawStart(data: seq<Byte>)
    ensures Raw(Tail(data, 0)) == Raw(data)
  {
    assert data[0..] == data;
  }

  method StoreQuad(out: array<Byte>, j: nat, triple: int)
    requires 0 <= triple < 0x100_0000 && j + 4 <= out.Length
    modifies out
    ensures out[..j + 4] == old(out[..j]) + Quad(triple) && out[j + 4..] == old(out[j + 4..])
  {
    hide Letter, Quad;
    QuadIs(triple);
    out[j], out[j + 1], out[j + 2], out[j + 3] :=
      Letter(triple / 0x4_0000 % 64), Letter(triple / 0x1000 % 64), Letter(triple / 64 % 64), Letter(triple % 64);
  }

  lemma QuadIs(t: int)
    requires 0 <= t < 0x100_0000
    ensures Quad(t) == [Letter(t / 0x4_0000 % 64), Letter(t / 0x1000 % 64), Letter(t / 64 % 64), Letter(t % 64)]
  {
  }

  lemma RawStep(data: seq<Byte>, i: nat)
    requires i < |data|
    ensures var b := if i + 1 < |data| then data[i + 1] else 0;
            var c := if i + 2 < |data| then data[i + 2] else 0;
            Raw(Tail(data, i)) == Quad(Triple(data[i], b, c)) + Raw(Tail(data, i + 3))
    ensures |Raw(Tail(data, i))| >= 4
  {
    assert Tail(Tail(data, i), 3) == Tail(data, i + 3);
  }

  lemma RawEnd(data: seq<Byte>, i: nat)
    requires i >= |data|
    ensures Tail(data, i) == [] && Raw(Tail(data, i)) == []
  {
  }

  /** The padding loop. */
  method Pad(out: array<Byte>, len: nat, padding: nat)
    requires padding <= len <= out.Length
    modifies out
    ensures out[..len] == old(out[..len - padding]) + Pads(padding) && out[len..] == old(out[len..])
  {
    var i := 0;
    while i < padding
      invariant 0 <= i <= padding
      invariant out[..len - i] == old(out[..len - i]) && out[len..] == old(out[len..])
      invariant forall k :: len - i <= k < len ==> out[k] == PAD
    {
      out[len - 1 - i] := PAD;
      i := i + 1;
    }
  }

  /** wow_base64_decode. */
  method Decode(text: seq<Byte>, out: array<Byte>) returns (n: int)
    modifies out
    ensures n == if text == [] || |text| % 4 != 0 || out.Length < DecodedLength(text) then -1 else DecodedLength(text)
    ensures n < 0 ==> out[..] == old(out[..])
    ensures n >= 0 ==> out[..n] == Decoding(text) && out[n..] == old(out[n..])
  {
    hide Bits, Value, Decoded;
    if |text| == 0 || out.Length == 0 { return -1; }
    if |text| % 4 != 0 { return -1; }
    var len := |text| / 4 * 3;
    if text[|text| - 1] == PAD { len := len - 1; }
    if text[|text| - 2] == PAD { len := len - 1; }
    if out.Length < len { return -1; }
    var i, j := 0, 0;
    while i < |text|
      invariant 0 <= i <= |text| && i % 4 == 0 && 0 <= j <= len && j == (if i / 4 * 3 < len then i / 4 * 3 else len)
      invariant forall k :: 0 <= k < j ==> out[k] == Decoded(text, k)
      invariant out[len..] == old(out[len..])
    {
      j := StoreGroup(text, i, out, j, len);
      i := i + 4;
    }
    n := len;
  }

  /** The body of the decoding loop: up to three bytes, as long as there is room. */
  method StoreGroup(text: seq<Byte>, i: nat, out: array<Byte>, j: nat, len: nat) returns (j': nat)
    requires i % 4 == 0 && i + 4 <= |text| && j <= len <= out.Length && j == (if i / 4 * 3 < len then i / 4 * 3 else len)
    modifies out
    ensures j' == if j + 3 < len then j + 3 else len
    ensures forall k :: 0 <= k < j ==> out[k] == old(out[k])
    ensures forall k :: j <= k < j' ==> out[k] == Decoded(text, k)
    ensures out[len..] == old(out[len..])
  {
    hide Decoded, Bits;
    var triple := Bits(text, i);
    j' := j;
    if j == i / 4 * 3 { DecodedGroup(text, i); }
    if j' < len { out[j'] := triple / 0x1_0000; j' := j' + 1; }
    if j' < len { out[j'] := triple / 0x100 % 0x100; j' := j' + 1; }
    if j' < len { out[j'] := triple % 0x100; j' := j' + 1; }
  }

  lemma DecodedGroup(text: seq<Byte>, i: nat)
    requires i % 4 == 0 && i + 4 <= |text|
    ensures var k := i / 4 * 3; var t := Bits(text, i);
            && k / 3 * 4 == i && (k + 1) / 3 * 4 == i && (k + 2) / 3 * 4 == i
            && Decoded(text, k) == t / 0x1_0000 && Decoded(text, k + 1) == t / 0x100 % 0x100 && Decoded(text, k + 2) == t % 0x100
  {
    hide Bits;
    var g := i / 4;
    assert i == g * 4;
  }

  // ---------------------------------------------------------------- round trip

  /** A letter or padding as six bits. */
  function SextetOf(ch: Byte): int { if ch == PAD then 0 else Sextet(ch) }

  lemma FourLetters(text: seq<Byte>, a: Byte, b: Byte, c: Byte)
    requires |text| >= 4
    requires SextetOf(text[0]) == a / 4 && SextetOf(text[1]) == a % 4 * 16 + b / 16
    requires SextetOf(text[2]) == b % 16 * 4 + c / 64 && SextetOf(text[3]) == c % 64
    ensures Bits(text, 0) == Triple(a, b, c)
  {
    hide Sextet;
  }

  /** The first group of an encoding, padded or not, carries the message's first three bytes, zero-filled. */
  lemma FirstGroup(data: seq<Byte>)
    requires data != []
    ensures |Rfc(data)| >= 4 && Bits(Rfc(data), 0) == Triple(data[0], At(data, 1), At(data, 2))
  {
    hide Letter, Sextet, Bits, Triple;
    var a, b, c := data[0], At(data, 1), At(data, 2);
    LetterSextet(a / 4);
    LetterSextet(a % 4 * 16 + b / 16);
    LetterSextet(b % 16 * 4 + c / 64);
    LetterSextet(c % 64);
    FourLetters(Rfc(data), a, b, c);
  }

  lemma {:induction false} GroupBits(data: seq<Byte>, g: nat)
    requires 3 * g < |data|
    ensures 4 * g + 4 <= |Rfc(data)| && Bits(Rfc(data), 4 * g) == Triple(data[3 * g], At(data, 3 * g + 1), At(data, 3 * g + 2))
    decreases g
  {
    hide Triple;
    if g == 0 {
      FirstGroup(data);
    } else {
      hide Bits, Rfc;
      GroupBits(data[3..], g - 1);
      RfcRest(data);
      BitsLater(Letters(data[0], data[1], data[2]), Rfc(data[3..]), 4 * (g - 1));
    }
  }

  lemma BitsLater(first: seq<Byte>, rest: seq<Byte>, i: nat)
    requires |first| == 4 && i + 4 <= |rest|
    ensures Bits(first + rest, i + 4) == Bits(rest, i)
  {
  }

  /** The padding tells the length. */
  lemma {:induction false} EncodedLength(data: seq<Byte>)
    requires data != []
    ensures DecodedLength(Rfc(data)) == |data|
    decreases |data|
  {
    hide Letter, Rfc, Letters, DecodedLength;
    if |data| <= 3 {
      ShortLength(data);
    } else {
      EncodedLength(data[3..]);
      RfcRest(data);
      LaterLength(Letters(data[0], data[1], data[2]), Rfc(data[3..]));
    }
  }

  lemma LaterLength(group: seq<Byte>, rest: seq<Byte>)
    requires |group| == 4 && |rest| > 0 && |rest| % 4 == 0
    ensures DecodedLength(group + rest) == DecodedLength(rest) + 3
  {
    var text := group + rest;
    assert text[|text| - 1] == rest[|rest| - 1] && text[|text| - 2] == rest[|rest| - 2];
  }

  lemma ShortLength(data: seq<Byte>)
    requires 1 <= |data| <= 3
    ensures DecodedLength(Rfc(data)) == |data|
  {
    hide Letter, Rfc, DecodedLength;
    OneGroup(|data|);
    var text := Rfc(data);
    assert |text| == 4;
    GroupLength(text);
    if |data| == 3 { ThirdByte(data); } else { ShortEnd(data); }
  }

  lemma GroupLength(text: seq<Byte>)
    requires |text| == 4
    ensures DecodedLength(text) == 3 - (if text[3] == PAD then 1 else 0) - (if text[2] == PAD then 1 else 0)
  {
  }

  lemma ShortEnd(data: seq<Byte>)
    requires 1 <= |data| <= 2
    ensures Rfc(data)[3] == PAD && (Rfc(data)[2] == PAD <==> |data| == 1)
  {
    hide Letter, Letters;
    if |data| == 2 { LetterSextet(data[1] % 16 * 4); }
  }

  lemma ThirdByte(data: seq<Byte>)
    requires |data| == 3
    ensures Rfc(data)[3] != PAD && Rfc(data)[2] != PAD
  {
    hide Letter;
    LetterSextet(data[1] % 16 * 4 + data[2] / 64);
    LetterSextet(data[2] % 64);
    assert Rfc(data[3..]) == [];
  }

  /** Decoding an encoding gives back the message, of any non-zero length. */
  lemma RoundTrip(data: seq<Byte>)
    requires data != []
    ensures Decoding(Rfc(data)) == data
  {
    hide Rfc, Bits;
    EncodedLength(data);
    var text := Rfc(data);
    forall k | 0 <= k < |data| ensures Decoded(text, k) == data[k] {
      var g := k / 3;
      GroupBits(data, g);
      TripleBytes(data[3 * g], At(data, 3 * g + 1), At(data, 3 * g + 2));
      assert k == 3 * g + k % 3;
    }
  }

  lemma TripleBytes(a: Byte, b: Byte, c: Byte)
    ensures var t := Triple(a, b, c); t / 0x1_0000 == a && t / 0x100 % 0x100 == b && t % 0x100 == c
  {
    assert Triple(a, b, c) / 0x100 == a * 0x100 + b;
  }
}
