/** Bytes, fixed-width integers and their big-endian and little-endian forms. */
module Bytes {
  import opened Arithmetic

  type Byte = x: int | 0 <= x < 256
  type ByteSeq = seq<Byte>

  type uint16 = x: int | 0 <= x < 0x1_0000
  type uint32 = x: int | 0 <= x < 0x1_0000_0000
  type uint64 = x: int | 0 <= x < 0x1_0000_0000_0000_0000
  type int16 = x: int | -0x8000 <= x < 0x8000
  type int32 = x: int | -0x8000_0000 <= x < 0x8000_0000
  type int64 = x: int | -0x8000_0000_0000_0000 <= x < 0x8000_0000_0000_0000

  const TWO32: nat := 0x1_0000_0000

  /** 256 to the power w. */
  function Pow256(w: nat): (p: nat)
    ensures p > 0
  {
    if w == 0 then 1 else 256 * Pow256(w - 1)
  }

  lemma Widths()
    ensures Pow256(1) == 0x100 && Pow256(2) == 0x1_0000 && Pow256(4) == 0x1_0000_0000
    ensures Pow256(8) == 0x1_0000_0000_0000_0000
  {
    assert Pow256(0) == 1;
    assert Pow256(1) == 0x100;
    assert Pow256(2) == 0x1_0000;
    assert Pow256(3) == 0x100_0000;
    assert Pow256(4) == 0x1_0000_0000;
    assert Pow256(5) == 0x100_0000_0000;
    assert Pow256(6) == 0x1_0000_0000_0000;
    assert Pow256(7) == 0x100_0000_0000_0000;
  }

  // ---- two's complement ----

  function Unsigned(v: int, w: nat): nat
    requires 0 <= v + Pow256(w)
  {
    if v < 0 then v + Pow256(w) else v
  }

  function Signed(u: nat, w: nat): int {
    if 2 * u >= Pow256(w) then u - Pow256(w) else u
  }

  lemma SignedUnsigned(v: int, w: nat)
    requires 0 <= 2 * v + Pow256(w) && 2 * v < Pow256(w)
    ensures Unsigned(v, w) < Pow256(w) && Signed(Unsigned(v, w), w) == v
  {
  }

  // ---- big-endian ----

  function EncodeBe(v: nat, w: nat): (b: ByteSeq)
    ensures |b| == w
    decreases w
  {
    if w == 0 then [] else EncodeBe(v / 256, w - 1) + [v % 256]
  }

  function DecodeBe(b: ByteSeq): nat {
    if b == [] then 0 else DecodeBe(b[..|b| - 1]) * 256 + b[|b| - 1]
  }

  lemma {:induction false} DecodeEncodeBe(v: nat, w: nat)
    requires v < Pow256(w)
    ensures DecodeBe(EncodeBe(v, w)) == v
    decreases w
  {
    if w > 0 {
      DecodeEncodeBe(v / 256, w - 1);
      assert EncodeBe(v, w)[..w - 1] == EncodeBe(v / 256, w - 1);
    }
  }

  lemma {:induction false} EncodeDecodeBe(b: ByteSeq)
    ensures DecodeBe(b) < Pow256(|b|)
    ensures EncodeBe(DecodeBe(b), |b|) == b
  {
    if b != [] {
      EncodeDecodeBe(b[..|b| - 1]);
      assert DecodeBe(b) / 256 == DecodeBe(b[..|b| - 1]);
    }
  }

  // ---- little-endian ----

  function EncodeLe(v: nat, w: nat): (b: ByteSeq)
    ensures |b| == w
    decreases w
  {
    if w == 0 then [] else [v % 256] + EncodeLe(v / 256, w - 1)
  }

  function DecodeLe(b: ByteSeq): nat {
    if b == [] then 0 else b[0] + 256 * DecodeLe(b[1..])
  }

  lemma {:induction false} DecodeEncodeLe(v: nat, w: nat)
    requires v < Pow256(w)
    ensures DecodeLe(EncodeLe(v, w)) == v
    decreases w
  {
    if w > 0 {
      DecodeEncodeLe(v / 256, w - 1);
      assert EncodeLe(v, w)[1..] == EncodeLe(v / 256, w - 1);
    }
  }

  lemma {:induction false} DecodeLeBound(b: ByteSeq)
    ensures DecodeLe(b) < Pow256(|b|)
  {
    if b != [] {
      DecodeLeBound(b[1..]);
    }
  }

  /** The unsigned integer in these bytes, in either byte order. */
  function Decode(big: bool, b: ByteSeq): (v: nat)
    ensures v < Pow256(|b|)
  {
    if big then
      EncodeDecodeBe(b);
      DecodeBe(b)
    else
      DecodeLeBound(b);
      DecodeLe(b)
  }

  // ---- places ----

  lemma QuotientOfQuotient(v: nat, k: nat)
    ensures v / 256 / Pow256(k) == v / Pow256(k + 1)
  {
    var p := Pow256(k);
    var q := v / 256 / p;
    var low, mid := v % 256, v / 256 % p;
    assert v == 256 * (v / 256) + low && v / 256 == p * q + mid;
    assert v == (256 * p) * q + (256 * mid + low);
    assert 256 * mid + low < 256 * p;
    DivModUnique(v, 256 * p, q, 256 * mid + low);
  }

  /** Byte i counts 256 to the power i. */
  lemma {:induction false} LittleEndianPlaces(v: nat, w: nat, i: nat)
    requires i < w
    ensures EncodeLe(v, w)[i] == v / Pow256(i) % 256
    decreases w
  {
    if i > 0 {
      LittleEndianPlaces(v / 256, w - 1, i - 1);
      QuotientOfQuotient(v, i - 1);
    }
  }

  /** Byte i counts 256 to the power of the number of bytes after it. */
  lemma {:induction false} BigEndianPlaces(v: nat, w: nat, i: nat)
    requires i < w
    ensures EncodeBe(v, w)[i] == v / Pow256(w - 1 - i) % 256
    decreases w
  {
    if i < w - 1 {
      BigEndianPlaces(v / 256, w - 1, i);
      QuotientOfQuotient(v, w - 2 - i);
    }
  }

  /** The signed value is in the symmetric range and differs from the unsigned one by a multiple of 256^w. */
  lemma SignedRange(u: nat, w: nat)
    requires u < Pow256(w)
    ensures 0 <= 2 * Signed(u, w) + Pow256(w) && 2 * Signed(u, w) < Pow256(w)
    ensures Signed(u, w) == u || Signed(u, w) == u - Pow256(w)
  {
  }

  // ---- bytes of a word, one by one ----

  /** Four bytes, least or most significant first. */
  function Put(v: uint32, big: bool): (b: ByteSeq)
    ensures |b| == 4
  {
    var b0, b1, b2, b3 := v % 0x100, v / 0x100 % 0x100, v / 0x1_0000 % 0x100, v / 0x100_0000;
    if big then [b3, b2, b1, b0] else [b0, b1, b2, b3]
  }

  function Put8(v: uint64, big: bool): (b: ByteSeq)
    ensures |b| == 8
  {
    var low, high := Put(v % TWO32, big), Put(v / TWO32, big);
    if big then high + low else low + high
  }

  lemma PutIsEncode(v: uint32)
    ensures Put(v, false) == EncodeLe(v, 4) && Put(v, true) == EncodeBe(v, 4)
  {
    Widths();
    assert Pow256(0) == 1 && Pow256(3) == 0x100_0000;
    var l, b := EncodeLe(v, 4), EncodeBe(v, 4);
    forall i | 0 <= i < 4 ensures l[i] == v / Pow256(i) % 256 && b[3 - i] == v / Pow256(i) % 256 {
      LittleEndianPlaces(v, 4, i);
      BigEndianPlaces(v, 4, 3 - i);
    }
    assert l == [l[0], l[1], l[2], l[3]] && b == [b[0], b[1], b[2], b[3]];
    assert b[3] == v % 256 && b[2] == v / 0x100 % 256 && b[1] == v / 0x1_0000 % 256 && b[0] == v / 0x100_0000 % 256;
  }

  lemma DecodePut(v: uint32, big: bool)
    ensures Decode(big, Put(v, big)) == v
  {
    hide Put, EncodeLe, EncodeBe;
    Widths();
    PutIsEncode(v);
    DecodeEncodeLe(v, 4);
    DecodeEncodeBe(v, 4);
  }

  lemma {:induction false} DecodeLeConcat(a: ByteSeq, b: ByteSeq)
    ensures DecodeLe(a + b) == DecodeLe(a) + Pow256(|a|) * DecodeLe(b)
  {
    if a == [] {
      assert a + b == b;
    } else {
      DecodeLeConcat(a[1..], b);
      assert (a + b)[1..] == a[1..] + b;
      LeadingByte(a[0], DecodeLe(a[1..]), Pow256(|a| - 1), DecodeLe(b));
    }
  }

  lemma LeadingByte(x: int, u: int, p: int, q: int)
    ensures x + 256 * (u + p * q) == x + 256 * u + (256 * p) * q
  {
  }

  lemma TrailingByte(q: int, p: int, u: int, x: int)
    ensures (q * p + u) * 256 + x == q * (256 * p) + (u * 256 + x)
  {
  }

  lemma {:induction false} DecodeBeConcat(a: ByteSeq, b: ByteSeq)
    ensures DecodeBe(a + b) == DecodeBe(a) * Pow256(|b|) + DecodeBe(b)
  {
    var n := |b| - 1;
    if b == [] {
      assert a + b == a;
    } else {
      DecodeBeConcat(a, b[..n]);
      assert (a + b)[..|a + b| - 1] == a + b[..n];
      TrailingByte(DecodeBe(a), Pow256(n), DecodeBe(b[..n]), b[n]);
    }
  }

  lemma DecodePut8(v: uint64, big: bool)
    ensures Decode(big, Put8(v, big)) == v
  {
    hide Put;
    Widths();
    var low, high := Put(v % TWO32, big), Put(v / TWO32, big);
    DecodePut(v % TWO32, big);
    DecodePut(v / TWO32, big);
    DecodeLeConcat(low, high);
    DecodeBeConcat(high, low);
  }

  lemma Put8IsEncode(v: uint64)
    ensures Put8(v, false) == EncodeLe(v, 8)
  {
    hide Put, Put8, EncodeLe;
    Widths();
    DecodePut8(v, false);
    DecodeEncodeLe(v, 8);
    OneLeForm(Put8(v, false), EncodeLe(v, 8));
  }

  lemma {:induction false} OneLeForm(a: ByteSeq, b: ByteSeq)
    requires |a| == |b| && DecodeLe(a) == DecodeLe(b)
    ensures a == b
  {
    if a != [] {
      DivModUnique(DecodeLe(a), 256, DecodeLe(a[1..]), a[0]);
      DivModUnique(DecodeLe(b), 256, DecodeLe(b[1..]), b[0]);
      OneLeForm(a[1..], b[1..]);
      assert a == [a[0]] + a[1..] && b == [b[0]] + b[1..];
    }
  }

  lemma {:induction false} OneBeForm(a: ByteSeq, b: ByteSeq)
    requires |a| == |b| && DecodeBe(a) == DecodeBe(b)
    ensures a == b
  {
    if a != [] {
      var n := |a| - 1;
      DivModUnique(DecodeBe(a), 256, DecodeBe(a[..n]), a[n]);
      DivModUnique(DecodeBe(b), 256, DecodeBe(b[..n]), b[n]);
      OneBeForm(a[..n], b[..n]);
      assert a == a[..n] + [a[n]] && b == b[..n] + [b[n]];
    }
  }

  lemma Put8IsEncodeBe(v: uint64)
    ensures Put8(v, true) == EncodeBe(v, 8)
  {
    hide Put, Put8, EncodeBe;
    Widths();
    DecodePut8(v, true);
    DecodeEncodeBe(v, 8);
    OneBeForm(Put8(v, true), EncodeBe(v, 8));
  }

  lemma DecodeFour(b: ByteSeq)
    requires |b| == 4
    ensures DecodeLe(b) == b[0] + 0x100 * (b[1] as int) + 0x1_0000 * (b[2] as int) + 0x100_0000 * (b[3] as int)
    ensures DecodeBe(b) == b[3] + 0x100 * (b[2] as int) + 0x1_0000 * (b[1] as int) + 0x100_0000 * (b[0] as int)
  {
    assert b[1..][1..] == b[2..] && b[2..][1..] == b[3..] && b[3..][1..] == [];
    assert DecodeLe(b[3..]) == b[3] && DecodeLe(b[2..]) == b[2] + 0x100 * (b[3] as int);
    assert DecodeLe(b[1..]) == b[1] + 0x100 * DecodeLe(b[2..]);
    assert b[..3][..2] == b[..2] && b[..2][..1] == b[..1] && b[..1][..0] == [];
    assert DecodeBe(b[..1]) == b[0] && DecodeBe(b[..2]) == 0x100 * (b[0] as int) + b[1];
    assert DecodeBe(b[..3]) == 0x100 * DecodeBe(b[..2]) + b[2];
  }

  // ---- text ----

  /** The bytes of an ASCII literal. */
  function Ascii(s: string): (b: ByteSeq)
    ensures |b| == |s|
  {
    seq(|s|, i requires 0 <= i < |s| => s[i] as int % 256)
  }
}
