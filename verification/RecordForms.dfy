/**
 * Forms that the reader of src/aipsio_record_reader.cpp accepts and the writer never emits: nested magic words, wide dimensions,
 * old array versions, descriptors without comments, packed booleans, 8-bit values, fixed sub-records.
 */
module RecordForms {
  import opened Arithmetic
  import opened Wrappers
  import opened Bytes
  import opened AipsIo
  import opened Records
  import opened RecordFormat
  import opened RecordRoundTrip

  // ---- what other writers emit ----

  /** An embedded object may repeat the magic word; its length is not used. */
  datatype Framing = Framing(magic: bool, length: uint32)

  predicate Recognised(f: Framing) {
    f.magic || f.length != MAGIC
  }

  function Framed(f: Framing, name: ByteSeq, version: uint32): ByteSeq {
    (if f.magic then U32(MAGIC) else []) + U32(f.length) + StringBytes(name) + U32(version)
  }

  /** A byte with its bits weighted 1, 2, 4 and so on. */
  function BitsByte(bits: seq<bool>): (b: Byte) {
    Weighted(bits, 0, 1) + Weighted(bits, 1, 2) + Weighted(bits, 2, 4) + Weighted(bits, 3, 8)
    + Weighted(bits, 4, 16) + Weighted(bits, 5, 32) + Weighted(bits, 6, 64) + Weighted(bits, 7, 128)
  }

  function Weighted(bits: seq<bool>, i: nat, weight: nat): (x: nat)
    ensures x == 0 || x == weight
  {
    if i < |bits| && bits[i] then weight else 0
  }

  /** Booleans eight to a byte. */
  function Packed(bits: seq<bool>): (b: ByteSeq)
    ensures |b| == (|bits| + 7) / 8
    decreases |bits|
  {
    if bits == [] then [] else [BitsByte(bits)] + Packed(if |bits| <= 8 then [] else bits[8..])
  }

  function Words(vs: seq<uint32>): (b: ByteSeq)
    ensures |b| == 4 * |vs|
  {
    if vs == [] then [] else U32(vs[0]) + Words(vs[1..])
  }

  /** One byte per value, two's complement if signed. */
  function Octets(signed: bool, vs: seq<int>): (b: ByteSeq)
    requires forall i :: 0 <= i < |vs| ==> IsOctet(signed, vs[i])
    ensures |b| == |vs|
  {
    if vs == [] then []
    else
      assert IsOctet(signed, vs[0]);
      [if vs[0] < 0 then vs[0] + 256 else vs[0]] + Octets(signed, vs[1..])
  }

  predicate IsOctet(signed: bool, v: int) {
    if signed then -128 <= v < 128 else 0 <= v < 256
  }

  /** Name suffix, version, the origin of versions before 3, extents. */
  datatype ArrayHead = ArrayHead(framing: Framing, suffix: ByteSeq, version: uint32, origin: seq<uint32>, shape: seq<uint32>)

  predicate ValidHead(h: ArrayHead, n: nat) {
    && Recognised(h.framing) && |h.suffix| + 5 < TWO32 && |h.shape| < TWO32 && n < TWO32
    && (h.version < 3 ==> |h.origin| == |h.shape|) && ExpectedCount(h.shape) == Some(n)
  }

  /** Everything of an array object before its elements. */
  function HeadBytes(h: ArrayHead, n: uint32): ByteSeq {
    Framed(h.framing, Ascii("Array") + h.suffix, h.version)
    + (U32(|h.shape| % TWO32) + (if h.version < 3 then Words(h.origin) else []) + Words(h.shape) + U32(n))
  }

  /** The shape in a field descriptor: 4-byte dimensions in version 1, 8-byte ones from version 2 on. */
  datatype Dims = Dims(framing: Framing, version: uint32, dims: seq<int64>)

  predicate ValidDims(d: Dims) {
    Recognised(d.framing) && |d.dims| < TWO32
    && (d.version < 2 ==> forall i :: 0 <= i < |d.dims| ==> -0x8000_0000 <= d.dims[i] < 0x8000_0000)
  }

  function DimWords(dims: seq<int64>, width: nat): ByteSeq
    requires width == 8 || (width == 4 && forall i :: 0 <= i < |dims| ==> -0x8000_0000 <= dims[i] < 0x8000_0000)
  {
    Widths();
    if dims == [] then [] else EncodeBe(Unsigned(dims[0], width), width) + DimWords(dims[1..], width)
  }

  function DimsBytes(d: Dims): ByteSeq
    requires ValidDims(d)
  {
    Framed(d.framing, Ascii("IPosition"), d.version) + (U32(|d.dims|) + DimWords(d.dims, if d.version >= 2 then 8 else 4))
  }

  datatype Form =
    | Octet(signed: bool, v: int)
    | OctetArray(signed: bool, head: ArrayHead, vs: seq<int>)
    | BitArray(head: ArrayHead, bits: seq<bool>)
    | ElementArray(t: ElementType, head: ArrayHead, elements: seq<Scalar>)
    | Single(s: Scalar)
    | FixedRecord(framing: Framing, version: uint32, fields: seq<Field>)
    | OwnRecord(record: Record)

  datatype Field = Field(name: ByteSeq, comment: ByteSeq, dims: Dims, form: Form)

  // ---- bits ----

  lemma Place(low: nat, bit: nat, high: nat, p: nat, b: nat)
    requires low < p && bit < 2 && b == low + p * bit + p * (2 * high)
    ensures b / p % 2 == bit
  {
    assert p * (bit + 2 * high) == p * bit + p * (2 * high);
    DivModUnique(b, p, bit + 2 * high, low);
  }

  lemma Powers(i: nat)
    requires i < 8
    ensures Power2(i) == [1, 2, 4, 8, 16, 32, 64, 128][i]
  {
    assert Power2(0) == 1 && Power2(1) == 2 && Power2(2) == 4 && Power2(3) == 8;
    assert Power2(4) == 16 && Power2(5) == 32 && Power2(6) == 64 && Power2(7) == 128;
  }

  lemma LowBit(bits: seq<bool>, i: nat)
    requires i < 4
    ensures BitsByte(bits) / Power2(i) % 2 == if i < |bits| && bits[i] then 1 else 0
  {
    hide Power2;
    Powers(i);
    var b: nat := BitsByte(bits);
    match i {
      case 0 => Place(0, Weighted(bits, 0, 1), Weighted(bits, 1, 1) + Weighted(bits, 2, 2) + Weighted(bits, 3, 4) + Weighted(bits, 4, 8) + Weighted(bits, 5, 16) + Weighted(bits, 6, 32) + Weighted(bits, 7, 64), 1, b);
      case 1 => Place(Weighted(bits, 0, 1), Weighted(bits, 1, 1), Weighted(bits, 2, 1) + Weighted(bits, 3, 2) + Weighted(bits, 4, 4) + Weighted(bits, 5, 8) + Weighted(bits, 6, 16) + Weighted(bits, 7, 32), 2, b);
      case 2 => Place(Weighted(bits, 0, 1) + Weighted(bits, 1, 2), Weighted(bits, 2, 1), Weighted(bits, 3, 1) + Weighted(bits, 4, 2) + Weighted(bits, 5, 4) + Weighted(bits, 6, 8) + Weighted(bits, 7, 16), 4, b);
      case 3 => Place(Weighted(bits, 0, 1) + Weighted(bits, 1, 2) + Weighted(bits, 2, 4), Weighted(bits, 3, 1), Weighted(bits, 4, 1) + Weighted(bits, 5, 2) + Weighted(bits, 6, 4) + Weighted(bits, 7, 8), 8, b);
    }
  }

  lemma HighBit(bits: seq<bool>, i: nat)
    requires 4 <= i < 8
    ensures BitsByte(bits) / Power2(i) % 2 == if i < |bits| && bits[i] then 1 else 0
  {
    hide Power2;
    Powers(i);
    var b: nat := BitsByte(bits);
    match i {
      case 4 => Place(Weighted(bits, 0, 1) + Weighted(bits, 1, 2) + Weighted(bits, 2, 4) + Weighted(bits, 3, 8), Weighted(bits, 4, 1), Weighted(bits, 5, 1) + Weighted(bits, 6, 2) + Weighted(bits, 7, 4), 16, b);
      case 5 => Place(Weighted(bits, 0, 1) + Weighted(bits, 1, 2) + Weighted(bits, 2, 4) + Weighted(bits, 3, 8) + Weighted(bits, 4, 16), Weighted(bits, 5, 1), Weighted(bits, 6, 1) + Weighted(bits, 7, 2), 32, b);
      case 6 => Place(Weighted(bits, 0, 1) + Weighted(bits, 1, 2) + Weighted(bits, 2, 4) + Weighted(bits, 3, 8) + Weighted(bits, 4, 16) + Weighted(bits, 5, 32), Weighted(bits, 6, 1), Weighted(bits, 7, 1), 64, b);
      case 7 => Place(Weighted(bits, 0, 1) + Weighted(bits, 1, 2) + Weighted(bits, 2, 4) + Weighted(bits, 3, 8) + Weighted(bits, 4, 16) + Weighted(bits, 5, 32) + Weighted(bits, 6, 64), Weighted(bits, 7, 1), 0, 128, b);
    }
  }

  lemma ByteBit(bits: seq<bool>, i: nat)
    requires i < 8
    ensures BitsByte(bits) / Power2(i) % 2 == if i < |bits| && bits[i] then 1 else 0
  {
    hide BitsByte, Power2;
    if i < 4 {
      LowBit(bits, i);
    } else {
      HighBit(bits, i);
    }
  }

  lemma {:induction false} PackedBit(bits: seq<bool>, i: nat)
    requires i < |bits|
    ensures Bit(Packed(bits), i) == if bits[i] then 1 else 0
  {
    hide BitsByte, Power2;
    if i < 8 {
      ByteBit(bits, i);
    } else {
      var more := bits[8..];
      PackedBit(more, i - 8);
      assert Packed(bits) == [BitsByte(bits)] + Packed(more);
      assert i / 8 == (i - 8) / 8 + 1 && i % 8 == (i - 8) % 8;
    }
  }

  // ---- pieces ----

  lemma FramedRound(f: Framing, name: ByteSeq, version: uint32, rest: ByteSeq)
    requires Recognised(f) && |name| < TWO32
    ensures ParseHeader(Framed(f, name, version) + rest) == Some((Header(f.length, name, version), rest))
    ensures |Framed(f, name, version)| >= 12 + |name|
  {
    hide U32, StringBytes, ParseU32, ParseString;
    var tail := StringBytes(name) + (U32(version) + rest);
    ParseU32Encode(MAGIC, U32(f.length) + tail);
    ParseU32Encode(f.length, tail);
    ParseStringEncode(name, U32(version) + rest);
    ParseU32Encode(version, rest);
    if f.magic {
      assert Framed(f, name, version) + rest == U32(MAGIC) + (U32(f.length) + tail);
    } else {
      assert Framed(f, name, version) + rest == U32(f.length) + tail;
    }
  }

  lemma {:induction false} WordsRound(vs: seq<uint32>, rest: ByteSeq)
    ensures ParseSizes(Words(vs) + rest, |vs|) == Some((vs, rest))
  {
    hide ParseU32, U32;
    if vs == [] {
      assert [] + rest == rest;
    } else {
      assert Words(vs) + rest == U32(vs[0]) + (Words(vs[1..]) + rest);
      ParseU32Encode(vs[0], Words(vs[1..]) + rest);
      WordsRound(vs[1..], rest);
      assert vs == [vs[0]] + vs[1..];
    }
  }

  lemma {:induction false} DimWordsRound(dims: seq<int64>, width: nat, rest: ByteSeq)
    requires width == 8 || (width == 4 && forall i :: 0 <= i < |dims| ==> -0x8000_0000 <= dims[i] < 0x8000_0000)
    ensures |DimWords(dims, width)| == width * |dims|
    ensures ParseDims(DimWords(dims, width) + rest, |dims|, width == 8) == Some((dims, rest))
  {
    hide Unsigned, Signed, ParseUnsigned, EncodeBe, Pow256;
    Widths();
    if dims == [] {
      assert [] + rest == rest;
    } else {
      var tail := DimWords(dims[1..], width);
      DimWordsRound(dims[1..], width, rest);
      assert DimWords(dims, width) + rest == EncodeBe(Unsigned(dims[0], width), width) + (tail + rest);
      SignedRound(dims[0], width, tail + rest);
      Distribute(width, |dims| - 1);
      assert dims == [dims[0]] + dims[1..];
    }
  }

  lemma DimsRound(d: Dims, rest: ByteSeq)
    requires ValidDims(d)
    ensures ParseIPosition(DimsBytes(d) + rest) == Some((d.dims, rest))
  {
    hide U32, ParseU32, ParseHeader, ParseDims, Framed, DimWords, Recognised, Ascii;
    var width := if d.version >= 2 then 8 else 4;
    var words := DimWords(d.dims, width);
    var body := U32(|d.dims|) + words;
    assert DimsBytes(d) + rest == Framed(d.framing, Ascii("IPosition"), d.version) + (body + rest);
    FramedRound(d.framing, Ascii("IPosition"), d.version, body + rest);
    assert body + rest == U32(|d.dims|) + (words + rest);
    ParseU32Encode(|d.dims|, words + rest);
    DimWordsRound(d.dims, width, rest);
    GuardPasses(|d.dims|, 4, |words + rest|);
  }

  /** The head of an array object, read up to its element count. */
  lemma HeadRound(h: ArrayHead, n: nat, rest: ByteSeq)
    requires ValidHead(h, n)
    ensures var s := HeadBytes(h, n) + rest;
      && ParseHeader(s).Some? && Ascii("Array") <= ParseHeader(s).value.0.name && ParseHeader(s).value.0.version == h.version
      && ParseArrayShape(ParseHeader(s).value.1, h.version) == Some((h.shape, U32(n) + rest))
  {
    hide U32, ParseU32, ParseHeader, Framed, Recognised, Ascii, ParseSizes, Words;
    var name := Ascii("Array") + h.suffix;
    var origin := if h.version < 3 then Words(h.origin) else [];
    var s3 := U32(n) + rest;
    var s2 := Words(h.shape) + s3;
    var s1 := origin + s2;
    assert HeadBytes(h, n) + rest == Framed(h.framing, name, h.version) + (U32(|h.shape|) + s1) by {
      SmallMod(|h.shape|, TWO32);
    }
    FramedRound(h.framing, name, h.version, U32(|h.shape|) + s1);
    ParseU32Encode(|h.shape|, s1);
    WordsRound(h.origin, s2);
    WordsRound(h.shape, s3);
    assert h.version >= 3 ==> s1 == s2;
  }

  // ---- arrays ----

  function BitValues(bits: seq<bool>): (v: seq<Scalar>)
    ensures |v| == |bits|
  {
    seq(|bits|, i requires 0 <= i < |bits| => Int(if bits[i] then 1 else 0))
  }

  /** A Bool array reads back bit by bit, whatever follows. */
  lemma BitArrayRound(h: ArrayHead, bits: seq<bool>, rest: ByteSeq)
    requires ValidHead(h, |bits|)
    ensures ParseBoolArray(HeadBytes(h, |bits|) + Packed(bits) + rest) == Some((Many(TInt, h.shape, BitValues(bits)), rest))
  {
    hide U32, ParseU32, ParseHeader, HeadBytes, ParseArrayShape, Packed, Bit;
    var n := |bits|;
    assert HeadBytes(h, n) + Packed(bits) + rest == HeadBytes(h, n) + (Packed(bits) + rest);
    HeadRound(h, n, Packed(bits) + rest);
    ParseU32Encode(n, Packed(bits) + rest);
    var packed := Packed(bits);
    assert (packed + rest)[..|packed|] == packed && (packed + rest)[|packed|..] == rest;
    UnpackedBits(bits, seq(n, i requires 0 <= i < n => Int(Bit(packed, i))));
  }

  /** A single boolean is a byte; any but zero is true. */
  lemma BoolByte(x: Byte, rest: ByteSeq)
    ensures ParseElement([x] + rest, Plain(TBool)) == Some((Bool(x != 0), rest))
  {
    Widths();
    var s: ByteSeq := [x] + rest;
    assert s[..1] == [x] && s[1..] == rest && [x][..0] == [];
    assert DecodeBe([x]) == DecodeBe([]) * 256 + x;
  }

  lemma UnpackedBits(bits: seq<bool>, ints: seq<Scalar>)
    requires |ints| == |bits| && forall i :: 0 <= i < |bits| ==> ints[i] == Int(Bit(Packed(bits), i))
    ensures ints == BitValues(bits)
  {
    hide Packed, Bit;
    forall i | 0 <= i < |bits| ensures ints[i] == BitValues(bits)[i] {
      PackedBit(bits, i);
    }
  }

  function OctetKind(signed: bool): Kind {
    if signed then Char8 else UChar8
  }

  function OctetScalar(signed: bool, v: int): Scalar
    requires IsOctet(signed, v)
  {
    if signed then Short(v) else UShort(v)
  }

  function OctetScalars(signed: bool, vs: seq<int>): (s: seq<Scalar>)
    requires forall i :: 0 <= i < |vs| ==> IsOctet(signed, vs[i])
    ensures |s| == |vs|
  {
    seq(|vs|, i requires 0 <= i < |vs| => assert IsOctet(signed, vs[i]); OctetScalar(signed, vs[i]))
  }

  lemma OctetRound(signed: bool, v: int, rest: ByteSeq)
    requires IsOctet(signed, v)
    ensures var b := if v < 0 then v + 256 else v;
      ParseElement([b] + rest, OctetKind(signed)) == Some((OctetScalar(signed, v), rest))
  {
    Widths();
    var b := if v < 0 then v + 256 else v;
    assert EncodeBe(b / 256, 0) == [] && EncodeBe(b, 1) == [] + [b % 256] == [b];
    ParseUnsignedEncode(b, 1, rest);
  }

  lemma {:induction false} OctetsRound(signed: bool, vs: seq<int>, rest: ByteSeq)
    requires forall i :: 0 <= i < |vs| ==> IsOctet(signed, vs[i])
    ensures ParseElements(Octets(signed, vs) + rest, |vs|, OctetKind(signed)) == Some((OctetScalars(signed, vs), rest))
  {
    hide ParseElement, IsOctet, OctetScalar;
    if vs == [] {
      assert [] + rest == rest;
    } else {
      var tail := Octets(signed, vs[1..]);
      assert IsOctet(signed, vs[0]);
      OctetsRound(signed, vs[1..], rest);
      assert Octets(signed, vs) + rest == [if vs[0] < 0 then vs[0] + 256 else vs[0]] + (tail + rest);
      OctetRound(signed, vs[0], tail + rest);
      assert OctetScalars(signed, vs) == [OctetScalar(signed, vs[0])] + OctetScalars(signed, vs[1..]);
    }
  }

  /**
   * An 8-bit array reads back if and only if at least as many bytes follow it: the plausibility guard counts the two bytes
   * per element that the array takes in memory.
   */
  lemma OctetArrayRound(signed: bool, h: ArrayHead, vs: seq<int>, rest: ByteSeq)
    requires ValidHead(h, |vs|) && forall i :: 0 <= i < |vs| ==> IsOctet(signed, vs[i])
    ensures ParseArray(HeadBytes(h, |vs|) + Octets(signed, vs) + rest, OctetKind(signed))
         == if |vs| <= |rest| then Some((Many(if signed then TShort else TUShort, h.shape, OctetScalars(signed, vs)), rest)) else None
  {
    hide U32, ParseU32, ParseHeader, HeadBytes, ParseArrayShape, Octets, OctetScalars, ParseElements, Ascii, IsOctet;
    var n := |vs|;
    assert HeadBytes(h, n) + Octets(signed, vs) + rest == HeadBytes(h, n) + (Octets(signed, vs) + rest);
    HeadRound(h, n, Octets(signed, vs) + rest);
    ParseU32Encode(n, Octets(signed, vs) + rest);
    OctetsRound(signed, vs, rest);
    assert n > |Octets(signed, vs) + rest| / 2 <==> n > |rest|;
  }

  /** Any other array reads back, old versions and nested magic words included. */
  lemma ElementArrayRound(t: ElementType, h: ArrayHead, elements: seq<Scalar>, rest: ByteSeq)
    requires ValidHead(h, |elements|) && AllTyped(elements, t) && |ElementsBytes(elements)| < TWO32
    ensures ParseArray(HeadBytes(h, |elements|) + ElementsBytes(elements) + rest, Plain(t)) == Some((Many(t, h.shape, elements), rest))
  {
    hide U32, ParseU32, ParseHeader, HeadBytes, ParseArrayShape, ElementsBytes, ParseCounted, Ascii, AllTyped;
    var n := |elements|;
    assert HeadBytes(h, n) + ElementsBytes(elements) + rest == HeadBytes(h, n) + (ElementsBytes(elements) + rest);
    HeadRound(h, n, ElementsBytes(elements) + rest);
    CountedRound(t, elements, rest);
  }

  // ---- fields ----

  predicate IsArray(f: Form) {
    f.OctetArray? || f.BitArray? || f.ElementArray?
  }

  /** Values that fit their form and the wire, names that differ. */
  predicate ValidForm(f: Form) {
    match f
    case Octet(signed, v) => IsOctet(signed, v)
    case OctetArray(signed, h, vs) => ValidHead(h, |vs|) && forall i :: 0 <= i < |vs| ==> IsOctet(signed, vs[i])
    case BitArray(h, bits) => ValidHead(h, |bits|)
    case ElementArray(t, h, elements) =>
      ArrayCode(t).Some? && ValidHead(h, |elements|) && AllTyped(elements, t) && |ElementsBytes(elements)| < TWO32
    case Single(s) => CodeFor(One(s)).Some? && (s.Text? ==> |s.s| < TWO32)
    case FixedRecord(framing, _, fields) => Recognised(framing) && fields != [] && ValidFields(fields)
    case OwnRecord(r) => ValidRecord(r) && RecordBytes(r, 1, false).Some?
  }

  predicate ValidFields(fields: seq<Field>) {
    && |fields| <= INT32_MAX
    && (forall i :: 0 <= i < |fields| ==> ValidField(fields[i]))
    && forall i, j :: 0 <= i < j < |fields| ==> fields[i].name != fields[j].name
  }

  predicate ValidField(f: Field) {
    |f.name| < TWO32 && |f.comment| < TWO32 && ValidDims(f.dims) && ValidForm(f.form)
  }

  function FormCode(f: Form): int32
    requires ValidForm(f)
  {
    match f
    case Octet(signed, _) => if signed then 1 else 2
    case OctetArray(signed, _, _) => if signed then 14 else 15
    case BitArray(_, _) => 13
    case ElementArray(t, _, _) => ArrayCode(t).value
    case Single(s) => CodeFor(One(s)).value
    case _ => 25
  }

  /** The part of a field descriptor that depends on its type. */
  function FormExtra(f: Form, dims: Dims): ByteSeq
    requires ValidForm(f) && ValidDims(dims)
    decreases f, 0
  {
    match f
    case FixedRecord(framing, version, fields) => FieldsDesc(framing, version, fields)
    case OwnRecord(_) => Framed(Framing(false, 26), Ascii("RecordDesc"), 2) + I32(0)
    case Single(s) => if s.Text? && IsTableRef(s.s) then StringBytes([]) else []
    case Octet(_, _) => []
    case _ => DimsBytes(dims)
  }

  /** Descriptors carry comments from version 2 on. */
  function FieldDescBytes(f: Field, comments: bool): ByteSeq
    requires ValidField(f)
    decreases f
  {
    StringBytes(f.name) + (I32(FormCode(f.form)) + (FormExtra(f.form, f.dims) + (if comments then StringBytes(f.comment) else [])))
  }

  function FieldDescs(fields: seq<Field>, comments: bool): ByteSeq
    requires forall i :: 0 <= i < |fields| ==> ValidField(fields[i])
    decreases fields, 0
  {
    if fields == [] then [] else FieldDescBytes(fields[0], comments) + FieldDescs(fields[1..], comments)
  }

  function FieldsDesc(framing: Framing, version: uint32, fields: seq<Field>): ByteSeq
    requires ValidFields(fields)
    decreases fields, 1
  {
    Framed(framing, Ascii("RecordDesc"), version) + (I32(|fields|) + FieldDescs(fields, version >= 2))
  }

  /** Bare field values. */
  function FormBytes(f: Form): ByteSeq
    requires ValidForm(f)
    decreases f
  {
    match f
    case Octet(signed, v) => [if v < 0 then v + 256 else v]
    case OctetArray(signed, h, vs) => HeadBytes(h, |vs|) + Octets(signed, vs)
    case BitArray(h, bits) => HeadBytes(h, |bits|) + Packed(bits)
    case ElementArray(_, h, elements) => HeadBytes(h, |elements|) + ElementsBytes(elements)
    case Single(s) => if s.Text? && IsTableRef(s.s) then StringBytes(s.s[7..]) else ScalarBytes(s)
    case FixedRecord(_, _, fields) => assert ValidFields(fields); FieldBytes(fields)
    case OwnRecord(r) => RecordBytes(r, 1, false).value
  }

  function FieldBytes(fields: seq<Field>): ByteSeq
    requires forall i :: 0 <= i < |fields| ==> ValidField(fields[i])
    decreases fields, 0
  {
    if fields == [] then []
    else
      assert ValidField(fields[0]);
      FormBytes(fields[0].form) + FieldBytes(fields[1..])
  }

  // ---- what the reader makes of it ----

  function FormValue(f: Form): Value
    requires ValidForm(f)
    decreases f
  {
    match f
    case Octet(signed, v) => One(OctetScalar(signed, v))
    case OctetArray(signed, h, vs) => Many(if signed then TShort else TUShort, h.shape, OctetScalars(signed, vs))
    case BitArray(h, bits) => Many(TInt, h.shape, BitValues(bits))
    case ElementArray(t, h, elements) => Many(t, h.shape, elements)
    case Single(s) => One(s)
    case FixedRecord(_, _, fields) => assert ValidFields(fields); Nested(Record(FieldEntries(fields)))
    case OwnRecord(r) => Nested(r)
  }

  function FieldEntries(fields: seq<Field>): (e: seq<Entry>)
    requires forall i :: 0 <= i < |fields| ==> ValidField(fields[i])
    ensures |e| == |fields| && forall i :: 0 <= i < |e| ==> e[i].name == fields[i].name
    decreases fields, 0
  {
    if fields == [] then []
    else
      assert ValidField(fields[0]);
      [Entry(fields[0].name, FormValue(fields[0].form))] + FieldEntries(fields[1..])
  }

  function FieldDescOf(f: Field, comments: bool): FieldDesc
    requires ValidField(f)
    decreases f
  {
    FieldDesc(f.name, FormCode(f.form), if IsArray(f.form) then f.dims.dims else [],
              SubFields(f.form), if comments then f.comment else [])
  }

  function SubFields(f: Form): seq<FieldDesc>
    requires ValidForm(f)
    decreases f, 0
  {
    if f.FixedRecord? then assert ValidFields(f.fields); FieldDescsOf(f.fields, f.version >= 2) else []
  }

  function FieldDescsOf(fields: seq<Field>, comments: bool): (d: seq<FieldDesc>)
    requires forall i :: 0 <= i < |fields| ==> ValidField(fields[i])
    ensures |d| == |fields|
    decreases fields, 0
  {
    if fields == [] then []
    else
      assert ValidField(fields[0]);
      [FieldDescOf(fields[0], comments)] + FieldDescsOf(fields[1..], comments)
  }

  /**
   * The value is accepted when `after` bytes follow it: an 8-bit array needs as many bytes behind it as it has elements,
   * fixed sub-records nest at most 256 deep, a record of this writer needs lengths other than the magic word.
   */
  predicate Accepted(f: Form, depth: nat, after: nat)
    requires ValidForm(f)
    decreases f
  {
    match f
    case OctetArray(_, _, vs) => |vs| <= after
    case FixedRecord(_, _, fields) => assert ValidFields(fields); depth + 1 <= MAX_DEPTH && AllAccepted(fields, depth + 1, after)
    case OwnRecord(r) => CleanRecord(r, 1, false)
    case _ => true
  }

  predicate AllAccepted(fields: seq<Field>, depth: nat, after: nat)
    requires forall i :: 0 <= i < |fields| ==> ValidField(fields[i])
    decreases fields, 0
  {
    fields == [] ||
    (assert ValidField(fields[0]);
     Accepted(fields[0].form, depth, |FieldBytes(fields[1..])| + after) && AllAccepted(fields[1..], depth, after))
  }

  // ---- reading it ----

  lemma FormCodes(f: Form)
    requires ValidForm(f)
    ensures IsArray(f) <==> IsArrayCode(FormCode(f))
    ensures f.FixedRecord? || f.OwnRecord? <==> FormCode(f) == CODE_RECORD
    ensures f.Single? && f.s.Text? && IsTableRef(f.s.s) <==> FormCode(f) == CODE_TABLE
  {
  }

  lemma {:induction false} FormExtraRound(f: Form, dims: Dims, rest: ByteSeq)
    requires ValidForm(f) && ValidDims(dims)
    ensures ParseExtra(FormExtra(f, dims) + rest, FormCode(f))
         == Some((Extra(SubFields(f), if IsArray(f) then dims.dims else []), rest))
    decreases f, 0
  {
    hide ParseDesc, ParseIPosition, DimsBytes, ValidDims, IsArrayCode, FieldsDesc, FieldDescsOf, ScalarCode, ArrayCode, ValidHead, AllTyped;
    FormCodes(f);
    match f
    case FixedRecord(framing, version, fields) => FieldsDescRound(framing, version, fields, rest);
    case OwnRecord(_) => PlainEmptyDesc(rest);
    case Single(s) =>
      ParseStringEncode([], rest);
      assert [] + rest == rest;
    case Octet(_, _) => assert [] + rest == rest;
    case OctetArray(_, _, _) => DimsRound(dims, rest);
    case BitArray(_, _) => DimsRound(dims, rest);
    case ElementArray(_, _, _) => DimsRound(dims, rest);
  }

  lemma WordRound(v: int32, rest: ByteSeq)
    ensures ParseI32(I32(v) + rest) == Some((v, rest))
  {
    Widths();
    ParseI32Encode(v, rest);
  }

  lemma PlainEmptyDesc(rest: ByteSeq)
    ensures ParseDesc(Framed(Framing(false, 26), Ascii("RecordDesc"), 2) + I32(0) + rest) == Some(([], rest))
  {
    hide ParseHeader, ParseI32, I32, Framed, Ascii;
    assert Framed(Framing(false, 26), Ascii("RecordDesc"), 2) + I32(0) + rest
        == Framed(Framing(false, 26), Ascii("RecordDesc"), 2) + (I32(0) + rest);
    FramedRound(Framing(false, 26), Ascii("RecordDesc"), 2, I32(0) + rest);
    WordRound(0, rest);
    assert ParseDescFields(rest, 0, true) == Some(([], rest));
  }

  lemma {:induction false} FieldDescRound(f: Field, comments: bool, rest: ByteSeq)
    requires ValidField(f)
    ensures |FieldDescBytes(f, comments)| >= 8
    ensures ParseDescField(FieldDescBytes(f, comments) + rest, comments) == Some((FieldDescOf(f, comments), rest))
    decreases f
  {
    hide ParseString, ParseI32, StringBytes, I32, ParseExtra, FormExtra, FormCode, ValidDims, ValidForm, SubFields;
    var extra, end := FormExtra(f.form, f.dims), (if comments then StringBytes(f.comment) else []) + rest;
    var coded := I32(FormCode(f.form)) + (extra + end);
    assert FieldDescBytes(f, comments) + rest == StringBytes(f.name) + coded;
    ParseStringEncode(f.name, coded);
    WordRound(FormCode(f.form), extra + end);
    FormExtraRound(f.form, f.dims, end);
    ParseStringEncode(f.comment, rest);
    assert !comments ==> end == rest;
  }

  lemma {:induction false} FieldDescsRound(fields: seq<Field>, comments: bool, rest: ByteSeq)
    requires forall i :: 0 <= i < |fields| ==> ValidField(fields[i])
    ensures |FieldDescs(fields, comments)| >= 8 * |fields|
    ensures ParseDescFields(FieldDescs(fields, comments) + rest, |fields|, comments) == Some((FieldDescsOf(fields, comments), rest))
    decreases fields, 0
  {
    hide ParseDescField, FieldDescBytes, FieldDescOf, ValidField;
    if fields == [] {
      assert [] + rest == rest;
    } else {
      var tail := FieldDescs(fields[1..], comments);
      assert FieldDescs(fields, comments) + rest == FieldDescBytes(fields[0], comments) + (tail + rest);
      FieldDescRound(fields[0], comments, tail + rest);
      FieldDescsRound(fields[1..], comments, rest);
    }
  }

  lemma {:induction false} FieldsDescRound(framing: Framing, version: uint32, fields: seq<Field>, rest: ByteSeq)
    requires Recognised(framing) && ValidFields(fields)
    ensures ParseDesc(FieldsDesc(framing, version, fields) + rest) == Some((FieldDescsOf(fields, version >= 2), rest))
    decreases fields, 1
  {
    hide ParseHeader, ParseI32, I32, Framed, Ascii, ParseDescFields, FieldDescs, FieldDescsOf, ValidField, Recognised;
    var descs := FieldDescs(fields, version >= 2);
    assert FieldsDesc(framing, version, fields) + rest
        == Framed(framing, Ascii("RecordDesc"), version) + (I32(|fields|) + (descs + rest));
    FramedRound(framing, Ascii("RecordDesc"), version, I32(|fields|) + (descs + rest));
    WordRound(|fields|, descs + rest);
    FieldDescsRound(fields, version >= 2, rest);
  }

  lemma SingleRound(s: Scalar, desc: FieldDesc, depth: nat, rest: ByteSeq)
    requires ValidForm(Single(s)) && desc.code == FormCode(Single(s))
    ensures ParseValue(FormBytes(Single(s)) + rest, desc, depth) == Some((One(s), rest))
  {
    CodeKinds(One(s));
    if s.Text? && IsTableRef(s.s) {
      ParseStringEncode(s.s[7..], rest);
      assert TablePrefix() + s.s[7..] == s.s;
    } else {
      ElementRound(s, rest);
    }
  }

  /** A value of another writer reads back, or is rejected, as Accepted says. */
  lemma {:induction false} FormRound(f: Form, desc: FieldDesc, depth: nat, rest: ByteSeq)
    requires ValidForm(f) && desc.code == FormCode(f) && desc.subFields == SubFields(f)
    ensures ParseValue(FormBytes(f) + rest, desc, depth)
         == if Accepted(f, depth, |rest|) then Some((FormValue(f), rest)) else None
    decreases f
  {
    hide ParseElement, ParseArray, ParseBoolArray, ParseRecord, ParseFields, ParseString, ElementsBytes, Packed, Octets, HeadBytes,
      FieldBytes, FieldEntries, FieldDescsOf, ValidHead, RecordBytes, AllAccepted, BitValues, OctetScalars, IsOctet, OctetScalar;
    match f
    case Octet(signed, v) => OctetRound(signed, v, rest);
    case OctetArray(signed, h, vs) => OctetArrayRound(signed, h, vs, rest);
    case BitArray(h, bits) => BitArrayRound(h, bits, rest);
    case ElementArray(t, h, elements) =>
      ArrayKinds(t);
      ElementArrayRound(t, h, elements, rest);
    case Single(s) => SingleRound(s, desc, depth, rest);
    case FixedRecord(_, version, fields) =>
      assert ValidFields(fields);
      if depth + 1 <= MAX_DEPTH {
        NamesDiffer(fields);
        FieldsRead(fields, version >= 2, [], depth + 1, rest);
        assert [] + FieldEntries(fields) == FieldEntries(fields);
      } else {
        TooDeep(FormBytes(f) + rest, SubFields(f), depth + 1);
      }
      SubFieldsNotEmpty(f);
    case OwnRecord(r) => RecordRound(r, 1, rest, false);
  }

  lemma TooDeep(s: ByteSeq, fields: seq<FieldDesc>, depth: nat)
    requires depth > MAX_DEPTH
    ensures ParseFields(s, fields, [], depth) == None
  {
  }

  lemma SubFieldsNotEmpty(f: Form)
    requires f.FixedRecord? && ValidForm(f)
    ensures SubFields(f) != [] && ValidFields(f.fields) && SubFields(f) == FieldDescsOf(f.fields, f.version >= 2)
  {
  }

  lemma NamesDiffer(fields: seq<Field>)
    requires ValidFields(fields)
    ensures UniqueNames([] + FieldEntries(fields))
  {
    hide FieldEntries, ValidField;
    assert [] + FieldEntries(fields) == FieldEntries(fields);
  }

  /** The fields read back in order, or are rejected, as AllAccepted says. */
  lemma {:induction false} FieldsRead(fields: seq<Field>, comments: bool, sofar: seq<Entry>, depth: nat, rest: ByteSeq)
    requires forall i :: 0 <= i < |fields| ==> ValidField(fields[i])
    requires depth <= MAX_DEPTH && UniqueNames(sofar + FieldEntries(fields))
    ensures ParseFields(FieldBytes(fields) + rest, FieldDescsOf(fields, comments), sofar, depth)
         == if AllAccepted(fields, depth, |rest|) then Some((sofar + FieldEntries(fields), rest)) else None
    decreases fields, 0
  {
    hide ParseValue, FormBytes, FormValue, ValidForm, SubFields, FormCode, Accepted, UniqueNames, SetField;
    if fields == [] {
      assert [] + rest == rest && sofar + [] == sofar;
    } else {
      assert ValidField(fields[0]);
      var first, tail := FormBytes(fields[0].form), FieldBytes(fields[1..]);
      var entries := FieldEntries(fields);
      assert FieldBytes(fields) + rest == first + (tail + rest);
      FormRound(fields[0].form, FieldDescOf(fields[0], comments), depth, tail + rest);
      NextIsNew(sofar, entries);
      assert entries[1..] == FieldEntries(fields[1..]);
      if Accepted(fields[0].form, depth, |tail + rest|) {
        FieldsRead(fields[1..], comments, sofar + [entries[0]], depth, rest);
      }
    }
  }

  // ---- a whole record ----

  /** A root record of another writer: the record type word is not used. */
  datatype RootForm = RootForm(length: uint32, table: bool, version: uint32, desc: Framing, descVersion: uint32, kind: int32, fields: seq<Field>)

  function RootFormBytes(r: RootForm): ByteSeq
    requires ValidFields(r.fields)
  {
    U32(MAGIC) + U32(r.length) + StringBytes(RecordName(r.table)) + U32(r.version)
    + (FieldsDesc(r.desc, r.descVersion, r.fields) + (I32(r.kind) + FieldBytes(r.fields)))
  }

  lemma RootFormHeader(r: RootForm, rest: ByteSeq)
    requires ValidFields(r.fields)
    ensures ParseRootHeader(RootFormBytes(r) + rest)
         == Some((Header(r.length, RecordName(r.table), r.version),
                  FieldsDesc(r.desc, r.descVersion, r.fields) + (I32(r.kind) + (FieldBytes(r.fields) + rest))))
  {
    hide U32, ParseU32, StringBytes, ParseString, FieldsDesc, FieldBytes, I32, RecordName;
    var body := FieldsDesc(r.desc, r.descVersion, r.fields) + (I32(r.kind) + (FieldBytes(r.fields) + rest));
    var named := StringBytes(RecordName(r.table)) + (U32(r.version) + body);
    assert RootFormBytes(r) + rest == U32(MAGIC) + (U32(r.length) + named);
    ParseU32Encode(MAGIC, U32(r.length) + named);
    ParseU32Encode(r.length, named);
    ShortName(r.table);
    ParseStringEncode(RecordName(r.table), U32(r.version) + body);
    ParseU32Encode(r.version, body);
  }

  lemma ShortName(table: bool)
    ensures |RecordName(table)| < TWO32 && IsRecordName(RecordName(table))
  {
  }

  /**
   * A record of another writer, in any mixture of these forms, reads back with exactly its bytes consumed, if and only if each
   * value is accepted where it stands.
   */
  lemma RootFormRound(r: RootForm, rest: ByteSeq)
    requires ValidFields(r.fields) && Recognised(r.desc)
    ensures ParseRoot(RootFormBytes(r) + rest)
         == if AllAccepted(r.fields, 0, |rest|) then Some((Record(FieldEntries(r.fields)), rest)) else None
  {
    hide RootFormBytes, ParseRootHeader, ParseDesc, ParseI32, I32, ParseFields, FieldsDesc, FieldBytes, FieldEntries, FieldDescsOf, ValidField,
      Recognised, AllAccepted, IsRecordName, RecordName, UniqueNames;
    RootFormHeader(r, rest);
    ShortName(r.table);
    var values := FieldBytes(r.fields) + rest;
    FieldsDescRound(r.desc, r.descVersion, r.fields, I32(r.kind) + values);
    WordRound(r.kind, values);
    NamesDiffer(r.fields);
    FieldsRead(r.fields, r.descVersion >= 2, [], 0, rest);
    assert [] + FieldEntries(r.fields) == FieldEntries(r.fields);
  }
}
