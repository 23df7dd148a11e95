/** src/aipsio_record_reader.cpp: records read through a moving cursor. */
module RecordReader {
  import opened Wrappers
  import opened Bytes
  import opened AipsIo
  import opened Records
  import opened RecordFormat

  method ReadHeader(rd: AipsIoReader) returns (r: Option<Header>)
    requires rd.Valid()
    modifies rd
    ensures rd.Valid() && Yields(ParseHeader(old(rd.Rest())), r, rd.Rest())
  {
    hide ParseU32, ParseString;
    var first :- rd.ReadU32();
    var length := first;
    if first == MAGIC {
      length :- rd.ReadU32();
    }
    var name :- rd.ReadString();
    var version :- rd.ReadU32();
    return Some(Header(length, name, version));
  }

  method ReadRootHeader(rd: AipsIoReader) returns (r: Option<Header>)
    requires rd.Valid()
    modifies rd
    ensures rd.Valid() && Yields(ParseRootHeader(old(rd.Rest())), r, rd.Rest())
  {
    hide ParseU32, ParseString;
    var magic :- rd.ReadU32();
    if magic != MAGIC {
      return None;
    }
    var length :- rd.ReadU32();
    var name :- rd.ReadString();
    var version :- rd.ReadU32();
    return Some(Header(length, name, version));
  }

  method ReadDims(rd: AipsIoReader, n: nat, wide: bool) returns (r: Option<seq<int>>)
    requires rd.Valid()
    modifies rd
    ensures rd.Valid() && Yields(ParseDims(old(rd.Rest()), n, wide), r, rd.Rest())
  {
    hide ParseUnsigned, Signed;
    ghost var start := rd.Rest();
    ContinueEmpty(ParseDims(start, n, wide));
    var values: seq<int> := [];
    var index := 0;
    var width := if wide then 8 else 4;
    while index < n
      invariant 0 <= index <= n && rd.Valid()
      invariant ParseDims(start, n, wide) == Continue(values, ParseDims(rd.Rest(), n - index, wide))
    {
      ghost var here := rd.Rest();
      var v :- rd.ReadUnsigned(width);
      ContinueMore(values, Signed(v, width), ParseDims(rd.Rest(), n - index - 1, wide));
      values := values + [Signed(v, width)];
      index := index + 1;
    }
    ContinueLast(values, rd.Rest());
    return Some(values);
  }

  method ReadIPosition(rd: AipsIoReader) returns (r: Option<seq<int>>)
    requires rd.Valid()
    modifies rd
    ensures rd.Valid() && Yields(ParseIPosition(old(rd.Rest())), r, rd.Rest())
  {
    hide ParseHeader, ParseU32, ParseDims;
    var header :- ReadHeader(rd);
    if header.name != Ascii("IPosition") {
      return None;
    }
    var n :- rd.ReadU32();
    if n > rd.Remaining() / 4 {
      return None;
    }
    r := ReadDims(rd, n, header.version >= 2);
  }

  method ReadRecordDesc(rd: AipsIoReader) returns (r: Option<seq<FieldDesc>>)
    requires rd.Valid()
    modifies rd
    ensures rd.Valid() && Yields(ParseDesc(old(rd.Rest())), r, rd.Rest())
    decreases rd.Remaining(), 0
  {
    hide ParseHeader, ParseI32, ParseDescFields;
    var header :- ReadHeader(rd);
    if header.name != Ascii("RecordDesc") {
      return None;
    }
    var n :- rd.ReadI32();
    if n < 0 || n > rd.Remaining() / 8 {
      return None;
    }
    r := ReadDescFields(rd, n, header.version >= 2);
  }

  method ReadDescFields(rd: AipsIoReader, n: nat, comments: bool) returns (r: Option<seq<FieldDesc>>)
    requires rd.Valid()
    modifies rd
    ensures rd.Valid() && Yields(ParseDescFields(old(rd.Rest()), n, comments), r, rd.Rest())
    decreases rd.Remaining(), 2
  {
    hide ParseDescField;
    ghost var start := rd.Rest();
    ContinueEmpty(ParseDescFields(start, n, comments));
    var fields: seq<FieldDesc> := [];
    var index := 0;
    while index < n
      invariant 0 <= index <= n && rd.Valid() && rd.Remaining() <= |start|
      invariant ParseDescFields(start, n, comments)
             == Continue(fields, ParseDescFields(rd.Rest(), n - index, comments))
    {
      var field :- ReadDescField(rd, comments);
      ContinueMore(fields, field, ParseDescFields(rd.Rest(), n - index - 1, comments));
      fields := fields + [field];
      index := index + 1;
    }
    ContinueLast(fields, rd.Rest());
    return Some(fields);
  }

  method ReadDescField(rd: AipsIoReader, comments: bool) returns (r: Option<FieldDesc>)
    requires rd.Valid()
    modifies rd
    ensures rd.Valid() && Yields(ParseDescField(old(rd.Rest()), comments), r, rd.Rest())
    decreases rd.Remaining(), 1
  {
    hide ParseString, ParseI32, ParseExtra;
    var name :- rd.ReadString();
    var code :- rd.ReadI32();
    var extra :- ReadExtra(rd, code);
    var comment: ByteSeq := [];
    if comments {
      comment :- rd.ReadString();
    }
    return Some(FieldDesc(name, code, extra.shape, extra.subFields, comment));
  }

  method ReadExtra(rd: AipsIoReader, code: int32) returns (r: Option<Extra>)
    requires rd.Valid()
    modifies rd
    ensures rd.Valid() && Yields(ParseExtra(old(rd.Rest()), code), r, rd.Rest())
    decreases rd.Remaining(), 1
  {
    hide ParseDesc, ParseIPosition, ParseString;
    if code == CODE_RECORD {
      var fields :- ReadRecordDesc(rd);
      return Some(Extra(fields, []));
    } else if IsArrayCode(code) {
      var shape :- ReadIPosition(rd);
      return Some(Extra([], shape));
    } else if code == CODE_TABLE {
      var _ :- rd.ReadString();
    }
    return Some(Extra([], []));
  }

  method ReadElement(rd: AipsIoReader, k: Kind) returns (r: Option<Scalar>)
    requires rd.Valid()
    modifies rd
    ensures rd.Valid() && Yields(ParseElement(old(rd.Rest()), k), r, rd.Rest())
  {
    hide ParseUnsigned, ParseString;
    Widths();
    match k {
      case Char8 => var v :- rd.ReadUnsigned(1); return Some(Short(Signed(v, 1)));
      case UChar8 => var v :- rd.ReadUnsigned(1); return Some(UShort(v));
      case Plain(TBool) => var v :- rd.ReadUnsigned(1); return Some(Bool(v != 0));
      case Plain(TShort) => var v :- rd.ReadUnsigned(2); return Some(Short(Signed(v, 2)));
      case Plain(TUShort) => var v :- rd.ReadUnsigned(2); return Some(UShort(v));
      case Plain(TInt) => var v :- rd.ReadUnsigned(4); return Some(Int(Signed(v, 4)));
      case Plain(TUInt) => var v :- rd.ReadUnsigned(4); return Some(UInt(v));
      case Plain(TInt64) => var v :- rd.ReadUnsigned(8); return Some(Int64(Signed(v, 8)));
      case Plain(TUInt64) => var v :- rd.ReadUnsigned(8); return Some(UInt64(v));
      case Plain(TFloat) => var v :- rd.ReadUnsigned(4); return Some(Float(v));
      case Plain(TDouble) => var v :- rd.ReadUnsigned(8); return Some(Double(v));
      case Plain(TComplex) =>
        var re :- rd.ReadUnsigned(4);
        var im :- rd.ReadUnsigned(4);
        return Some(Complex(re, im));
      case Plain(TDComplex) =>
        var re :- rd.ReadUnsigned(8);
        var im :- rd.ReadUnsigned(8);
        return Some(DComplex(re, im));
      case Plain(TText) => var v :- rd.ReadString(); return Some(Text(v));
    }
  }

  method ReadElements(rd: AipsIoReader, n: nat, k: Kind) returns (r: Option<seq<Scalar>>)
    requires rd.Valid()
    modifies rd
    ensures rd.Valid() && Yields(ParseElements(old(rd.Rest()), n, k), r, rd.Rest())
  {
    hide ParseElement;
    ghost var start := rd.Rest();
    ContinueEmpty(ParseElements(start, n, k));
    var elements: seq<Scalar> := [];
    var index := 0;
    while index < n
      invariant 0 <= index <= n && rd.Valid()
      invariant ParseElements(start, n, k) == Continue(elements, ParseElements(rd.Rest(), n - index, k))
    {
      var v :- ReadElement(rd, k);
      ContinueMore(elements, v, ParseElements(rd.Rest(), n - index - 1, k));
      elements := elements + [v];
      index := index + 1;
    }
    ContinueLast(elements, rd.Rest());
    return Some(elements);
  }

  method ReadSizes(rd: AipsIoReader, n: nat) returns (r: Option<seq<uint64>>)
    requires rd.Valid()
    modifies rd
    ensures rd.Valid() && Yields(ParseSizes(old(rd.Rest()), n), r, rd.Rest())
  {
    hide ParseU32;
    ghost var start := rd.Rest();
    ContinueEmpty(ParseSizes(start, n));
    var sizes: seq<uint64> := [];
    var index := 0;
    while index < n
      invariant 0 <= index <= n && rd.Valid()
      invariant ParseSizes(start, n) == Continue(sizes, ParseSizes(rd.Rest(), n - index))
    {
      var v :- rd.ReadU32();
      ContinueMore(sizes, v, ParseSizes(rd.Rest(), n - index - 1));
      sizes := sizes + [v];
      index := index + 1;
    }
    ContinueLast(sizes, rd.Rest());
    return Some(sizes);
  }

  method ReadArrayShape(rd: AipsIoReader, version: uint32) returns (r: Option<seq<uint64>>)
    requires rd.Valid()
    modifies rd
    ensures rd.Valid() && Yields(ParseArrayShape(old(rd.Rest()), version), r, rd.Rest())
  {
    hide ParseU32, ParseSizes;
    var ndim :- rd.ReadU32();
    if version < 3 {
      var _ :- ReadSizes(rd, ndim);
    }
    r := ReadSizes(rd, ndim);
  }

  method ReadCounted(rd: AipsIoReader, k: Kind) returns (r: Option<seq<Scalar>>)
    requires rd.Valid()
    modifies rd
    ensures rd.Valid() && Yields(ParseCounted(old(rd.Rest()), k), r, rd.Rest())
  {
    hide ParseU32, ParseElements;
    var n :- rd.ReadU32();
    if n > rd.Remaining() / MinBytes(StoredType(k)) {
      return None;
    }
    r := ReadElements(rd, n, k);
  }

  /** read_aipsio_array */
  method ReadArray(rd: AipsIoReader, k: Kind) returns (r: Option<Value>)
    requires rd.Valid()
    modifies rd
    ensures rd.Valid() && Yields(ParseArray(old(rd.Rest()), k), r, rd.Rest())
  {
    hide ParseHeader, ParseArrayShape, ParseCounted, MakeArray;
    var header :- ReadHeader(rd);
    if !(Ascii("Array") <= header.name) {
      return None;
    }
    var shape :- ReadArrayShape(rd, header.version);
    var elements :- ReadCounted(rd, k);
    r := MakeArray(StoredType(k), shape, elements);
  }

  /** read_aipsio_bool_array: eight elements a byte, widened to integers. */
  method ReadBoolArray(rd: AipsIoReader) returns (r: Option<Value>)
    requires rd.Valid()
    modifies rd
    ensures rd.Valid() && Yields(ParseBoolArray(old(rd.Rest())), r, rd.Rest())
  {
    hide ParseHeader, ParseArrayShape, ParseU32, ParseBytes, MakeArray;
    var header :- ReadHeader(rd);
    if !(Ascii("Array") <= header.name) {
      return None;
    }
    var shape :- ReadArrayShape(rd, header.version);
    var count :- rd.ReadU32();
    var n: nat := count;
    var packed :- rd.ReadBytes((n + 7) / 8);
    var elements := Unpack(packed, n);
    r := MakeArray(TInt, shape, elements);
  }

  method Unpack(packed: ByteSeq, n: nat) returns (elements: seq<Scalar>)
    requires |packed| == (n + 7) / 8
    ensures elements == seq(n, i requires 0 <= i < n => Int(Bit(packed, i)))
  {
    hide Power2;
    elements := [];
    var byteIndex := 0;
    while byteIndex < |packed|
      invariant 0 <= byteIndex <= |packed|
      invariant |elements| == if 8 * byteIndex <= n then 8 * byteIndex else n
      invariant forall i :: 0 <= i < |elements| ==> elements[i] == Int(Bit(packed, i))
    {
      var bits := UnpackByte(packed[byteIndex], if n - |elements| < 8 then n - |elements| else 8);
      forall i | |elements| <= i < |elements| + |bits|
        ensures (elements + bits)[i] == Int(Bit(packed, i))
      {
        assert i / 8 == byteIndex && i % 8 == i - |elements|;
      }
      elements := elements + bits;
      byteIndex := byteIndex + 1;
    }
  }

  method UnpackByte(b: Byte, count: nat) returns (bits: seq<Scalar>)
    requires count <= 8
    ensures |bits| == count && forall k :: 0 <= k < count ==> bits[k] == Int(b / Power2(k) % 2)
  {
    bits := [];
    var rest: nat := b;
    var bit := 0;
    while bit < count
      invariant 0 <= bit <= count && |bits| == bit && rest == b / Power2(bit)
      invariant forall k :: 0 <= k < bit ==> bits[k] == Int(b / Power2(k) % 2)
    {
      bits := bits + [Int(rest % 2)];
      HalveAgain(b, bit);
      rest := rest / 2;
      bit := bit + 1;
    }
  }

  lemma HalveAgain(b: Byte, bit: nat)
    requires bit < 8
    ensures b / Power2(bit) / 2 == b / Power2(bit + 1)
  {
    assert Power2(0) == 1 && Power2(1) == 2 && Power2(2) == 4 && Power2(3) == 8 && Power2(4) == 16;
    assert Power2(5) == 32 && Power2(6) == 64 && Power2(7) == 128 && Power2(8) == 256;
  }

  method ReadFieldValue(rd: AipsIoReader, field: FieldDesc, depth: nat) returns (r: Option<Value>)
    requires rd.Valid()
    modifies rd
    ensures rd.Valid() && Yields(ParseValue(old(rd.Rest()), field, depth), r, rd.Rest())
    decreases rd.Remaining(), 1, field, 0
  {
    hide ParseElement, ParseString, ParseRecord, ParseFields, ParseBoolArray, ParseArray;
    if ScalarKind(field.code).Some? {
      var v :- ReadElement(rd, ScalarKind(field.code).value);
      return Some(One(v));
    } else if field.code == CODE_TABLE {
      var v :- rd.ReadString();
      return Some(One(Text(TablePrefix() + v)));
    } else if field.code == CODE_RECORD {
      if field.subFields == [] {
        var v :- ReadEmbeddedRecord(rd);
        return Some(Nested(v));
      }
      var entries :- ReadRecordFields(rd, field.subFields, depth + 1);
      return Some(Nested(Record(entries)));
    } else if field.code == CODE_ARRAY_BOOL {
      r := ReadBoolArray(rd);
    } else if ArrayKind(field.code).Some? {
      r := ReadArray(rd, ArrayKind(field.code).value);
    } else {
      return None;
    }
  }

  method ReadRecordFields(rd: AipsIoReader, fields: seq<FieldDesc>, depth: nat) returns (r: Option<seq<Entry>>)
    requires rd.Valid()
    modifies rd
    ensures rd.Valid() && Yields(ParseFields(old(rd.Rest()), fields, [], depth), r, rd.Rest())
    decreases rd.Remaining(), 1, fields, 1
  {
    hide ParseValue, SetField;
    if depth > MAX_DEPTH {
      return None;
    }
    ghost var start := rd.Rest();
    var result: seq<Entry> := [];
    var i := 0;
    assert fields[0..] == fields;
    while i < |fields|
      invariant 0 <= i <= |fields| && rd.Valid() && rd.Remaining() <= |start|
      invariant ParseFields(start, fields, [], depth) == ParseFields(rd.Rest(), fields[i..], result, depth)
    {
      assert fields[i..][1..] == fields[i + 1..];
      var v :- ReadFieldValue(rd, fields[i], depth);
      result := SetField(result, fields[i].name, v);
      i := i + 1;
    }
    return Some(result);
  }

  /** read_aipsio_record_body */
  method ReadBody(rd: AipsIoReader) returns (r: Option<Record>)
    requires rd.Valid()
    modifies rd
    ensures rd.Valid() && Yields(ParseBody(old(rd.Rest())), r, rd.Rest())
    decreases rd.Remaining(), 0
  {
    hide ParseDesc, ParseI32, ParseFields;
    var fields :- ReadRecordDesc(rd);
    var _ :- rd.ReadI32();
    var entries :- ReadRecordFields(rd, fields, 0);
    return Some(Record(entries));
  }

  /** read_aipsio_embedded_record */
  method ReadEmbeddedRecord(rd: AipsIoReader) returns (r: Option<Record>)
    requires rd.Valid()
    modifies rd
    ensures rd.Valid() && Yields(ParseRecord(old(rd.Rest())), r, rd.Rest())
    decreases rd.Remaining(), 0
  {
    hide ParseHeader, ParseBody;
    var header :- ReadHeader(rd);
    if !IsRecordName(header.name) {
      return None;
    }
    r := ReadBody(rd);
  }

  /** read_aipsio_record */
  method ReadAipsIoRecord(rd: AipsIoReader) returns (r: Option<Record>)
    requires rd.Valid()
    modifies rd
    ensures rd.Valid() && Yields(ParseRoot(old(rd.Rest())), r, rd.Rest())
  {
    hide ParseRootHeader, ParseBody;
    var header :- ReadRootHeader(rd);
    if !IsRecordName(header.name) {
      return None;
    }
    r := ReadBody(rd);
  }
}
