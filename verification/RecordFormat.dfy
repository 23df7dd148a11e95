/** The wire format of records as pure functions: what the writer emits, what the reader accepts. */
module RecordFormat {
  import opened Wrappers
  import opened Bytes
  import opened AipsIo
  import opened Records

  const MAX_DEPTH: nat := 256
  const INT32_MAX: nat := 0x7FFF_FFFF

  /** Bytes to be written, or nothing where the writer throws. */
  type Written = Option<ByteSeq>

  // ---- type codes (casacore DataType) ----

  const CODE_TABLE: int32 := 12
  const CODE_RECORD: int32 := 25
  const CODE_ARRAY_BOOL: int32 := 13

  function TablePrefix(): (p: ByteSeq)
    ensures |p| == 7
  {
    Ascii("Table: ")
  }

  predicate IsTableRef(s: ByteSeq) {
    TablePrefix() <= s
  }

  function ScalarCode(t: ElementType): Option<int32> {
    match t
    case TBool => Some(0)
    case TShort => Some(3)
    case TUShort => Some(4)
    case TInt => Some(5)
    case TUInt => Some(6)
    case TFloat => Some(7)
    case TDouble => Some(8)
    case TComplex => Some(9)
    case TDComplex => Some(10)
    case TText => Some(11)
    case TInt64 => Some(29)
    case TUInt64 => None
  }

  function ArrayCode(t: ElementType): Option<int32> {
    match t
    case TShort => Some(16)
    case TUShort => Some(17)
    case TInt => Some(18)
    case TUInt => Some(19)
    case TFloat => Some(20)
    case TDouble => Some(21)
    case TComplex => Some(22)
    case TDComplex => Some(23)
    case TText => Some(24)
    case TInt64 => Some(30)
    case TBool => None
    case TUInt64 => None
  }

  /** casacore_type_for */
  function CodeFor(v: Value): Option<int32> {
    match v
    case One(s) => if s.Text? && IsTableRef(s.s) then Some(CODE_TABLE) else ScalarCode(TypeOf(s))
    case Many(t, _, _) => ArrayCode(t)
    case List(_) => None
    case Nested(_) => Some(CODE_RECORD)
  }

  predicate IsArrayCode(code: int32) {
    13 <= code <= 24 || code == 30
  }

  // ---- writing ----

  function I32(v: int32): (b: ByteSeq)
    ensures |b| == 4
  {
    Widths();
    EncodeBe(Unsigned(v, 4), 4)
  }

  /** Bytes of an object without its length field: type name, version, body. */
  function ObjectTail(name: ByteSeq, version: uint32, body: ByteSeq): (b: ByteSeq)
    ensures |b| == 8 + |name| + |body|
  {
    StringBytes(name) + U32(version) + body
  }

  /** An object preceded by its exact length, which counts the length field itself. */
  function ObjectBytes(name: ByteSeq, version: uint32, body: ByteSeq): (r: Written)
    ensures r.Some? <==> 12 + |name| + |body| < TWO32
    ensures r.Some? ==> |r.value| == 12 + |name| + |body|
  {
    var tail := ObjectTail(name, version, body);
    if 4 + |tail| >= TWO32 then None else Some(U32(4 + |tail|) + tail)
  }

  function DimsI32(shape: seq<uint64>): Written {
    if shape == [] then Some([])
    else if shape[0] > INT32_MAX then None
    else
      var rest :- DimsI32(shape[1..]);
      Some(I32(shape[0]) + rest)
  }

  function DimsU32(shape: seq<uint64>): Written {
    if shape == [] then Some([])
    else if shape[0] >= TWO32 then None
    else
      var rest :- DimsU32(shape[1..]);
      Some(U32(shape[0]) + rest)
  }

  function IPositionBytes(shape: seq<uint64>): Written {
    if |shape| >= TWO32 then None
    else
      var dims :- DimsI32(shape);
      ObjectBytes(Ascii("IPosition"), 1, U32(|shape|) + dims)
  }

  function EmptyDesc(): Written {
    ObjectBytes(Ascii("RecordDesc"), 2, I32(0))
  }

  /** The part of a field descriptor that depends on its type. */
  function DescExtra(v: Value, code: int32): Written {
    if code == CODE_TABLE then Some(StringBytes([]))
    else if code == CODE_RECORD then EmptyDesc()
    else if v.Many? then IPositionBytes(v.shape)
    else Some([])
  }

  function DescField(e: Entry): Written {
    var code :- CodeFor(e.value);
    var extra :- DescExtra(e.value, code);
    Some(StringBytes(e.name) + I32(code) + extra + StringBytes([]))
  }

  function DescFields(entries: seq<Entry>): Written {
    if entries == [] then Some([])
    else
      var first :- DescField(entries[0]);
      var rest :- DescFields(entries[1..]);
      Some(first + rest)
  }

  function DescBytes(entries: seq<Entry>, depth: nat): Written {
    if depth > MAX_DEPTH || |entries| > INT32_MAX then None
    else
      var fields :- DescFields(entries);
      ObjectBytes(Ascii("RecordDesc"), 2, I32(|entries|) + fields)
  }

  function ScalarBytes(s: Scalar): ByteSeq {
    Widths();
    match s
    case Bool(b) => [if b then 1 else 0]
    case Short(v) => EncodeBe(Unsigned(v, 2), 2)
    case UShort(v) => EncodeBe(v, 2)
    case Int(v) => EncodeBe(Unsigned(v, 4), 4)
    case UInt(v) => EncodeBe(v, 4)
    case Int64(v) => EncodeBe(Unsigned(v, 8), 8)
    case UInt64(v) => EncodeBe(v, 8)
    case Float(v) => EncodeBe(v, 4)
    case Double(v) => EncodeBe(v, 8)
    case Complex(re, im) => EncodeBe(re, 4) + EncodeBe(im, 4)
    case DComplex(re, im) => EncodeBe(re, 8) + EncodeBe(im, 8)
    case Text(t) => StringBytes(t)
  }

  function ElementsBytes(elements: seq<Scalar>): ByteSeq {
    if elements == [] then [] else ScalarBytes(elements[0]) + ElementsBytes(elements[1..])
  }

  function ArrayName(t: ElementType): ByteSeq {
    match t
    case TShort => Ascii("Array<Short>")
    case TUShort => Ascii("Array<uShort>")
    case TInt => Ascii("Array<Int>")
    case TUInt => Ascii("Array<uInt>")
    case TInt64 => Ascii("Array<Int64>")
    case TFloat => Ascii("Array<float>")
    case TDouble => Ascii("Array<double>")
    case TComplex => Ascii("Array<Complex>")
    case TDComplex => Ascii("Array<DComplex>")
    case TText => Ascii("Array<String>")
    case _ => []
  }

  function ArrayBody(shape: seq<uint64>, elements: seq<Scalar>): Written {
    if |shape| >= TWO32 || |elements| >= TWO32 then None
    else
      var dims :- DimsU32(shape);
      Some(U32(|shape|) + dims + U32(|elements|) + ElementsBytes(elements))
  }

  function ArrayBytes(t: ElementType, shape: seq<uint64>, elements: seq<Scalar>): Written {
    var body :- ArrayBody(shape, elements);
    ObjectBytes(ArrayName(t), 3, body)
  }

  function RecordName(asTable: bool): ByteSeq {
    if asTable then Ascii("TableRecord") else Ascii("Record")
  }

  /** A field value; a table reference loses its prefix. */
  function ValueBytes(v: Value, depth: nat, asTable: bool): Written
    decreases v
  {
    match v
    case One(s) =>
      if s.UInt64? then None
      else if s.Text? && IsTableRef(s.s) then Some(StringBytes(s.s[7..]))
      else Some(ScalarBytes(s))
    case Many(t, shape, elements) => if ArrayCode(t).None? then None else ArrayBytes(t, shape, elements)
    case List(_) => None
    case Nested(r) => RecordBytes(r, depth + 1, asTable)
  }

  function ValuesBytes(entries: seq<Entry>, depth: nat, asTable: bool): Written
    decreases entries, 0
  {
    if entries == [] then Some([])
    else
      var first :- ValueBytes(entries[0].value, depth, asTable);
      var rest :- ValuesBytes(entries[1..], depth, asTable);
      Some(first + rest)
  }

  /** Descriptor, record type, values: everything after a record's header. */
  function BodyBytes(entries: seq<Entry>, depth: nat, asTable: bool): Written
    decreases entries, 1
  {
    var desc :- DescBytes(entries, depth);
    var values :- ValuesBytes(entries, depth, asTable);
    Some(desc + I32(1) + values)
  }

  function RecordBytes(r: Record, depth: nat, asTable: bool): Written
    decreases r
  {
    var body :- BodyBytes(r.entries, depth, asTable);
    ObjectBytes(RecordName(asTable), 1, body)
  }

  /** write_aipsio_record: the root object carries the magic word. */
  function RootBytes(r: Record): Written {
    var b :- RecordBytes(r, 0, false);
    Some(U32(MAGIC) + b)
  }

  // ---- reading ----

  datatype Header = Header(length: uint32, name: ByteSeq, version: uint32)

  datatype FieldDesc = FieldDesc(name: ByteSeq, code: int32, shape: seq<int>, subFields: seq<FieldDesc>,
                                 comment: ByteSeq)

  /** How one element is read: a casacore type, or an 8-bit type widened on input. */
  datatype Kind = Plain(t: ElementType) | Char8 | UChar8

  function ScalarKind(code: int32): Option<Kind> {
    match code
    case 0 => Some(Plain(TBool))
    case 1 => Some(Char8)
    case 2 => Some(UChar8)
    case 3 => Some(Plain(TShort))
    case 4 => Some(Plain(TUShort))
    case 5 => Some(Plain(TInt))
    case 6 => Some(Plain(TUInt))
    case 7 => Some(Plain(TFloat))
    case 8 => Some(Plain(TDouble))
    case 9 => Some(Plain(TComplex))
    case 10 => Some(Plain(TDComplex))
    case 11 => Some(Plain(TText))
    case 29 => Some(Plain(TInt64))
    case _ => None
  }

  function ArrayKind(code: int32): Option<Kind> {
    match code
    case 14 => Some(Char8)
    case 15 => Some(UChar8)
    case 16 => Some(Plain(TShort))
    case 17 => Some(Plain(TUShort))
    case 18 => Some(Plain(TInt))
    case 19 => Some(Plain(TUInt))
    case 20 => Some(Plain(TFloat))
    case 21 => Some(Plain(TDouble))
    case 22 => Some(Plain(TComplex))
    case 23 => Some(Plain(TDComplex))
    case 24 => Some(Plain(TText))
    case 30 => Some(Plain(TInt64))
    case _ => None
  }

  /** The element type an array of this kind is stored as. */
  function StoredType(k: Kind): ElementType {
    match k
    case Plain(t) => t
    case Char8 => TShort
    case UChar8 => TUShort
  }

  /** Smallest encoding the array guard assumes, from the stored type. */
  function MinBytes(t: ElementType): (n: nat)
    ensures n > 0
  {
    match t
    case TBool => 1
    case TShort => 2
    case TUShort => 2
    case TInt => 4
    case TUInt => 4
    case TFloat => 4
    case TText => 4
    case TInt64 => 8
    case TUInt64 => 8
    case TDouble => 8
    case TComplex => 8
    case TDComplex => 16
  }

  /** read_embedded_object_header: the magic word is optional. */
  function ParseHeader(s: ByteSeq): (r: Parsed<Header>)
    ensures r.Some? ==> |r.value.1| + 12 + |r.value.0.name| <= |s|
  {
    var (first, s1) :- ParseU32(s);
    var (length, s2) :- if first == MAGIC then ParseU32(s1) else Some((first, s1));
    var (name, s3) :- ParseString(s2);
    var (version, s4) :- ParseU32(s3);
    Some((Header(length, name, version), s4))
  }

  /** read_object_header: the magic word is required. */
  function ParseRootHeader(s: ByteSeq): (r: Parsed<Header>)
    ensures r.Some? ==> |r.value.1| + 16 + |r.value.0.name| == |s|
  {
    var (magic, s1) :- ParseU32(s);
    if magic != MAGIC then None
    else
      var (length, s2) :- ParseU32(s1);
      var (name, s3) :- ParseString(s2);
      var (version, s4) :- ParseU32(s3);
      Some((Header(length, name, version), s4))
  }

  /** n signed dimensions, 64 bits wide from version 2 on. */
  function ParseDims(s: ByteSeq, n: nat, wide: bool): (r: Parsed<seq<int>>)
    ensures r.Some? ==> |r.value.1| <= |s| && |r.value.0| == n
    decreases n
  {
    if n == 0 then Some(([], s))
    else
      var w := if wide then 8 else 4;
      var (v, s1) :- ParseUnsigned(s, w);
      var (rest, s2) :- ParseDims(s1, n - 1, wide);
      Some(([Signed(v, w)] + rest, s2))
  }

  function ParseIPosition(s: ByteSeq): (r: Parsed<seq<int>>)
    ensures r.Some? ==> |r.value.1| < |s|
  {
    var (header, s1) :- ParseHeader(s);
    if header.name == Ascii("IPosition") then ParseIPositionBody(s1, header.version) else None
  }

  function ParseIPositionBody(s: ByteSeq, version: uint32): (r: Parsed<seq<int>>)
    ensures r.Some? ==> |r.value.1| <= |s|
  {
    var (n, t) :- ParseU32(s);
    if n > |t| / 4 then None else ParseDims(t, n, version >= 2)
  }

  function ParseDesc(s: ByteSeq): (r: Parsed<seq<FieldDesc>>)
    ensures r.Some? ==> |r.value.1| < |s|
    decreases |s|, 0, 0
  {
    var (header, s1) :- ParseHeader(s);
    if header.name == Ascii("RecordDesc") then ParseDescBody(s1, header.version) else None
  }

  function ParseDescBody(s: ByteSeq, version: uint32): (r: Parsed<seq<FieldDesc>>)
    ensures r.Some? ==> |r.value.1| <= |s|
    decreases |s|, 0, 0
  {
    var (n, t) :- ParseI32(s);
    if n < 0 || n > |t| / 8 then None else ParseDescFields(t, n, version >= 2)
  }

  function ParseDescFields(s: ByteSeq, n: nat, comments: bool): (r: Parsed<seq<FieldDesc>>)
    ensures r.Some? ==> |r.value.1| <= |s|
    decreases |s|, 1, n
  {
    if n == 0 then Some(([], s))
    else
      var (field, s1) :- ParseDescField(s, comments);
      var (rest, s2) :- ParseDescFields(s1, n - 1, comments);
      Some(([field] + rest, s2))
  }

  function ParseDescField(s: ByteSeq, comments: bool): (r: Parsed<FieldDesc>)
    ensures r.Some? ==> |r.value.1| < |s|
    decreases |s|, 0, 1
  {
    var (name, s1) :- ParseString(s);
    var (code, s2) :- ParseI32(s1);
    var (extra, s3) :- ParseExtra(s2, code);
    var (comment, s4) :- if comments then ParseString(s3) else Some(([], s3));
    Some((FieldDesc(name, code, extra.shape, extra.subFields, comment), s4))
  }

  datatype Extra = Extra(subFields: seq<FieldDesc>, shape: seq<int>)

  /** The type-dependent part of a descriptor; a table's descriptor name is discarded. */
  function ParseExtra(s: ByteSeq, code: int32): (r: Parsed<Extra>)
    ensures r.Some? ==> |r.value.1| <= |s|
    decreases |s|, 1, 0
  {
    if code == CODE_RECORD then
      var (fields, t) :- ParseDesc(s);
      Some((Extra(fields, []), t))
    else if IsArrayCode(code) then
      var (shape, t) :- ParseIPosition(s);
      Some((Extra([], shape), t))
    else if code == CODE_TABLE then
      var (_, t) :- ParseString(s);
      Some((Extra([], []), t))
    else Some((Extra([], []), s))
  }

  function ParseElement(s: ByteSeq, k: Kind): (r: Parsed<Scalar>)
    ensures r.Some? ==> |r.value.1| < |s| && TypeOf(r.value.0) == StoredType(k)
  {
    Widths();
    match k
    case Char8 => var (v, t) :- ParseUnsigned(s, 1); Some((Short(Signed(v, 1)), t))
    case UChar8 => var (v, t) :- ParseUnsigned(s, 1); Some((UShort(v), t))
    case Plain(TBool) => var (v, t) :- ParseUnsigned(s, 1); Some((Bool(v != 0), t))
    case Plain(TShort) => var (v, t) :- ParseUnsigned(s, 2); Some((Short(Signed(v, 2)), t))
    case Plain(TUShort) => var (v, t) :- ParseUnsigned(s, 2); Some((UShort(v), t))
    case Plain(TInt) => var (v, t) :- ParseUnsigned(s, 4); Some((Int(Signed(v, 4)), t))
    case Plain(TUInt) => var (v, t) :- ParseUnsigned(s, 4); Some((UInt(v), t))
    case Plain(TInt64) => var (v, t) :- ParseUnsigned(s, 8); Some((Int64(Signed(v, 8)), t))
    case Plain(TUInt64) => var (v, t) :- ParseUnsigned(s, 8); Some((UInt64(v), t))
    case Plain(TFloat) => var (v, t) :- ParseUnsigned(s, 4); Some((Float(v), t))
    case Plain(TDouble) => var (v, t) :- ParseUnsigned(s, 8); Some((Double(v), t))
    case Plain(TComplex) =>
      var (re, t) :- ParseUnsigned(s, 4);
      var (im, u) :- ParseUnsigned(t, 4);
      Some((Complex(re, im), u))
    case Plain(TDComplex) =>
      var (re, t) :- ParseUnsigned(s, 8);
      var (im, u) :- ParseUnsigned(t, 8);
      Some((DComplex(re, im), u))
    case Plain(TText) => var (v, t) :- ParseString(s); Some((Text(v), t))
  }

  function ParseElements(s: ByteSeq, n: nat, k: Kind): (r: Parsed<seq<Scalar>>)
    ensures r.Some? ==> |r.value.1| <= |s| && |r.value.0| == n && AllTyped(r.value.0, StoredType(k))
    decreases n
  {
    if n == 0 then Some(([], s))
    else
      var (first, s1) :- ParseElement(s, k);
      var (rest, s2) :- ParseElements(s1, n - 1, k);
      Some(([first] + rest, s2))
  }

  function ParseSizes(s: ByteSeq, n: nat): (r: Parsed<seq<uint64>>)
    ensures r.Some? ==> |r.value.1| <= |s| && |r.value.0| == n
    decreases n
  {
    if n == 0 then Some(([], s))
    else
      var (v, s1) :- ParseU32(s);
      var (rest, s2) :- ParseSizes(s1, n - 1);
      Some(([v] + rest, s2))
  }

  /** Rank, the origin that versions before 3 carry, and the extents. */
  function ParseArrayShape(s: ByteSeq, version: uint32): (r: Parsed<seq<uint64>>)
    ensures r.Some? ==> |r.value.1| < |s|
  {
    var (ndim, s1) :- ParseU32(s);
    var (_, s2) :- if version < 3 then ParseSizes(s1, ndim) else Some(([], s1));
    ParseSizes(s2, ndim)
  }

  /** The RecordValue constructor rejects a shape that does not match the element count. */
  function MakeArray(t: ElementType, shape: seq<uint64>, elements: seq<Scalar>): Option<Value> {
    if ExpectedCount(shape) == Some(|elements|) then Some(Many(t, shape, elements)) else None
  }

  function ParseArray(s: ByteSeq, k: Kind): (r: Parsed<Value>)
    ensures r.Some? ==> |r.value.1| < |s|
  {
    var (header, s1) :- ParseHeader(s);
    if Ascii("Array") <= header.name then ParseArrayBody(s1, header.version, k) else None
  }

  function ParseArrayBody(s: ByteSeq, version: uint32, k: Kind): (r: Parsed<Value>)
    ensures r.Some? ==> |r.value.1| < |s|
  {
    var (shape, s1) :- ParseArrayShape(s, version);
    var (elements, s2) :- ParseCounted(s1, k);
    var v :- MakeArray(StoredType(k), shape, elements);
    Some((v, s2))
  }

  /** An element count that the remaining bytes can plausibly hold, and the elements. */
  function ParseCounted(s: ByteSeq, k: Kind): (r: Parsed<seq<Scalar>>)
    ensures r.Some? ==> |r.value.1| < |s| && AllTyped(r.value.0, StoredType(k))
  {
    var (n, t) :- ParseU32(s);
    if n > |t| / MinBytes(StoredType(k)) then None else ParseElements(t, n, k)
  }

  /** Bit i of the packed bytes, least significant bit first. */
  function Bit(packed: ByteSeq, i: nat): int32
    requires i < 8 * |packed|
  {
    packed[i / 8] / Power2(i % 8) % 2
  }

  function Power2(i: nat): (p: nat)
    ensures p > 0
  {
    if i == 0 then 1 else 2 * Power2(i - 1)
  }

  function ParseBoolArray(s: ByteSeq): (r: Parsed<Value>)
    ensures r.Some? ==> |r.value.1| < |s|
  {
    var (header, s0) :- ParseHeader(s);
    if !(Ascii("Array") <= header.name) then None
    else
      var (shape, s1) :- ParseArrayShape(s0, header.version);
      var (n, s2) :- ParseU32(s1);
      var (packed, s3) :- ParseBytes(s2, (n + 7) / 8);
      var v :- MakeArray(TInt, shape, seq(n, i requires 0 <= i < n => Int(Bit(packed, i))));
      Some((v, s3))
  }

  function ParseValue(s: ByteSeq, field: FieldDesc, depth: nat): (r: Parsed<Value>)
    ensures r.Some? ==> |r.value.1| <= |s|
    decreases |s|, 1, field, 0
  {
    if ScalarKind(field.code).Some? then
      var (v, t) :- ParseElement(s, ScalarKind(field.code).value);
      Some((One(v), t))
    else if field.code == CODE_TABLE then
      var (v, t) :- ParseString(s);
      Some((One(Text(TablePrefix() + v)), t))
    else if field.code == CODE_RECORD then
      if field.subFields == [] then
        var (v, t) :- ParseRecord(s);
        Some((Nested(v), t))
      else
        var (v, t) :- ParseFields(s, field.subFields, [], depth + 1);
        Some((Nested(Record(v)), t))
    else if field.code == CODE_ARRAY_BOOL then ParseBoolArray(s)
    else if ArrayKind(field.code).Some? then ParseArray(s, ArrayKind(field.code).value)
    else None
  }

  /** read_record_fields, continuing a record that already has the fields `sofar`. */
  function ParseFields(s: ByteSeq, fields: seq<FieldDesc>, sofar: seq<Entry>, depth: nat): (r: Parsed<seq<Entry>>)
    ensures r.Some? ==> |r.value.1| <= |s|
    decreases |s|, 1, fields, 1
  {
    if depth > MAX_DEPTH then None
    else if fields == [] then Some((sofar, s))
    else
      var (v, t) :- ParseValue(s, fields[0], depth);
      ParseFields(t, fields[1..], SetField(sofar, fields[0].name, v), depth)
  }

  /** Everything after a record's header. */
  function ParseBody(s: ByteSeq): (r: Parsed<Record>)
    ensures r.Some? ==> |r.value.1| <= |s|
    decreases |s|, 0
  {
    var (fields, s1) :- ParseDesc(s);
    var (_, s2) :- ParseI32(s1);
    var (entries, s3) :- ParseFields(s2, fields, [], 0);
    Some((Record(entries), s3))
  }

  predicate IsRecordName(name: ByteSeq) {
    name == Ascii("Record") || name == Ascii("TableRecord")
  }

  function ParseRecord(s: ByteSeq): (r: Parsed<Record>)
    ensures r.Some? ==> |r.value.1| <= |s|
    decreases |s|, 0
  {
    var (header, s1) :- ParseHeader(s);
    if IsRecordName(header.name) then ParseBody(s1) else None
  }

  function ParseRoot(s: ByteSeq): (r: Parsed<Record>)
    ensures r.Some? ==> |r.value.1| <= |s|
  {
    var (header, s1) :- ParseRootHeader(s);
    if IsRecordName(header.name) then ParseBody(s1) else None
  }
}
