/**
 * The bytes of src/aipsio_record_writer.cpp as a strict reader takes them apart: every object's length is its extent, every
 * version, type code, type name and count is the one the writer uses, comments are empty and nothing is left over.
 */
module RecordWire {
  import opened Wrappers
  import opened Bytes
  import opened AipsIo
  import opened Records
  import opened RecordFormat

  // ---- big-endian integers ----

  function Take1(s: ByteSeq): (r: Parsed<nat>)
    ensures r.Some? ==> |r.value.1| == |s| - 1
  {
    if |s| < 1 then None else Some((s[0], s[1..]))
  }

  function Take2(s: ByteSeq): (r: Parsed<uint16>)
    ensures r.Some? ==> |r.value.1| == |s| - 2
  {
    if |s| < 2 then None else Some((0x100 * (s[0] as int) + s[1], s[2..]))
  }

  function Take4(s: ByteSeq): (r: Parsed<uint32>)
    ensures r.Some? ==> |r.value.1| == |s| - 4
  {
    if |s| < 4 then None else Some((0x100_0000 * (s[0] as int) + 0x1_0000 * (s[1] as int) + 0x100 * (s[2] as int) + s[3], s[4..]))
  }

  function Take8(s: ByteSeq): (r: Parsed<uint64>)
    ensures r.Some? ==> |r.value.1| == |s| - 8
  {
    var (high, t) :- Take4(s);
    var (low, rest) :- Take4(t);
    Some((TWO32 * high + low, rest))
  }

  // ---- strings and objects ----

  function TakeText(s: ByteSeq): (r: Parsed<ByteSeq>)
    ensures r.Some? ==> |r.value.1| < |s| && |r.value.0| < |s|
  {
    var (n, t) :- Take4(s);
    if n > |t| then None else Some((t[..n], t[n..]))
  }

  datatype Object = Object(version: uint32, body: ByteSeq)

  /** An object of this type: its length counts from the length field to its end. */
  function TakeObject(s: ByteSeq, name: ByteSeq): (r: Parsed<Object>)
    ensures r.Some? ==> |r.value.0.body| + |r.value.1| < |s|
  {
    var (length, _) :- Take4(s);
    if length < 4 || length > |s| then None
    else
      var (n, t) :- TakeText(s[4..length]);
      var (version, body) :- Take4(t);
      if n != name then None else Some((Object(version, body), s[length..]))
  }

  function TakeWords(s: ByteSeq, n: nat): (r: Parsed<seq<uint32>>)
    ensures r.Some? ==> |r.value.0| == n && |r.value.1| <= |s|
    decreases n
  {
    if n == 0 then Some(([], s))
    else
      var (first, t) :- Take4(s);
      var (more, rest) :- TakeWords(t, n - 1);
      Some(([first] + more, rest))
  }

  // ---- descriptors ----

  datatype FieldHead = FieldHead(name: ByteSeq, code: uint32, shape: seq<uint32>)

  predicate CodeOfArray(code: uint32) {
    16 <= code <= 24 || code == 30
  }

  /** Behind a type code: nothing, the descriptor name of a table, the descriptor of a record, or the shape of an array. */
  function TakeExtra(s: ByteSeq, code: uint32): (r: Parsed<seq<uint32>>)
    ensures r.Some? ==> |r.value.1| <= |s|
  {
    if code == 12 then
      var (t, rest) :- TakeText(s);
      if t == [] then Some(([], rest)) else None
    else if code == 25 then
      var (o, rest) :- TakeObject(s, Ascii("RecordDesc"));
      if o == Object(2, [0, 0, 0, 0]) then Some(([], rest)) else None
    else if CodeOfArray(code) then
      var (o, rest) :- TakeObject(s, Ascii("IPosition"));
      var (n, t) :- Take4(o.body);
      var (dims, end) :- TakeWords(t, n);
      if o.version == 1 && end == [] then Some((dims, rest)) else None
    else Some(([], s))
  }

  function TakeHead(s: ByteSeq): (r: Parsed<FieldHead>)
    ensures r.Some? ==> |r.value.1| < |s|
  {
    var (name, s1) :- TakeText(s);
    var (code, s2) :- Take4(s1);
    var (shape, s3) :- TakeExtra(s2, code);
    var (comment, rest) :- TakeText(s3);
    if comment == [] then Some((FieldHead(name, code, shape), rest)) else None
  }

  function TakeHeads(s: ByteSeq, n: nat): (r: Parsed<seq<FieldHead>>)
    ensures r.Some? ==> |r.value.0| == n && |r.value.1| <= |s|
    decreases n
  {
    if n == 0 then Some(([], s))
    else
      var (first, t) :- TakeHead(s);
      var (more, rest) :- TakeHeads(t, n - 1);
      Some(([first] + more, rest))
  }

  // ---- values ----

  function TakeScalar(s: ByteSeq, code: uint32): (r: Parsed<Scalar>)
    ensures r.Some? ==> |r.value.1| < |s|
  {
    match code
    case 0 => var (v, t) :- Take1(s); if v == 1 then Some((Bool(true), t)) else if v == 0 then Some((Bool(false), t)) else None
    case 3 => var (v, t) :- Take2(s); Some((Short(if v < 0x8000 then v else v - 0x1_0000), t))
    case 4 => var (v, t) :- Take2(s); Some((UShort(v), t))
    case 5 => var (v, t) :- Take4(s); Some((Int(if v < 0x8000_0000 then v else v - 0x1_0000_0000), t))
    case 6 => var (v, t) :- Take4(s); Some((UInt(v), t))
    case 7 => var (v, t) :- Take4(s); Some((Float(v), t))
    case 8 => var (v, t) :- Take8(s); Some((Double(v), t))
    case 9 =>
      var (re, t) :- Take4(s);
      var (im, rest) :- Take4(t);
      Some((Complex(re, im), rest))
    case 10 =>
      var (re, t) :- Take8(s);
      var (im, rest) :- Take8(t);
      Some((DComplex(re, im), rest))
    case 11 => var (v, t) :- TakeText(s); Some((Text(v), t))
    case 29 =>
      var (v, t) :- Take8(s);
      Some((Int64(if v < 0x8000_0000_0000_0000 then v else v - 0x1_0000_0000_0000_0000), t))
    case _ => None
  }

  function TakeScalars(s: ByteSeq, n: nat, code: uint32): (r: Parsed<seq<Scalar>>)
    ensures r.Some? ==> |r.value.0| == n && |r.value.1| <= |s|
    decreases n
  {
    if n == 0 then Some(([], s))
    else
      var (first, t) :- TakeScalar(s, code);
      var (more, rest) :- TakeScalars(t, n - 1, code);
      Some(([first] + more, rest))
  }

  /** Type name, element type and element code of an array's type code. */
  function ArrayType(code: uint32): (ByteSeq, ElementType, uint32)
    requires CodeOfArray(code)
  {
    match code
    case 16 => (Ascii("Array<Short>"), TShort, 3)
    case 17 => (Ascii("Array<uShort>"), TUShort, 4)
    case 18 => (Ascii("Array<Int>"), TInt, 5)
    case 19 => (Ascii("Array<uInt>"), TUInt, 6)
    case 20 => (Ascii("Array<float>"), TFloat, 7)
    case 21 => (Ascii("Array<double>"), TDouble, 8)
    case 22 => (Ascii("Array<Complex>"), TComplex, 9)
    case 23 => (Ascii("Array<DComplex>"), TDComplex, 10)
    case 24 => (Ascii("Array<String>"), TText, 11)
    case 30 => (Ascii("Array<Int64>"), TInt64, 29)
  }

  function TakeArray(s: ByteSeq, h: FieldHead): (r: Parsed<Value>)
    requires CodeOfArray(h.code)
    ensures r.Some? ==> |r.value.1| < |s|
  {
    var (name, t, code) := ArrayType(h.code);
    var (o, rest) :- TakeObject(s, name);
    var (n, s1) :- Take4(o.body);
    var (dims, s2) :- TakeWords(s1, n);
    var (count, s3) :- Take4(s2);
    var (elements, end) :- TakeScalars(s3, count, code);
    if o.version == 3 && dims == h.shape && end == [] then Some((Many(t, dims, elements), rest)) else None
  }

  function TakeValue(s: ByteSeq, h: FieldHead, asTable: bool): (r: Parsed<Value>)
    ensures r.Some? ==> |r.value.1| < |s|
    decreases |s|, 0, 0
  {
    if h.code == 12 then
      var (t, rest) :- TakeText(s);
      Some((One(Text(Ascii("Table: ") + t)), rest))
    else if h.code == 25 then
      var (o, rest) :- TakeObject(s, if asTable then Ascii("TableRecord") else Ascii("Record"));
      var record :- TakeBody(o, asTable);
      Some((Nested(record), rest))
    else if CodeOfArray(h.code) then TakeArray(s, h)
    else
      var (v, rest) :- TakeScalar(s, h.code);
      if v.Text? && Ascii("Table: ") <= v.s then None else Some((One(v), rest))
  }

  function TakeValues(s: ByteSeq, heads: seq<FieldHead>, asTable: bool): (r: Parsed<seq<Entry>>)
    ensures r.Some? ==> |r.value.1| <= |s|
    decreases |s|, 1, |heads|
  {
    if heads == [] then Some(([], s))
    else
      var (v, t) :- TakeValue(s, heads[0], asTable);
      var (more, rest) :- TakeValues(t, heads[1..], asTable);
      Some(([Entry(heads[0].name, v)] + more, rest))
  }

  /** The content of a record object of version 1: descriptor of version 2, the record type word 1, the values. */
  function TakeBody(o: Object, asTable: bool): Option<Record>
    decreases |o.body|, 2, 0
  {
    var (d, t) :- TakeObject(o.body, Ascii("RecordDesc"));
    var (n, fields) :- Take4(d.body);
    var (heads, end) :- TakeHeads(fields, n);
    var (kind, values) :- Take4(t);
    var (entries, rest) :- TakeValues(values, heads, asTable);
    if o.version == 1 && d.version == 2 && end == [] && kind == 1 && rest == [] then Some(Record(entries)) else None
  }

  function TakeRoot(s: ByteSeq): Option<Record> {
    var (magic, t) :- Take4(s);
    var (o, rest) :- TakeObject(t, Ascii("Record"));
    var record :- TakeBody(o, false);
    if magic == 0xBEBE_BEBE && rest == [] then Some(record) else None
  }

  // ---- what the writer wrote: integers ----

  lemma Took4(v: uint32, rest: ByteSeq)
    ensures Take4(EncodeBe(v, 4) + rest) == Some((v, rest))
  {
    hide EncodeBe;
    PutIsEncode(v);
    var s := Put(v, true) + rest;
    assert s[4..] == rest && s[0] == v / 0x100_0000 && s[1] == v / 0x1_0000 % 0x100 && s[2] == v / 0x100 % 0x100 && s[3] == v % 0x100;
    Places(v);
  }

  lemma Places(v: uint32)
    ensures 0x100_0000 * (v / 0x100_0000) + 0x1_0000 * (v / 0x1_0000 % 0x100) + 0x100 * (v / 0x100 % 0x100) + v % 0x100 == v
  {
    var a := v / 0x100;
    var b := a / 0x100;
    assert b == v / 0x1_0000 && b / 0x100 == v / 0x100_0000;
    assert v == 0x100 * a + v % 0x100 && a == 0x100 * b + a % 0x100 && b == 0x100 * (b / 0x100) + b % 0x100;
  }

  lemma Took8(v: uint64, rest: ByteSeq)
    ensures Take8(EncodeBe(v, 8) + rest) == Some((v, rest))
  {
    hide EncodeBe, Put, Take4;
    Put8IsEncodeBe(v);
    var high, low := v / TWO32, v % TWO32;
    PutIsEncode(high);
    PutIsEncode(low);
    assert EncodeBe(v, 8) + rest == EncodeBe(high, 4) + (EncodeBe(low, 4) + rest);
    Took4(high, EncodeBe(low, 4) + rest);
    Took4(low, rest);
  }

  lemma Took2(v: uint16, rest: ByteSeq)
    ensures Take2(EncodeBe(v, 2) + rest) == Some((v, rest))
  {
    assert EncodeBe(v / 0x100 / 0x100, 0) == [];
    assert EncodeBe(v, 2) == [v / 0x100 % 0x100, v % 0x100];
    var s := EncodeBe(v, 2) + rest;
    assert s[2..] == rest;
  }

  lemma TookU32(v: uint32, rest: ByteSeq)
    ensures Take4(U32(v) + rest) == Some((v, rest))
  {
    Widths();
    Took4(v, rest);
  }

  lemma TookI32(v: int32, rest: ByteSeq)
    ensures Take4(I32(v) + rest) == Some((if v < 0 then v + 0x1_0000_0000 else v, rest))
  {
    Widths();
    Took4(Unsigned(v, 4), rest);
  }

  lemma TookText(t: ByteSeq, rest: ByteSeq)
    requires |t| < TWO32
    ensures TakeText(StringBytes(t) + rest) == Some((t, rest))
  {
    hide U32, Take4;
    assert StringBytes(t) + rest == U32(|t|) + (t + rest);
    TookU32(|t|, t + rest);
  }

  lemma TookObject(name: ByteSeq, version: uint32, body: ByteSeq, rest: ByteSeq)
    requires ObjectBytes(name, version, body).Some?
    ensures TakeObject(ObjectBytes(name, version, body).value + rest, name) == Some((Object(version, body), rest))
  {
    hide U32, Take4, StringBytes, TakeText;
    var tail := ObjectTail(name, version, body);
    var length := 4 + |tail|;
    var s := U32(length) + tail + rest;
    assert s == U32(length) + (tail + rest);
    TookU32(length, tail + rest);
    assert s[4..length] == tail && s[length..] == rest;
    assert tail == StringBytes(name) + (U32(version) + body);
    TookText(name, U32(version) + body);
    TookU32(version, body);
  }

  // ---- what the writer wrote: descriptors ----

  lemma {:induction false} TookDimsI32(shape: seq<uint64>, rest: ByteSeq)
    requires DimsI32(shape).Some?
    ensures TakeWords(DimsI32(shape).value + rest, |shape|) == Some((shape, rest))
  {
    hide I32, Take4;
    if shape == [] {
      assert [] + rest == rest;
    } else {
      var tail := DimsI32(shape[1..]).value;
      assert DimsI32(shape).value + rest == I32(shape[0]) + (tail + rest);
      TookI32(shape[0], tail + rest);
      TookDimsI32(shape[1..], rest);
      assert [shape[0]] + shape[1..] == shape;
    }
  }

  lemma {:induction false} TookDimsU32(shape: seq<uint64>, rest: ByteSeq)
    requires DimsU32(shape).Some?
    ensures TakeWords(DimsU32(shape).value + rest, |shape|) == Some((shape, rest))
  {
    hide U32, Take4;
    if shape == [] {
      assert [] + rest == rest;
    } else {
      var tail := DimsU32(shape[1..]).value;
      assert DimsU32(shape).value + rest == U32(shape[0]) + (tail + rest);
      TookU32(shape[0], tail + rest);
      TookDimsU32(shape[1..], rest);
      assert [shape[0]] + shape[1..] == shape;
    }
  }

  lemma TookShape(shape: seq<uint64>, rest: ByteSeq)
    requires IPositionBytes(shape).Some? && |shape| < TWO32
    ensures var body := U32(|shape|) + DimsI32(shape).value;
      && TakeObject(IPositionBytes(shape).value + rest, Ascii("IPosition")) == Some((Object(1, body), rest))
      && Take4(body) == Some((|shape|, DimsI32(shape).value)) && TakeWords(DimsI32(shape).value, |shape|) == Some((shape, []))
  {
    hide U32, Take4, ObjectBytes, TakeObject;
    var dims := DimsI32(shape).value;
    TookObject(Ascii("IPosition"), 1, U32(|shape|) + dims, rest);
    TookU32(|shape|, dims);
    TookDimsI32(shape, []);
    assert dims + [] == dims;
  }

  lemma ZeroWord()
    ensures I32(0) == [0, 0, 0, 0]
  {
    Widths();
    PutIsEncode(0);
  }

  function ShapeOf(v: Value): seq<uint64> {
    if v.Many? then v.shape else []
  }

  /** The type codes of the descriptor and of the value agree, and a shape is there exactly for arrays. */
  lemma Codes(v: Value)
    requires CodeFor(v).Some?
    ensures var c := CodeFor(v).value;
      && c >= 0 && (v.Many? <==> CodeOfArray(c)) && (v.Nested? <==> c == 25)
      && (c == 12 <==> v.One? && v.scalar.Text? && IsTableRef(v.scalar.s))
  {
  }

  lemma TookExtra(v: Value, rest: ByteSeq)
    requires CodeFor(v).Some? && DescExtra(v, CodeFor(v).value).Some?
    ensures CodeFor(v).value >= 0 && |ShapeOf(v)| < TWO32 && forall i :: 0 <= i < |ShapeOf(v)| ==> ShapeOf(v)[i] < TWO32
    ensures TakeExtra(DescExtra(v, CodeFor(v).value).value + rest, CodeFor(v).value) == Some((ShapeOf(v), rest))
  {
    hide CodeFor, TakeText, TakeObject, TakeWords, Take4, ObjectBytes, StringBytes, IPositionBytes, I32, DimsI32;
    Codes(v);
    var c := CodeFor(v).value;
    if c == 12 {
      TookText([], rest);
    } else if c == 25 {
      TookObject(Ascii("RecordDesc"), 2, I32(0), rest);
      ZeroWord();
    } else if v.Many? {
      ShapeSmall(v.shape);
      TookShape(v.shape, rest);
    } else {
      assert [] + rest == rest;
    }
  }

  lemma ShapeSmall(shape: seq<uint64>)
    requires IPositionBytes(shape).Some?
    ensures |shape| < TWO32 && forall i :: 0 <= i < |shape| ==> shape[i] < TWO32
  {
    DimsSmall(shape);
  }

  lemma {:induction false} DimsSmall(shape: seq<uint64>)
    requires DimsI32(shape).Some?
    ensures forall i :: 0 <= i < |shape| ==> shape[i] <= INT32_MAX
  {
    if shape != [] {
      DimsSmall(shape[1..]);
    }
  }

  /** The head of a field as read back. */
  predicate HeadFor(h: FieldHead, e: Entry) {
    CodeFor(e.value).Some? && h.name == e.name && h.code == CodeFor(e.value).value && h.shape == ShapeOf(e.value)
  }

  lemma TookHead(e: Entry, rest: ByteSeq) returns (h: FieldHead)
    requires DescField(e).Some? && |DescField(e).value| < TWO32
    ensures TakeHead(DescField(e).value + rest) == Some((h, rest)) && HeadFor(h, e)
  {
    hide TakeText, TakeExtra, Take4, StringBytes, I32, CodeFor, DescExtra;
    var code := CodeFor(e.value).value;
    var extra := DescExtra(e.value, code).value;
    var end := StringBytes([]) + rest;
    TookExtra(e.value, end);
    h := FieldHead(e.name, code, ShapeOf(e.value));
    assert DescField(e).value + rest == StringBytes(e.name) + (I32(code) + (extra + end));
    TookText(e.name, I32(code) + (extra + end));
    TookI32(code, extra + end);
    TookText([], rest);
  }

  predicate HeadsFor(hs: seq<FieldHead>, es: seq<Entry>) {
    |hs| == |es| && forall i :: 0 <= i < |hs| ==> HeadFor(hs[i], es[i])
  }

  lemma {:induction false} TookHeads(es: seq<Entry>, rest: ByteSeq) returns (hs: seq<FieldHead>)
    requires DescFields(es).Some? && |DescFields(es).value| < TWO32
    ensures TakeHeads(DescFields(es).value + rest, |es|) == Some((hs, rest)) && HeadsFor(hs, es)
  {
    hide TakeHead, DescField, HeadFor;
    hs := [];
    if es == [] {
      assert [] + rest == rest;
    } else {
      var first, tail := DescField(es[0]).value, DescFields(es[1..]).value;
      assert DescFields(es).value + rest == first + (tail + rest);
      var h := TookHead(es[0], tail + rest);
      var more := TookHeads(es[1..], rest);
      hs := [h] + more;
    }
  }

  // ---- what the writer wrote: values ----

  lemma TookShort(v: int16, rest: ByteSeq)
    ensures TakeScalar(ScalarBytes(Short(v)) + rest, 3) == Some((Short(v), rest))
  {
    hide EncodeBe, Take2;
    Widths();
    Took2(Unsigned(v, 2), rest);
  }

  lemma TookInt(v: int32, rest: ByteSeq)
    ensures TakeScalar(ScalarBytes(Int(v)) + rest, 5) == Some((Int(v), rest))
  {
    hide EncodeBe, Take4;
    Widths();
    Took4(Unsigned(v, 4), rest);
  }

  lemma TookInt64(v: int64, rest: ByteSeq)
    ensures TakeScalar(ScalarBytes(Int64(v)) + rest, 29) == Some((Int64(v), rest))
  {
    hide EncodeBe, Take8;
    Widths();
    Took8(Unsigned(v, 8), rest);
  }

  lemma TookComplex(re: uint32, im: uint32, rest: ByteSeq)
    ensures TakeScalar(ScalarBytes(Complex(re, im)) + rest, 9) == Some((Complex(re, im), rest))
  {
    hide EncodeBe, Take4;
    assert EncodeBe(re, 4) + EncodeBe(im, 4) + rest == EncodeBe(re, 4) + (EncodeBe(im, 4) + rest);
    Took4(re, EncodeBe(im, 4) + rest);
    Took4(im, rest);
  }

  lemma TookDComplex(re: uint64, im: uint64, rest: ByteSeq)
    ensures TakeScalar(ScalarBytes(DComplex(re, im)) + rest, 10) == Some((DComplex(re, im), rest))
  {
    hide EncodeBe, Take8;
    assert EncodeBe(re, 8) + EncodeBe(im, 8) + rest == EncodeBe(re, 8) + (EncodeBe(im, 8) + rest);
    Took8(re, EncodeBe(im, 8) + rest);
    Took8(im, rest);
  }

  lemma TookScalar(s: Scalar, rest: ByteSeq)
    requires ScalarCode(TypeOf(s)).Some? && (s.Text? ==> |s.s| < TWO32)
    ensures ScalarCode(TypeOf(s)).value >= 0
    ensures TakeScalar(ScalarBytes(s) + rest, ScalarCode(TypeOf(s)).value) == Some((s, rest))
  {
    hide EncodeBe, Take2, Take4, Take8, TakeText, StringBytes;
    match s
    case Bool(b) => assert (ScalarBytes(s) + rest)[1..] == rest;
    case Short(v) => TookShort(v, rest);
    case UShort(v) => Took2(v, rest);
    case Int(v) => TookInt(v, rest);
    case UInt(v) => Took4(v, rest);
    case Int64(v) => TookInt64(v, rest);
    case Float(v) => Took4(v, rest);
    case Double(v) => Took8(v, rest);
    case Complex(re, im) => TookComplex(re, im, rest);
    case DComplex(re, im) => TookDComplex(re, im, rest);
    case Text(t) => TookText(t, rest);
  }

  lemma {:induction false} TookScalars(es: seq<Scalar>, t: ElementType, rest: ByteSeq)
    requires AllTyped(es, t) && ScalarCode(t).Some? && |ElementsBytes(es)| < TWO32
    ensures ScalarCode(t).value >= 0
    ensures TakeScalars(ElementsBytes(es) + rest, |es|, ScalarCode(t).value) == Some((es, rest))
  {
    hide TakeScalar, ScalarBytes;
    if es == [] {
      assert [] + rest == rest;
    } else {
      var first, tail := ScalarBytes(es[0]), ElementsBytes(es[1..]);
      assert ElementsBytes(es) + rest == first + (tail + rest);
      TextSize(es[0]);
      TookScalar(es[0], tail + rest);
      TookScalars(es[1..], t, rest);
      assert [es[0]] + es[1..] == es;
    }
  }

  lemma TextSize(s: Scalar)
    ensures s.Text? ==> |ScalarBytes(s)| == 4 + |s.s|
  {
    hide U32;
  }

  lemma ArrayTypes(t: ElementType)
    requires ArrayCode(t).Some?
    ensures CodeOfArray(ArrayCode(t).value) && ScalarCode(t).Some?
    ensures ArrayType(ArrayCode(t).value) == (ArrayName(t), t, ScalarCode(t).value)
  {
  }

  lemma TookArray(v: Value, h: FieldHead, rest: ByteSeq)
    requires v.Many? && ValidValue(v) && ArrayCode(v.element).Some? && ArrayBytes(v.element, v.shape, v.elements).Some?
    requires h.code == ArrayCode(v.element).value && h.shape == v.shape
    ensures CodeOfArray(h.code) && TakeArray(ArrayBytes(v.element, v.shape, v.elements).value + rest, h) == Some((v, rest))
  {
    hide U32, Take4, ObjectBytes, TakeObject, TakeScalars, TakeWords, ElementsBytes, ArrayName, ArrayCode, ScalarCode, DimsU32, CodeOfArray, ArrayType;
    ArrayTypes(v.element);
    var dims, elements := DimsU32(v.shape).value, ElementsBytes(v.elements);
    var body := U32(|v.shape|) + dims + U32(|v.elements|) + elements;
    BodySize(ArrayName(v.element), 3, body);
    TookObject(ArrayName(v.element), 3, body, rest);
    assert body == U32(|v.shape|) + (dims + (U32(|v.elements|) + elements));
    TookU32(|v.shape|, dims + (U32(|v.elements|) + elements));
    TookDimsU32(v.shape, U32(|v.elements|) + elements);
    TookU32(|v.elements|, elements);
    TookScalars(v.elements, v.element, []);
    assert elements + [] == elements;
  }

  lemma BodySize(name: ByteSeq, version: uint32, body: ByteSeq)
    requires ObjectBytes(name, version, body).Some?
    ensures |body| < TWO32
  {
  }

  lemma {:induction false} TookValue(v: Value, h: FieldHead, depth: nat, asTable: bool, rest: ByteSeq)
    requires ValidValue(v) && ValueBytes(v, depth, asTable).Some? && CodeFor(v).Some?
    requires |ValueBytes(v, depth, asTable).value| < TWO32
    requires h.code == CodeFor(v).value && h.shape == ShapeOf(v)
    ensures TakeValue(ValueBytes(v, depth, asTable).value + rest, h, asTable) == Some((v, rest))
    decreases v
  {
    hide CodeFor, TakeText, TakeObject, TakeArray, TakeScalar, TakeBody, ArrayBytes, ArrayCode, ScalarBytes, StringBytes, ObjectBytes, BodyBytes;
    Codes(v);
    KindsOfCode(v);
    match v
    case One(s) =>
      if h.code == 12 {
        TookText(s.s[7..], rest);
        assert TablePrefix() + s.s[7..] == s.s;
      } else {
        TextSize(s);
        TookScalar(s, rest);
      }
    case Many(t, shape, elements) => TookArray(v, h, rest);
    case Nested(r) =>
      var body := BodyBytes(r.entries, depth + 1, asTable).value;
      TookObject(RecordName(asTable), 1, body, rest);
      TookBody(r, depth + 1, asTable);
  }

  lemma KindsOfCode(v: Value)
    requires CodeFor(v).Some?
    ensures v.One? && !(v.scalar.Text? && IsTableRef(v.scalar.s)) ==> CodeFor(v) == ScalarCode(TypeOf(v.scalar))
    ensures v.Many? ==> CodeFor(v) == ArrayCode(v.element)
    ensures !v.List?
  {
  }

  lemma {:induction false} TookValues(es: seq<Entry>, hs: seq<FieldHead>, depth: nat, asTable: bool, rest: ByteSeq)
    requires HeadsFor(hs, es) && ValuesBytes(es, depth, asTable).Some? && |ValuesBytes(es, depth, asTable).value| < TWO32
    requires forall i :: 0 <= i < |es| ==> ValidValue(es[i].value)
    ensures TakeValues(ValuesBytes(es, depth, asTable).value + rest, hs, asTable) == Some((es, rest))
    decreases es, 0
  {
    hide TakeValue, ValueBytes, ValidValue;
    if es == [] {
      assert [] + rest == rest;
    } else {
      var first, tail := ValueBytes(es[0].value, depth, asTable).value, ValuesBytes(es[1..], depth, asTable).value;
      assert HeadFor(hs[0], es[0]);
      assert ValuesBytes(es, depth, asTable).value + rest == first + (tail + rest);
      TookValue(es[0].value, hs[0], depth, asTable, tail + rest);
      TookValues(es[1..], hs[1..], depth, asTable, rest);
      assert [es[0]] + es[1..] == es;
    }
  }

  lemma {:induction false} TookBody(r: Record, depth: nat, asTable: bool)
    requires ValidRecord(r) && BodyBytes(r.entries, depth, asTable).Some? && |BodyBytes(r.entries, depth, asTable).value| < TWO32
    ensures TakeBody(Object(1, BodyBytes(r.entries, depth, asTable).value), asTable) == Some(r)
    decreases r.entries, 1
  {
    hide I32, Take4, TakeObject, TakeHeads, TakeValues, ValuesBytes, ObjectBytes, DescFields, HeadsFor, ValidValue;
    var es := r.entries;
    var fields, values := DescFields(es).value, ValuesBytes(es, depth, asTable).value;
    var body := I32(|es|) + fields;
    var desc := ObjectBytes(Ascii("RecordDesc"), 2, body).value;
    assert BodyBytes(es, depth, asTable).value == desc + (I32(1) + values);
    BodySize(Ascii("RecordDesc"), 2, body);
    TookObject(Ascii("RecordDesc"), 2, body, I32(1) + values);
    TookI32(|es|, fields);
    TookI32(1, values);
    var hs := TookHeads(es, []);
    assert fields + [] == fields && values + [] == values;
    TookValues(es, hs, depth, asTable, []);
  }

  /**
   * The bytes of every record the writer accepts, taken apart strictly, are that record: every length, version, type code, type
   * name and count is as the strict reader expects, and the record is determined by its bytes, the magic length included.
   */
  lemma WireRound(r: Record)
    requires ValidRecord(r) && RootBytes(r).Some?
    ensures TakeRoot(RootBytes(r).value) == Some(r)
  {
    hide U32, Take4, TakeObject, TakeBody, ObjectBytes, BodyBytes, ValidRecord;
    var body := BodyBytes(r.entries, 0, false).value;
    var b := RecordBytes(r, 0, false).value;
    BodySize(RecordName(false), 1, body);
    TookU32(MAGIC, b);
    TookObject(RecordName(false), 1, body, []);
    assert b + [] == b;
    TookBody(r, 0, false);
  }

  // ---- what the writer accepts ----

  function ScalarSize(s: Scalar): nat {
    match s
    case Bool(_) => 1
    case Short(_) => 2
    case UShort(_) => 2
    case Int(_) => 4
    case UInt(_) => 4
    case Float(_) => 4
    case Int64(_) => 8
    case UInt64(_) => 8
    case Double(_) => 8
    case Complex(_, _) => 8
    case DComplex(_, _) => 16
    case Text(t) => 4 + |t|
  }

  function ScalarSizes(es: seq<Scalar>): nat {
    if es == [] then 0 else ScalarSize(es[0]) + ScalarSizes(es[1..])
  }

  function NameSize(asTable: bool): nat {
    if asTable then 11 else 6
  }

  /** Bytes of a value; a table reference is stored without its seven-byte prefix. */
  function ValueSize(v: Value, asTable: bool): nat
    decreases v
  {
    match v
    case One(s) => if s.Text? && Ascii("Table: ") <= s.s then |s.s| - 3 else ScalarSize(s)
    case Many(t, shape, elements) => 20 + |ArrayName(t)| + 4 * |shape| + ScalarSizes(elements)
    case Nested(r) => RecordSize(r, asTable)
    case List(_) => 0
  }

  function ValueSizes(es: seq<Entry>, asTable: bool): nat
    decreases es, 0
  {
    if es == [] then 0 else ValueSize(es[0].value, asTable) + ValueSizes(es[1..], asTable)
  }

  /** Bytes of a field's descriptor. */
  function HeadSize(e: Entry): nat {
    12 + |e.name| + match e.value
      case One(s) => if s.Text? && Ascii("Table: ") <= s.s then 4 else 0
      case Many(_, shape, _) => 25 + 4 * |shape|
      case _ => 26
  }

  function HeadSizes(es: seq<Entry>): nat {
    if es == [] then 0 else HeadSize(es[0]) + HeadSizes(es[1..])
  }

  /** Bytes of a record: its header, the descriptor, the type word, the values. */
  function RecordSize(r: Record, asTable: bool): nat
    decreases r
  {
    42 + NameSize(asTable) + HeadSizes(r.entries) + ValueSizes(r.entries, asTable)
  }

  /** No lists, no unsigned 64-bit values, no extents above the largest int32, records nested at most 256 deep. */
  predicate Writable(v: Value, depth: nat)
    decreases v
  {
    match v
    case One(s) => !s.UInt64?
    case Many(t, shape, _) => t !in {TBool, TUInt64} && forall i :: 0 <= i < |shape| ==> shape[i] <= 0x7FFF_FFFF
    case List(_) => false
    case Nested(r) => WritableRecord(r, depth + 1)
  }

  predicate WritableRecord(r: Record, depth: nat)
    decreases r
  {
    depth <= 256 && forall i :: 0 <= i < |r.entries| ==> Writable(r.entries[i].value, depth)
  }

  lemma {:induction false} DimsWritten(shape: seq<uint64>)
    ensures DimsI32(shape).Some? <==> forall i :: 0 <= i < |shape| ==> shape[i] <= 0x7FFF_FFFF
    ensures DimsI32(shape).Some? ==> DimsU32(shape).Some? && |DimsI32(shape).value| == |DimsU32(shape).value| == 4 * |shape|
  {
    hide I32, U32;
    if shape != [] {
      DimsWritten(shape[1..]);
    }
  }

  lemma {:induction false} ElementsSized(es: seq<Scalar>)
    ensures |ElementsBytes(es)| == ScalarSizes(es) && |es| <= ScalarSizes(es)
  {
    if es != [] {
      ElementsSized(es[1..]);
      ScalarSized(es[0]);
    }
  }

  lemma ScalarSized(s: Scalar)
    ensures |ScalarBytes(s)| == ScalarSize(s) && ScalarSize(s) > 0
  {
    hide EncodeBe, U32;
  }

  lemma ArrayAccepted(v: Value)
    requires v.Many?
    ensures ArrayCode(v.element).Some? <==> v.element !in {TBool, TUInt64}
    ensures var b := ArrayBytes(v.element, v.shape, v.elements);
      && (b.Some? ==> |b.value| == ValueSize(v, false))
      && (ValueSize(v, false) < TWO32 && DimsI32(v.shape).Some? ==> b.Some?)
  {
    hide ElementsBytes, ScalarSizes, U32, ArrayName, DimsI32, DimsU32;
    DimsWritten(v.shape);
    ElementsSized(v.elements);
    DimsU32Size(v.shape);
  }

  lemma {:induction false} DimsU32Size(shape: seq<uint64>)
    ensures DimsU32(shape).Some? ==> |DimsU32(shape).value| == 4 * |shape|
  {
    hide U32;
    if shape != [] {
      DimsU32Size(shape[1..]);
    }
  }

  lemma HeadAccepted(e: Entry, depth: nat)
    ensures DescField(e).Some? ==> |DescField(e).value| == HeadSize(e)
    ensures DescField(e).Some? && e.value.Many? ==> DimsI32(e.value.shape).Some? && e.value.element !in {TBool, TUInt64}
    ensures Writable(e.value, depth) && HeadSize(e) < TWO32 ==> DescField(e).Some?
  {
    hide I32, U32, DimsI32, ScalarCode, ArrayCode, Ascii;
    CodesWritten(e.value);
    ObjectNames();
    if e.value.Many? {
      DimsWritten(e.value.shape);
      ArrayAccepted(e.value);
    }
  }

  lemma ObjectNames()
    ensures |Ascii("IPosition")| == 9 && |Ascii("RecordDesc")| == 10 && |RecordName(true)| == 11 && |RecordName(false)| == 6
  {
  }

  lemma CodesWritten(v: Value)
    ensures v.One? && !v.scalar.UInt64? ==> CodeFor(v).Some?
    ensures v.Nested? ==> CodeFor(v).Some?
    ensures v.List? ==> CodeFor(v).None?
    ensures CodeFor(v) == Some(CODE_TABLE) <==> v.One? && v.scalar.Text? && Ascii("Table: ") <= v.scalar.s
    ensures CodeFor(v) == Some(CODE_RECORD) <==> v.Nested?
    ensures v.Many? ==> CodeFor(v) == ArrayCode(v.element)
  {
  }

  lemma {:induction false} HeadsAccepted(es: seq<Entry>, depth: nat)
    ensures DescFields(es).Some? ==> |DescFields(es).value| == HeadSizes(es) && forall i :: 0 <= i < |es| ==> DescField(es[i]).Some?
    ensures (forall i :: 0 <= i < |es| ==> Writable(es[i].value, depth)) && HeadSizes(es) < TWO32 ==> DescFields(es).Some?
    ensures |es| * 12 <= HeadSizes(es)
  {
    hide DescField, HeadSize, Writable;
    if es != [] {
      HeadAccepted(es[0], depth);
      HeadsAccepted(es[1..], depth);
      HeadPositive(es[0]);
    }
  }

  lemma HeadPositive(e: Entry)
    ensures HeadSize(e) >= 12
  {
  }

  lemma {:induction false} ValueAccepted(v: Value, depth: nat, asTable: bool)
    ensures var b := ValueBytes(v, depth, asTable);
      && (b.Some? && (v.Many? ==> DimsI32(v.shape).Some?) ==> Writable(v, depth) && |b.value| == ValueSize(v, asTable))
      && (Writable(v, depth) && ValueSize(v, asTable) < TWO32 ==> b.Some?)
    decreases v
  {
    hide ArrayBytes, ArrayCode, DimsI32, RecordBytes, RecordSize, ScalarBytes, ScalarSize, WritableRecord, Ascii, U32;
    match v
    case One(s) => ScalarSized(s);
    case Many(_, shape, _) =>
      ArrayAccepted(v);
      DimsWritten(shape);
    case List(_) =>
    case Nested(r) => RecordAccepted(r, depth + 1, asTable);
  }

  lemma {:induction false} ValuesAccepted(es: seq<Entry>, depth: nat, asTable: bool)
    requires DescFields(es).Some?
    ensures var b := ValuesBytes(es, depth, asTable);
      && (b.Some? ==> |b.value| == ValueSizes(es, asTable) && forall i :: 0 <= i < |es| ==> Writable(es[i].value, depth))
      && ((forall i :: 0 <= i < |es| ==> Writable(es[i].value, depth)) && ValueSizes(es, asTable) < TWO32 ==> b.Some?)
    decreases es, 0
  {
    hide ValueBytes, ValueSize, Writable, DescField;
    if es != [] {
      HeadAccepted(es[0], depth);
      ValueAccepted(es[0].value, depth, asTable);
      ValuesAccepted(es[1..], depth, asTable);
    }
  }

  lemma {:induction false} RecordAccepted(r: Record, depth: nat, asTable: bool)
    ensures var b := RecordBytes(r, depth, asTable);
      && (b.Some? <==> WritableRecord(r, depth) && RecordSize(r, asTable) < TWO32)
      && (b.Some? ==> |b.value| == RecordSize(r, asTable))
    decreases r.entries, 1
  {
    hide DescFields, ValuesBytes, HeadSizes, ValueSizes, Writable, I32, U32, Ascii;
    ObjectNames();
    HeadsAccepted(r.entries, depth);
    if DescFields(r.entries).Some? {
      ValuesAccepted(r.entries, depth, asTable);
    }
  }

  /** The writer accepts a record exactly if all its values are writable and its bytes number less than 2^32. */
  lemma WrittenIff(r: Record)
    ensures RootBytes(r).Some? <==> WritableRecord(r, 0) && RecordSize(r, false) < 0x1_0000_0000
    ensures RootBytes(r).Some? ==> |RootBytes(r).value| == 4 + RecordSize(r, false)
  {
    hide RecordBytes, WritableRecord, RecordSize, U32;
    RecordAccepted(r, 0, false);
  }

  /** Two records the writer accepts never have the same bytes. */
  lemma WireIsInjective(r: Record, q: Record)
    requires ValidRecord(r) && ValidRecord(q) && RootBytes(r).Some? && RootBytes(r) == RootBytes(q)
    ensures r == q
  {
    hide RootBytes, TakeRoot, ValidRecord;
    WireRound(r);
    WireRound(q);
  }
}
