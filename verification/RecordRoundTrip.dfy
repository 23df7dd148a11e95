/** Reading back what was written: exactly which records survive, and that all bytes are consumed. */
module RecordRoundTrip {
  import opened Arithmetic
  import opened Wrappers
  import opened Bytes
  import opened AipsIo
  import opened Records
  import opened RecordFormat

  // ---- when an embedded object's length looks like the magic word ----

  /** Length field of an object with this type name and body. */
  function ObjectLength(name: ByteSeq, body: ByteSeq): nat {
    12 + |name| + |body|
  }

  /** No embedded object under these fields is exactly as long as the magic word says. */
  predicate CleanBody(entries: seq<Entry>, depth: nat, asTable: bool)
    decreases entries, 1
  {
    CleanDesc(entries) && CleanValues(entries, depth, asTable)
  }

  predicate CleanDesc(entries: seq<Entry>) {
    DescFields(entries).Some? ==>
      ObjectLength(Ascii("RecordDesc"), I32(0) + DescFields(entries).value) != MAGIC
  }

  predicate CleanValues(entries: seq<Entry>, depth: nat, asTable: bool)
    decreases entries, 0
  {
    entries == [] || (CleanValue(entries[0].value, depth, asTable) && CleanValues(entries[1..], depth, asTable))
  }

  predicate CleanValue(v: Value, depth: nat, asTable: bool)
    decreases v
  {
    match v
    case Many(t, shape, elements) =>
      ArrayBody(shape, elements).Some? ==> ObjectLength(ArrayName(t), ArrayBody(shape, elements).value) != MAGIC
    case Nested(r) => CleanRecord(r, depth + 1, asTable)
    case _ => true
  }

  predicate CleanRecord(r: Record, depth: nat, asTable: bool)
    decreases r
  {
    && CleanBody(r.entries, depth, asTable)
    && (BodyBytes(r.entries, depth, asTable).Some? ==>
          ObjectLength(RecordName(asTable), BodyBytes(r.entries, depth, asTable).value) != MAGIC)
  }

  // ---- literals ----

  lemma Names()
    ensures Ascii("Record") != Ascii("TableRecord")
    ensures Ascii("Record")[0] == 82 && Ascii("Record")[4] == 114
    ensures Ascii("RecordDesc")[0] == 82 && Ascii("RecordDesc")[4] == 114
    ensures Ascii("TableRecord")[0] == 84 && Ascii("TableRecord")[4] == 101
    ensures Ascii("Array")[0] == 65
    ensures Ascii("IPosition")[0] == 73 && Ascii("IPosition")[4] == 105
  {
  }

  lemma ArrayNames(t: ElementType)
    requires ArrayCode(t).Some?
    ensures Ascii("Array") <= ArrayName(t) && 10 <= |ArrayName(t)| <= 15
    ensures ArrayName(t)[0] == 65 && ArrayName(t)[4] == 121
  {
    var a := Ascii("Array");
    assert a == [65, 114, 114, 97, 121];
    var n := ArrayName(t);
    assert n[0] == 65 && n[1] == 114 && n[2] == 114 && n[3] == 97 && n[4] == 121;
    assert n[..5] == a;
  }

  // ---- headers ----

  lemma ObjectLayout(name: ByteSeq, version: uint32, body: ByteSeq, rest: ByteSeq)
    requires ObjectBytes(name, version, body).Some?
    ensures ObjectBytes(name, version, body).value + rest
         == U32(ObjectLength(name, body)) + (StringBytes(name) + (U32(version) + (body + rest)))
  {
    hide U32, StringBytes;
  }

  lemma HeaderRound(name: ByteSeq, version: uint32, body: ByteSeq, rest: ByteSeq)
    requires ObjectBytes(name, version, body).Some? && ObjectLength(name, body) != MAGIC
    ensures ParseHeader(ObjectBytes(name, version, body).value + rest)
         == Some((Header(ObjectLength(name, body), name, version), body + rest))
  {
    hide U32, StringBytes, ParseU32, ParseString;
    ObjectLayout(name, version, body, rest);
    ParseU32Encode(ObjectLength(name, body), StringBytes(name) + (U32(version) + (body + rest)));
    ParseStringEncode(name, U32(version) + (body + rest));
    ParseU32Encode(version, body + rest);
  }

  lemma RootHeaderRound(name: ByteSeq, version: uint32, body: ByteSeq, rest: ByteSeq)
    requires ObjectBytes(name, version, body).Some?
    ensures ParseRootHeader(U32(MAGIC) + ObjectBytes(name, version, body).value + rest)
         == Some((Header(ObjectLength(name, body), name, version), body + rest))
  {
    hide U32, StringBytes, ParseU32, ParseString;
    var obj := ObjectBytes(name, version, body).value;
    assert U32(MAGIC) + obj + rest == U32(MAGIC) + (obj + rest);
    ParseU32Encode(MAGIC, obj + rest);
    ObjectLayout(name, version, body, rest);
    ParseU32Encode(ObjectLength(name, body), StringBytes(name) + (U32(version) + (body + rest)));
    ParseStringEncode(name, U32(version) + (body + rest));
    ParseU32Encode(version, body + rest);
  }

  lemma MagicHeader(first: uint32, length: uint32, tail: ByteSeq)
    requires first == MAGIC
    ensures var h := ParseHeader(U32(first) + (U32(length) + tail));
      h.Some? ==> ParseString(tail).Some? && h.value.0.name == ParseString(tail).value.0
  {
    ParseU32Encode(first, U32(length) + tail);
    ParseU32Encode(length, tail);
  }

  /** A length equal to the magic word shifts the header by four bytes: the name read starts inside the real one. */
  lemma HeaderMistaken(name: ByteSeq, version: uint32, body: ByteSeq, rest: ByteSeq)
    requires ObjectBytes(name, version, body).Some? && ObjectLength(name, body) == MAGIC
    requires |name| >= 5 && name[0] != 0
    ensures var h := ParseHeader(ObjectBytes(name, version, body).value + rest);
      h.Some? ==> h.value.0.name != [] && h.value.0.name[0] == name[4]
  {
    hide U32, ParseHeader, ParseString, ObjectBytes;
    var tail := name + (U32(version) + (body + rest));
    ObjectLayout(name, version, body, rest);
    assert StringBytes(name) + (U32(version) + (body + rest)) == U32(|name|) + tail;
    MagicHeader(ObjectLength(name, body), |name|, tail);
    ShiftedName(name, tail);
  }

  lemma ShiftedName(name: ByteSeq, tail: ByteSeq)
    requires |name| >= 5 && name[0] != 0 && name <= tail
    ensures var p := ParseString(tail); p.Some? ==> p.value.0 != [] && p.value.0[0] == name[4]
  {
    LeadingByte(tail[..4]);
    assert tail[4..][0] == name[4];
  }

  lemma {:induction false} LeadingByte(b: ByteSeq)
    requires b != [] && b[0] != 0
    ensures DecodeBe(b) > 0
  {
    if |b| > 1 {
      LeadingByte(b[..|b| - 1]);
    }
  }

  // ---- descriptors ----

  lemma {:induction false} DimsRound(shape: seq<uint64>, rest: ByteSeq)
    requires DimsI32(shape).Some?
    ensures |DimsI32(shape).value| == 4 * |shape|
    ensures ParseDims(DimsI32(shape).value + rest, |shape|, false) == Some((shape, rest))
  {
    hide Unsigned, Signed, ParseUnsigned, I32;
    if shape == [] {
      assert [] + rest == rest;
    } else {
      var tail := DimsI32(shape[1..]).value;
      assert shape == [shape[0]] + shape[1..];
      DimsRound(shape[1..], rest);
      assert DimsI32(shape).value + rest == I32(shape[0]) + (tail + rest);
      DimRound(shape[0], tail + rest);
    }
  }

  lemma DimRound(v: int, rest: ByteSeq)
    requires 0 <= v <= INT32_MAX
    ensures var p := ParseUnsigned(I32(v) + rest, 4); p.Some? && Signed(p.value.0, 4) == v && p.value.1 == rest
  {
    Widths();
    SignedUnsigned(v, 4);
    ParseUnsignedEncode(Unsigned(v, 4), 4, rest);
  }

  lemma IPositionBodyRound(shape: seq<uint64>, rest: ByteSeq)
    requires DimsI32(shape).Some? && |shape| < TWO32
    ensures ParseIPositionBody(U32(|shape|) + DimsI32(shape).value + rest, 1) == Some((shape, rest))
  {
    hide ParseU32, U32, DimsI32, ParseDims;
    var dims := DimsI32(shape).value;
    DimsRound(shape, rest);
    assert U32(|shape|) + dims + rest == U32(|shape|) + (dims + rest);
    ParseU32Encode(|shape|, dims + rest);
  }

  lemma IPositionRound(shape: seq<uint64>, rest: ByteSeq)
    requires IPositionBytes(shape).Some?
    ensures ParseIPosition(IPositionBytes(shape).value + rest) == Some((shape, rest))
  {
    hide U32, DimsI32, ParseHeader, ParseIPositionBody, ParseDims, ObjectBytes, Ascii;
    var body := U32(|shape|) + DimsI32(shape).value;
    DimsRound(shape, rest);
    assert ObjectLength(Ascii("IPosition"), body) == 25 + 4 * |shape|;
    HeaderRound(Ascii("IPosition"), 1, body, rest);
    IPositionBodyRound(shape, rest);
  }

  /** The descriptor the reader reconstructs for a field. */
  function Describe(e: Entry): FieldDesc
    requires CodeFor(e.value).Some?
  {
    FieldDesc(e.name, CodeFor(e.value).value, if e.value.Many? then e.value.shape else [], [], [])
  }

  function DescribeAll(entries: seq<Entry>): (d: seq<FieldDesc>)
    requires DescFields(entries).Some?
    ensures |d| == |entries|
  {
    if entries == [] then [] else [Describe(entries[0])] + DescribeAll(entries[1..])
  }

  lemma EmptyDescRound(rest: ByteSeq)
    ensures EmptyDesc().Some? && ParseDesc(EmptyDesc().value + rest) == Some(([], rest))
  {
    HeaderRound(Ascii("RecordDesc"), 2, I32(0), rest);
    Widths();
    ParseI32Encode(0, rest);
    assert ParseDescFields(rest, 0, true) == Some(([], rest));
  }

  lemma CodeFits(v: Value)
    requires CodeFor(v).Some?
    ensures v.Many? <==> IsArrayCode(CodeFor(v).value)
    ensures v.Nested? <==> CodeFor(v).value == CODE_RECORD
    ensures (v.One? && v.scalar.Text? && IsTableRef(v.scalar.s)) <==> CodeFor(v).value == CODE_TABLE
  {
  }

  lemma ExtraRound(v: Value, rest: ByteSeq)
    requires CodeFor(v).Some? && DescExtra(v, CodeFor(v).value).Some?
    ensures ParseExtra(DescExtra(v, CodeFor(v).value).value + rest, CodeFor(v).value)
         == Some((Extra([], if v.Many? then v.shape else []), rest))
  {
    CodeFits(v);
    var code := CodeFor(v).value;
    if code == CODE_TABLE {
      ParseStringEncode([], rest);
    } else if code == CODE_RECORD {
      EmptyDescRound(rest);
    } else if v.Many? {
      IPositionRound(v.shape, rest);
    } else {
      assert [] + rest == rest;
    }
  }

  lemma DescFieldRound(e: Entry, rest: ByteSeq)
    requires DescField(e).Some? && |DescField(e).value| < TWO32
    ensures |DescField(e).value| >= 12
    ensures ParseDescField(DescField(e).value + rest, true) == Some((Describe(e), rest))
  {
    Widths();
    var code := CodeFor(e.value).value;
    var extra := DescExtra(e.value, code).value;
    var s3 := StringBytes([]) + rest;
    var s2 := extra + s3;
    assert DescField(e).value + rest == StringBytes(e.name) + (I32(code) + s2);
    ParseStringEncode(e.name, I32(code) + s2);
    ParseI32Encode(code, s2);
    ExtraRound(e.value, s3);
    ParseStringEncode([], rest);
  }

  lemma {:induction false} DescFieldsRound(entries: seq<Entry>, rest: ByteSeq)
    requires DescFields(entries).Some? && |DescFields(entries).value| < TWO32
    ensures |DescFields(entries).value| >= 12 * |entries|
    ensures ParseDescFields(DescFields(entries).value + rest, |entries|, true) == Some((DescribeAll(entries), rest))
  {
    hide DescField, ParseDescField, Describe;
    if entries == [] {
      assert [] + rest == rest;
    } else {
      var first, tail := DescField(entries[0]).value, DescFields(entries[1..]).value;
      assert DescFields(entries).value == first + tail;
      assert DescFields(entries).value + rest == first + (tail + rest);
      DescFieldRound(entries[0], tail + rest);
      DescFieldsRound(entries[1..], rest);
    }
  }

  lemma DescBodyRound(entries: seq<Entry>, rest: ByteSeq)
    requires DescFields(entries).Some? && |DescFields(entries).value| < TWO32 && |entries| <= INT32_MAX
    ensures ParseDescBody(I32(|entries|) + DescFields(entries).value + rest, 2) == Some((DescribeAll(entries), rest))
  {
    var fields := DescFields(entries).value;
    assert I32(|entries|) + fields + rest == I32(|entries|) + (fields + rest);
    Widths();
    ParseI32Encode(|entries|, fields + rest);
    DescFieldsRound(entries, rest);
  }

  lemma DescRound(entries: seq<Entry>, depth: nat, rest: ByteSeq)
    requires DescBytes(entries, depth).Some?
    ensures ParseDesc(DescBytes(entries, depth).value + rest)
         == if CleanDesc(entries) then Some((DescribeAll(entries), rest)) else None
  {
    var body := I32(|entries|) + DescFields(entries).value;
    var name := Ascii("RecordDesc");
    if CleanDesc(entries) {
      HeaderRound(name, 2, body, rest);
      DescBodyRound(entries, rest);
    } else {
      Names();
      HeaderMistaken(name, 2, body, rest);
    }
  }

  // ---- scalars and arrays ----

  lemma SignedRound(v: int, w: nat, rest: ByteSeq)
    requires 0 <= 2 * v + Pow256(w) && 2 * v < Pow256(w)
    ensures var p := ParseUnsigned(EncodeBe(Unsigned(v, w), w) + rest, w);
      p.Some? && Signed(p.value.0, w) == v && p.value.1 == rest
  {
    SignedUnsigned(v, w);
    ParseUnsignedEncode(Unsigned(v, w), w, rest);
  }

  lemma PairRound(re: nat, im: nat, w: nat, rest: ByteSeq)
    requires re < Pow256(w) && im < Pow256(w)
    ensures var s := EncodeBe(re, w) + EncodeBe(im, w) + rest;
      ParseUnsigned(s, w) == Some((re, EncodeBe(im, w) + rest))
      && ParseUnsigned(EncodeBe(im, w) + rest, w) == Some((im, rest))
  {
    assert EncodeBe(re, w) + EncodeBe(im, w) + rest == EncodeBe(re, w) + (EncodeBe(im, w) + rest);
    ParseUnsignedEncode(re, w, EncodeBe(im, w) + rest);
    ParseUnsignedEncode(im, w, rest);
  }

  lemma BoolRound(b: bool, rest: ByteSeq)
    ensures ParseElement(ScalarBytes(Bool(b)) + rest, Plain(TBool)) == Some((Bool(b), rest))
  {
    var v := if b then 1 else 0;
    assert EncodeBe(v / 256, 0) == [] && ScalarBytes(Bool(b)) == EncodeBe(v, 1);
    Widths();
    ParseUnsignedEncode(v, 1, rest);
  }

  lemma SignedElementRound(s: Scalar, rest: ByteSeq)
    requires s.Short? || s.Int? || s.Int64?
    ensures ParseElement(ScalarBytes(s) + rest, Plain(TypeOf(s))) == Some((s, rest))
  {
    Widths();
    match s
    case Short(v) => SignedRound(v, 2, rest);
    case Int(v) => SignedRound(v, 4, rest);
    case Int64(v) => SignedRound(v, 8, rest);
  }

  lemma UnsignedElementRound(s: Scalar, rest: ByteSeq)
    requires s.UShort? || s.UInt? || s.UInt64? || s.Float? || s.Double?
    ensures ParseElement(ScalarBytes(s) + rest, Plain(TypeOf(s))) == Some((s, rest))
  {
    Widths();
    match s
    case UShort(v) => ParseUnsignedEncode(v, 2, rest);
    case UInt(v) => ParseUnsignedEncode(v, 4, rest);
    case UInt64(v) => ParseUnsignedEncode(v, 8, rest);
    case Float(v) => ParseUnsignedEncode(v, 4, rest);
    case Double(v) => ParseUnsignedEncode(v, 8, rest);
  }

  lemma ComplexElementRound(s: Scalar, rest: ByteSeq)
    requires s.Complex? || s.DComplex?
    ensures ParseElement(ScalarBytes(s) + rest, Plain(TypeOf(s))) == Some((s, rest))
  {
    Widths();
    match s
    case Complex(re, im) => PairRound(re, im, 4, rest);
    case DComplex(re, im) => PairRound(re, im, 8, rest);
  }

  lemma ElementRound(s: Scalar, rest: ByteSeq)
    requires s.Text? ==> |s.s| < TWO32
    ensures ParseElement(ScalarBytes(s) + rest, Plain(TypeOf(s))) == Some((s, rest))
  {
    match s
    case Bool(b) => BoolRound(b, rest);
    case Short(_) => SignedElementRound(s, rest);
    case Int(_) => SignedElementRound(s, rest);
    case Int64(_) => SignedElementRound(s, rest);
    case Complex(_, _) => ComplexElementRound(s, rest);
    case DComplex(_, _) => ComplexElementRound(s, rest);
    case Text(t) => ParseStringEncode(t, rest);
    case _ => UnsignedElementRound(s, rest);
  }

  lemma TextSize(s: Scalar)
    ensures s.Text? ==> |ScalarBytes(s)| == 4 + |s.s|
  {
  }

  lemma {:induction false} ElementsRound(elements: seq<Scalar>, t: ElementType, rest: ByteSeq)
    requires AllTyped(elements, t) && |ElementsBytes(elements)| < TWO32
    ensures ParseElements(ElementsBytes(elements) + rest, |elements|, Plain(t)) == Some((elements, rest))
  {
    hide ParseElement, ScalarBytes;
    if elements == [] {
      assert [] + rest == rest;
    } else {
      var tail := ElementsBytes(elements[1..]);
      assert elements == [elements[0]] + elements[1..];
      assert ElementsBytes(elements) + rest == ScalarBytes(elements[0]) + (tail + rest);
      TextSize(elements[0]);
      ElementRound(elements[0], tail + rest);
      ElementsRound(elements[1..], t, rest);
    }
  }

  lemma ScalarSize(s: Scalar)
    ensures |ScalarBytes(s)| >= MinBytes(TypeOf(s))
  {
  }

  lemma {:induction false} ElementsSize(elements: seq<Scalar>, t: ElementType)
    requires AllTyped(elements, t)
    ensures |ElementsBytes(elements)| >= MinBytes(t) * |elements|
  {
    if elements != [] {
      ElementsSize(elements[1..], t);
      ScalarSize(elements[0]);
      Distribute(MinBytes(t), |elements[1..]|);
    }
  }

  lemma {:induction false} SizesRound(shape: seq<uint64>, rest: ByteSeq)
    requires DimsU32(shape).Some?
    ensures |DimsU32(shape).value| == 4 * |shape|
    ensures ParseSizes(DimsU32(shape).value + rest, |shape|) == Some((shape, rest))
  {
    hide ParseU32, U32;
    if shape == [] {
      assert [] + rest == rest;
    } else {
      var tail := DimsU32(shape[1..]).value;
      assert shape == [shape[0]] + shape[1..];
      SizesRound(shape[1..], rest);
      assert DimsU32(shape).value + rest == U32(shape[0]) + (tail + rest);
      ParseU32Encode(shape[0], tail + rest);
    }
  }

  lemma GuardPasses(n: nat, m: nat, size: nat)
    requires m > 0 && size >= m * n
    ensures n <= size / m
  {
    var q, r := size / m, size % m;
    if q < n {
      MulMonotone(m, q + 1, n);
    }
  }

  lemma CountedRound(t: ElementType, elements: seq<Scalar>, rest: ByteSeq)
    requires AllTyped(elements, t) && |elements| < TWO32 && |ElementsBytes(elements)| < TWO32
    ensures ParseCounted(U32(|elements|) + (ElementsBytes(elements) + rest), Plain(t)) == Some((elements, rest))
  {
    ParseU32Encode(|elements|, ElementsBytes(elements) + rest);
    ElementsSize(elements, t);
    GuardPasses(|elements|, MinBytes(t), |ElementsBytes(elements) + rest|);
    ElementsRound(elements, t, rest);
  }

  lemma ArrayBodyRound(t: ElementType, shape: seq<uint64>, elements: seq<Scalar>, rest: ByteSeq)
    requires ValidValue(Many(t, shape, elements)) && ArrayBody(shape, elements).Some?
    requires |ArrayBody(shape, elements).value| < TWO32
    ensures ParseArrayBody(ArrayBody(shape, elements).value + rest, 3, Plain(t))
         == Some((Many(t, shape, elements), rest))
  {
    hide U32, ParseU32, ElementsBytes, ParseCounted, ParseSizes;
    var dims := DimsU32(shape).value;
    var s2 := U32(|elements|) + (ElementsBytes(elements) + rest);
    assert ArrayBody(shape, elements).value + rest == U32(|shape|) + (dims + s2);
    ParseU32Encode(|shape|, dims + s2);
    SizesRound(shape, s2);
    CountedRound(t, elements, rest);
  }

  lemma ArrayRound(t: ElementType, shape: seq<uint64>, elements: seq<Scalar>, rest: ByteSeq, depth: nat, asTable: bool)
    requires ValidValue(Many(t, shape, elements)) && ArrayCode(t).Some? && ArrayBytes(t, shape, elements).Some?
    ensures ParseArray(ArrayBytes(t, shape, elements).value + rest, Plain(t))
         == if CleanValue(Many(t, shape, elements), depth, asTable) then Some((Many(t, shape, elements), rest)) else None
  {
    var body := ArrayBody(shape, elements).value;
    ArrayNames(t);
    if ObjectLength(ArrayName(t), body) != MAGIC {
      HeaderRound(ArrayName(t), 3, body, rest);
      ArrayBodyRound(t, shape, elements, rest);
    } else {
      Names();
      HeaderMistaken(ArrayName(t), 3, body, rest);
    }
  }

  // ---- values and records ----

  lemma CodeKinds(v: Value)
    requires CodeFor(v).Some? && v.One?
    ensures var c := CodeFor(v).value;
      if v.scalar.Text? && IsTableRef(v.scalar.s) then c == CODE_TABLE && ScalarKind(c).None?
      else ScalarKind(c) == Some(Plain(TypeOf(v.scalar)))
  {
  }

  lemma ArrayKinds(t: ElementType)
    requires ArrayCode(t).Some?
    ensures var c := ArrayCode(t).value;
      ScalarKind(c).None? && c != CODE_TABLE && c != CODE_RECORD && c != CODE_ARRAY_BOOL && ArrayKind(c) == Some(Plain(t))
  {
  }

  lemma OneRound(name: ByteSeq, s: Scalar, depth: nat, rest: ByteSeq, asTable: bool)
    requires CodeFor(One(s)).Some? && ValueBytes(One(s), depth, asTable).Some?
    requires |ValueBytes(One(s), depth, asTable).value| < TWO32
    ensures ParseValue(ValueBytes(One(s), depth, asTable).value + rest, Describe(Entry(name, One(s))), 0)
         == Some((One(s), rest))
  {
    CodeKinds(One(s));
    if s.Text? && IsTableRef(s.s) {
      ParseStringEncode(s.s[7..], rest);
      assert TablePrefix() + s.s[7..] == s.s;
    } else {
      ElementRound(s, rest);
    }
  }

  /** Reading a value back gives the value and the rest, or fails when an embedded length is the magic word. */
  lemma {:induction false} ValueRound(name: ByteSeq, v: Value, depth: nat, rest: ByteSeq, asTable: bool)
    requires ValidValue(v) && CodeFor(v).Some? && ValueBytes(v, depth, asTable).Some?
    requires |ValueBytes(v, depth, asTable).value| < TWO32
    ensures ParseValue(ValueBytes(v, depth, asTable).value + rest, Describe(Entry(name, v)), 0)
         == if CleanValue(v, depth, asTable) then Some((v, rest)) else None
    decreases v
  {
    hide ParseElement, ParseArray, ParseBoolArray, ParseRecord, ParseFields, ParseString;
    hide RecordBytes, ArrayBytes, ScalarBytes, CleanRecord;
    match v
    case One(s) => OneRound(name, s, depth, rest, asTable);
    case Many(t, shape, elements) =>
      ArrayKinds(t);
      ArrayRound(t, shape, elements, rest, depth, asTable);
    case Nested(r) => RecordRound(r, depth + 1, rest, asTable);
    case List(_) =>
  }

  lemma NextIsNew(sofar: seq<Entry>, entries: seq<Entry>)
    requires entries != [] && UniqueNames(sofar + entries)
    ensures SetField(sofar, entries[0].name, entries[0].value) == sofar + [entries[0]]
    ensures sofar + entries == (sofar + [entries[0]]) + entries[1..]
  {
    forall i | 0 <= i < |sofar| ensures sofar[i].name != entries[0].name {
      assert (sofar + entries)[i] == sofar[i] && (sofar + entries)[|sofar|] == entries[0];
    }
    SetNewField(sofar, entries[0].name, entries[0].value);
  }

  lemma {:induction false} FieldsRound(entries: seq<Entry>, sofar: seq<Entry>, depth: nat, rest: ByteSeq, asTable: bool)
    requires UniqueNames(sofar + entries)
    requires forall i :: 0 <= i < |entries| ==> ValidValue(entries[i].value)
    requires DescFields(entries).Some? && ValuesBytes(entries, depth, asTable).Some?
    requires |ValuesBytes(entries, depth, asTable).value| < TWO32
    ensures ParseFields(ValuesBytes(entries, depth, asTable).value + rest, DescribeAll(entries), sofar, 0)
         == if CleanValues(entries, depth, asTable) then Some((sofar + entries, rest)) else None
    decreases entries, 0
  {
    hide ParseValue, ValueBytes, DescExtra, CleanValue, SetField, ValidValue, UniqueNames;
    if entries == [] {
      assert [] + rest == rest && sofar + [] == sofar;
    } else {
      var first := ValueBytes(entries[0].value, depth, asTable).value;
      var tail := ValuesBytes(entries[1..], depth, asTable).value;
      assert ValuesBytes(entries, depth, asTable).value + rest == first + (tail + rest);
      ValueRound(entries[0].name, entries[0].value, depth, tail + rest, asTable);
      assert entries[0] == Entry(entries[0].name, entries[0].value);
      if CleanValue(entries[0].value, depth, asTable) {
        NextIsNew(sofar, entries);
        FieldsRound(entries[1..], sofar + [entries[0]], depth, rest, asTable);
      }
    }
  }

  lemma ParseOne(rest: ByteSeq)
    ensures ParseI32(I32(1) + rest) == Some((1, rest))
  {
    Widths();
    ParseI32Encode(1, rest);
  }

  lemma DescHasFields(entries: seq<Entry>, depth: nat)
    ensures DescBytes(entries, depth).Some? ==> DescFields(entries).Some?
  {
  }

  lemma {:induction false} BodyRound(entries: seq<Entry>, depth: nat, rest: ByteSeq, asTable: bool)
    requires ValidRecord(Record(entries)) && BodyBytes(entries, depth, asTable).Some?
    requires |BodyBytes(entries, depth, asTable).value| < TWO32
    ensures ParseBody(BodyBytes(entries, depth, asTable).value + rest)
         == if CleanBody(entries, depth, asTable) then Some((Record(entries), rest)) else None
    decreases entries, 1
  {
    hide ParseDesc, ParseFields, ParseI32, ValidValue, CleanDesc, CleanValues, DescFields, ValuesBytes, I32, DescribeAll, UniqueNames,
      DescBytes;
    DescHasFields(entries, depth);
    var desc := DescBytes(entries, depth).value;
    var values := ValuesBytes(entries, depth, asTable).value;
    assert BodyBytes(entries, depth, asTable).value + rest == desc + (I32(1) + (values + rest));
    DescRound(entries, depth, I32(1) + (values + rest));
    ParseOne(values + rest);
    assert [] + entries == entries;
    FieldsRound(entries, [], depth, rest, asTable);
  }

  lemma {:induction false} RecordRound(r: Record, depth: nat, rest: ByteSeq, asTable: bool)
    requires ValidRecord(r) && RecordBytes(r, depth, asTable).Some?
    ensures ParseRecord(RecordBytes(r, depth, asTable).value + rest)
         == if CleanRecord(r, depth, asTable) then Some((r, rest)) else None
    decreases r
  {
    var body := BodyBytes(r.entries, depth, asTable).value;
    var name := RecordName(asTable);
    if ObjectLength(name, body) != MAGIC {
      HeaderRound(name, 1, body, rest);
      BodyRound(r.entries, depth, rest, asTable);
    } else {
      Names();
      HeaderMistaken(name, 1, body, rest);
    }
  }

  /**
   * The round trip of write_aipsio_record and read_aipsio_record. For every record the writer accepts, the
   * reader returns that record and consumes exactly its bytes if and only if no embedded object happens to be
   * as long as the magic word; otherwise the reader fails.
   */
  lemma RootRoundTrip(r: Record, rest: ByteSeq)
    requires ValidRecord(r) && RootBytes(r).Some?
    ensures ParseRoot(RootBytes(r).value + rest)
         == if CleanBody(r.entries, 0, false) then Some((r, rest)) else None
  {
    var body := BodyBytes(r.entries, 0, false).value;
    RootHeaderRound(Ascii("Record"), 1, body, rest);
    BodyRound(r.entries, 0, rest, false);
  }

  lemma FlagFieldSizes(e: Entry)
    requires e.value == One(Bool(true)) && |e.name| < TWO32 - 1000
    ensures DescFields([e]).Some? && |DescFields([e]).value| == 12 + |e.name|
    ensures BodyBytes([e], 0, false).Some? && |BodyBytes([e], 0, false).value| == 43 + |e.name|
  {
    assert [e][1..] == [];
    assert DescFields([]) == Some([]) && ValuesBytes([], 0, false) == Some([]);
    assert CodeFor(e.value) == Some(0);
    var f := DescField(e).value;
    assert |f| == 12 + |e.name|;
    assert DescFields([e]) == Some(f + []);
    assert ValueBytes(e.value, 0, false) == Some([1]);
    assert ValuesBytes([e], 0, false) == Some([1] + []);
  }

  /** The exception is real: one boolean field whose name has 0xBEBEBEBE - 38 bytes is written but not read back. */
  lemma LongNameIsLost(name: ByteSeq)
    requires |name| == MAGIC - 38
    ensures var r := Record([Entry(name, One(Bool(true)))]);
      ValidRecord(r) && RootBytes(r).Some? && ParseRoot(RootBytes(r).value).None?
  {
    var e := Entry(name, One(Bool(true)));
    FlagFieldSizes(e);
    RootRoundTrip(Record([e]), []);
    assert RootBytes(Record([e])).value + [] == RootBytes(Record([e])).value;
  }
}
