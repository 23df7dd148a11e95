/** src/aipsio_record_writer.cpp: records written into a growing buffer whose lengths are patched afterwards. */
module RecordWriter {
  import opened Wrappers
  import opened Bytes
  import opened AipsIo
  import opened Records
  import opened RecordFormat

  /** A method that appends what `spec` says, or throws after appending something. */
  ghost predicate Appends(before: ByteSeq, after: ByteSeq, ok: bool, spec: Written) {
    match spec
    case Some(b) => ok && after == before + b
    case None => !ok && before <= after
  }

  ghost function Prepend(done: ByteSeq, rest: Written): Written {
    if rest.None? then None else Some(done + rest.value)
  }

  lemma PrependEmpty(r: Written)
    ensures Prepend([], r) == r
  {
    assert r.Some? ==> [] + r.value == r.value;
  }

  lemma PrependMore(done: ByteSeq, first: ByteSeq, rest: Written)
    ensures Prepend(done, Prepend(first, rest)) == Prepend(done + first, rest)
  {
    assert rest.Some? ==> done + (first + rest.value) == done + first + rest.value;
  }

  lemma PrependLast(done: ByteSeq)
    ensures Prepend(done, Some([])) == Some(done)
  {
    assert done + [] == done;
  }

  /** Returns the offset of the length placeholder. */
  method BeginObject(w: AipsIoWriter, name: ByteSeq, version: uint32, magic: bool) returns (lengthOffset: nat)
    modifies w
    ensures lengthOffset == |old(w.buffer)| + if magic then 4 else 0
    ensures w.buffer == old(w.buffer) + (if magic then U32(MAGIC) else []) + U32(0) + StringBytes(name) + U32(version)
  {
    if magic {
      w.WriteU32(MAGIC);
    }
    lengthOffset := |w.buffer|;
    w.WriteU32(0);
    w.WriteString(name);
    w.WriteU32(version);
  }

  /** Patches the length of everything from the placeholder on; fails when it needs more than 32 bits. */
  method EndObject(w: AipsIoWriter, lengthOffset: nat) returns (ok: bool)
    requires lengthOffset + 4 <= |w.buffer|
    modifies w
    ensures ok == (|old(w.buffer)| - lengthOffset < TWO32)
    ensures w.buffer == if ok
      then old(w.buffer[..lengthOffset]) + U32(|old(w.buffer)| - lengthOffset) + old(w.buffer[lengthOffset + 4..])
      else old(w.buffer)
  {
    var length := |w.buffer| - lengthOffset;
    if length >= TWO32 {
      return false;
    }
    ok := w.PatchU32(lengthOffset, length);
  }

  /** Closing an object turns placeholder, header and body into the object with its exact length. */
  method CloseObject(w: AipsIoWriter, lengthOffset: nat, ghost base: ByteSeq, ghost name: ByteSeq,
                     ghost version: uint32, ghost body: ByteSeq) returns (ok: bool)
    requires lengthOffset == |base| && w.buffer == base + U32(0) + StringBytes(name) + U32(version) + body
    requires |name| < TWO32
    modifies w
    ensures Appends(base, w.buffer, ok, ObjectBytes(name, version, body))
  {
    hide StringBytes, U32;
    ghost var open := w.buffer;
    assert open[..|base|] == base;
    assert open[|base| + 4..] == StringBytes(name) + U32(version) + body;
    ok := EndObject(w, lengthOffset);
  }

  method WriteI32(w: AipsIoWriter, v: int32)
    modifies w
    ensures w.buffer == old(w.buffer) + I32(v)
  {
    Widths();
    w.WriteSigned(v, 4);
  }

  method ToWireIPosition(shape: seq<uint64>) returns (wire: Option<seq<int64>>)
    ensures wire == if exists i :: 0 <= i < |shape| && shape[i] > 0x7FFF_FFFF_FFFF_FFFF then None else Some(shape)
  {
    var dims: seq<int64> := [];
    var i := 0;
    while i < |shape|
      invariant 0 <= i <= |shape| && dims == shape[..i]
      invariant forall k :: 0 <= k < i ==> shape[k] <= 0x7FFF_FFFF_FFFF_FFFF
    {
      if shape[i] > 0x7FFF_FFFF_FFFF_FFFF {
        return None;
      }
      dims := dims + [shape[i]];
      i := i + 1;
    }
    assert dims == shape;
    return Some(dims);
  }

  lemma {:induction false} LargeDimension(shape: seq<uint64>, i: nat)
    requires i < |shape| && shape[i] > INT32_MAX
    ensures DimsI32(shape).None?
  {
    if i > 0 {
      LargeDimension(shape[1..], i - 1);
    }
  }

  method WriteDims(w: AipsIoWriter, dims: seq<int64>) returns (ok: bool)
    requires forall i :: 0 <= i < |dims| ==> dims[i] >= 0
    modifies w
    ensures Appends(old(w.buffer), w.buffer, ok, DimsI32(dims))
  {
    hide I32;
    ghost var base := w.buffer;
    ghost var done: ByteSeq := [];
    PrependEmpty(DimsI32(dims));
    assert dims[0..] == dims;
    var i := 0;
    while i < |dims|
      invariant 0 <= i <= |dims| && w.buffer == base + done
      invariant DimsI32(dims) == Prepend(done, DimsI32(dims[i..]))
    {
      assert dims[i..][1..] == dims[i + 1..];
      if dims[i] < 0 || dims[i] > INT32_MAX {
        return false;
      }
      WriteI32(w, dims[i]);
      PrependMore(done, I32(dims[i]), DimsI32(dims[i + 1..]));
      done := done + I32(dims[i]);
      i := i + 1;
    }
    PrependLast(done);
    return true;
  }

  method WriteIPosition(w: AipsIoWriter, shape: seq<uint64>) returns (ok: bool)
    modifies w
    ensures Appends(old(w.buffer), w.buffer, ok, IPositionBytes(shape))
  {
    hide DimsI32, ObjectBytes, StringBytes, U32;
    ghost var base := w.buffer;
    var wire := ToWireIPosition(shape);
    if wire.None? {
      ghost var i :| 0 <= i < |shape| && shape[i] > 0x7FFF_FFFF_FFFF_FFFF;
      LargeDimension(shape, i);
      return false;
    }
    var lengthOffset := BeginObject(w, Ascii("IPosition"), 1, false);
    if |wire.value| >= TWO32 {
      return false;
    }
    w.WriteU32(|wire.value|);
    ok := WriteDims(w, wire.value);
    if ok {
      ok := CloseObject(w, lengthOffset, base, Ascii("IPosition"), 1, U32(|shape|) + DimsI32(shape).value);
    }
  }

  method WriteEmptyDesc(w: AipsIoWriter) returns (ok: bool)
    modifies w
    ensures Appends(old(w.buffer), w.buffer, ok, EmptyDesc())
  {
    ghost var base := w.buffer;
    var lengthOffset := BeginObject(w, Ascii("RecordDesc"), 2, false);
    WriteI32(w, 0);
    ok := CloseObject(w, lengthOffset, base, Ascii("RecordDesc"), 2, I32(0));
  }

  method WriteDescExtra(w: AipsIoWriter, v: Value, code: int32) returns (ok: bool)
    requires CodeFor(v) == Some(code)
    modifies w
    ensures Appends(old(w.buffer), w.buffer, ok, DescExtra(v, code))
  {
    if code == CODE_TABLE {
      w.WriteString([]);
      return true;
    } else if code == CODE_RECORD {
      ok := WriteEmptyDesc(w);
    } else if (16 <= code <= 24) || code == 30 {
      ok := WriteIPosition(w, v.shape);
    } else {
      return true;
    }
  }

  method WriteDescField(w: AipsIoWriter, e: Entry) returns (ok: bool)
    modifies w
    ensures Appends(old(w.buffer), w.buffer, ok, DescField(e))
  {
    hide CodeFor, DescExtra, StringBytes, I32;
    w.WriteString(e.name);
    var code := CodeFor(e.value);
    if code.None? {
      return false;
    }
    WriteI32(w, code.value);
    ok := WriteDescExtra(w, e.value, code.value);
    if ok {
      w.WriteString([]);
    }
  }

  method WriteDescFields(w: AipsIoWriter, entries: seq<Entry>) returns (ok: bool)
    modifies w
    ensures Appends(old(w.buffer), w.buffer, ok, DescFields(entries))
  {
    hide DescField;
    ghost var base := w.buffer;
    ghost var done: ByteSeq := [];
    PrependEmpty(DescFields(entries));
    assert entries[0..] == entries;
    var i := 0;
    while i < |entries|
      invariant 0 <= i <= |entries| && w.buffer == base + done
      invariant DescFields(entries) == Prepend(done, DescFields(entries[i..]))
    {
      assert entries[i..][1..] == entries[i + 1..];
      ok := WriteDescField(w, entries[i]);
      if !ok {
        return;
      }
      PrependMore(done, DescField(entries[i]).value, DescFields(entries[i + 1..]));
      done := done + DescField(entries[i]).value;
      i := i + 1;
    }
    PrependLast(done);
    ok := true;
  }

  method WriteRecordDesc(w: AipsIoWriter, entries: seq<Entry>, depth: nat) returns (ok: bool)
    modifies w
    ensures Appends(old(w.buffer), w.buffer, ok, DescBytes(entries, depth))
  {
    hide DescFields, ObjectBytes, StringBytes, U32, I32;
    if depth > MAX_DEPTH {
      return false;
    }
    ghost var base := w.buffer;
    var lengthOffset := BeginObject(w, Ascii("RecordDesc"), 2, false);
    if |entries| > INT32_MAX {
      return false;
    }
    WriteI32(w, |entries|);
    ok := WriteDescFields(w, entries);
    if ok {
      ok := CloseObject(w, lengthOffset, base, Ascii("RecordDesc"), 2, I32(|entries|) + DescFields(entries).value);
    }
  }

  method WriteScalar(w: AipsIoWriter, s: Scalar)
    modifies w
    ensures w.buffer == old(w.buffer) + ScalarBytes(s)
  {
    hide EncodeBe, Unsigned, StringBytes, Pow256;
    Widths();
    match s {
      case Bool(b) => w.buffer := w.buffer + [if b then 1 else 0];
      case Short(v) => w.WriteSigned(v, 2);
      case UShort(v) => w.WriteUnsigned(v, 2);
      case Int(v) => w.WriteSigned(v, 4);
      case UInt(v) => w.WriteUnsigned(v, 4);
      case Int64(v) => w.WriteSigned(v, 8);
      case UInt64(v) => w.WriteUnsigned(v, 8);
      case Float(v) => w.WriteUnsigned(v, 4);
      case Double(v) => w.WriteUnsigned(v, 8);
      case Complex(re, im) => WritePair(w, re, im, 4);
      case DComplex(re, im) => WritePair(w, re, im, 8);
      case Text(t) => w.WriteString(t);
    }
  }

  method WritePair(w: AipsIoWriter, re: nat, im: nat, width: nat)
    requires re < Pow256(width) && im < Pow256(width)
    modifies w
    ensures w.buffer == old(w.buffer) + (EncodeBe(re, width) + EncodeBe(im, width))
  {
    w.WriteUnsigned(re, width);
    w.WriteUnsigned(im, width);
  }

  method WriteSizes(w: AipsIoWriter, shape: seq<uint64>) returns (ok: bool)
    modifies w
    ensures Appends(old(w.buffer), w.buffer, ok, DimsU32(shape))
  {
    hide U32;
    ghost var base := w.buffer;
    ghost var done: ByteSeq := [];
    PrependEmpty(DimsU32(shape));
    assert shape[0..] == shape;
    var i := 0;
    while i < |shape|
      invariant 0 <= i <= |shape| && w.buffer == base + done
      invariant DimsU32(shape) == Prepend(done, DimsU32(shape[i..]))
    {
      assert shape[i..][1..] == shape[i + 1..];
      if shape[i] >= TWO32 {
        return false;
      }
      w.WriteU32(shape[i]);
      PrependMore(done, U32(shape[i]), DimsU32(shape[i + 1..]));
      done := done + U32(shape[i]);
      i := i + 1;
    }
    PrependLast(done);
    return true;
  }

  method WriteElements(w: AipsIoWriter, elements: seq<Scalar>)
    modifies w
    ensures w.buffer == old(w.buffer) + ElementsBytes(elements)
  {
    hide ScalarBytes;
    ghost var base := w.buffer;
    var i := 0;
    while i < |elements|
      invariant 0 <= i <= |elements|
      invariant w.buffer + ElementsBytes(elements[i..]) == base + ElementsBytes(elements)
    {
      assert elements[i..][1..] == elements[i + 1..];
      WriteScalar(w, elements[i]);
      i := i + 1;
    }
  }

  /** write_aipsio_array */
  method WriteArray(w: AipsIoWriter, t: ElementType, shape: seq<uint64>, elements: seq<Scalar>) returns (ok: bool)
    requires ArrayCode(t).Some?
    modifies w
    ensures Appends(old(w.buffer), w.buffer, ok, ArrayBytes(t, shape, elements))
  {
    hide ArrayBody, ObjectBytes, U32, StringBytes, Ascii, ArrayCode;
    ghost var base := w.buffer;
    var name := ArrayName(t);
    var lengthOffset := BeginObject(w, name, 3, false);
    ok := WriteArrayBody(w, shape, elements);
    if !ok {
      return false;
    }
    ghost var body := ArrayBody(shape, elements).value;
    assert w.buffer == base + U32(0) + StringBytes(name) + U32(3) + body;
    ok := CloseObject(w, lengthOffset, base, name, 3, body);
  }

  /** Rank, extents, element count, elements. */
  method WriteArrayBody(w: AipsIoWriter, shape: seq<uint64>, elements: seq<Scalar>) returns (ok: bool)
    modifies w
    ensures Appends(old(w.buffer), w.buffer, ok, ArrayBody(shape, elements))
  {
    hide ElementsBytes, DimsU32, U32;
    if |shape| >= TWO32 {
      return false;
    }
    w.WriteU32(|shape|);
    ok := WriteSizes(w, shape);
    if !ok || |elements| >= TWO32 {
      return false;
    }
    w.WriteU32(|elements|);
    WriteElements(w, elements);
  }

  lemma ValuesStep(entries: seq<Entry>, i: nat, depth: nat, asTable: bool)
    requires i < |entries|
    ensures ValuesBytes(entries[i..], depth, asTable)
         == var first := ValueBytes(entries[i].value, depth, asTable);
            if first.None? then None else Prepend(first.value, ValuesBytes(entries[i + 1..], depth, asTable))
  {
    hide ValueBytes;
    assert entries[i..][1..] == entries[i + 1..];
  }

  lemma NoValues(entries: seq<Entry>, depth: nat, asTable: bool)
    requires entries == []
    ensures ValuesBytes(entries, depth, asTable) == Some([])
  {
  }

  /** write_field_value and write_field_value_tr; the latter writes sub-records as tables when asked to. */
  method WriteFieldValue(w: AipsIoWriter, v: Value, depth: nat, asTable: bool) returns (ok: bool)
    modifies w
    ensures Appends(old(w.buffer), w.buffer, ok, ValueBytes(v, depth, asTable))
    decreases v
  {
    hide ScalarBytes, ArrayBytes, RecordBytes, StringBytes, TablePrefix;
    match v {
      case One(s) =>
        if s.UInt64? {
          return false;
        }
        if s.Text? && IsTableRef(s.s) {
          w.WriteString(s.s[7..]);
        } else {
          WriteScalar(w, s);
        }
        return true;
      case Many(t, shape, elements) =>
        if ArrayCode(t).None? {
          return false;
        }
        ok := WriteArray(w, t, shape, elements);
      case List(_) =>
        return false;
      case Nested(r) =>
        ok := WriteRecord(w, r, depth + 1, asTable, false);
    }
  }

  /** The record descriptor, the record type and the values: what follows a record's header. */
  method WriteBody(w: AipsIoWriter, entries: seq<Entry>, depth: nat, asTable: bool) returns (ok: bool)
    modifies w
    ensures Appends(old(w.buffer), w.buffer, ok, BodyBytes(entries, depth, asTable))
    decreases entries, 1
  {
    hide DescBytes, ValueBytes, I32, ValuesBytes;
    ghost var base := w.buffer;
    ok := WriteRecordDesc(w, entries, depth);
    if !ok {
      return;
    }
    WriteI32(w, 1);
    ghost var open := w.buffer;
    ghost var done: ByteSeq := [];
    PrependEmpty(ValuesBytes(entries, depth, asTable));
    assert entries[0..] == entries;
    var i := 0;
    while i < |entries|
      invariant 0 <= i <= |entries| && w.buffer == open + done
      invariant ValuesBytes(entries, depth, asTable) == Prepend(done, ValuesBytes(entries[i..], depth, asTable))
    {
      ValuesStep(entries, i, depth, asTable);
      ok := WriteFieldValue(w, entries[i].value, depth, asTable);
      if !ok {
        return;
      }
      PrependMore(done, ValueBytes(entries[i].value, depth, asTable).value,
                  ValuesBytes(entries[i + 1..], depth, asTable));
      done := done + ValueBytes(entries[i].value, depth, asTable).value;
      i := i + 1;
    }
    PrependLast(done);
    NoValues(entries[i..], depth, asTable);
    assert ValuesBytes(entries, depth, asTable) == Some(done);
    ok := true;
  }

  /** write_record_impl and write_record_tr */
  method WriteRecord(w: AipsIoWriter, r: Record, depth: nat, asTable: bool, magic: bool) returns (ok: bool)
    modifies w
    ensures Appends(old(w.buffer) + if magic then U32(MAGIC) else [], w.buffer, ok, RecordBytes(r, depth, asTable))
    decreases r
  {
    hide BodyBytes, ObjectBytes;
    ghost var base := w.buffer + if magic then U32(MAGIC) else [];
    var name := RecordName(asTable);
    var lengthOffset := BeginObject(w, name, 1, magic);
    ok := WriteBody(w, r.entries, depth, asTable);
    if !ok {
      return;
    }
    ok := CloseObject(w, lengthOffset, base, name, 1, BodyBytes(r.entries, depth, asTable).value);
  }

  /** write_aipsio_record */
  method WriteAipsIoRecord(w: AipsIoWriter, r: Record) returns (ok: bool)
    modifies w
    ensures Appends(old(w.buffer), w.buffer, ok, RootBytes(r))
  {
    hide RecordBytes;
    ok := WriteRecord(w, r, 0, false, true);
  }
}
