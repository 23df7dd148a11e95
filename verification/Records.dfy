/** include/casacore_mini/record.hpp: the in-memory record model. Floats are opaque bit patterns. */
module Records {
  import opened Wrappers
  import opened Bytes

  datatype Scalar =
    | Bool(b: bool)
    | Short(i16: int16)
    | UShort(u16: uint16)
    | Int(i32: int32)
    | UInt(u32: uint32)
    | Int64(i64: int64)
    | UInt64(u64: uint64)
    | Float(f32: uint32)
    | Double(f64: uint64)
    | Complex(re32: uint32, im32: uint32)
    | DComplex(re64: uint64, im64: uint64)
    | Text(s: ByteSeq)

  datatype ElementType =
    | TBool | TShort | TUShort | TInt | TUInt | TInt64 | TUInt64
    | TFloat | TDouble | TComplex | TDComplex | TText

  datatype Value =
    | One(scalar: Scalar)
    | Many(element: ElementType, shape: seq<uint64>, elements: seq<Scalar>)
    | List(items: seq<Value>)
    | Nested(record: Record)

  datatype Entry = Entry(name: ByteSeq, value: Value)

  /** Insertion-ordered fields. */
  datatype Record = Record(entries: seq<Entry>)

  function TypeOf(s: Scalar): ElementType {
    match s
    case Bool(_) => TBool
    case Short(_) => TShort
    case UShort(_) => TUShort
    case Int(_) => TInt
    case UInt(_) => TUInt
    case Int64(_) => TInt64
    case UInt64(_) => TUInt64
    case Float(_) => TFloat
    case Double(_) => TDouble
    case Complex(_, _) => TComplex
    case DComplex(_, _) => TDComplex
    case Text(_) => TText
  }

  const MAX_SIZE: nat := 0xFFFF_FFFF_FFFF_FFFF

  /** Number of elements the array constructor expects; nothing when the product overflows. */
  function ExpectedCount(shape: seq<uint64>): Option<nat> {
    if shape == [] then Some(0) else CountFrom(shape, 1)
  }

  function CountFrom(shape: seq<uint64>, expected: nat): Option<nat> {
    if shape == [] then Some(expected)
    else if shape[0] == 0 then Some(0)
    else if expected > MAX_SIZE / shape[0] then None
    else CountFrom(shape[1..], expected * shape[0])
  }

  predicate AllTyped(elements: seq<Scalar>, t: ElementType) {
    forall i :: 0 <= i < |elements| ==> TypeOf(elements[i]) == t
  }

  /** What the constructors of RecordValue and Record guarantee. */
  predicate ValidValue(v: Value) {
    match v
    case One(_) => true
    case Many(t, shape, elements) =>
      t != TBool && AllTyped(elements, t) && ExpectedCount(shape) == Some(|elements|)
    case List(items) => forall i :: 0 <= i < |items| ==> ValidValue(items[i])
    case Nested(r) => ValidRecord(r)
  }

  predicate ValidRecord(r: Record) {
    && UniqueNames(r.entries)
    && forall i :: 0 <= i < |r.entries| ==> ValidValue(r.entries[i].value)
  }

  predicate UniqueNames(entries: seq<Entry>) {
    forall i, j :: 0 <= i < j < |entries| ==> entries[i].name != entries[j].name
  }

  /** Record::set replaces in place or appends. */
  function SetField(entries: seq<Entry>, name: ByteSeq, value: Value): seq<Entry> {
    if entries == [] then [Entry(name, value)]
    else if entries[0].name == name then [Entry(name, value)] + entries[1..]
    else [entries[0]] + SetField(entries[1..], name, value)
  }

  lemma {:induction false} SetNewField(entries: seq<Entry>, name: ByteSeq, value: Value)
    requires forall i :: 0 <= i < |entries| ==> entries[i].name != name
    ensures SetField(entries, name, value) == entries + [Entry(name, value)]
  {
    if entries != [] {
      SetNewField(entries[1..], name, value);
    }
  }

  /** A field of an existing name keeps its place. */
  lemma {:induction false} SetInPlace(entries: seq<Entry>, name: ByteSeq, value: Value, k: nat)
    requires UniqueNames(entries) && k < |entries| && entries[k].name == name
    ensures SetField(entries, name, value) == entries[k := Entry(name, value)]
  {
    if k > 0 {
      assert entries[0].name != name;
      SetInPlace(entries[1..], name, value, k - 1);
    }
  }

  function Product(shape: seq<uint64>): nat {
    if shape == [] then 1 else Product(shape[..|shape| - 1]) * shape[|shape| - 1]
  }

  /** Some leading extents, none of them zero, multiply to more than 64 bits hold. */
  ghost predicate Overflows(shape: seq<uint64>, k: nat) {
    k <= |shape| && 0 !in shape[..k] && Product(shape[..k]) > MAX_SIZE
  }

  lemma OverflowStep(expected: nat, extent: uint64)
    requires extent > 0
    ensures expected > MAX_SIZE / extent <==> expected * extent > MAX_SIZE
  {
    var q, r := MAX_SIZE / extent, MAX_SIZE % extent;
    assert MAX_SIZE == extent * q + r && r < extent;
    if expected > q {
      assert expected * extent >= (q + 1) * extent;
    } else {
      assert expected * extent <= q * extent;
    }
  }

  /**
   * The count is the product of the extents; there is none exactly if it overflows before the first empty extent. Without
   * extents there are no elements.
   */
  lemma CountIsProduct(shape: seq<uint64>)
    ensures var r := ExpectedCount(shape);
      && (r.None? <==> exists k: nat :: Overflows(shape, k))
      && (r.Some? ==> r.value == if shape == [] then 0 else Product(shape))
  {
    if shape == [] {
      forall k: nat ensures !Overflows(shape, k) { }
    } else {
      CountSoFar(shape, 0);
    }
  }

  lemma {:induction false} CountSoFar(shape: seq<uint64>, i: nat)
    requires i <= |shape| && 0 !in shape[..i] && Product(shape[..i]) <= MAX_SIZE
    requires forall k: nat :: k <= i ==> !Overflows(shape, k)
    ensures var r := CountFrom(shape[i..], Product(shape[..i]));
      && (r.None? <==> exists k: nat :: Overflows(shape, k))
      && (r.Some? ==> r.value == Product(shape))
    decreases |shape| - i
  {
    if i == |shape| {
      assert shape[..i] == shape;
    } else if shape[i] == 0 {
      ZeroProduct(shape, i);
      forall k: nat ensures !Overflows(shape, k) {
        assert i < k <= |shape| ==> shape[..k][i] == 0;
      }
    } else {
      var p := Product(shape[..i]);
      assert shape[..i + 1][..i] == shape[..i];
      assert Product(shape[..i + 1]) == p * shape[i];
      assert shape[i..][1..] == shape[i + 1..];
      OverflowStep(p, shape[i]);
      if p * shape[i] > MAX_SIZE {
        assert Overflows(shape, i + 1);
      } else {
        CountSoFar(shape, i + 1);
      }
    }
  }

  lemma {:induction false} ZeroProduct(shape: seq<uint64>, i: nat)
    requires i < |shape| && shape[i] == 0
    ensures Product(shape) == 0
  {
    var n := |shape| - 1;
    if i < n {
      ZeroProduct(shape[..n], i);
    }
  }
}
