/** Cell values of src/incremental_stman.cpp: comparison, and storage as little-endian bytes. */
module IsmCells {
  import opened Wrappers
  import opened Bytes

  /** The alternatives of CellValue in order; floating-point values are IEEE bit patterns. */
  datatype Cell =
    | CBool(b: bool)
    | CInt(i32: int32)
    | CUInt(u32: uint32)
    | CInt64(i64: int64)
    | CFloat(f32: uint32)
    | CDouble(f64: uint64)
    | CComplex(re32: uint32, im32: uint32)
    | CDComplex(re64: uint64, im64: uint64)
    | CString(s: ByteSeq)

  /** A default-constructed variant holds its first alternative. */
  const DEFAULT_CELL: Cell := CBool(false)

  datatype DataType =
    | TpBool | TpChar | TpUChar | TpShort | TpUShort | TpInt | TpUInt | TpFloat | TpDouble
    | TpComplex | TpDComplex | TpString | TpTable | TpInt64

  // ---- operator== on cells ----

  /** IEEE equality of two patterns: NaN equals nothing, the two zeros equal each other. */
  predicate FloatEq(a: nat, b: nat, sign: nat, infinity: nat)
    requires sign > 0
  {
    a % sign <= infinity && b % sign <= infinity && (a == b || (a % sign == 0 && b % sign == 0))
  }

  predicate Eq32(a: uint32, b: uint32) {
    FloatEq(a, b, 0x8000_0000, 0x7F80_0000)
  }

  predicate Eq64(a: uint64, b: uint64) {
    FloatEq(a, b, 0x8000_0000_0000_0000, 0x7FF0_0000_0000_0000)
  }

  predicate CellEq(a: Cell, b: Cell) {
    match (a, b)
    case (CFloat(x), CFloat(y)) => Eq32(x, y)
    case (CDouble(x), CDouble(y)) => Eq64(x, y)
    case (CComplex(x, y), CComplex(z, w)) => Eq32(x, z) && Eq32(y, w)
    case (CDComplex(x, y), CDComplex(z, w)) => Eq64(x, z) && Eq64(y, w)
    case _ => a == b
  }

  lemma EqSymmetric(a: Cell, b: Cell)
    requires CellEq(a, b)
    ensures CellEq(b, a)
  {
  }

  lemma EqTransitive(a: Cell, b: Cell, c: Cell)
    requires CellEq(a, b) && CellEq(b, c)
    ensures CellEq(a, c)
  {
  }

  /** A single-precision pattern with all exponent bits set and a fraction. */
  predicate IsNan32(x: uint32) {
    x / 0x80_0000 % 0x100 == 0xFF && x % 0x80_0000 != 0
  }

  predicate IsNan64(x: uint64) {
    x / 0x10_0000_0000_0000 % 0x800 == 0x7FF && x % 0x10_0000_0000_0000 != 0
  }

  /** Patterns compare equal if neither is a NaN and they are the same pattern or the two zeros. */
  lemma FloatComparison(a: uint32, b: uint32)
    ensures CellEq(CFloat(a), CFloat(b))
       <==> !IsNan32(a) && !IsNan32(b) && (a == b || (a in {0, 0x8000_0000} && b in {0, 0x8000_0000}))
  {
  }

  lemma DoubleComparison(a: uint64, b: uint64)
    ensures CellEq(CDouble(a), CDouble(b))
       <==> !IsNan64(a) && !IsNan64(b) && (a == b || (a in {0, 0x8000_0000_0000_0000} && b in {0, 0x8000_0000_0000_0000}))
  {
  }

  /** Complex values compare by both parts, all other values by identity, and different alternatives never equal. */
  lemma OtherComparison(a: Cell, b: Cell)
    ensures a.CComplex? && b.CComplex? ==>
      (CellEq(a, b) <==> CellEq(CFloat(a.re32), CFloat(b.re32)) && CellEq(CFloat(a.im32), CFloat(b.im32)))
    ensures a.CDComplex? && b.CDComplex? ==>
      (CellEq(a, b) <==> CellEq(CDouble(a.re64), CDouble(b.re64)) && CellEq(CDouble(a.im64), CDouble(b.im64)))
    ensures a.CBool? || a.CInt? || a.CUInt? || a.CInt64? || a.CString? ==> (CellEq(a, b) <==> a == b)
    ensures CellEq(a, b) ==> (a.CFloat? <==> b.CFloat?) && (a.CDouble? <==> b.CDouble?) && (a.CComplex? <==> b.CComplex?)
                             && (a.CDComplex? <==> b.CDComplex?)
  {
  }

  // ---- storage ----

  /** ism_canonical_size; zero for the types that cannot be stored. */
  function SizeOf(dt: DataType): nat {
    match dt
    case TpBool => 1
    case TpInt => 4
    case TpUInt => 4
    case TpFloat => 4
    case TpDouble => 8
    case TpInt64 => 8
    case TpComplex => 8
    case TpDComplex => 16
    case _ => 0
  }

  /** The value a column of this type stores: a cell with the wrong alternative counts as zero. */
  function Stored(dt: DataType, v: Cell): Cell {
    match dt
    case TpBool => if v.CBool? then v else CBool(false)
    case TpInt => if v.CInt? then v else CInt(0)
    case TpUInt => if v.CUInt? then v else CUInt(0)
    case TpFloat => if v.CFloat? then v else CFloat(0)
    case TpDouble => if v.CDouble? then v else CDouble(0)
    case TpInt64 => if v.CInt64? then v else CInt64(0)
    case TpComplex => if v.CComplex? then v else CComplex(0, 0)
    case TpDComplex => if v.CDComplex? then v else CDComplex(0, 0)
    case _ => v
  }

  /** write_ism_value */
  function CellBytes(dt: DataType, v: Cell): (b: ByteSeq)
    requires SizeOf(dt) > 0
    ensures |b| == SizeOf(dt)
  {
    Widths();
    match dt
    case TpBool => [if v.CBool? && v.b then 1 else 0]
    case TpInt => EncodeLe(Unsigned(if v.CInt? then v.i32 else 0, 4), 4)
    case TpUInt => EncodeLe(if v.CUInt? then v.u32 else 0, 4)
    case TpFloat => EncodeLe(if v.CFloat? then v.f32 else 0, 4)
    case TpDouble => EncodeLe(if v.CDouble? then v.f64 else 0, 8)
    case TpInt64 => EncodeLe(Unsigned(if v.CInt64? then v.i64 else 0, 8), 8)
    case TpComplex => EncodeLe(if v.CComplex? then v.re32 else 0, 4) + EncodeLe(if v.CComplex? then v.im32 else 0, 4)
    case TpDComplex => EncodeLe(if v.CDComplex? then v.re64 else 0, 8) + EncodeLe(if v.CDComplex? then v.im64 else 0, 8)
  }

  /** The w-byte integer at the start of s, if s is long enough. */
  function Word(s: ByteSeq, w: nat, big: bool): (r: Option<nat>)
    ensures r.Some? ==> r.value < Pow256(w)
  {
    if w > |s| then None else Some(Decode(big, s[..w]))
  }

  /** read_ism_value at the start of s. Nothing for an unsupported type, or where the source would read past s. */
  function ReadCell(s: ByteSeq, dt: DataType, big: bool): Option<Cell> {
    Widths();
    match dt
    case TpBool => var v :- Word(s, 1, big); Some(CBool(v != 0))
    case TpInt => var v :- Word(s, 4, big); Some(CInt(Signed(v, 4)))
    case TpUInt => var v :- Word(s, 4, big); Some(CUInt(v))
    case TpFloat => var v :- Word(s, 4, big); Some(CFloat(v))
    case TpDouble => var v :- Word(s, 8, big); Some(CDouble(v))
    case TpInt64 => var v :- Word(s, 8, big); Some(CInt64(Signed(v, 8)))
    case TpComplex =>
      var re :- Word(s, 4, big);
      var im :- Word(s[4..], 4, big);
      Some(CComplex(re, im))
    case TpDComplex =>
      var re :- Word(s, 8, big);
      var im :- Word(s[8..], 8, big);
      Some(CDComplex(re, im))
    case TpString =>
      var total :- Word(s, 4, big);
      if total <= 4 then Some(CString([]))
      else if total > |s| then None
      else Some(CString(s[4..total]))
    case _ => None
  }

  lemma WordRound(v: nat, w: nat, rest: ByteSeq)
    requires v < Pow256(w)
    ensures Word(EncodeLe(v, w) + rest, w, false) == Some(v)
  {
    var s := EncodeLe(v, w) + rest;
    assert s[..w] == EncodeLe(v, w);
    DecodeEncodeLe(v, w);
  }

  lemma SignedWordRound(v: int, w: nat, rest: ByteSeq)
    requires 0 <= 2 * v + Pow256(w) && 2 * v < Pow256(w)
    ensures var r := Word(EncodeLe(Unsigned(v, w), w) + rest, w, false);
      r.Some? && Signed(r.value, w) == v
  {
    SignedUnsigned(v, w);
    WordRound(Unsigned(v, w), w, rest);
  }

  lemma WordPairRound(re: nat, im: nat, w: nat, rest: ByteSeq)
    requires re < Pow256(w) && im < Pow256(w)
    ensures var s := EncodeLe(re, w) + EncodeLe(im, w) + rest;
      Word(s, w, false) == Some(re) && Word(s[w..], w, false) == Some(im)
  {
    var s := EncodeLe(re, w) + EncodeLe(im, w) + rest;
    assert s == EncodeLe(re, w) + (EncodeLe(im, w) + rest);
    assert s[w..] == EncodeLe(im, w) + rest;
    WordRound(re, w, EncodeLe(im, w) + rest);
    WordRound(im, w, rest);
  }

  /** Reading what was written for a cell gives the stored value, whatever follows. */
  lemma CellRound(dt: DataType, v: Cell, rest: ByteSeq)
    requires SizeOf(dt) > 0
    ensures ReadCell(CellBytes(dt, v) + rest, dt, false) == Some(Stored(dt, v))
  {
    hide Word, Unsigned, Signed, EncodeLe;
    Widths();
    match dt
    case TpBool =>
      var x := if v.CBool? && v.b then 1 else 0;
      BoolBytes(x);
      WordRound(x, 1, rest);
    case TpInt => SignedWordRound(if v.CInt? then v.i32 else 0, 4, rest);
    case TpUInt => WordRound(if v.CUInt? then v.u32 else 0, 4, rest);
    case TpFloat => WordRound(if v.CFloat? then v.f32 else 0, 4, rest);
    case TpDouble => WordRound(if v.CDouble? then v.f64 else 0, 8, rest);
    case TpInt64 => SignedWordRound(if v.CInt64? then v.i64 else 0, 8, rest);
    case TpComplex => WordPairRound(if v.CComplex? then v.re32 else 0, if v.CComplex? then v.im32 else 0, 4, rest);
    case TpDComplex => WordPairRound(if v.CDComplex? then v.re64 else 0, if v.CDComplex? then v.im64 else 0, 8, rest);
    case _ =>
  }

  lemma BoolBytes(x: nat)
    requires x < 2
    ensures EncodeLe(x, 1) == [x]
  {
    assert EncodeLe(x / 256, 0) == [];
  }
}
