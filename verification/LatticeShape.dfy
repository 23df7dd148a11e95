/** src/lattice_shape.cpp: Fortran-order strides, and indices against flat offsets. */
module LatticeShape {
  import opened Arithmetic
  import opened Wrappers

  type IPosition = seq<int>

  datatype Error = RankMismatch | OutOfRange(axis: nat)

  // C++ division and remainder truncate toward zero.
  function CDiv(a: int, b: int): int
    requires b != 0
  {
    if a >= 0 then a / b else -((-a) / b)
  }

  function CMod(a: int, b: int): int
    requires b != 0
  {
    if a >= 0 then a % b else -((-a) % b)
  }

  predicate Positive(shape: IPosition) {
    forall d :: 0 <= d < |shape| ==> shape[d] > 0
  }

  predicate NonNegative(shape: IPosition) {
    forall d :: 0 <= d < |shape| ==> shape[d] >= 0
  }

  function Product(shape: IPosition): int {
    if shape == [] then 1 else shape[0] * Product(shape[1..])
  }

  predicate ValidIndex(index: IPosition, shape: IPosition) {
    |index| == |shape| && forall d :: 0 <= d < |shape| ==> 0 <= index[d] < shape[d]
  }

  /** Each stride is the product of the extents before its axis. */
  function Strides(shape: IPosition): (s: IPosition)
    ensures |s| == |shape|
  {
    seq(|shape|, d requires 0 <= d < |shape| => Product(shape[..d]))
  }

  function Offset(index: IPosition, strides: IPosition): int
    requires |index| <= |strides|
  {
    if index == [] then 0 else Offset(index[..|index| - 1], strides) + index[|index| - 1] * strides[|index| - 1]
  }

  function Digits(offset: int, shape: IPosition): (r: IPosition)
    requires forall d :: 0 <= d < |shape| ==> shape[d] != 0
    ensures |r| == |shape|
    decreases |shape|
  {
    if shape == [] then [] else [CMod(offset, shape[0])] + Digits(CDiv(offset, shape[0]), shape[1..])
  }

  // ---- the source's loops ----

  method ProductOf(shape: IPosition) returns (p: int)
    ensures p == Product(shape)
  {
    p := 1;
    var i := 0;
    while i < |shape|
      invariant 0 <= i <= |shape| && p == Product(shape[..i])
    {
      ProductSnoc(shape[..i], shape[i]);
      assert shape[..i + 1] == shape[..i] + [shape[i]];
      p := p * shape[i];
      i := i + 1;
    }
    assert shape[..i] == shape;
  }

  method FortranStrides(shape: IPosition) returns (strides: IPosition)
    ensures strides == Strides(shape)
  {
    strides := [];
    if shape == [] {
      return;
    }
    strides := [1];
    var i := 1;
    while i < |shape|
      invariant 1 <= i <= |shape| && strides == Strides(shape)[..i]
    {
      ProductSnoc(shape[..i - 1], shape[i - 1]);
      assert shape[..i] == shape[..i - 1] + [shape[i - 1]];
      strides := strides + [strides[i - 1] * shape[i - 1]];
      i := i + 1;
    }
  }

  method LinearIndex(index: IPosition, strides: IPosition) returns (offset: int)
    requires |index| <= |strides|
    ensures offset == Offset(index, strides)
  {
    offset := 0;
    var i := 0;
    while i < |index|
      invariant 0 <= i <= |index| && offset == Offset(index[..i], strides)
    {
      assert index[..i + 1][..i] == index[..i];
      offset := offset + index[i] * strides[i];
      i := i + 1;
    }
    assert index[..i] == index;
  }

  method Delinearize(offset: int, shape: IPosition) returns (result: IPosition)
    requires forall d :: 0 <= d < |shape| ==> shape[d] != 0
    ensures result == Digits(offset, shape)
  {
    result := [];
    var rest := offset;
    var i := 0;
    while i < |shape|
      invariant 0 <= i <= |shape|
      invariant result + Digits(rest, shape[i..]) == Digits(offset, shape)
    {
      assert shape[i..][1..] == shape[i + 1..];
      result := result + [CMod(rest, shape[i])];
      rest := CDiv(rest, shape[i]);
      i := i + 1;
    }
    assert Digits(rest, shape[i..]) == [];
  }

  /** Reports the first axis that is out of range. */
  method ValidateIndex(index: IPosition, shape: IPosition) returns (r: Result<(), Error>)
    ensures r.Ok? <==> ValidIndex(index, shape)
    ensures |index| != |shape| <==> r == Err(RankMismatch)
    ensures r.Err? && r.error.OutOfRange? ==>
      var a := r.error.axis;
      a < |shape| == |index| && !(0 <= index[a] < shape[a]) && forall d :: 0 <= d < a ==> 0 <= index[d] < shape[d]
  {
    if |index| != |shape| {
      return Err(RankMismatch);
    }
    var i := 0;
    while i < |index|
      invariant 0 <= i <= |index| && forall d :: 0 <= d < i ==> 0 <= index[d] < shape[d]
    {
      if index[i] < 0 || index[i] >= shape[i] {
        return Err(OutOfRange(i));
      }
      i := i + 1;
    }
    return Ok(());
  }

  // ---- the bijection ----

  lemma {:induction false} ProductSnoc(shape: IPosition, x: int)
    ensures Product(shape + [x]) == Product(shape) * x
  {
    if shape == [] {
      assert ([] + [x])[1..] == [];
    } else {
      ProductSnoc(shape[1..], x);
      assert (shape + [x])[1..] == shape[1..] + [x];
      assert shape[0] * (Product(shape[1..]) * x) == shape[0] * Product(shape[1..]) * x;
    }
  }

  lemma {:induction false} ProductPositive(shape: IPosition)
    requires Positive(shape)
    ensures Product(shape) > 0
  {
    if shape != [] {
      ProductPositive(shape[1..]);
    }
  }

  lemma {:induction false} ProductNonNegative(shape: IPosition)
    requires NonNegative(shape)
    ensures Product(shape) >= 0
    ensures Product(shape) > 0 ==> Positive(shape)
  {
    if shape != [] {
      ProductNonNegative(shape[1..]);
      if Product(shape) > 0 {
        assert Product(shape[1..]) != 0 && shape[0] != 0;
        assert forall d :: 1 <= d < |shape| ==> shape[d] == shape[1..][d - 1];
      }
    }
  }

  /** Horner's form of an index: the last axis varies slowest. */
  ghost function Horner(index: IPosition, shape: IPosition): int
    requires |index| == |shape|
  {
    if index == [] then 0 else index[0] + shape[0] * Horner(index[1..], shape[1..])
  }

  ghost function ScaledStrides(shape: IPosition, base: int): (s: IPosition)
    ensures |s| == |shape|
  {
    seq(|shape|, d requires 0 <= d < |shape| => base * Product(shape[..d]))
  }

  lemma {:induction false} OffsetCons(x: int, index: IPosition, s: int, strides: IPosition)
    requires |index| <= |strides|
    ensures Offset([x] + index, [s] + strides) == x * s + Offset(index, strides)
  {
    if index == [] {
      assert ([x] + index)[..0] == [];
    } else {
      var n := |index|;
      OffsetCons(x, index[..n - 1], s, strides);
      assert ([x] + index)[..n] == [x] + index[..n - 1];
    }
  }

  lemma ScaledStridesCons(shape: IPosition, base: int)
    requires shape != []
    ensures ScaledStrides(shape, base) == [base] + ScaledStrides(shape[1..], base * shape[0])
  {
    var rest := ScaledStrides(shape[1..], base * shape[0]);
    forall d | 0 <= d < |shape| ensures ScaledStrides(shape, base)[d] == ([base] + rest)[d] {
      if d > 0 {
        assert shape[..d][1..] == shape[1..][..d - 1];
        Associate(base, shape[0], Product(shape[1..][..d - 1]));
      }
    }
  }

  lemma Associate(a: int, b: int, c: int)
    ensures a * (b * c) == (a * b) * c
  {
  }

  lemma HornerScaled(base: int, x: int, s: int, h: int)
    ensures base * (x + s * h) == x * base + (base * s) * h
  {
  }

  lemma {:induction false} OffsetIsHorner(index: IPosition, shape: IPosition, base: int)
    requires |index| == |shape|
    ensures Offset(index, ScaledStrides(shape, base)) == base * Horner(index, shape)
    decreases |shape|
  {
    if index != [] {
      ScaledStridesCons(shape, base);
      assert index == [index[0]] + index[1..];
      OffsetCons(index[0], index[1..], base, ScaledStrides(shape[1..], base * shape[0]));
      OffsetIsHorner(index[1..], shape[1..], base * shape[0]);
      HornerScaled(base, index[0], shape[0], Horner(index[1..], shape[1..]));
    }
  }

  lemma LinearIsHorner(index: IPosition, shape: IPosition)
    requires |index| == |shape|
    ensures Offset(index, Strides(shape)) == Horner(index, shape)
  {
    OffsetIsHorner(index, shape, 1);
    assert ScaledStrides(shape, 1) == Strides(shape);
  }

  lemma ValidIndexCons(x: int, index: IPosition, shape: IPosition)
    requires shape != [] && 0 <= x < shape[0] && ValidIndex(index, shape[1..])
    ensures ValidIndex([x] + index, shape)
  {
    forall d | 0 <= d < |shape| ensures 0 <= ([x] + index)[d] < shape[d] {
      if d > 0 {
        assert shape[d] == shape[1..][d - 1];
      }
    }
  }

  lemma {:induction false} HornerDigits(offset: int, shape: IPosition)
    requires Positive(shape) && 0 <= offset < Product(shape)
    ensures ValidIndex(Digits(offset, shape), shape)
    ensures Horner(Digits(offset, shape), shape) == offset
    decreases |shape|
  {
    if shape != [] {
      Split(offset, shape[0], Product(shape[1..]));
      var q := CDiv(offset, shape[0]);
      HornerDigits(q, shape[1..]);
      ValidIndexCons(CMod(offset, shape[0]), Digits(q, shape[1..]), shape);
      assert Digits(offset, shape)[1..] == Digits(q, shape[1..]);
    }
  }

  /** Splitting off the fastest digit of an offset in range. */
  lemma Split(x: int, d: int, n: int)
    requires d > 0 && 0 <= x < d * n
    ensures 0 <= CMod(x, d) < d && 0 <= CDiv(x, d) < n
    ensures x == CMod(x, d) + d * CDiv(x, d)
  {
    QuotientBelow(x, d, n, x / d, x % d);
  }

  /** Adding a fast digit and splitting it off again. */
  lemma Join(x: int, d: int, y: int, n: int)
    requires 0 <= x < d && 0 <= y < n
    ensures 0 <= x + d * y < d * n
    ensures CMod(x + d * y, d) == x && CDiv(x + d * y, d) == y
  {
    assert d * (n - 1 - y) >= 0;
    assert d * n == d * (n - 1 - y) + d * y + d;
    assert d * y >= 0;
    DivModUnique(x + d * y, d, y, x);
  }

  lemma {:induction false} DigitsHorner(index: IPosition, shape: IPosition)
    requires Positive(shape) && ValidIndex(index, shape)
    ensures 0 <= Horner(index, shape) < Product(shape)
    ensures Digits(Horner(index, shape), shape) == index
    decreases |shape|
  {
    if shape != [] {
      DigitsHorner(index[1..], shape[1..]);
      Join(index[0], shape[0], Horner(index[1..], shape[1..]), Product(shape[1..]));
    }
  }

  /** Every flat offset is the offset of exactly the index it is split into. */
  lemma DelinearizeThenLinear(offset: int, shape: IPosition)
    requires Positive(shape) && 0 <= offset < Product(shape)
    ensures ValidIndex(Digits(offset, shape), shape)
    ensures Offset(Digits(offset, shape), Strides(shape)) == offset
  {
    HornerDigits(offset, shape);
    LinearIsHorner(Digits(offset, shape), shape);
  }

  /** Every valid index lies in [0, product) and is recovered from its offset. */
  lemma LinearThenDelinearize(index: IPosition, shape: IPosition)
    requires Positive(shape) && ValidIndex(index, shape)
    ensures 0 <= Offset(index, Strides(shape)) < Product(shape)
    ensures Digits(Offset(index, Strides(shape)), shape) == index
  {
    DigitsHorner(index, shape);
    LinearIsHorner(index, shape);
  }

  lemma ValidIndexPositive(index: IPosition, shape: IPosition)
    requires ValidIndex(index, shape)
    ensures Positive(shape)
  {
  }

  // ---- the order of the elements ----

  lemma {:induction false} OffsetStep(index: IPosition, strides: IPosition, d: nat)
    requires d < |index| <= |strides|
    ensures Offset(index[d := index[d] + 1], strides) == Offset(index, strides) + strides[d]
  {
    var n := |index| - 1;
    var next := index[d := index[d] + 1];
    if d < n {
      assert next[..n] == index[..n][d := index[d] + 1];
      OffsetStep(index[..n], strides, d);
    } else {
      assert next[..n] == index[..n];
      assert (index[d] + 1) * strides[d] == index[d] * strides[d] + strides[d];
    }
  }

  /** How far one step along an axis moves in the flat storage. */
  function StepOf(index: IPosition, shape: IPosition, d: nat): int
    requires d < |index| == |shape|
  {
    Offset(index[d := index[d] + 1], Strides(shape)) - Offset(index, Strides(shape))
  }

  /** The first axis varies fastest: a step along it moves by one, a step along the next axis by a whole extent of steps. */
  lemma FirstAxisFastest(index: IPosition, shape: IPosition, d: nat)
    requires d < |index| == |shape|
    ensures d == 0 ==> StepOf(index, shape, d) == 1
    ensures d > 0 ==> StepOf(index, shape, d) == StepOf(index, shape, d - 1) * shape[d - 1]
  {
    hide Offset;
    OffsetStep(index, Strides(shape), d);
    if d > 0 {
      OffsetStep(index, Strides(shape), d - 1);
      ProductSnoc(shape[..d - 1], shape[d - 1]);
      assert shape[..d] == shape[..d - 1] + [shape[d - 1]];
    }
  }

  lemma {:induction false} OriginFirst(n: nat, shape: IPosition)
    requires n <= |shape|
    ensures Offset(seq(n, _ => 0), Strides(shape)) == 0
  {
    if n > 0 {
      assert seq(n, _ => 0)[..n - 1] == seq(n - 1, _ => 0);
      OriginFirst(n - 1, shape);
    }
  }

  /** Division and remainder toward zero: the remainder is smaller than the divisor and takes the dividend's sign. */
  lemma TruncatedDivision(a: int, b: int)
    requires b != 0
    ensures a == CDiv(a, b) * b + CMod(a, b)
    ensures -b < CMod(a, b) < b || b < CMod(a, b) < -b
    ensures a >= 0 ==> CMod(a, b) >= 0
    ensures a <= 0 ==> CMod(a, b) <= 0
  {
    var c := if a >= 0 then a else -a;
    assert c == c / b * b + c % b;
    assert -(c / b) * b == -(c / b * b);
  }
}
