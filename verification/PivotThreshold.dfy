/** Exactly which matrices the elimination of src/linear_xform.cpp accepts, given its absolute pivot threshold. */
module PivotThreshold {
  import opened Wrappers
  import opened Matrix
  import opened GaussJordan

  // ---- exactly which matrices are accepted ----

  ghost predicate Invertible(a: Mat, n: nat)
    requires IsMat(a, n, n)
  {
    exists b: Mat :: IsMat(b, n, n) && TwoSidedInverse(a, b, n)
  }

  /** Magnitude of the pivot found for column `col`. */
  ghost function Pivot(a: Mat, n: nat, col: nat): (x: real)
    requires IsMat(a, n, n) && col < n && Reduce(a, n, col).Some?
    ensures x >= 0.0
  {
    var m := Reduce(a, n, col).value;
    Abs(m[PivotRow(m, col, n)][col])
  }

  /** Elimination reaches column `col` and finds a pivot that is not zero but below the threshold. */
  ghost predicate StopsAtSmall(a: Mat, n: nat, col: nat)
    requires IsMat(a, n, n)
  {
    col < n && Reduce(a, n, col).Some? && 0.0 < Pivot(a, n, col) < TINY
  }

  lemma {:induction false} PrefixReduced(a: Mat, n: nat, cols: nat, upto: nat)
    requires IsMat(a, n, n) && cols <= upto <= n && Reduce(a, n, upto).Some?
    ensures Reduce(a, n, cols).Some?
    decreases upto - cols
  {
    if cols < upto {
      PrefixReduced(a, n, cols + 1, upto);
    }
  }

  /** A rejected matrix stopped in some column, with a pivot below the threshold. */
  lemma {:induction false} StoppingColumn(a: Mat, n: nat, cols: nat) returns (col: nat)
    requires IsMat(a, n, n) && cols <= n && Reduce(a, n, cols).None?
    ensures col < cols && Reduce(a, n, col).Some? && Pivot(a, n, col) < TINY
  {
    if Reduce(a, n, cols - 1).None? {
      col := StoppingColumn(a, n, cols - 1);
    } else {
      col := cols - 1;
    }
  }

  /** A matrix is accepted exactly when it has an inverse and the elimination meets no small non-zero pivot. */
  lemma AcceptedIff(a: Mat, n: nat)
    requires IsMat(a, n, n)
    ensures Inverse(a, n).Some? <==> Invertible(a, n) && forall col: nat :: !StopsAtSmall(a, n, col)
  {
    if Inverse(a, n).Some? {
      InverseIsTwoSided(a, n);
      forall col: nat ensures !StopsAtSmall(a, n, col) {
        if col < n {
          PrefixReduced(a, n, col + 1, n);
        }
      }
    } else if Invertible(a, n) {
      var b: Mat :| IsMat(b, n, n) && TwoSidedInverse(a, b, n);
      var col := StoppingColumn(a, n, n);
      if Pivot(a, n, col) == 0.0 {
        StopAtZeroIsSingular(a, n, col, b);
      }
      assert StopsAtSmall(a, n, col);
    }
  }
  // ---- how the verdict moves when the matrix is scaled ----

  ghost function Multiple(a: Mat, n: nat, k: real): (r: Mat)
    requires IsMat(a, n, n)
    ensures IsMat(r, n, n)
  {
    seq(n, i requires 0 <= i < n => seq(n, j requires 0 <= j < n => k * a[i][j]))
  }

  lemma AbsScales(k: real, x: real, y: real)
    ensures Abs(k * x) == Abs(k) * Abs(x)
    ensures k != 0.0 ==> (Abs(k * x) > Abs(k * y) <==> Abs(x) > Abs(y))
  {
    Ordered(Abs(k), Abs(x), Abs(y));
  }

  lemma Ordered(k: real, x: real, y: real)
    requires k >= 0.0
    ensures k > 0.0 ==> (k * x > k * y <==> x > y)
  {
    if k > 0.0 && x > y {
      assert k * (x - y) > 0.0;
    } else if k > 0.0 {
      assert k * (y - x) >= 0.0;
    }
  }

  /** The left block of row i is the same in both, or k times as large from row `cols` on. */
  ghost predicate RowScales(m: Mat, m': Mat, n: nat, cols: nat, k: real, i: nat)
    requires IsMat(m, n, 2 * n) && IsMat(m', n, 2 * n) && i < n
  {
    forall j :: 0 <= j < n ==> m'[i][j] == (if i < cols then 1.0 else k) * m[i][j]
  }

  ghost predicate RowsScale(m: Mat, m': Mat, n: nat, cols: nat, k: real)
    requires IsMat(m, n, 2 * n) && IsMat(m', n, 2 * n)
  {
    forall i :: 0 <= i < n ==> RowScales(m, m', n, cols, k, i)
  }

  lemma EntryScales(m: Mat, m': Mat, n: nat, cols: nat, k: real, i: nat, j: nat)
    requires IsMat(m, n, 2 * n) && IsMat(m', n, 2 * n) && RowsScale(m, m', n, cols, k) && i < n && j < n
    ensures m'[i][j] == (if i < cols then 1.0 else k) * m[i][j]
  {
    assert RowScales(m, m', n, cols, k, i);
  }

  lemma SameComparison(m: Mat, m': Mat, n: nat, col: nat, k: real, p: nat, q: nat)
    requires IsMat(m, n, 2 * n) && IsMat(m', n, 2 * n) && RowsScale(m, m', n, col, k) && k != 0.0
    requires col <= p < n && col <= q < n
    ensures Abs(m'[p][col]) > Abs(m'[q][col]) <==> Abs(m[p][col]) > Abs(m[q][col])
  {
    hide Abs, RowsScale;
    EntryScales(m, m', n, col, k, p, col);
    EntryScales(m, m', n, col, k, q, col);
    var x, y := m[p][col], m[q][col];
    assert m'[p][col] == k * x && m'[q][col] == k * y;
    AbsScales(k, x, y);
  }

  lemma {:induction false} PivotRowScales(m: Mat, m': Mat, n: nat, col: nat, upto: nat, k: real)
    requires IsMat(m, n, 2 * n) && IsMat(m', n, 2 * n) && col < upto <= n && k != 0.0
    requires RowsScale(m, m', n, col, k)
    ensures PivotRow(m', col, upto) == PivotRow(m, col, upto)
  {
    if upto > col + 1 {
      hide Abs, RowsScale;
      PivotRowScales(m, m', n, col, upto - 1, k);
      SameComparison(m, m', n, col, k, upto - 1, PivotRow(m, col, upto - 1));
    }
  }

  lemma Proportional(f: real, x: real, y: real, z: real)
    ensures f * x - (f * y) * z == f * (x - y * z)
  {
  }

  lemma MinusScales(row: Vec, row': Vec, other: Vec, other': Vec, n: nat, col: nat, f: real)
    requires |row| == |row'| == |other| == |other'| == 2 * n && col < n
    requires forall j :: 0 <= j < n ==> row'[j] == f * row[j] && other'[j] == other[j]
    ensures forall j :: 0 <= j < n ==> Minus(row', row'[col], other')[j] == f * Minus(row, row[col], other)[j]
  {
    forall j | 0 <= j < n ensures Minus(row', row'[col], other')[j] == f * Minus(row, row[col], other)[j] {
      Proportional(f, row[j], row[col], other[j]);
    }
  }

  lemma {:induction false} ClearScales(m: Mat, m': Mat, n: nat, col: nat, upto: nat, k: real)
    requires IsMat(m, n, 2 * n) && IsMat(m', n, 2 * n) && col < n && upto <= n
    requires RowsScale(m, m', n, col + 1, k)
    ensures RowsScale(ClearColumn(m, 2 * n, col, upto), ClearColumn(m', 2 * n, col, upto), n, col + 1, k)
  {
    if upto > 0 {
      hide RowsScale, Minus;
      ClearScales(m, m', n, col, upto - 1, k);
      var p, p' := ClearColumn(m, 2 * n, col, upto - 1), ClearColumn(m', 2 * n, col, upto - 1);
      if upto - 1 != col {
        RowCleared(p, p', n, col, upto - 1, k);
      }
    }
  }

  lemma RowCleared(p: Mat, p': Mat, n: nat, col: nat, r: nat, k: real)
    requires IsMat(p, n, 2 * n) && IsMat(p', n, 2 * n) && col < n && r < n && r != col
    requires RowsScale(p, p', n, col + 1, k)
    ensures RowsScale(p[r := Minus(p[r], p[r][col], p[col])], p'[r := Minus(p'[r], p'[r][col], p'[col])], n, col + 1, k)
  {
    hide Minus;
    var cols := col + 1;
    assert RowScales(p, p', n, cols, k, r) && RowScales(p, p', n, cols, k, col);
    MinusScales(p[r], p'[r], p[col], p'[col], n, col, if r < cols then 1.0 else k);
    var q, q' := p[r := Minus(p[r], p[r][col], p[col])], p'[r := Minus(p'[r], p'[r][col], p'[col])];
    forall i | 0 <= i < n ensures RowScales(q, q', n, cols, k, i) {
      assert RowScales(p, p', n, cols, k, i);
    }
  }

  lemma FactorCancels(k: real, x: real, d: real)
    requires k != 0.0 && d != 0.0
    ensures k * d != 0.0 && (k * x) / (k * d) == x / d
  {
    assert x / d * (k * d) == k * x;
  }

  /** Bringing up the pivot row and scaling it: from here on that row is the same in both. */
  lemma PivotScales(m: Mat, m': Mat, n: nat, col: nat, p: nat, k: real)
    requires IsMat(m, n, 2 * n) && IsMat(m', n, 2 * n) && col <= p < n && k != 0.0 && m[p][col] != 0.0
    requires RowsScale(m, m', n, col, k)
    ensures m'[p][col] != 0.0
    ensures var s, s' := SwapRows(m, col, p), SwapRows(m', col, p);
      RowsScale(s[col := Scaled(s[col], s[col][col])], s'[col := Scaled(s'[col], s'[col][col])], n, col + 1, k)
  {
    assert RowScales(m, m', n, col, k, p) && RowScales(m, m', n, col, k, col);
    FactorCancels(k, 1.0, m[p][col]);
    var s, s' := SwapRows(m, col, p), SwapRows(m', col, p);
    var t, t' := s[col := Scaled(s[col], s[col][col])], s'[col := Scaled(s'[col], s'[col][col])];
    var cols := col + 1;
    forall i | 0 <= i < n ensures RowScales(t, t', n, cols, k, i) {
      assert RowScales(m, m', n, col, k, i);
      if i == col {
        forall j | 0 <= j < n ensures t'[col][j] == t[col][j] {
          FactorCancels(k, m[p][j], m[p][col]);
        }
      }
    }
  }
  lemma AugmentScales(a: Mat, n: nat, k: real)
    requires IsMat(a, n, n)
    ensures RowsScale(Augment(a, n), Augment(Multiple(a, n, k), n), n, 0, k)
  {
    var m, m' := Augment(a, n), Augment(Multiple(a, n, k), n);
    forall i | 0 <= i < n ensures RowScales(m, m', n, 0, k, i) {
      forall j | 0 <= j < n ensures m'[i][j] == k * m[i][j] {
      }
    }
  }

  lemma ColumnScales(m: Mat, m': Mat, n: nat, col: nat, k: real)
    requires IsMat(m, n, 2 * n) && IsMat(m', n, 2 * n) && col < n && k != 0.0
    requires RowsScale(m, m', n, col, k) && ReduceColumn(m, n, col).Some? && ReduceColumn(m', n, col).Some?
    ensures RowsScale(ReduceColumn(m, n, col).value, ReduceColumn(m', n, col).value, n, col + 1, k)
  {
    hide RowsScale, ClearColumn;
    PivotRowScales(m, m', n, col, n, k);
    var p := PivotRow(m, col, n);
    PivotScales(m, m', n, col, p, k);
    var s, s' := SwapRows(m, col, p), SwapRows(m', col, p);
    ClearScales(s[col := Scaled(s[col], s[col][col])], s'[col := Scaled(s'[col], s'[col][col])], n, col, n, k);
  }

  /** As long as neither matrix is rejected, their eliminations differ only in the factor of the rows still to do. */
  lemma {:induction false} ReduceScales(a: Mat, n: nat, cols: nat, k: real)
    requires IsMat(a, n, n) && cols <= n && k != 0.0
    requires Reduce(a, n, cols).Some? && Reduce(Multiple(a, n, k), n, cols).Some?
    ensures RowsScale(Reduce(a, n, cols).value, Reduce(Multiple(a, n, k), n, cols).value, n, cols, k)
  {
    hide RowsScale, ReduceColumn, Multiple;
    if cols == 0 {
      AugmentScales(a, n, k);
    } else {
      ReduceScales(a, n, cols - 1, k);
      ColumnScales(Reduce(a, n, cols - 1).value, Reduce(Multiple(a, n, k), n, cols - 1).value, n, cols - 1, k);
    }
  }

  lemma PivotEntryScales(m: Mat, m': Mat, n: nat, col: nat, k: real, p: nat)
    requires IsMat(m, n, 2 * n) && IsMat(m', n, 2 * n) && RowsScale(m, m', n, col, k) && col <= p < n
    ensures Abs(m'[p][col]) == Abs(k) * Abs(m[p][col])
  {
    hide Abs, RowsScale;
    EntryScales(m, m', n, col, k, p, col);
    var x := m[p][col];
    assert m'[p][col] == k * x;
    AbsScales(k, x, x);
  }

  /** Every pivot scales with the matrix. */
  lemma PivotOfMultiple(a: Mat, n: nat, col: nat, k: real)
    requires IsMat(a, n, n) && col < n && k != 0.0
    requires Reduce(a, n, col).Some? && Reduce(Multiple(a, n, k), n, col).Some?
    ensures Pivot(Multiple(a, n, k), n, col) == Abs(k) * Pivot(a, n, col)
  {
    hide RowsScale, Reduce, Multiple, Abs;
    ReduceScales(a, n, col, k);
    var m, m' := Reduce(a, n, col).value, Reduce(Multiple(a, n, k), n, col).value;
    PivotRowScales(m, m', n, col, n, k);
    PivotEntryScales(m, m', n, col, k, PivotRow(m, col, n));
  }

  lemma ReduceNext(a: Mat, n: nat, col: nat)
    requires IsMat(a, n, n) && col < n && Reduce(a, n, col).Some?
    ensures Reduce(a, n, col + 1).Some? <==> Pivot(a, n, col) >= TINY
  {
  }

  /** The smallest of the first `cols` pivots. */
  ghost function SmallestPivot(a: Mat, n: nat, cols: nat): (x: real)
    requires IsMat(a, n, n) && 0 < cols <= n && Reduce(a, n, cols).Some?
  {
    PrefixReduced(a, n, cols - 1, cols);
    var last := Pivot(a, n, cols - 1);
    if cols == 1 then last
    else
      var x := SmallestPivot(a, n, cols - 1);
      if last < x then last else x
  }

  lemma {:induction false} SmallestPivotBound(a: Mat, n: nat, cols: nat)
    requires IsMat(a, n, n) && 0 < cols <= n && Reduce(a, n, cols).Some?
    ensures SmallestPivot(a, n, cols) >= TINY
  {
    ReduceNext(a, n, cols - 1);
    if cols > 1 {
      SmallestPivotBound(a, n, cols - 1);
    }
  }

  /** A multiple of an accepted matrix is accepted exactly when its smallest pivot still reaches the threshold. */
  lemma {:induction false} MultipleAccepted(a: Mat, n: nat, cols: nat, k: real)
    requires IsMat(a, n, n) && 0 < cols <= n && Reduce(a, n, cols).Some? && k != 0.0
    ensures Reduce(Multiple(a, n, k), n, cols).Some? <==> Abs(k) * SmallestPivot(a, n, cols) >= TINY
  {
    hide Reduce, Multiple, Pivot;
    var b := Multiple(a, n, k);
    NothingReduced(b, n);
    PrefixReduced(a, n, cols - 1, cols);
    if cols > 1 {
      MultipleAccepted(a, n, cols - 1, k);
      MinScales(Abs(k), Pivot(a, n, cols - 1), SmallestPivot(a, n, cols - 1));
    }
    if Reduce(b, n, cols - 1).Some? {
      ReduceNext(b, n, cols - 1);
      PivotOfMultiple(a, n, cols - 1, k);
    } else if Reduce(b, n, cols).Some? {
      PrefixReduced(b, n, cols - 1, cols);
    }
  }

  lemma NothingReduced(a: Mat, n: nat)
    requires IsMat(a, n, n)
    ensures Reduce(a, n, 0).Some?
  {
  }

  lemma MinScales(k: real, x: real, y: real)
    requires k >= 0.0
    ensures k * (if x < y then x else y) >= TINY <==> k * x >= TINY && k * y >= TINY
  {
    if x < y {
      assert k * (y - x) >= 0.0;
    } else {
      assert k * (x - y) >= 0.0;
    }
  }
  lemma MultipleTwice(a: Mat, n: nat, k: real, q: real)
    requires IsMat(a, n, n)
    ensures Multiple(Multiple(a, n, k), n, q) == Multiple(a, n, k * q)
  {
    forall i, j | 0 <= i < n && 0 <= j < n ensures Multiple(Multiple(a, n, k), n, q)[i][j] == Multiple(a, n, k * q)[i][j] {
      assert q * (k * a[i][j]) == (k * q) * a[i][j];
    }
    assert forall i :: 0 <= i < n ==> Multiple(Multiple(a, n, k), n, q)[i] == Multiple(a, n, k * q)[i];
  }

  lemma UnitFactor(a: Mat, n: nat)
    requires IsMat(a, n, n)
    ensures Multiple(a, n, 1.0) == a
  {
    assert forall i :: 0 <= i < n ==> Multiple(a, n, 1.0)[i] == a[i];
  }

  lemma FactorsCancel(a: Mat, b: Mat, n: nat, k: real)
    requires IsMat(a, n, n) && IsMat(b, n, n) && k != 0.0
    ensures Mul(Multiple(a, n, k), Multiple(b, n, 1.0 / k), n, n, n) == Mul(a, b, n, n, n)
  {
    var c, d := Multiple(a, n, k), Multiple(b, n, 1.0 / k);
    forall i, j | 0 <= i < n && 0 <= j < n ensures Dot(c[i], Column(d, j)) == Dot(a[i], Column(b, j)) {
      forall x | 0 <= x < n ensures Products(c[i], Column(d, j))[x] == Products(a[i], Column(b, j))[x] {
        OneCancels(k, a[i][x], b[x][j]);
      }
      assert Products(c[i], Column(d, j)) == Products(a[i], Column(b, j));
    }
    assert forall i :: 0 <= i < n ==> Mul(c, d, n, n, n)[i] == Mul(a, b, n, n, n)[i];
  }

  lemma OneCancels(k: real, x: real, y: real)
    requires k != 0.0
    ensures (k * x) * (1.0 / k * y) == x * y
  {
    assert k * (1.0 / k) == 1.0;
    assert (k * x) * (1.0 / k * y) == (k * (1.0 / k)) * (x * y);
  }

  /** A multiple of an invertible matrix is invertible. */
  lemma InverseOfMultiple(a: Mat, b: Mat, n: nat, k: real)
    requires IsMat(a, n, n) && IsMat(b, n, n) && TwoSidedInverse(a, b, n) && k != 0.0
    ensures TwoSidedInverse(Multiple(a, n, k), Multiple(b, n, 1.0 / k), n)
  {
    hide Mul, Multiple;
    FactorsCancel(a, b, n, k);
    FactorsCancel(b, a, n, 1.0 / k);
    assert 1.0 / (1.0 / k) == k;
  }

  lemma PivotNotZero(a: Mat, b: Mat, n: nat, col: nat)
    requires IsMat(a, n, n) && IsMat(b, n, n) && TwoSidedInverse(a, b, n) && col < n && Reduce(a, n, col).Some?
    ensures Pivot(a, n, col) > 0.0
  {
    hide Reduce, TwoSidedInverse;
    if Pivot(a, n, col) == 0.0 {
      StopAtZeroIsSingular(a, n, col, b);
    }
  }

  /** One more column is reduced after multiplying by enough. */
  lemma EnoughForColumn(a: Mat, b: Mat, n: nat, col: nat) returns (q: real)
    requires IsMat(a, n, n) && IsMat(b, n, n) && TwoSidedInverse(a, b, n) && col < n && Reduce(a, n, col).Some?
    ensures q > 0.0 && Reduce(Multiple(a, n, q), n, col + 1).Some?
  {
    hide Reduce, Multiple, Pivot, TwoSidedInverse;
    PivotNotZero(a, b, n, col);
    var pivot := Pivot(a, n, col);
    q := if pivot >= TINY then 1.0 else TINY / pivot;
    assert q >= 1.0 && q * pivot >= TINY by {
      if pivot < TINY {
        assert q * pivot == TINY;
      }
    }
    if col == 0 {
      NothingReduced(Multiple(a, n, q), n);
    } else {
      SmallestPivotBound(a, n, col);
      var s := SmallestPivot(a, n, col);
      assert (q - 1.0) * s >= 0.0;
      MultipleAccepted(a, n, col, q);
    }
    PivotOfMultiple(a, n, col, q);
    ReduceNext(Multiple(a, n, q), n, col);
  }

  lemma {:induction false} EnoughFor(a: Mat, b: Mat, n: nat, cols: nat) returns (k: real)
    requires IsMat(a, n, n) && IsMat(b, n, n) && TwoSidedInverse(a, b, n) && cols <= n
    ensures k > 0.0 && Reduce(Multiple(a, n, k), n, cols).Some?
  {
    hide Reduce, Multiple, TwoSidedInverse;
    if cols == 0 {
      k := 1.0;
      NothingReduced(Multiple(a, n, 1.0), n);
    } else {
      k := EnoughFor(a, b, n, cols - 1);
      InverseOfMultiple(a, b, n, k);
      var q := EnoughForColumn(Multiple(a, n, k), Multiple(b, n, 1.0 / k), n, cols - 1);
      MultipleTwice(a, n, k, q);
      k := k * q;
    }
  }

  /**
   * Every invertible matrix has a threshold of its own: exactly the multiples by at least that magnitude are accepted.
   * In particular every invertible matrix is accepted after a large enough scaling.
   */
  lemma AcceptedFrom(a: Mat, b: Mat, n: nat) returns (kappa: real)
    requires IsMat(a, n, n) && IsMat(b, n, n) && TwoSidedInverse(a, b, n) && n > 0
    ensures kappa > 0.0
    ensures forall k: real :: k != 0.0 ==> (Inverse(Multiple(a, n, k), n).Some? <==> Abs(k) >= kappa)
    ensures Inverse(a, n).Some? <==> kappa <= 1.0
  {
    hide Reduce, Multiple, TwoSidedInverse, Abs, SmallestPivot;
    var enough := EnoughFor(a, b, n, n);
    var c := Multiple(a, n, enough);
    var s := SmallestPivot(c, n, n);
    SmallestPivotBound(c, n, n);
    kappa := enough * (TINY / s);
    forall k: real | k != 0.0 ensures Inverse(Multiple(a, n, k), n).Some? <==> Abs(k) >= kappa {
      var q := k / enough;
      assert enough * q == k && q != 0.0;
      MultipleTwice(a, n, enough, q);
      MultipleAccepted(c, n, n, q);
      Rearranged(k, enough, s);
    }
    UnitFactor(a, n);
    AbsOne();
  }

  lemma AbsOne()
    ensures Abs(1.0) == 1.0
  {
  }

  lemma Rearranged(k: real, d: real, s: real)
    requires d > 0.0 && s > 0.0
    ensures Abs(k / d) * s >= TINY <==> Abs(k) >= d * (TINY / s)
  {
    var x, t := Abs(k) / d, TINY / s;
    assert x * d == Abs(k) && t * s == TINY;
    assert Abs(k / d) == x by {
      if k < 0.0 {
        assert k / d < 0.0 && (-k) / d == -(k / d);
      } else {
        assert k / d >= 0.0;
      }
    }
    if x >= t {
      assert (x - t) * s >= 0.0 && (x - t) * d >= 0.0;
    } else {
      assert (t - x) * s > 0.0 && (t - x) * d > 0.0;
    }
  }
  // ---- diagonal matrices ----

  ghost predicate Diagonal(a: Mat, n: nat)
    requires IsMat(a, n, n)
  {
    forall i, j :: 0 <= i < n && 0 <= j < n && i != j ==> a[i][j] == 0.0
  }

  /** Off the diagonal the left block is zero; from `col` on its diagonal is that of the input. */
  ghost predicate StillDiagonal(m: Mat, a: Mat, n: nat, col: nat)
    requires IsMat(m, n, 2 * n) && IsMat(a, n, n)
  {
    && (forall i, j :: 0 <= i < n && 0 <= j < n && i != j ==> m[i][j] == 0.0)
    && (forall i :: col <= i < n ==> m[i][i] == a[i][i])
  }

  lemma {:induction false} DiagonalPivot(m: Mat, n: nat, col: nat, upto: nat)
    requires IsMat(m, n, 2 * n) && col < upto <= n
    requires forall r :: col < r < n ==> m[r][col] == 0.0
    ensures PivotRow(m, col, upto) == col
  {
    if upto > col + 1 {
      DiagonalPivot(m, n, col, upto - 1);
    }
  }

  lemma {:induction false} NothingToClear(m: Mat, n: nat, col: nat, upto: nat)
    requires IsMat(m, n, 2 * n) && col < n && upto <= n
    requires forall r :: 0 <= r < n && r != col ==> m[r][col] == 0.0
    ensures ClearColumn(m, 2 * n, col, upto) == m
  {
    if upto > 0 {
      NothingToClear(m, n, col, upto - 1);
      if upto - 1 != col {
        assert Minus(m[upto - 1], 0.0, m[col]) == m[upto - 1];
      }
    }
  }

  lemma DiagonalColumn(m: Mat, a: Mat, n: nat, col: nat)
    requires IsMat(m, n, 2 * n) && IsMat(a, n, n) && col < n && StillDiagonal(m, a, n, col)
    ensures ReduceColumn(m, n, col).Some? <==> Abs(a[col][col]) >= TINY
    ensures ReduceColumn(m, n, col).Some? ==> StillDiagonal(ReduceColumn(m, n, col).value, a, n, col + 1)
  {
    DiagonalPivot(m, n, col, n);
    if ReduceColumn(m, n, col).Some? {
      var s := SwapRows(m, col, col);
      assert s == m;
      var t := m[col := Scaled(m[col], m[col][col])];
      NothingToClear(t, n, col, n);
    }
  }

  /** A diagonal matrix is reduced exactly as far as its entries reach the threshold. */
  lemma {:induction false} DiagonalReduce(a: Mat, n: nat, cols: nat)
    requires IsMat(a, n, n) && cols <= n && Diagonal(a, n)
    ensures Reduce(a, n, cols).Some? <==> forall i :: 0 <= i < cols ==> Abs(a[i][i]) >= TINY
    ensures Reduce(a, n, cols).Some? ==> StillDiagonal(Reduce(a, n, cols).value, a, n, cols)
  {
    hide ReduceColumn, Abs;
    if cols > 0 {
      DiagonalReduce(a, n, cols - 1);
      if Reduce(a, n, cols - 1).Some? {
        DiagonalColumn(Reduce(a, n, cols - 1).value, a, n, cols - 1);
      }
    }
  }
}
