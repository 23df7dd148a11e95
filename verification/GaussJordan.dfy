/** The elimination behind src/linear_xform.cpp as a function on rows, and why it inverts. */
module GaussJordan {
  import opened Wrappers
  import opened Matrix

  /** Pivots smaller than this make the source give up. */
  const TINY: real := 0.000000000000001

  function Abs(x: real): real {
    if x < 0.0 then -x else x
  }

  /** First row in [col, upto) with the largest magnitude in column `col`. */
  function PivotRow(m: Mat, col: nat, upto: nat): (p: nat)
    requires col < upto <= |m| && forall i :: 0 <= i < |m| ==> col < |m[i]|
    ensures col <= p < upto
    ensures forall r :: col <= r < upto ==> Abs(m[r][col]) <= Abs(m[p][col])
    ensures forall r :: col <= r < p ==> Abs(m[r][col]) < Abs(m[p][col])
  {
    if upto == col + 1 then col
    else
      var q := PivotRow(m, col, upto - 1);
      if Abs(m[upto - 1][col]) > Abs(m[q][col]) then upto - 1 else q
  }

  function Augment(a: Mat, n: nat): (m: Mat)
    requires IsMat(a, n, n)
    ensures IsMat(m, n, 2 * n)
  {
    seq(n, i requires 0 <= i < n => a[i] + Unit(n, i))
  }

  function SwapRows(m: Mat, a: nat, b: nat): Mat
    requires a < |m| && b < |m|
  {
    m[a := m[b]][b := m[a]]
  }

  function Scaled(row: Vec, d: real): (v: Vec)
    requires d != 0.0
    ensures |v| == |row|
  {
    seq(|row|, j requires 0 <= j < |row| => row[j] / d)
  }

  function Minus(row: Vec, f: real, other: Vec): (v: Vec)
    requires |row| == |other|
    ensures |v| == |row|
  {
    seq(|row|, j requires 0 <= j < |row| => row[j] - f * other[j])
  }

  /** Subtract from every row but `col`, among the first `upto`, its multiple of row `col`. */
  function ClearColumn(m: Mat, w: nat, col: nat, upto: nat): (r: Mat)
    requires IsMat(m, |m|, w) && col < |m| && col < w && upto <= |m|
    ensures IsMat(r, |m|, w) && r[col] == m[col]
    ensures forall i :: upto <= i < |m| ==> r[i] == m[i]
  {
    if upto == 0 then m
    else
      var p := ClearColumn(m, w, col, upto - 1);
      if upto - 1 == col then p else p[upto - 1 := Minus(p[upto - 1], p[upto - 1][col], p[col])]
  }

  function ReduceColumn(m: Mat, n: nat, col: nat): (r: Option<Mat>)
    requires IsMat(m, n, 2 * n) && col < n
    ensures r.Some? ==> IsMat(r.value, n, 2 * n)
  {
    var p := PivotRow(m, col, n);
    if Abs(m[p][col]) < TINY then None
    else
      var s := SwapRows(m, col, p);
      Some(ClearColumn(s[col := Scaled(s[col], s[col][col])], 2 * n, col, n))
  }

  /** The augmented matrix after the first `cols` columns, unless a pivot was too small. */
  function Reduce(a: Mat, n: nat, cols: nat): (r: Option<Mat>)
    requires IsMat(a, n, n) && cols <= n
    ensures r.Some? ==> IsMat(r.value, n, 2 * n)
  {
    if cols == 0 then Some(Augment(a, n))
    else match Reduce(a, n, cols - 1)
      case None => None
      case Some(m) => ReduceColumn(m, n, cols - 1)
  }

  function RightBlock(m: Mat, n: nat): (r: Mat)
    requires IsMat(m, n, 2 * n)
    ensures IsMat(r, n, n)
  {
    seq(n, i requires 0 <= i < n => m[i][n..])
  }

  function Inverse(a: Mat, n: nat): (r: Option<Mat>)
    requires IsMat(a, n, n)
    ensures r.Some? ==> IsMat(r.value, n, n)
  {
    match Reduce(a, n, n)
    case None => None
    case Some(m) => Some(RightBlock(m, n))
  }

  // ---- what every elementary row operation keeps ----

  /** Columns below `cols` are those of the identity. */
  ghost predicate Cleared(m: Mat, n: nat, cols: nat)
    requires IsMat(m, n, 2 * n) && cols <= n
  {
    forall i, j :: 0 <= i < n && 0 <= j < cols ==> m[i][j] == if i == j then 1.0 else 0.0
  }

  /** A row [l | x] with x a = l. */
  ghost predicate Tracks(row: Vec, a: Mat, n: nat)
    requires IsMat(a, n, n)
  {
    |row| == 2 * n && forall j :: 0 <= j < n ==> Dot(row[n..], Column(a, j)) == row[j]
  }

  /** g m = [a | 1]: the elimination can be undone from the left. */
  ghost predicate Recovers(g: Mat, m: Mat, a: Mat, n: nat)
    requires IsMat(m, n, 2 * n) && IsMat(a, n, n)
  {
    && IsMat(g, n, n)
    && forall i, j :: 0 <= i < n && 0 <= j < 2 * n ==> Dot(g[i], Column(m, j)) == Augment(a, n)[i][j]
  }

  lemma TracksScaled(row: Vec, d: real, a: Mat, n: nat)
    requires IsMat(a, n, n) && Tracks(row, a, n) && d != 0.0
    ensures Tracks(Scaled(row, d), a, n)
  {
    var s := Scaled(row, d);
    forall j | 0 <= j < n ensures Dot(s[n..], Column(a, j)) == s[j] {
      DotScale(row[n..], 1.0 / d, s[n..], Column(a, j));
    }
  }

  lemma TracksMinus(row: Vec, f: real, other: Vec, a: Mat, n: nat)
    requires IsMat(a, n, n) && Tracks(row, a, n) && Tracks(other, a, n)
    ensures Tracks(Minus(row, f, other), a, n)
  {
    var s := Minus(row, f, other);
    forall j | 0 <= j < n ensures Dot(s[n..], Column(a, j)) == s[j] {
      DotLinear(row[n..], other[n..], -f, s[n..], Column(a, j));
    }
  }

  // The column operations that undo the row operations.

  ghost function SwapColumns(g: Mat, n: nat, p: nat, q: nat): (h: Mat)
    requires IsMat(g, n, n) && p < n && q < n
    ensures IsMat(h, n, n) && forall i :: 0 <= i < n ==> h[i] == g[i][p := g[i][q]][q := g[i][p]]
  {
    seq(n, i requires 0 <= i < n => g[i][p := g[i][q]][q := g[i][p]])
  }

  ghost function TimesAt(v: Vec, c: nat, d: real): Vec
    requires c < |v|
  {
    v[c := v[c] * d]
  }

  ghost function PlusAt(v: Vec, c: nat, r: nat, f: real): Vec
    requires c < |v| && r < |v|
  {
    v[c := v[c] + v[r] * f]
  }

  ghost function MinusAt(v: Vec, r: nat, f: real, c: nat): Vec
    requires c < |v| && r < |v|
  {
    v[r := v[r] - f * v[c]]
  }

  ghost function ScaleColumn(g: Mat, n: nat, c: nat, d: real): (h: Mat)
    requires IsMat(g, n, n) && c < n
    ensures IsMat(h, n, n) && forall i :: 0 <= i < n ==> h[i] == TimesAt(g[i], c, d)
  {
    seq(n, i requires 0 <= i < n => TimesAt(g[i], c, d))
  }

  ghost function AddColumn(g: Mat, n: nat, c: nat, r: nat, f: real): (h: Mat)
    requires IsMat(g, n, n) && c < n && r < n
    ensures IsMat(h, n, n) && forall i :: 0 <= i < n ==> h[i] == PlusAt(g[i], c, r, f)
  {
    seq(n, i requires 0 <= i < n => PlusAt(g[i], c, r, f))
  }

  lemma RecoverSwap(g: Mat, m: Mat, a: Mat, n: nat, p: nat, q: nat) returns (h: Mat)
    requires IsMat(m, n, 2 * n) && IsMat(a, n, n) && Recovers(g, m, a, n) && p < n && q < n
    ensures Recovers(h, SwapRows(m, p, q), a, n)
  {
    hide Dot, Augment;
    var m' := SwapRows(m, p, q);
    h := SwapColumns(g, n, p, q);
    if p == q {
      assert forall i :: 0 <= i < n ==> h[i] == g[i];
      assert h == g && m' == m;
      return;
    }
    forall i, j | 0 <= i < n && 0 <= j < 2 * n ensures Dot(h[i], Column(m', j)) == Augment(a, n)[i][j] {
      DotExchange(h[i], Column(m', j), g[i], Column(m, j), p, q);
    }
  }

  lemma RecoverScale(g: Mat, m: Mat, a: Mat, n: nat, c: nat, d: real) returns (h: Mat)
    requires IsMat(m, n, 2 * n) && IsMat(a, n, n) && Recovers(g, m, a, n) && c < n && d != 0.0
    ensures Recovers(h, m[c := Scaled(m[c], d)], a, n)
  {
    hide Dot, Augment, Column, Scaled, ScaleColumn;
    var m' := m[c := Scaled(m[c], d)];
    h := ScaleColumn(g, n, c, d);
    forall i, j | 0 <= i < n && 0 <= j < 2 * n ensures Dot(h[i], Column(m', j)) == Augment(a, n)[i][j] {
      ColumnScaled(m, 2 * n, c, d, j);
      DotScaled(g[i], Column(m, j), h[i], Column(m', j), c, d);
    }
  }

  lemma ColumnScaled(m: Mat, w: nat, c: nat, d: real, j: nat)
    requires IsMat(m, |m|, w) && c < |m| && d != 0.0 && j < w
    ensures Column(m[c := Scaled(m[c], d)], j) == Column(m, j)[c := Column(m, j)[c] / d]
  {
  }

  lemma ColumnMinus(m: Mat, w: nat, r: nat, c: nat, f: real, j: nat)
    requires IsMat(m, |m|, w) && r < |m| && c < |m| && r != c && j < w
    ensures Column(m[r := Minus(m[r], f, m[c])], j)
         == MinusAt(Column(m, j), r, f, c)
  {
    var m' := m[r := Minus(m[r], f, m[c])];
    forall i | 0 <= i < |m|
      ensures Column(m', j)[i] == MinusAt(Column(m, j), r, f, c)[i]
    {
      assert i != r ==> m'[i] == m[i];
    }
  }

  lemma DotScaled(a: Vec, b: Vec, a': Vec, b': Vec, c: nat, d: real)
    requires |a| == |b| == |a'| == |b'| && c < |a| && d != 0.0
    requires a' == TimesAt(a, c, d) && b' == b[c := b[c] / d]
    ensures Dot(a', b') == Dot(a, b)
  {
    forall k | 0 <= k < |a| ensures Products(a', b')[k] == Products(a, b)[k] {
      if k == c {
        ScaleCancels(a[c], d, b[c]);
      }
    }
    assert Products(a', b') == Products(a, b);
  }

  lemma ScaleCancels(x: real, d: real, y: real)
    requires d != 0.0
    ensures (x * d) * (y / d) == x * y
  {
    assert d * (y / d) == y;
    assert (x * d) * (y / d) == x * (d * (y / d));
  }

  lemma RecoverMinus(g: Mat, m: Mat, a: Mat, n: nat, r: nat, c: nat, f: real) returns (h: Mat)
    requires IsMat(m, n, 2 * n) && IsMat(a, n, n) && Recovers(g, m, a, n) && r < n && c < n && r != c
    ensures Recovers(h, m[r := Minus(m[r], f, m[c])], a, n)
  {
    hide Dot, Augment, Column, Minus, AddColumn;
    var m' := m[r := Minus(m[r], f, m[c])];
    h := AddColumn(g, n, c, r, f);
    forall i, j | 0 <= i < n && 0 <= j < 2 * n ensures Dot(h[i], Column(m', j)) == Augment(a, n)[i][j] {
      ColumnMinus(m, 2 * n, r, c, f, j);
      DotMinus(g[i], Column(m, j), h[i], Column(m', j), r, c, f);
    }
  }

  lemma DotMinus(a: Vec, b: Vec, a': Vec, b': Vec, r: nat, c: nat, f: real)
    requires |a| == |b| == |a'| == |b'| && r < |a| && c < |a| && r != c
    requires a' == PlusAt(a, c, r, f) && b' == MinusAt(b, r, f, c)
    ensures Dot(a', b') == Dot(a, b)
  {
    hide Dot;
    TradeOff(a[r], a[c], b[r], b[c], f);
    DotExchange(a', b', a, b, r, c);
  }

  lemma TradeOff(x: real, y: real, u: real, v: real, f: real)
    ensures x * (u - f * v) + (y + x * f) * v == x * u + y * v
  {
  }

  /** Clearing column `col` keeps the earlier columns and makes `col` a unit column. */
  lemma {:induction false} ClearKeeps(m: Mat, a: Mat, n: nat, col: nat, upto: nat, g: Mat) returns (h: Mat)
    requires IsMat(m, n, 2 * n) && IsMat(a, n, n) && col < n && upto <= n
    requires forall i :: 0 <= i < n ==> Tracks(m[i], a, n)
    requires Recovers(g, m, a, n)
    requires Cleared(m, n, col) && m[col][col] == 1.0
    ensures var r := ClearColumn(m, 2 * n, col, upto);
      && (forall i :: 0 <= i < n ==> Tracks(r[i], a, n))
      && Recovers(h, r, a, n)
      && Cleared(r, n, col)
      && forall i :: 0 <= i < upto ==> r[i][col] == if i == col then 1.0 else 0.0
  {
    hide Tracks, Recovers;
    if upto == 0 {
      h := g;
    } else {
      var p := ClearColumn(m, 2 * n, col, upto - 1);
      h := ClearKeeps(m, a, n, col, upto - 1, g);
      var k := upto - 1;
      if k != col {
        TracksMinus(p[k], p[k][col], p[col], a, n);
        h := RecoverMinus(h, p, a, n, k, col, p[k][col]);
      }
    }
  }

  lemma SwapCleared(m: Mat, n: nat, col: nat, p: nat)
    requires IsMat(m, n, 2 * n) && col <= p < n && Cleared(m, n, col)
    ensures Cleared(SwapRows(m, col, p), n, col)
  {
    var s := SwapRows(m, col, p);
    forall i, j | 0 <= i < n && 0 <= j < col ensures s[i][j] == if i == j then 1.0 else 0.0 {
      if i == col {
        assert m[p][j] == 0.0;
      } else if i == p {
        assert m[col][j] == 0.0;
      } else {
        assert s[i] == m[i];
      }
    }
  }

  lemma ScaleCleared(m: Mat, n: nat, col: nat, d: real)
    requires IsMat(m, n, 2 * n) && col < n && Cleared(m, n, col) && d != 0.0
    ensures Cleared(m[col := Scaled(m[col], d)], n, col)
  {
    forall j | 0 <= j < col ensures Scaled(m[col], d)[j] == 0.0 {
      assert m[col][j] == 0.0;
    }
  }

  /** Bringing the pivot row up and scaling it keeps everything and puts a one on the diagonal. */
  lemma PivotKeeps(m: Mat, a: Mat, n: nat, col: nat, p: nat, g: Mat) returns (h: Mat)
    requires IsMat(m, n, 2 * n) && IsMat(a, n, n) && col <= p < n && m[p][col] != 0.0
    requires forall i :: 0 <= i < n ==> Tracks(m[i], a, n)
    requires Recovers(g, m, a, n) && Cleared(m, n, col)
    ensures var s := SwapRows(m, col, p);
      var t := s[col := Scaled(s[col], s[col][col])];
      && (forall i :: 0 <= i < n ==> Tracks(t[i], a, n))
      && Recovers(h, t, a, n) && Cleared(t, n, col) && t[col][col] == 1.0
  {
    var s := SwapRows(m, col, p);
    assert s[col][col] == m[p][col] && s[col][col] / s[col][col] == 1.0;
    SwapCleared(m, n, col, p);
    ScaleCleared(s, n, col, s[col][col]);
    h := RecoverSwap(g, m, a, n, col, p);
    h := RecoverScale(h, s, a, n, col, s[col][col]);
    var t := s[col := Scaled(s[col], s[col][col])];
    forall i | 0 <= i < n ensures Tracks(t[i], a, n) {
      assert Tracks(s[i], a, n);
      if i == col {
        TracksScaled(s[col], s[col][col], a, n);
      }
    }
  }

  lemma ReduceColumnKeeps(m: Mat, a: Mat, n: nat, col: nat, g: Mat) returns (h: Mat)
    requires IsMat(m, n, 2 * n) && IsMat(a, n, n) && col < n
    requires forall i :: 0 <= i < n ==> Tracks(m[i], a, n)
    requires Recovers(g, m, a, n) && Cleared(m, n, col)
    requires ReduceColumn(m, n, col).Some?
    ensures var r := ReduceColumn(m, n, col).value;
      (forall i :: 0 <= i < n ==> Tracks(r[i], a, n)) && Recovers(h, r, a, n) && Cleared(r, n, col + 1)
  {
    var p := PivotRow(m, col, n);
    h := PivotKeeps(m, a, n, col, p, g);
    var s := SwapRows(m, col, p);
    h := ClearKeeps(s[col := Scaled(s[col], s[col][col])], a, n, col, n, h);
  }

  lemma AugmentTracks(a: Mat, n: nat) returns (g: Mat)
    requires IsMat(a, n, n)
    ensures forall i :: 0 <= i < n ==> Tracks(Augment(a, n)[i], a, n)
    ensures Recovers(g, Augment(a, n), a, n)
  {
    g := Identity(n);
    forall i | 0 <= i < n ensures Tracks(Augment(a, n)[i], a, n) {
      assert Augment(a, n)[i][n..] == Unit(n, i);
      forall j | 0 <= j < n ensures Dot(Unit(n, i), Column(a, j)) == a[i][j] {
        DotUnit(n, i, Column(a, j));
      }
    }
    forall i, j | 0 <= i < n && 0 <= j < 2 * n
      ensures Dot(g[i], Column(Augment(a, n), j)) == Augment(a, n)[i][j]
    {
      DotUnit(n, i, Column(Augment(a, n), j));
    }
  }

  lemma {:induction false} ReduceKeeps(a: Mat, n: nat, cols: nat) returns (g: Mat)
    requires IsMat(a, n, n) && cols <= n && Reduce(a, n, cols).Some?
    ensures var m := Reduce(a, n, cols).value;
      (forall i :: 0 <= i < n ==> Tracks(m[i], a, n)) && Recovers(g, m, a, n) && Cleared(m, n, cols)
  {
    if cols == 0 {
      g := AugmentTracks(a, n);
    } else {
      g := ReduceKeeps(a, n, cols - 1);
      g := ReduceColumnKeeps(Reduce(a, n, cols - 1).value, a, n, cols - 1, g);
    }
  }

  lemma RightBlockTimes(m: Mat, a: Mat, n: nat)
    requires IsMat(m, n, 2 * n) && IsMat(a, n, n) && Cleared(m, n, n)
    requires forall i :: 0 <= i < n ==> Tracks(m[i], a, n)
    ensures Mul(RightBlock(m, n), a, n, n, n) == Identity(n)
  {
    var p := Mul(RightBlock(m, n), a, n, n, n);
    forall i | 0 <= i < n ensures p[i] == Identity(n)[i] {
      forall j | 0 <= j < n ensures p[i][j] == Identity(n)[i][j] {
        assert Tracks(m[i], a, n);
      }
    }
  }

  lemma TimesRightBlock(m: Mat, a: Mat, n: nat, g: Mat)
    requires IsMat(m, n, 2 * n) && IsMat(a, n, n) && Cleared(m, n, n) && Recovers(g, m, a, n)
    ensures Mul(a, RightBlock(m, n), n, n, n) == Identity(n)
  {
    var r := RightBlock(m, n);
    var p := Mul(a, r, n, n, n);
    forall i | 0 <= i < n ensures p[i] == Identity(n)[i] {
      forall j | 0 <= j < n ensures g[i][j] == a[i][j] {
        DotUnitColumn(g[i], m, n, j);
      }
      assert g[i] == a[i];
      forall j | 0 <= j < n ensures p[i][j] == Identity(n)[i][j] {
        assert Column(r, j) == Column(m, n + j);
        assert Dot(g[i], Column(m, n + j)) == Augment(a, n)[i][n + j];
      }
    }
  }

  /** Whenever the elimination succeeds, its result is the inverse from both sides. */
  lemma InverseIsTwoSided(a: Mat, n: nat)
    requires IsMat(a, n, n)
    ensures Inverse(a, n).Some? ==> TwoSidedInverse(a, Inverse(a, n).value, n)
  {
    if Inverse(a, n).Some? {
      var m := Reduce(a, n, n).value;
      var g := ReduceKeeps(a, n, n);
      RightBlockTimes(m, a, n);
      TimesRightBlock(m, a, n, g);
    }
  }

  lemma DotUnitColumn(v: Vec, m: Mat, n: nat, j: nat)
    requires |v| == n && IsMat(m, n, 2 * n) && Cleared(m, n, n) && j < n
    ensures Dot(v, Column(m, j)) == v[j]
  {
    var p := Products(v, Column(m, j));
    SumUpdate(p, j, 0.0);
    SumZero(p[j := 0.0]);
  }

  lemma OneByOne(x: real, y: real)
    requires x * y == 1.0
    ensures Mul([[x]], [[y]], 1, 1, 1) == Identity(1)
  {
    var p := Products([x], Column([[y]], 0));
    assert p == [x * y] && p[..0] == [];
    assert Sum(p) == Sum(p[..0]) + p[0];
    assert Mul([[x]], [[y]], 1, 1, 1)[0] == [1.0] == Identity(1)[0];
  }

  /** The converse fails: the fixed threshold also rejects invertible matrices with small entries. */
  lemma SmallInvertibleIsRejected()
    ensures TwoSidedInverse([[TINY / 2.0]], [[2.0 / TINY]], 1) && Inverse([[TINY / 2.0]], 1).None?
  {
    OneByOne(TINY / 2.0, 2.0 / TINY);
    OneByOne(2.0 / TINY, TINY / 2.0);
    var a: Mat := [[TINY / 2.0]];
    assert Augment(a, 1)[0][0] == TINY / 2.0;
    assert ReduceColumn(Augment(a, 1), 1, 0).None?;
    assert Reduce(a, 1, 0) == Some(Augment(a, 1));
    assert Reduce(a, 1, 1).None?;
  }

  // ---- which rejected matrices are singular ----

  /** Elimination stopped in column `col` although the largest pivot candidate was exactly zero. */
  ghost predicate StopsAtZero(a: Mat, n: nat, col: nat)
    requires IsMat(a, n, n)
  {
    && col < n && Reduce(a, n, col).Some?
    && var m := Reduce(a, n, col).value;
    m[PivotRow(m, col, n)][col] == 0.0
  }

  /** The vector e_col minus the entries above the diagonal of column `col`. */
  ghost function NullVector(m: Mat, n: nat, col: nat): (v: Vec)
    requires IsMat(m, n, 2 * n) && col < n
    ensures |v| == n && v[col] == 1.0
  {
    seq(n, i requires 0 <= i < n => if i < col then -m[i][col] else if i == col then 1.0 else 0.0)
  }

  ghost function LeftBlock(m: Mat, n: nat): (l: Mat)
    requires IsMat(m, n, 2 * n)
    ensures IsMat(l, n, n)
  {
    seq(n, i requires 0 <= i < n => m[i][..n])
  }

  lemma NullVectorIsKilled(m: Mat, n: nat, col: nat, i: nat)
    requires IsMat(m, n, 2 * n) && col < n && i < n && Cleared(m, n, col)
    requires forall r :: col <= r < n ==> m[r][col] == 0.0
    ensures Dot(m[i][..n], NullVector(m, n, col)) == 0.0
  {
    var v := NullVector(m, n, col);
    var p := Products(m[i][..n], v);
    SumUpdate(p, col, 0.0);
    var q := p[col := 0.0];
    if i < col {
      SumUpdate(q, i, 0.0);
      assert q[i] == -m[i][col] && p[col] == m[i][col];
      SumZero(q[i := 0.0]);
    } else {
      SumZero(q);
    }
  }

  lemma NullVectorOfInput(m: Mat, a: Mat, n: nat, col: nat, g: Mat)
    requires IsMat(m, n, 2 * n) && IsMat(a, n, n) && col < n && Cleared(m, n, col) && Recovers(g, m, a, n)
    requires forall r :: col <= r < n ==> m[r][col] == 0.0
    ensures forall i :: 0 <= i < n ==> Dot(a[i], NullVector(m, n, col)) == 0.0
  {
    var v, l := NullVector(m, n, col), LeftBlock(m, n);
    forall i | 0 <= i < n ensures Apply(l, v)[i] == 0.0 {
      NullVectorIsKilled(m, n, col, i);
    }
    forall i | 0 <= i < n ensures Dot(a[i], v) == 0.0 {
      DotApply(g[i], l, v);
      SumZero(Products(g[i], Apply(l, v)));
      RecoveredRow(m, a, n, g, i);
    }
  }

  lemma RecoveredRow(m: Mat, a: Mat, n: nat, g: Mat, i: nat)
    requires IsMat(m, n, 2 * n) && IsMat(a, n, n) && Recovers(g, m, a, n) && i < n
    ensures RowTimes(g[i], LeftBlock(m, n), n) == a[i]
  {
    forall j | 0 <= j < n ensures RowTimes(g[i], LeftBlock(m, n), n)[j] == a[i][j] {
      assert Column(LeftBlock(m, n), j) == Column(m, j);
      assert Dot(g[i], Column(m, j)) == Augment(a, n)[i][j];
    }
  }

  /** If no pivot candidate is left at all, the input really has no inverse. */
  lemma StopAtZeroIsSingular(a: Mat, n: nat, col: nat, b: Mat)
    requires IsMat(a, n, n) && IsMat(b, n, n) && StopsAtZero(a, n, col)
    ensures !TwoSidedInverse(a, b, n)
  {
    var m := Reduce(a, n, col).value;
    var g := ReduceKeeps(a, n, col);
    var v := NullVector(m, n, col);
    forall r | col <= r < n ensures m[r][col] == 0.0 {
      assert Abs(m[r][col]) <= Abs(m[PivotRow(m, col, n)][col]);
    }
    NullVectorOfInput(m, a, n, col, g);
    if TwoSidedInverse(a, b, n) {
      ApplyInverse(b, a, v, n);
      SumZero(Products(b[col], Apply(a, v)));
      assert false;
    }
  }
}
