/** Real vectors and row-major matrices: sums, dot products, products of matrices. */
module Matrix {

  type Vec = seq<real>
  type Mat = seq<Vec>

  predicate IsMat(m: Mat, rows: nat, cols: nat) {
    |m| == rows && forall i :: 0 <= i < rows ==> |m[i]| == cols
  }

  /** Left-to-right sum, in the order of an accumulating loop. */
  ghost function Sum(s: Vec): real {
    if s == [] then 0.0 else Sum(s[..|s| - 1]) + s[|s| - 1]
  }

  ghost function Products(a: Vec, b: Vec): (p: Vec)
    requires |a| == |b|
    ensures |p| == |a|
  {
    seq(|a|, k requires 0 <= k < |a| => a[k] * b[k])
  }

  ghost function Dot(a: Vec, b: Vec): real
    requires |a| == |b|
  {
    Sum(Products(a, b))
  }

  ghost function Column(m: Mat, j: nat): (c: Vec)
    requires forall i :: 0 <= i < |m| ==> j < |m[i]|
    ensures |c| == |m|
  {
    seq(|m|, i requires 0 <= i < |m| => m[i][j])
  }

  ghost function Mul(a: Mat, b: Mat, p: nat, q: nat, r: nat): (m: Mat)
    requires IsMat(a, p, q) && IsMat(b, q, r)
    ensures IsMat(m, p, r)
  {
    seq(p, i requires 0 <= i < p => seq(r, j requires 0 <= j < r => Dot(a[i], Column(b, j))))
  }

  ghost function Apply(a: Mat, v: Vec): (w: Vec)
    requires IsMat(a, |a|, |v|)
    ensures |w| == |a|
  {
    seq(|a|, i requires 0 <= i < |a| => Dot(a[i], v))
  }

  function Unit(n: nat, i: nat): (v: Vec)
    ensures |v| == n
  {
    seq(n, j => if i == j then 1.0 else 0.0)
  }

  function Identity(n: nat): (m: Mat)
    ensures IsMat(m, n, n)
  {
    seq(n, i requires 0 <= i < n => Unit(n, i))
  }

  ghost predicate TwoSidedInverse(a: Mat, b: Mat, n: nat)
    requires IsMat(a, n, n) && IsMat(b, n, n)
  {
    Mul(a, b, n, n, n) == Identity(n) && Mul(b, a, n, n, n) == Identity(n)
  }

  // ---- sums ----

  lemma {:induction false} SumUpdate(s: Vec, k: nat, x: real)
    requires k < |s|
    ensures Sum(s[k := x]) == Sum(s) - s[k] + x
  {
    var t := s[k := x];
    if k == |s| - 1 {
      assert t[..|s| - 1] == s[..|s| - 1];
    } else {
      SumUpdate(s[..|s| - 1], k, x);
      assert t[..|s| - 1] == s[..|s| - 1][k := x];
    }
  }

  /** Two entries may change as long as their total does not. */
  lemma SumExchange(s: Vec, t: Vec, a: nat, b: nat)
    requires |s| == |t| && a < |s| && b < |s| && a != b
    requires forall k :: 0 <= k < |s| && k != a && k != b ==> s[k] == t[k]
    requires s[a] + s[b] == t[a] + t[b]
    ensures Sum(s) == Sum(t)
  {
    SumUpdate(s, a, t[a]);
    SumUpdate(s[a := t[a]], b, t[b]);
    assert s[a := t[a]][b := t[b]] == t;
  }

  /** Two factors-pairs may change as long as the sum of their products does not. */
  lemma DotExchange(a: Vec, b: Vec, c: Vec, d: Vec, p: nat, q: nat)
    requires |a| == |b| == |c| == |d| && p < |a| && q < |a| && p != q
    requires forall k :: 0 <= k < |a| && k != p && k != q ==> a[k] == c[k] && b[k] == d[k]
    requires a[p] * b[p] + a[q] * b[q] == c[p] * d[p] + c[q] * d[q]
    ensures Dot(a, b) == Dot(c, d)
  {
    hide Sum;
    var s, t := Products(a, b), Products(c, d);
    forall k | 0 <= k < |a| && k != p && k != q ensures s[k] == t[k] {
      assert a[k] == c[k] && b[k] == d[k];
    }
    SumExchange(s, t, p, q);
  }

  lemma {:induction false} SumZero(s: Vec)
    requires forall k :: 0 <= k < |s| ==> s[k] == 0.0
    ensures Sum(s) == 0.0
  {
    if s != [] {
      SumZero(s[..|s| - 1]);
    }
  }

  lemma {:induction false} SumLinear(a: Vec, b: Vec, f: real, c: Vec)
    requires |a| == |b| == |c|
    requires forall k :: 0 <= k < |a| ==> c[k] == a[k] + f * b[k]
    ensures Sum(c) == Sum(a) + f * Sum(b)
  {
    if a != [] {
      var n := |a| - 1;
      SumLinear(a[..n], b[..n], f, c[..n]);
      assert f * Sum(b) == f * Sum(b[..n]) + f * b[n];
    }
  }

  /** Dot product is linear in its first argument. */
  lemma DotLinear(a: Vec, b: Vec, f: real, c: Vec, v: Vec)
    requires |a| == |b| == |c| == |v|
    requires forall k :: 0 <= k < |a| ==> c[k] == a[k] + f * b[k]
    ensures Dot(c, v) == Dot(a, v) + f * Dot(b, v)
  {
    forall k | 0 <= k < |a| ensures Products(c, v)[k] == Products(a, v)[k] + f * Products(b, v)[k] {
      assert (a[k] + f * b[k]) * v[k] == a[k] * v[k] + f * (b[k] * v[k]);
    }
    SumLinear(Products(a, v), Products(b, v), f, Products(c, v));
  }

  lemma DotScale(a: Vec, f: real, c: Vec, v: Vec)
    requires |a| == |c| == |v|
    requires forall k :: 0 <= k < |a| ==> c[k] == f * a[k]
    ensures Dot(c, v) == f * Dot(a, v)
  {
    var z := seq(|a|, _ => 0.0);
    SumZero(Products(z, v));
    DotLinear(z, a, f, c, v);
  }

  lemma DotUnit(n: nat, i: nat, v: Vec)
    requires i < n == |v|
    ensures Dot(Unit(n, i), v) == v[i]
  {
    var p := Products(Unit(n, i), v);
    SumUpdate(p, i, 0.0);
    SumZero(p[i := 0.0]);
  }

  // ---- products ----

  ghost function RowTimes(v: Vec, m: Mat, cols: nat): (w: Vec)
    requires IsMat(m, |v|, cols)
    ensures |w| == cols
  {
    seq(cols, j requires 0 <= j < cols => Dot(v, Column(m, j)))
  }

  lemma ProductsPrefix(a: Vec, b: Vec)
    requires |a| == |b| > 0
    ensures Products(a, b)[..|a| - 1] == Products(a[..|a| - 1], b[..|a| - 1])
    ensures Dot(a, b) == Dot(a[..|a| - 1], b[..|a| - 1]) + a[|a| - 1] * b[|a| - 1]
  {
    var n := |a| - 1;
    forall k | 0 <= k < n ensures Products(a, b)[k] == Products(a[..n], b[..n])[k] {
    }
    assert Products(a, b)[..n] == Products(a[..n], b[..n]);
  }

  /** Moving one row of `m` across: v . (m d) = (v m) . d. */
  lemma {:induction false} DotApply(v: Vec, m: Mat, d: Vec)
    requires IsMat(m, |v|, |d|)
    ensures Dot(v, Apply(m, d)) == Dot(RowTimes(v, m, |d|), d)
  {
    var n := |v|;
    if n == 0 {
      EmptyRowTimes(v, m, d);
    } else {
      hide Sum, Dot, Products;
      var v', m' := v[..n - 1], m[..n - 1];
      DotApply(v', m', d);
      ProductsPrefix(v, Apply(m, d));
      assert Apply(m, d)[..n - 1] == Apply(m', d);
      forall j | 0 <= j < |d|
        ensures RowTimes(v, m, |d|)[j] == RowTimes(v', m', |d|)[j] + v[n - 1] * m[n - 1][j]
      {
        ProductsPrefix(v, Column(m, j));
        assert Column(m, j)[..n - 1] == Column(m', j);
      }
      DotLinear(RowTimes(v', m', |d|), m[n - 1], v[n - 1], RowTimes(v, m, |d|), d);
    }
  }

  lemma EmptyRowTimes(v: Vec, m: Mat, d: Vec)
    requires v == [] && m == []
    ensures Dot(v, Apply(m, d)) == 0.0 && Dot(RowTimes(v, m, |d|), d) == 0.0
  {
    forall k | 0 <= k < |d| ensures Products(RowTimes(v, m, |d|), d)[k] == 0.0 {
      assert Products(v, Column(m, k)) == [];
    }
    SumZero(Products(RowTimes(v, m, |d|), d));
    assert Products(v, Apply(m, d)) == [];
  }

  /** A product that is the identity undoes the matrix it is multiplied with. */
  lemma ApplyInverse(a: Mat, b: Mat, v: Vec, n: nat)
    requires IsMat(a, n, n) && IsMat(b, n, n) && |v| == n
    requires Mul(a, b, n, n, n) == Identity(n)
    ensures Apply(a, Apply(b, v)) == v
  {
    forall i | 0 <= i < n ensures Apply(a, Apply(b, v))[i] == v[i] {
      DotApply(a[i], b, v);
      assert RowTimes(a[i], b, n) == Mul(a, b, n, n, n)[i];
      DotUnit(n, i, v);
    }
  }
}
