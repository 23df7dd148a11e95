/** src/linear_xform.cpp: in-place matrix inversion and the pixel/world transform, over reals. */
module LinearXform {
  import opened Arithmetic
  import opened Wrappers
  import opened Matrix
  import opened GaussJordan
  import opened PivotThreshold

  // ---- flat row-major storage ----

  function Row(s: Vec, i: nat, n: nat, w: nat): (r: Vec)
    requires i < n && |s| == Times(n, w)
    ensures |r| == w
  {
    BlockFits(i, n, w);
    s[Times(i, w)..Times(i, w) + w]
  }

  /** The matrix whose row i is the i-th block of w entries. */
  function Rows(s: Vec, n: nat, w: nat): (m: Mat)
    requires |s| == Times(n, w)
    ensures IsMat(m, n, w)
  {
    seq(n, i requires 0 <= i < n => Row(s, i, n, w))
  }

  function Splice(s: Vec, x: nat, t: Vec): (r: Vec)
    requires x + |t| <= |s|
    ensures |r| == |s|
  {
    s[..x] + t + s[x + |t|..]
  }

  /** Overwriting one block replaces one row. */
  lemma RowReplaced(s: Vec, n: nat, w: nat, r: nat, row: Vec)
    requires |s| == Times(n, w) && r < n && |row| == w
    ensures Times(r, w) + w <= Times(n, w)
    ensures Rows(Splice(s, Times(r, w), row), n, w) == Rows(s, n, w)[r := row]
  {
    hide Times;
    BlockFits(r, n, w);
    var x := Times(r, w);
    var t := Splice(s, x, row);
    forall i | 0 <= i < n ensures Row(t, i, n, w) == Rows(s, n, w)[r := row][i] {
      BlockFits(i, n, w);
      var y := Times(i, w);
      if i == r {
        assert t[x..x + w] == row;
      } else {
        BlocksApart(i, r, w);
        assert t[y..y + w] == s[y..y + w];
      }
    }
  }

  lemma EntryAt(s: Vec, n: nat, w: nat, i: nat, j: nat)
    requires |s| == Times(n, w) && i < n && j < w
    ensures Times(i, w) + j < Times(n, w) && s[Times(i, w) + j] == Rows(s, n, w)[i][j]
  {
    hide Times;
    BlockFits(i, n, w);
  }

  method FindPivot(aug: array<real>, n: nat, w: nat, col: nat) returns (pivot: nat, best: real)
    requires col < n && col < w && aug.Length == Times(n, w)
    ensures pivot == PivotRow(Rows(aug[..], n, w), col, n)
    ensures best == Abs(Rows(aug[..], n, w)[pivot][col])
  {
    hide Times, Row, Abs;
    ghost var m := Rows(aug[..], n, w);
    EntryAt(aug[..], n, w, col, col);
    pivot, best := col, Abs(aug[Times(col, w) + col]);
    var row := col + 1;
    while row < n
      invariant col < row <= n
      invariant pivot == PivotRow(m, col, row) && best == Abs(m[pivot][col])
    {
      EntryAt(aug[..], n, w, row, col);
      var val := Abs(aug[Times(row, w) + col]);
      if val > best {
        best, pivot := val, row;
      }
      row := row + 1;
    }
  }

  method SwapBlocks(aug: array<real>, x: nat, y: nat, w: nat)
    requires x + w <= aug.Length && y + w <= aug.Length && (x + w <= y || y + w <= x)
    modifies aug
    ensures var was := old(aug[..]);
      aug[..] == Splice(Splice(was, x, was[y..y + w]), y, was[x..x + w])
  {
    ghost var was := aug[..];
    var j := 0;
    while j < w
      invariant 0 <= j <= w
      invariant forall k :: x <= k < x + j ==> aug[k] == was[k - x + y]
      invariant forall k :: y <= k < y + j ==> aug[k] == was[k - y + x]
      invariant forall k :: 0 <= k < aug.Length && !(x <= k < x + j) && !(y <= k < y + j) ==> aug[k] == was[k]
    {
      aug[x + j], aug[y + j] := aug[y + j], aug[x + j];
      j := j + 1;
    }
    SwapSpliced(was, aug[..], x, y, w);
  }

  lemma SwapSpliced(was: Vec, now: Vec, x: nat, y: nat, w: nat)
    requires |now| == |was| && x + w <= |was| && y + w <= |was| && (x + w <= y || y + w <= x)
    requires forall k :: x <= k < x + w ==> now[k] == was[k - x + y]
    requires forall k :: y <= k < y + w ==> now[k] == was[k - y + x]
    requires forall k :: 0 <= k < |was| && !(x <= k < x + w) && !(y <= k < y + w) ==> now[k] == was[k]
    ensures now == Splice(Splice(was, x, was[y..y + w]), y, was[x..x + w])
  {
    var mid := Splice(was, x, was[y..y + w]);
    assert mid[..x] == was[..x] && mid[x..x + w] == was[y..y + w] && mid[x + w..] == was[x + w..];
    forall k | 0 <= k < |was| ensures now[k] == Splice(mid, y, was[x..x + w])[k] {
      if y <= k < y + w {
      } else if x <= k < x + w {
        assert mid[k] == mid[x..x + w][k - x];
      } else if k < x {
        assert mid[k] == mid[..x][k];
      } else {
        assert mid[k] == mid[x + w..][k - x - w];
      }
    }
  }

  method ScaleBlock(aug: array<real>, x: nat, w: nat, diag: real)
    requires x + w <= aug.Length && diag != 0.0
    modifies aug
    ensures aug[..] == Splice(old(aug[..]), x, Scaled(old(aug[x..x + w]), diag))
  {
    ghost var was := aug[..];
    ghost var row := Scaled(was[x..x + w], diag);
    var j := 0;
    while j < w
      invariant 0 <= j <= w
      invariant forall k :: x <= k < x + j ==> aug[k] == row[k - x]
      invariant forall k :: 0 <= k < aug.Length && !(x <= k < x + j) ==> aug[k] == was[k]
    {
      aug[x + j] := aug[x + j] / diag;
      j := j + 1;
    }
  }

  method SubtractBlock(aug: array<real>, x: nat, y: nat, w: nat, factor: real)
    requires x + w <= aug.Length && y + w <= aug.Length && (x + w <= y || y + w <= x)
    modifies aug
    ensures aug[..] == Splice(old(aug[..]), x, Minus(old(aug[x..x + w]), factor, old(aug[y..y + w])))
  {
    ghost var was := aug[..];
    ghost var row := Minus(was[x..x + w], factor, was[y..y + w]);
    var j := 0;
    while j < w
      invariant 0 <= j <= w
      invariant forall k :: x <= k < x + j ==> aug[k] == row[k - x]
      invariant forall k :: 0 <= k < aug.Length && !(x <= k < x + j) ==> aug[k] == was[k]
    {
      aug[x + j] := aug[x + j] - factor * aug[y + j];
      j := j + 1;
    }
  }

  /** Copies t[y..y+w] over a[x..x+w]. */
  method CopyBlock(a: array<real>, x: nat, t: array<real>, y: nat, w: nat)
    requires x + w <= a.Length && y + w <= t.Length && a != t
    modifies a
    ensures a[..] == Splice(old(a[..]), x, t[y..y + w])
  {
    ghost var was := a[..];
    var j := 0;
    while j < w
      invariant 0 <= j <= w
      invariant forall k :: x <= k < x + j ==> a[k] == t[k - x + y]
      invariant forall k :: 0 <= k < a.Length && !(x <= k < x + j) ==> a[k] == was[k]
    {
      a[x + j] := t[y + j];
      j := j + 1;
    }
  }

  method ExchangeRows(aug: array<real>, n: nat, w: nat, a: nat, b: nat)
    requires a < n && b < n && a != b && aug.Length == Times(n, w)
    modifies aug
    ensures Rows(aug[..], n, w) == SwapRows(old(Rows(aug[..], n, w)), a, b)
  {
    hide Times;
    ghost var was := aug[..];
    BlockFits(a, n, w);
    BlockFits(b, n, w);
    BlocksApart(a, b, w);
    RowReplaced(was, n, w, a, Row(was, b, n, w));
    RowReplaced(Splice(was, Times(a, w), Row(was, b, n, w)), n, w, b, Row(was, a, n, w));
    SwapBlocks(aug, Times(a, w), Times(b, w), w);
  }

  method ScaleRow(aug: array<real>, n: nat, w: nat, col: nat, diag: real)
    requires col < n && aug.Length == Times(n, w) && diag != 0.0
    modifies aug
    ensures Rows(aug[..], n, w) == old(Rows(aug[..], n, w))[col := Scaled(old(Rows(aug[..], n, w))[col], diag)]
  {
    hide Times;
    RowReplaced(aug[..], n, w, col, Scaled(Row(aug[..], col, n, w), diag));
    ScaleBlock(aug, Times(col, w), w, diag);
  }

  method SubtractRow(aug: array<real>, n: nat, w: nat, row: nat, col: nat, factor: real)
    requires row < n && col < n && row != col && aug.Length == Times(n, w)
    modifies aug
    ensures var m := old(Rows(aug[..], n, w)); Rows(aug[..], n, w) == m[row := Minus(m[row], factor, m[col])]
  {
    hide Times;
    BlockFits(col, n, w);
    BlocksApart(row, col, w);
    RowReplaced(aug[..], n, w, row, Minus(Row(aug[..], row, n, w), factor, Row(aug[..], col, n, w)));
    SubtractBlock(aug, Times(row, w), Times(col, w), w, factor);
  }

  method EliminateColumn(aug: array<real>, n: nat, w: nat, col: nat)
    requires col < n && col < w && aug.Length == Times(n, w)
    modifies aug
    ensures Rows(aug[..], n, w) == ClearColumn(old(Rows(aug[..], n, w)), w, col, n)
  {
    hide Times, Row, Minus;
    ghost var m := Rows(aug[..], n, w);
    var row := 0;
    while row < n
      invariant 0 <= row <= n
      invariant Rows(aug[..], n, w) == ClearColumn(m, w, col, row)
    {
      if row != col {
        EntryAt(aug[..], n, w, row, col);
        var factor := aug[Times(row, w) + col];
        SubtractRow(aug, n, w, row, col, factor);
      }
      row := row + 1;
    }
  }

  /** Writes one row of [m | 1] into a zeroed block. */
  method FillRow(aug: array<real>, x: nat, m: array<real>, y: nat, n: nat, i: nat)
    requires i < n && x + 2 * n <= aug.Length && y + n <= m.Length && aug != m
    requires forall k :: x <= k < aug.Length ==> aug[k] == 0.0
    modifies aug
    ensures aug[..] == Splice(old(aug[..]), x, m[y..y + n] + Unit(n, i))
  {
    CopyBlock(aug, x, m, y, n);
    aug[x + n + i] := 1.0;
  }

  method FillAugmented(m: array<real>, n: nat, w: nat) returns (aug: array<real>)
    requires m.Length == Times(n, n) && w == 2 * n
    ensures fresh(aug) && aug.Length == Times(n, w)
    ensures Rows(aug[..], n, w) == Augment(Rows(m[..], n, n), n)
  {
    hide Times;
    ghost var target := Augment(Rows(m[..], n, n), n);
    aug := new real[Times(n, w)](_ => 0.0);
    TimesNext(0, w);
    TimesNext(0, n);
    var i, x, y := 0, 0, 0;
    while i < n
      invariant 0 <= i <= n && fresh(aug) && aug.Length == Times(n, w) && x == Times(i, w) && y == Times(i, n)
      invariant forall k :: 0 <= k < i ==> Rows(aug[..], n, w)[k] == target[k]
      invariant forall k :: x <= k < aug.Length ==> aug[k] == 0.0
    {
      BlockFits(i, n, w);
      BlockFits(i, n, n);
      assert target[i] == m[y..y + n] + Unit(n, i);
      RowReplaced(aug[..], n, w, i, target[i]);
      FillRow(aug, x, m, y, n, i);
      TimesNext(i, w);
      TimesNext(i, n);
      i, x, y := i + 1, x + w, y + n;
    }
    assert Rows(aug[..], n, w) == target;
  }

  method CopyRightBlock(aug: array<real>, m: array<real>, n: nat, w: nat)
    requires m.Length == Times(n, n) && aug.Length == Times(n, w) && w == 2 * n && aug != m
    modifies m
    ensures Rows(m[..], n, n) == RightBlock(Rows(aug[..], n, w), n)
  {
    hide Times, Splice;
    ghost var r := RightBlock(Rows(aug[..], n, w), n);
    TimesNext(0, w);
    TimesNext(0, n);
    var i, x, y := 0, 0, 0;
    while i < n
      invariant 0 <= i <= n && x == Times(i, w) && y == Times(i, n) && aug[..] == old(aug[..])
      invariant forall k :: 0 <= k < i ==> Rows(m[..], n, n)[k] == r[k]
    {
      BlockFits(i, n, w);
      RowReplaced(m[..], n, n, i, r[i]);
      assert aug[x + n..x + n + n] == r[i];
      CopyBlock(m, y, aug, x + n, n);
      TimesNext(i, w);
      TimesNext(i, n);
      i, x, y := i + 1, x + w, y + n;
    }
    assert Rows(m[..], n, n) == r;
  }

  /** One round of the main loop: false, with nothing changed, when the pivot is too small. */
  method EliminateStep(aug: array<real>, n: nat, w: nat, col: nat) returns (ok: bool)
    requires col < n && w == 2 * n && aug.Length == Times(n, w)
    modifies aug
    ensures ok == ReduceColumn(old(Rows(aug[..], n, w)), n, col).Some?
    ensures ok ==> ReduceColumn(old(Rows(aug[..], n, w)), n, col) == Some(Rows(aug[..], n, w))
  {
    hide Times;
    ghost var before := Rows(aug[..], n, w);
    var pivot, best := FindPivot(aug, n, w, col);
    if best < TINY {
      return false;
    }
    if pivot != col {
      ExchangeRows(aug, n, w, col, pivot);
    }
    assert Rows(aug[..], n, w) == SwapRows(before, col, pivot);
    EntryAt(aug[..], n, w, col, col);
    var diag := aug[Times(col, w) + col];
    ScaleRow(aug, n, w, col, diag);
    EliminateColumn(aug, n, w, col);
    return true;
  }

  method EliminateAll(aug: array<real>, n: nat, w: nat, ghost a: Mat) returns (ok: bool)
    requires w == 2 * n && aug.Length == Times(n, w) && IsMat(a, n, n)
    requires Rows(aug[..], n, w) == Augment(a, n)
    modifies aug
    ensures ok == Reduce(a, n, n).Some?
    ensures ok ==> Reduce(a, n, n) == Some(Rows(aug[..], n, w))
  {
    hide Times, Row, ReduceColumn, Augment;
    var col := 0;
    while col < n
      invariant 0 <= col <= n
      invariant Reduce(a, n, col) == Some(Rows(aug[..], n, w))
    {
      ok := EliminateStep(aug, n, w, col);
      if !ok {
        ReduceStays(a, n, col, n);
        return;
      }
      col := col + 1;
    }
    ok := true;
  }

  /** invert_matrix: true exactly when the elimination runs to the end; otherwise m is untouched. */
  method InvertMatrix(m: array<real>, n: nat) returns (ok: bool)
    requires m.Length == Times(n, n)
    modifies m
    ensures var inverse := Inverse(old(Rows(m[..], n, n)), n);
      if ok then inverse == Some(Rows(m[..], n, n)) else inverse.None? && m[..] == old(m[..])
    ensures ok ==> TwoSidedInverse(old(Rows(m[..], n, n)), Rows(m[..], n, n), n)
  {
    hide Times;
    ghost var a := Rows(m[..], n, n);
    var w := 2 * n;
    var aug := FillAugmented(m, n, w);
    ok := EliminateAll(aug, n, w, a);
    if ok {
      CopyRightBlock(aug, m, n, w);
      InverseIsTwoSided(a, n);
    }
  }

  lemma {:induction false} ReduceStays(a: Mat, n: nat, col: nat, upto: nat)
    requires IsMat(a, n, n) && col < upto <= n && Reduce(a, n, col).Some?
    requires ReduceColumn(Reduce(a, n, col).value, n, col).None?
    ensures Reduce(a, n, upto).None?
  {
    if upto > col + 1 {
      ReduceStays(a, n, col, upto - 1);
    }
  }

  // ---- the transform ----

  datatype Error = SizeMismatch | Singular

  lemma InMatrix(i: nat, j: nat, n: nat)
    requires i < n && j < n
    ensures 0 <= i * n + j < Times(n, n)
  {
    BlockFits(i, n, n);
  }

  /** Changing one factor changes a dot product by its partner. */
  lemma DotMoves(row: Vec, d: Vec, j: nat, t: real)
    requires |row| == |d| && j < |d|
    ensures Dot(row, d[j := d[j] + t]) - Dot(row, d) == t * row[j]
  {
    var p, q := Products(row, d), Products(row, d[j := d[j] + t]);
    assert row[j] * (d[j] + t) == row[j] * d[j] + t * row[j];
    forall k | 0 <= k < |d| ensures q[k] == p[j := p[j] + t * row[j]][k] {
      if k == j {
        assert q[k] == row[j] * (d[j] + t);
      }
    }
    assert q == p[j := p[j] + t * row[j]];
    SumUpdate(p, j, p[j] + t * row[j]);
  }

  function GetPc(pc: Vec, n: nat, i: nat, j: nat): real
    requires i < n && j < n && (pc == [] || |pc| == Times(n, n))
  {
    if pc == [] then (if i == j then 1.0 else 0.0)
    else
      BlockFits(i, n, n);
      pc[Times(i, n) + j]
  }

  datatype Xform = Xform(crpix: Vec, cdelt: Vec, crval: Vec, pc: Vec)
  {
    function NAxes(): nat { |crpix| }

    /** The vectors agree in size; an empty pc stands for the identity. */
    predicate Valid() {
      |cdelt| == |crval| == NAxes() && (pc == [] || |pc| == Times(NAxes(), NAxes()))
    }

    /** M[i][j] = cdelt[i] * pc[i][j]. */
    function Product(): (m: Mat)
      requires Valid()
      ensures IsMat(m, NAxes(), NAxes())
    {
      var n := NAxes();
      seq(n, i requires 0 <= i < n => seq(n, j requires 0 <= j < n => cdelt[i] * GetPc(pc, n, i, j)))
    }

    /** crval + M (pixel - crpix) */
    ghost function ToWorld(pixel: Vec): (r: Result<Vec, Error>)
      requires Valid()
    {
      if |pixel| != NAxes() then Err(SizeMismatch)
      else Ok(Plus(crval, Matrix.Apply(Product(), Less(pixel, crpix))))
    }

    /** crpix + M^-1 (world - crval) */
    ghost function ToPixel(world: Vec): (r: Result<Vec, Error>)
      requires Valid()
    {
      if |world| != NAxes() then Err(SizeMismatch)
      else match Inverse(Product(), NAxes())
        case None => Err(Singular)
        case Some(inv) => Ok(Plus(crpix, Matrix.Apply(inv, Less(world, crval))))
    }

    method PixelToWorld(pixel: Vec) returns (r: Result<Vec, Error>)
      requires Valid()
      ensures r == ToWorld(pixel)
    {
      var n := NAxes();
      if |pixel| != n {
        return Err(SizeMismatch);
      }
      var world: Vec := [];
      ghost var target := Plus(crval, Matrix.Apply(Product(), Less(pixel, crpix)));
      var i := 0;
      while i < n
        invariant 0 <= i <= n
        invariant world == target[..i]
      {
        var sum := WorldSum(i, pixel);
        world := world + [crval[i] + sum];
        i := i + 1;
      }
      assert target[..n] == target;
      return Ok(world);
    }

    method WorldSum(i: nat, pixel: Vec) returns (sum: real)
      requires Valid() && |pixel| == NAxes() && i < NAxes()
      ensures sum == Dot(Product()[i], Less(pixel, crpix))
    {
      hide GetPc, Times;
      var n := NAxes();
      ghost var terms := Products(Product()[i], Less(pixel, crpix));
      sum := 0.0;
      var j := 0;
      while j < n
        invariant 0 <= j <= n && sum == Sum(terms[..j])
      {
        assert terms[j] == Product()[i][j] * (pixel[j] - crpix[j]);
        SumSnoc(terms, j);
        sum := sum + cdelt[i] * GetPc(pc, n, i, j) * (pixel[j] - crpix[j]);
        j := j + 1;
      }
      assert terms[..n] == terms;
    }

    method WorldToPixel(world: Vec) returns (r: Result<Vec, Error>)
      requires Valid()
      ensures r == ToPixel(world)
      ensures |world| == NAxes() && pc == [] ==> (r.Ok? <==> forall i :: 0 <= i < NAxes() ==> Abs(cdelt[i]) >= TINY)
    {
      var n := NAxes();
      if |world| == n && pc == [] {
        PlainPixelFound(world);
      }
      if |world| != n {
        return Err(SizeMismatch);
      }
      var mat := BuildProduct();
      var ok := InvertMatrix(mat, n);
      if !ok {
        return Err(Singular);
      }
      var pixel := AddCrpix(mat, world);
      return Ok(pixel);
    }

    /** crpix + inv (world - crval) */
    method AddCrpix(mat: array<real>, world: Vec) returns (pixel: Vec)
      requires Valid() && |world| == NAxes() && mat.Length == Times(NAxes(), NAxes())
      ensures pixel == Plus(crpix, Matrix.Apply(Rows(mat[..], NAxes(), NAxes()), Less(world, crval)))
    {
      var n := NAxes();
      ghost var target := Plus(crpix, Matrix.Apply(Rows(mat[..], n, n), Less(world, crval)));
      pixel := [];
      var i := 0;
      while i < n
        invariant 0 <= i <= n
        invariant pixel == target[..i]
      {
        var sum := RowSum(mat, i, world);
        pixel := pixel + [crpix[i] + sum];
        i := i + 1;
      }
      assert target[..n] == target;
    }

    method RowSum(mat: array<real>, i: nat, world: Vec) returns (sum: real)
      requires Valid() && |world| == NAxes() && i < NAxes() && mat.Length == Times(NAxes(), NAxes())
      ensures sum == Dot(Rows(mat[..], NAxes(), NAxes())[i], Less(world, crval))
    {
      hide Times, Row, Product;
      var n := NAxes();
      ghost var terms := Products(Rows(mat[..], n, n)[i], Less(world, crval));
      sum := 0.0;
      var j := 0;
      while j < n
        invariant 0 <= j <= n && sum == Sum(terms[..j])
      {
        EntryAt(mat[..], n, n, i, j);
        SumSnoc(terms, j);
        sum := sum + mat[Times(i, n) + j] * (world[j] - crval[j]);
        j := j + 1;
      }
      assert terms[..n] == terms;
    }

    method BuildProduct() returns (mat: array<real>)
      requires Valid()
      ensures fresh(mat) && mat.Length == Times(NAxes(), NAxes())
      ensures Rows(mat[..], NAxes(), NAxes()) == Product()
    {
      var n := NAxes();
      mat := new real[Times(n, n)](_ => 0.0);
      var i := 0;
      while i < n
        invariant 0 <= i <= n && fresh(mat) && mat.Length == Times(n, n)
        invariant forall k :: 0 <= k < i ==> Rows(mat[..], n, n)[k] == Product()[k]
      {
        RowReplaced(mat[..], n, n, i, Product()[i]);
        FillProductRow(mat, Times(i, n), i);
        i := i + 1;
      }
      assert Rows(mat[..], n, n) == Product();
    }

    method FillProductRow(mat: array<real>, x: nat, i: nat)
      requires Valid() && i < NAxes() && x + NAxes() <= mat.Length
      modifies mat
      ensures mat[..] == Splice(old(mat[..]), x, Product()[i])
    {
      var n := NAxes();
      ghost var was, row := mat[..], Product()[i];
      var j := 0;
      while j < n
        invariant 0 <= j <= n
        invariant forall k :: x <= k < x + j ==> mat[k] == row[k - x]
        invariant forall k :: 0 <= k < mat.Length && !(x <= k < x + j) ==> mat[k] == was[k]
      {
        mat[x + j] := cdelt[i] * GetPc(pc, n, i, j);
        j := j + 1;
      }
    }

    // ---- the map itself ----

    /** Change of world axis i per unit along pixel axis j: the increment times the entry in row i, column j. */
    function Slope(i: nat, j: nat): real
      requires Valid() && i < NAxes() && j < NAxes()
    {
      var n := NAxes();
      if pc == [] then if i == j then cdelt[i] else 0.0
      else
        InMatrix(i, j, n);
        cdelt[i] * pc[i * n + j]
    }

    /** The reference pixel has the reference value; only a wrong number of axes is an error. */
    lemma ReferenceMaps(pixel: Vec)
      requires Valid()
      ensures ToWorld(crpix) == Ok(crval)
      ensures ToWorld(pixel).Err? <==> |pixel| != NAxes()
    {
      var zero := Less(crpix, crpix);
      var w := Matrix.Apply(Product(), zero);
      forall i | 0 <= i < NAxes() ensures w[i] == 0.0 {
        SumZero(Products(Product()[i], zero));
      }
      assert Plus(crval, w) == crval;
    }

    /** Moving a pixel along one axis moves every world axis in proportion, from wherever it starts. */
    lemma PixelMoves(pixel: Vec, j: nat, t: real)
      requires Valid() && |pixel| == NAxes() && j < NAxes()
      ensures var from, to := ToWorld(pixel), ToWorld(pixel[j := pixel[j] + t]);
        from.Ok? && to.Ok? && forall i :: 0 <= i < NAxes() ==> to.value[i] - from.value[i] == t * Slope(i, j)
    {
      hide Product, Slope;
      var d, e := Less(pixel, crpix), Less(pixel[j := pixel[j] + t], crpix);
      assert e == d[j := d[j] + t];
      forall i | 0 <= i < NAxes() ensures Dot(Product()[i], e) - Dot(Product()[i], d) == t * Slope(i, j) {
        DotMoves(Product()[i], d, j, t);
        EntryIsSlope(i, j);
      }
    }

    lemma EntryIsSlope(i: nat, j: nat)
      requires Valid() && i < NAxes() && j < NAxes()
      ensures Product()[i][j] == Slope(i, j)
    {
    }

    /** A pixel is found exactly when the matrix has an inverse and its elimination meets no small non-zero pivot. */
    lemma PixelFound(world: Vec)
      requires Valid() && |world| == NAxes()
      ensures ToPixel(world).Ok? <==>
              Invertible(Product(), NAxes()) && forall col: nat :: !StopsAtSmall(Product(), NAxes(), col)
    {
      hide StopsAtSmall, Invertible, Product;
      AcceptedIff(Product(), NAxes());
    }

    /** Without a PC matrix a pixel is found exactly when every increment reaches the threshold. */
    lemma PlainPixelFound(world: Vec)
      requires Valid() && |world| == NAxes() && pc == []
      ensures ToPixel(world).Ok? <==> forall i :: 0 <= i < NAxes() ==> Abs(cdelt[i]) >= TINY
    {
      hide Reduce, Abs;
      var n := NAxes();
      assert forall i, j :: 0 <= i < n && 0 <= j < n ==> Product()[i][j] == cdelt[i] * GetPc(pc, n, i, j);
      DiagonalReduce(Product(), n, n);
      assert forall i :: 0 <= i < n ==> Product()[i][i] == cdelt[i];
    }

    /** The transform with every increment multiplied by k. */
    function Stretched(k: real): (x: Xform)
      requires Valid()
      ensures x.Valid() && x.NAxes() == NAxes()
    {
      Xform(crpix, seq(|cdelt|, i requires 0 <= i < |cdelt| => k * cdelt[i]), crval, pc)
    }

    lemma StretchedProduct(k: real)
      requires Valid()
      ensures Stretched(k).Product() == Multiple(Product(), NAxes(), k)
    {
      var n, p, q := NAxes(), Stretched(k).Product(), Multiple(Product(), NAxes(), k);
      forall i | 0 <= i < n ensures p[i] == q[i] {
        forall j | 0 <= j < n ensures p[i][j] == q[i][j] {
          assert (k * cdelt[i]) * GetPc(pc, n, i, j) == k * (cdelt[i] * GetPc(pc, n, i, j));
        }
      }
    }

    /** For any invertible matrix there is a threshold for the increments from which on pixels are found. */
    lemma StretchedPixelFound(world: Vec) returns (kappa: real)
      requires Valid() && |world| == NAxes() > 0 && Invertible(Product(), NAxes())
      ensures kappa > 0.0
      ensures forall k: real :: k != 0.0 ==> (Stretched(k).ToPixel(world).Ok? <==> Abs(k) >= kappa)
    {
      hide Product, TwoSidedInverse, Inverse, Abs, Multiple;
      var b: Mat :| IsMat(b, NAxes(), NAxes()) && TwoSidedInverse(Product(), b, NAxes());
      kappa := AcceptedFrom(Product(), b, NAxes());
      forall k: real | k != 0.0 ensures Stretched(k).ToPixel(world).Ok? <==> Abs(k) >= kappa {
        StretchedProduct(k);
      }
    }

    /** Going to world coordinates and back is the identity unless the matrix is rejected. */
    lemma WorldThenPixel(pixel: Vec)
      requires Valid() && |pixel| == NAxes()
      ensures ToWorld(pixel).Ok?
      ensures ToPixel(ToWorld(pixel).value) ==
              if Inverse(Product(), NAxes()).None? then Err(Singular) else Ok(pixel)
    {
      if Inverse(Product(), NAxes()).Some? {
        var inv := Inverse(Product(), NAxes()).value;
        var d := Less(pixel, crpix);
        InverseIsTwoSided(Product(), NAxes());
        assert Less(Plus(crval, Matrix.Apply(Product(), d)), crval) == Matrix.Apply(Product(), d);
        ApplyInverse(inv, Product(), d, NAxes());
        assert Plus(crpix, d) == pixel;
      }
    }

    /** A pixel found for a world position maps back to exactly that position. */
    lemma PixelThenWorld(world: Vec)
      requires Valid() && ToPixel(world).Ok?
      ensures ToWorld(ToPixel(world).value) == Ok(world)
    {
      var inv := Inverse(Product(), NAxes()).value;
      var d := Less(world, crval);
      InverseIsTwoSided(Product(), NAxes());
      assert Less(Plus(crpix, Matrix.Apply(inv, d)), crpix) == Matrix.Apply(inv, d);
      ApplyInverse(Product(), inv, d, NAxes());
      assert Plus(crval, d) == world;
    }
  }

  lemma SumSnoc(terms: Vec, j: nat)
    requires j < |terms|
    ensures Sum(terms[..j + 1]) == Sum(terms[..j]) + terms[j]
  {
    assert terms[..j + 1][..j] == terms[..j];
  }

  function Plus(a: Vec, b: Vec): (c: Vec)
    requires |a| == |b|
    ensures |c| == |a|
  {
    seq(|a|, i requires 0 <= i < |a| => a[i] + b[i])
  }

  function Less(a: Vec, b: Vec): (c: Vec)
    requires |a| == |b|
    ensures |c| == |a|
  {
    seq(|a|, i requires 0 <= i < |a| => a[i] - b[i])
  }
}
