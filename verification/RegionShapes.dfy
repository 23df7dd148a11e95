/** Polygon and ellipsoid rasterizers of src/lattice_region.cpp over real coordinates. */
module RegionShapes {
  import opened Wrappers
  import opened LatticeShape
  import opened LatticeArray
  import opened LatticeRegion

  function Ceil(x: real): int {
    -((-x).Floor)
  }

  lemma FloorCeil(x: real)
    ensures x.Floor as real <= x < x.Floor as real + 1.0
    ensures Ceil(x) as real - 1.0 < x <= Ceil(x) as real
  {
  }

  // ---- extremes ----

  function Lowest(xs: seq<real>): (m: real)
    requires xs != []
    ensures forall i :: 0 <= i < |xs| ==> m <= xs[i]
  {
    if |xs| == 1 then xs[0]
    else
      var m := Lowest(xs[..|xs| - 1]);
      if xs[|xs| - 1] < m then xs[|xs| - 1] else m
  }

  function Highest(xs: seq<real>): (m: real)
    requires xs != []
    ensures forall i :: 0 <= i < |xs| ==> xs[i] <= m
  {
    if |xs| == 1 then xs[0]
    else
      var m := Highest(xs[..|xs| - 1]);
      if m < xs[|xs| - 1] then xs[|xs| - 1] else m
  }

  /** std::min_element and std::max_element */
  method Extremes(xs: seq<real>) returns (low: real, high: real)
    requires xs != []
    ensures low == Lowest(xs) && high == Highest(xs)
  {
    low, high := xs[0], xs[0];
    var i := 1;
    assert xs[..1] == [xs[0]];
    while i < |xs|
      invariant 1 <= i <= |xs| && low == Lowest(xs[..i]) && high == Highest(xs[..i])
    {
      assert xs[..i + 1][..i] == xs[..i];
      if xs[i] < low { low := xs[i]; }
      if high < xs[i] { high := xs[i]; }
      i := i + 1;
    }
    assert xs[..i] == xs;
  }

  // ---- the even-odd test ----

  /** Vertex before i on the closed polygon. */
  function Before(i: nat, n: nat): nat
    requires i < n
  {
    if i == 0 then n - 1 else i - 1
  }

  /** One end of the edge lies above the height, the other does not. */
  predicate Straddles(a: real, b: real, py: real) {
    (a > py) != (b > py)
  }

  /** Where the line through the edge meets the height. */
  function CrossingX(xi: real, yi: real, xj: real, yj: real, py: real): real
    requires yi != yj
  {
    (xj - xi) * (py - yi) / (yj - yi) + xi
  }

  predicate Crosses(x: seq<real>, y: seq<real>, i: nat, px: real, py: real)
    requires i < |x| == |y|
  {
    var j := Before(i, |x|);
    Straddles(y[i], y[j], py) && px < CrossingX(x[i], y[i], x[j], y[j], py)
  }

  /** Parity of the crossings of the ray to the right with the first k edges. */
  predicate EvenOdd(x: seq<real>, y: seq<real>, px: real, py: real, k: nat)
    requires k <= |x| == |y|
  {
    if k == 0 then false else EvenOdd(x, y, px, py, k - 1) != Crosses(x, y, k - 1, px, py)
  }

  /** The pixel's centre passes the even-odd test over all edges. */
  predicate Inside(x: seq<real>, y: seq<real>, ix: int, iy: int)
    requires |x| == |y|
  {
    EvenOdd(x, y, ix as real + 0.5, iy as real + 0.5, |x|)
  }

  method TestPixel(x: seq<real>, y: seq<real>, px: real, py: real) returns (inside: bool)
    requires 0 < |x| == |y|
    ensures inside == EvenOdd(x, y, px, py, |x|)
  {
    hide CrossingX;
    inside := false;
    var i, j := 0, |x| - 1;
    while i < |x|
      invariant i <= |x| && (i < |x| ==> j == Before(i, |x|))
      invariant inside == EvenOdd(x, y, px, py, i)
    {
      if (y[i] > py) != (y[j] > py) && px < CrossingX(x[i], y[i], x[j], y[j], py) {
        inside := !inside;
      }
      j := i;
      i := i + 1;
    }
  }

  /** A straddling edge meets the height between its ends. */
  lemma CrossingBetween(xi: real, yi: real, xj: real, yj: real, py: real, low: real, high: real)
    requires Straddles(yi, yj, py) && low <= xi <= high && low <= xj <= high
    ensures low <= CrossingX(xi, yi, xj, yj, py) <= high
  {
    var d, e := yj - yi, py - yi;
    var q := (xj - xi) * e / d;
    Fraction((xj - xi) * e, d);
    if d > 0.0 {
      BetweenEnds(xi, xj, e, d, q, low, high);
    } else {
      Negated(xj - xi, e, d, q);
      BetweenEnds(xi, xj, -e, -d, q, low, high);
    }
  }

  lemma Fraction(a: real, d: real)
    requires d != 0.0
    ensures (a / d) * d == a
  {
  }

  lemma Negated(a: real, e: real, d: real, q: real)
    requires q * d == a * e
    ensures q * (-d) == a * (-e)
  {
    assert q * (-d) == -(q * d);
    assert a * (-e) == -(a * e);
  }

  /** A point a fraction e/d of the way from one end to the other lies between them. */
  lemma BetweenEnds(xi: real, xj: real, e: real, d: real, q: real, low: real, high: real)
    requires d > 0.0 && 0.0 <= e <= d && q * d == (xj - xi) * e
    requires low <= xi <= high && low <= xj <= high
    ensures low <= q + xi <= high
  {
    Scale(xj - xi, high - xi, e, d, q);
    assert (-q) * d == -(q * d);
    assert (xi - xj) * e == -((xj - xi) * e);
    Scale(xi - xj, xi - low, e, d, -q);
  }

  lemma Scale(a: real, b: real, e: real, d: real, q: real)
    requires d > 0.0 && 0.0 <= e <= d && a <= b && 0.0 <= b && q * d == a * e
    ensures q <= b
  {
    NonnegativeProduct(b - a, e);
    assert (b - a) * e == b * e - a * e;
    NonnegativeProduct(b, d - e);
    assert b * (d - e) == b * d - b * e;
    assert (q - b) * d == q * d - b * d;
    if q > b {
      PositiveProduct(q - b, d);
    }
  }

  lemma NonnegativeProduct(a: real, b: real)
    requires a >= 0.0 && b >= 0.0
    ensures a * b >= 0.0
  {
  }

  lemma PositiveProduct(a: real, b: real)
    requires a > 0.0 && b > 0.0
    ensures a * b > 0.0
  {
  }

  /** Walking the closed polygon, the number of straddling edges so far is odd exactly when the side has changed. */
  lemma {:induction false} StraddleParity(x: seq<real>, y: seq<real>, px: real, py: real, k: nat)
    requires 0 < k <= |x| == |y|
    requires forall i :: 0 <= i < |x| ==> Crosses(x, y, i, px, py) == Straddles(y[i], y[Before(i, |x|)], py)
    ensures EvenOdd(x, y, px, py, k) == Straddles(y[k - 1], y[|x| - 1], py)
  {
    hide Crosses;
    assert Crosses(x, y, k - 1, px, py) == Straddles(y[k - 1], y[Before(k - 1, |x|)], py);
    if k > 1 {
      StraddleParity(x, y, px, py, k - 1);
    }
  }

  /** To the left of the polygon the ray crosses an even number of edges. */
  lemma LeftIsOutside(x: seq<real>, y: seq<real>, px: real, py: real)
    requires 0 < |x| == |y| && px < Lowest(x)
    ensures !EvenOdd(x, y, px, py, |x|)
  {
    hide CrossingX, Straddles;
    forall i | 0 <= i < |x| ensures Crosses(x, y, i, px, py) == Straddles(y[i], y[Before(i, |x|)], py) {
      var j := Before(i, |x|);
      if Straddles(y[i], y[j], py) {
        CrossingBetween(x[i], y[i], x[j], y[j], py, Lowest(x), Highest(x));
      }
    }
    StraddleParity(x, y, px, py, |x|);
    SameSide(y[|x| - 1], py);
  }

  lemma SameSide(a: real, py: real)
    ensures !Straddles(a, a, py)
  {
  }

  lemma {:induction false} NoCrossings(x: seq<real>, y: seq<real>, px: real, py: real, k: nat)
    requires k <= |x| == |y| && forall i :: 0 <= i < |x| ==> !Crosses(x, y, i, px, py)
    ensures !EvenOdd(x, y, px, py, k)
  {
    hide Crosses;
    if k > 0 {
      NoCrossings(x, y, px, py, k - 1);
    }
  }

  /** To the right of, above and below the polygon the ray crosses nothing. */
  lemma BeyondIsOutside(x: seq<real>, y: seq<real>, px: real, py: real)
    requires 0 < |x| == |y| && (px > Highest(x) || py < Lowest(y) || py > Highest(y))
    ensures !EvenOdd(x, y, px, py, |x|)
  {
    hide CrossingX;
    forall i | 0 <= i < |x| ensures !Crosses(x, y, i, px, py) {
      var j := Before(i, |x|);
      if Straddles(y[i], y[j], py) {
        CrossingBetween(x[i], y[i], x[j], y[j], py, Lowest(x), Highest(x));
      }
    }
    NoCrossings(x, y, px, py, |x|);
  }

  // ---- the polygon's box ----

  function LowPixel(low: real): int {
    Max(0, low.Floor)
  }

  function HighPixel(high: real, extent: int): int {
    Min(extent - 1, Ceil(high))
  }

  function PolygonBox(x: seq<real>, y: seq<real>, lattice: IPosition): (s: Slicer)
    requires 0 < |x| == |y| && |lattice| == 2
    ensures |s.start| == |s.length| == 2
  {
    var x0, y0 := LowPixel(Lowest(x)), LowPixel(Lowest(y));
    Slicer([x0, y0], [HighPixel(Highest(x), lattice[0]) - x0 + 1, HighPixel(Highest(y), lattice[1]) - y0 + 1])
  }

  /** A lattice pixel that the box leaves out is outside the polygon. */
  lemma OutsideBoxIsOutside(x: seq<real>, y: seq<real>, lattice: IPosition, ix: int, iy: int)
    requires 0 < |x| == |y| && |lattice| == 2
    requires 0 <= ix < lattice[0] && 0 <= iy < lattice[1] && !InBox(PolygonBox(x, y, lattice), [ix, iy])
    ensures !Inside(x, y, ix, iy)
  {
    hide EvenOdd, Lowest, Highest;
    var px, py := ix as real + 0.5, iy as real + 0.5;
    FloorCeil(Lowest(x));
    FloorCeil(Highest(x));
    FloorCeil(Lowest(y));
    FloorCeil(Highest(y));
    var s := PolygonBox(x, y, lattice);
    var d :| 0 <= d < 2 && !(s.start[d] <= [ix, iy][d] < s.start[d] + s.length[d]);
    if d == 0 {
      if ix < s.start[0] {
        assert px < Lowest(x);
        LeftIsOutside(x, y, px, py);
      } else {
        assert px > Highest(x);
        BeyondIsOutside(x, y, px, py);
      }
    } else {
      assert py < Lowest(y) || py > Highest(y);
      BeyondIsOutside(x, y, px, py);
    }
  }

  // ---- filling the mask ----

  /** Offset of a two-dimensional index. */
  function At2(a: int, b: int, shape: IPosition): int
    requires |shape| == 2
  {
    Offset([a, b], Strides(shape))
  }

  lemma At2Unique(a: int, b: int, c: int, d: int, shape: IPosition)
    requires |shape| == 2 && 0 <= a < shape[0] && 0 <= b < shape[1] && 0 <= c < shape[0] && 0 <= d < shape[1]
    ensures 0 <= At2(a, b, shape) < Product(shape)
    ensures At2(a, b, shape) == At2(c, d, shape) ==> a == c && b == d
  {
    hide Offset, Strides, Product, Digits;
    LinearThenDelinearize([a, b], shape);
    LinearThenDelinearize([c, d], shape);
    assert [a, b][0] == a && [a, b][1] == b && [c, d][0] == c && [c, d][1] == d;
  }

  /** Pixels before (jx, jy) in scan order are drawn, the rest is still false. */
  ghost predicate Drawn(out: seq<bool>, x: seq<real>, y: seq<real>, box: Slicer, jx: int, jy: int)
    requires |x| == |y| && |box.start| == |box.length| == 2
  {
    && |out| == Product(box.length)
    && forall a, b :: 0 <= a < box.length[0] && 0 <= b < box.length[1] ==>
         PixelDrawn(out, x, y, box, a, b, jx, jy)
  }

  ghost predicate PixelDrawn(out: seq<bool>, x: seq<real>, y: seq<real>, box: Slicer, a: int, b: int, jx: int, jy: int)
    requires |x| == |y| && |box.start| == |box.length| == 2
  {
    var k := At2(a, b, box.length);
    0 <= k < |out| && out[k] == ((b < jy || (b == jy && a < jx)) && Inside(x, y, box.start[0] + a, box.start[1] + b))
  }

  class LcPolygon {
    const x: seq<real>
    const y: seq<real>
    const lattice: IPosition
    var boundingBox: Slicer
    var maskCache: Lattice<bool>

    /** The polygon as a region of the lattice. */
    ghost predicate Valid()
      reads this
    {
      && 3 <= |x| == |y| && |lattice| == 2
      && boundingBox == PolygonBox(x, y, lattice)
      && maskCache.shape == boundingBox.length && |maskCache.flat| == Product(boundingBox.length)
      && ValidRegion(Masked(boundingBox.start, maskCache), 2)
    }

    /**
     * compute_bounding_box_and_mask, where the storage can be made: a lattice pixel belongs to the region if and only if its
     * centre passes the even-odd test over all edges.
     */
    constructor (x: seq<real>, y: seq<real>, lattice: IPosition)
      requires 3 <= |x| == |y| && |lattice| == 2 && StartsFit(x, y)
      requires Product(PolygonBox(x, y, lattice).length) >= 0
      ensures Valid() && this.x == x && this.y == y && this.lattice == lattice
      ensures forall ix, iy :: 0 <= ix < lattice[0] && 0 <= iy < lattice[1] ==>
        (Member(Masked(boundingBox.start, maskCache), lattice, [ix, iy]) <==> Inside(x, y, ix, iy))
    {
      hide EvenOdd, Member, Inside, Lowest, Highest;
      var xmin, xmax := Extremes(x);
      var ymin, ymax := Extremes(y);
      var ix0 := Max(0, xmin.Floor);
      var ix1 := Min(lattice[0] - 1, Ceil(xmax));
      var iy0 := Max(0, ymin.Floor);
      var iy1 := Min(lattice[1] - 1, Ceil(ymax));
      var box := Slicer([ix0, iy0], [ix1 - ix0 + 1, iy1 - iy0 + 1]);
      var mask := DrawPolygon(x, y, box);
      this.x := x;
      this.y := y;
      this.lattice := lattice;
      boundingBox := box;
      maskCache := mask;
      new;
      forall ix, iy | 0 <= ix < lattice[0] && 0 <= iy < lattice[1]
        ensures Member(Masked(box.start, mask), lattice, [ix, iy]) <==> Inside(x, y, ix, iy)
      {
        DrawnIsMember(x, y, lattice, box, mask, ix, iy);
      }
    }

    /**
     * Construction throws for a lattice that is not flat, too few vertices, or a box whose lengths have opposite signs:
     * the storage size is then negative. That happens to polygons off the lattice along one axis only; off along both,
     * an empty region results. Either way no lattice pixel is inside.
     */
    static method Make(x: seq<real>, y: seq<real>, lattice: IPosition) returns (p: Option<LcPolygon>)
      requires 3 <= |x| == |y| ==> StartsFit(x, y)
      ensures p.Some? <==> |lattice| == 2 && 3 <= |x| == |y| && !OppositeSigns(PolygonBox(x, y, lattice).length)
      ensures p.Some? ==> fresh(p.value) && p.value.Valid() && p.value.x == x && p.value.y == y && p.value.lattice == lattice
      ensures p.Some? ==> forall ix, iy :: 0 <= ix < lattice[0] && 0 <= iy < lattice[1] ==>
        (Member(Masked(p.value.boundingBox.start, p.value.maskCache), lattice, [ix, iy]) <==> Inside(x, y, ix, iy))
      ensures |lattice| == 2 && 3 <= |x| == |y| && !NonNegative(PolygonBox(x, y, lattice).length) ==>
        forall ix, iy :: 0 <= ix < lattice[0] && 0 <= iy < lattice[1] ==> !Inside(x, y, ix, iy)
    {
      hide EvenOdd, Member, Inside, PolygonBox;
      if |lattice| != 2 || |x| != |y| || |x| < 3 {
        return None;
      }
      PolygonOffLattice(x, y, lattice);
      SignOfProduct(PolygonBox(x, y, lattice).length);
      if OppositeSigns(PolygonBox(x, y, lattice).length) {
        return None;
      }
      var made := new LcPolygon(x, y, lattice);
      return Some(made);
    }
  }

  /** The lower corner of the polygon fits the width of a position. */
  predicate StartsFit(x: seq<real>, y: seq<real>)
    requires x != [] && y != []
  {
    Lowest(x).Floor <= INT64_MAX && Lowest(y).Floor <= INT64_MAX
  }

  predicate OppositeSigns(length: IPosition)
    requires |length| == 2
  {
    length[0] < 0 < length[1] || length[1] < 0 < length[0]
  }

  lemma SignOfProduct(length: IPosition)
    requires |length| == 2
    ensures Product(length) >= 0 <==> !OppositeSigns(length)
  {
    var a, b := length[0], length[1];
    assert length[1..][1..] == [] && length[1..][0] == b;
    assert Product(length[1..]) == b * Product([]);
    assert Product(length) == a * b;
    if OppositeSigns(length) {
      assert a * b < 0;
    } else {
      assert a * b >= 0;
    }
  }

  /** A polygon whose box has a negative length has no lattice pixel inside. */
  lemma PolygonOffLattice(x: seq<real>, y: seq<real>, lattice: IPosition)
    requires 0 < |x| == |y| && |lattice| == 2
    ensures !NonNegative(PolygonBox(x, y, lattice).length) ==>
      forall ix, iy :: 0 <= ix < lattice[0] && 0 <= iy < lattice[1] ==> !Inside(x, y, ix, iy)
  {
    hide Inside, PolygonBox;
    var s := PolygonBox(x, y, lattice);
    if !NonNegative(s.length) {
      forall ix, iy | 0 <= ix < lattice[0] && 0 <= iy < lattice[1] ensures !Inside(x, y, ix, iy) {
        if InBox(s, [ix, iy]) {
          HoldsPixel(s, [ix, iy]);
        }
        OutsideBoxIsOutside(x, y, lattice, ix, iy);
      }
    }
  }

  lemma DrawnIsMember(x: seq<real>, y: seq<real>, lattice: IPosition, box: Slicer, mask: Lattice<bool>, ix: int, iy: int)
    requires 0 < |x| == |y| && |lattice| == 2 && 0 <= ix < lattice[0] && 0 <= iy < lattice[1]
    requires box == PolygonBox(x, y, lattice) && ValidRegion(Masked(box.start, mask), 2) && mask.shape == box.length
    requires Drawn(mask.flat, x, y, box, 0, box.length[1])
    ensures Member(Masked(box.start, mask), lattice, [ix, iy]) <==> Inside(x, y, ix, iy)
  {
    hide Inside, PolygonBox;
    if InBox(box, [ix, iy]) {
      var a, b := ix - box.start[0], iy - box.start[1];
      assert box.start[0] <= [ix, iy][0] < box.start[0] + box.length[0];
      assert box.start[1] <= [ix, iy][1] < box.start[1] + box.length[1];
      assert PixelDrawn(mask.flat, x, y, box, a, b, 0, box.length[1]);
      assert Minus([ix, iy], box.start) == [a, b];
    } else {
      OutsideBoxIsOutside(x, y, lattice, ix, iy);
    }
  }

  method DrawPolygon(x: seq<real>, y: seq<real>, box: Slicer) returns (mask: Lattice<bool>)
    requires 0 < |x| == |y| && |box.start| == |box.length| == 2 && Product(box.length) >= 0
    ensures mask.shape == box.length && Drawn(mask.flat, x, y, box, 0, box.length[1])
  {
    hide Inside, PixelDrawn, Product, Offset;
    var w, h := box.length[0], box.length[1];
    if w < 0 || h < 0 {
      // No turn of the loops below: the storage has as many elements as the lengths multiply to.
      return Lattice(box.length, seq(Product(box.length), _ => false));
    }
    var out := new LatticeArray(box.length, false);
    NothingDrawn(out.storage[..], x, y, box);
    var jy := 0;
    while jy < h
      invariant 0 <= jy <= h && Drawn(out.storage[..], x, y, box, 0, jy)
    {
      var jx := 0;
      while jx < w
        invariant 0 <= jx <= w && Drawn(out.storage[..], x, y, box, jx, jy)
      {
        ghost var before := out.storage[..];
        var inside := TestBox(x, y, box, jx, jy);
        if inside {
          IsValid2(jx, jy, box.length);
          var ok := out.Put([jx, jy], true);
        }
        DrawStep(before, out.storage[..], x, y, box, jx, jy, jx + 1);
        jx := jx + 1;
      }
      NextRow(out.storage[..], x, y, box, jy, jy + 1);
      jy := jy + 1;
    }
    mask := out.Contents();
  }

  lemma IsValid2(a: int, b: int, shape: IPosition)
    requires |shape| == 2 && 0 <= a < shape[0] && 0 <= b < shape[1]
    ensures ValidIndex([a, b], shape)
  {
  }

  method TestBox(x: seq<real>, y: seq<real>, box: Slicer, jx: int, jy: int) returns (inside: bool)
    requires 0 < |x| == |y| && |box.start| == 2
    ensures inside == Inside(x, y, box.start[0] + jx, box.start[1] + jy)
  {
    hide EvenOdd;
    inside := TestPixel(x, y, (box.start[0] + jx) as real + 0.5, (box.start[1] + jy) as real + 0.5);
  }

  lemma NothingDrawn(out: seq<bool>, x: seq<real>, y: seq<real>, box: Slicer)
    requires |x| == |y| && |box.start| == |box.length| == 2 && NonNegative(box.length)
    requires out == Filled(box.length, false).flat
    ensures Drawn(out, x, y, box, 0, 0)
  {
    hide Inside, Offset, Product;
    forall a, b | 0 <= a < box.length[0] && 0 <= b < box.length[1]
      ensures PixelDrawn(out, x, y, box, a, b, 0, 0)
    {
      At2Unique(a, b, a, b, box.length);
    }
  }

  lemma DrawStep(before: seq<bool>, after: seq<bool>, x: seq<real>, y: seq<real>, box: Slicer, jx: int, jy: int,
                 next: int)
    requires |x| == |y| && |box.start| == |box.length| == 2 && next == jx + 1
    requires 0 <= jx < box.length[0] && 0 <= jy < box.length[1] && Drawn(before, x, y, box, jx, jy)
    requires var k := At2(jx, jy, box.length);
      if Inside(x, y, box.start[0] + jx, box.start[1] + jy) then 0 <= k < |before| && after == before[k := true]
      else after == before
    ensures Drawn(after, x, y, box, next, jy)
  {
    hide Inside, Product, At2;
    forall a, b | 0 <= a < box.length[0] && 0 <= b < box.length[1]
      ensures PixelDrawn(after, x, y, box, a, b, next, jy)
    {
      assert PixelDrawn(before, x, y, box, a, b, jx, jy);
      At2Unique(a, b, jx, jy, box.length);
    }
  }

  lemma NextRow(out: seq<bool>, x: seq<real>, y: seq<real>, box: Slicer, jy: int, next: int)
    requires |x| == |y| && |box.start| == |box.length| == 2 && next == jy + 1
    requires Drawn(out, x, y, box, box.length[0], jy) && 0 <= box.length[0]
    ensures Drawn(out, x, y, box, 0, next)
  {
    hide Inside, At2, Product;
    forall a, b | 0 <= a < box.length[0] && 0 <= b < box.length[1]
      ensures PixelDrawn(out, x, y, box, a, b, 0, next)
    {
      assert PixelDrawn(out, x, y, box, a, b, box.length[0], jy);
    }
  }

  // ---- ellipsoids ----

  function Prod(a: real, b: real): real {
    a * b
  }

  function Square(v: real): real {
    Prod(v, v)
  }

  lemma ProdPositive(a: real, b: real)
    requires a > 0.0 && b > 0.0
    ensures Prod(a, b) > 0.0
  {
  }

  lemma ProdNonnegative(a: real, b: real)
    requires a >= 0.0 && b >= 0.0
    ensures Prod(a, b) >= 0.0
  {
  }

  lemma ProdNegated(a: real, b: real)
    ensures Prod(-a, -b) == Prod(a, b)
  {
  }

  lemma ProdDifference(a: real, b: real)
    ensures Prod(b - a, b + a) == Prod(b, b) - Prod(a, a)
  {
    assert (b - a) * (b + a) == b * (b + a) - a * (b + a);
    assert b * (b + a) == b * b + b * a;
    assert a * (b + a) == a * b + a * a;
  }

  /** Squared distance in units of the semi-axes; axes of length zero do not count. */
  function Distance(center: seq<real>, axes: seq<real>, pos: IPosition, k: nat): (r: real)
    requires k <= |pos| == |center| == |axes|
    ensures r >= 0.0
  {
    if k == 0 then 0.0
    else
      var before := Distance(center, axes, pos, k - 1);
      if axes[k - 1] > 0.0 then before + Term(pos[k - 1] as real - center[k - 1], axes[k - 1]) else before
  }

  function Term(offset: real, axis: real): (t: real)
    requires axis > 0.0
    ensures t >= 0.0
  {
    PositiveSquare(axis);
    NonnegativeSquare(offset);
    Quotient(Square(offset), Square(axis));
    Square(offset) / Square(axis)
  }

  lemma PositiveSquare(v: real)
    requires v > 0.0
    ensures Square(v) > 0.0
  {
    hide Prod;
    ProdPositive(v, v);
  }

  lemma NonnegativeSquare(v: real)
    ensures Square(v) >= 0.0
  {
    hide Prod;
    if v >= 0.0 {
      ProdNonnegative(v, v);
    } else {
      ProdNonnegative(-v, -v);
      ProdNegated(v, v);
    }
  }

  lemma Quotient(a: real, b: real)
    requires a >= 0.0 && b > 0.0
    ensures a / b >= 0.0
    ensures a / b <= 1.0 <==> a <= b
  {
    var q := a / b;
    assert q * b == a;
    if q < 0.0 {
      PositiveProduct(-q, b);
    }
    if q <= 1.0 {
      NonnegativeProduct(1.0 - q, b);
    } else {
      PositiveProduct(q - 1.0, b);
    }
  }

  lemma SmallerSquare(a: real, b: real)
    requires 0.0 < a < b
    ensures Square(a) < Square(b)
  {
    hide Prod;
    ProdPositive(b - a, b + a);
    ProdDifference(a, b);
  }

  /** A term of at most one keeps the offset within the axis. */
  lemma TermBound(offset: real, axis: real)
    requires axis > 0.0 && Term(offset, axis) <= 1.0
    ensures -axis <= offset <= axis
  {
    hide Prod;
    PositiveSquare(axis);
    NonnegativeSquare(offset);
    Quotient(Square(offset), Square(axis));
    ProdNegated(offset, offset);
    if offset > axis {
      SmallerSquare(axis, offset);
    } else if offset < -axis {
      SmallerSquare(axis, -offset);
    }
  }

  lemma {:induction false} TermWithinDistance(center: seq<real>, axes: seq<real>, pos: IPosition, k: nat, d: nat)
    requires d < k <= |pos| == |center| == |axes| && axes[d] > 0.0
    ensures Term(pos[d] as real - center[d], axes[d]) <= Distance(center, axes, pos, k)
  {
    hide Term;
    if d < k - 1 {
      TermWithinDistance(center, axes, pos, k - 1, d);
    }
  }

  function EllipsoidBox(center: seq<real>, axes: seq<real>, lattice: IPosition): (s: Slicer)
    requires |lattice| == |center| == |axes|
    ensures |s.start| == |s.length| == |lattice|
  {
    Slicer(seq(|center|, d requires 0 <= d < |center| => LowPixel(center[d] - axes[d])),
           seq(|center|, d requires 0 <= d < |center| =>
             HighPixel(center[d] + axes[d], lattice[d]) - LowPixel(center[d] - axes[d]) + 1))
  }

  /** An axis that is not positive does not count in the distance; there the box alone decides. */
  predicate NearFlatAxes(center: seq<real>, axes: seq<real>, pos: IPosition)
    requires |pos| == |center| == |axes|
  {
    forall d :: 0 <= d < |pos| && axes[d] <= 0.0 ==> Near(center[d], axes[d], pos[d])
  }

  predicate Near(c: real, a: real, p: int) {
    (c - a).Floor <= p <= Ceil(c + a)
  }

  lemma WithinAxis(center: seq<real>, axes: seq<real>, pos: IPosition, d: nat)
    requires d < |pos| == |center| == |axes| && axes[d] > 0.0 && Distance(center, axes, pos, |pos|) <= 1.0
    ensures -axes[d] <= pos[d] as real - center[d] <= axes[d]
  {
    hide Term, Distance;
    TermWithinDistance(center, axes, pos, |pos|, d);
    TermBound(pos[d] as real - center[d], axes[d]);
  }

  lemma BoxAxis(center: seq<real>, axes: seq<real>, lattice: IPosition, d: nat)
    requires |lattice| == |center| == |axes| && d < |lattice|
    ensures var s := EllipsoidBox(center, axes, lattice);
      s.start[d] == LowPixel(center[d] - axes[d])
      && s.start[d] + s.length[d] == HighPixel(center[d] + axes[d], lattice[d]) + 1
  {
    hide LowPixel, HighPixel;
  }

  lemma AxisOf(center: seq<real>, axes: seq<real>, lattice: IPosition, pos: IPosition, d: nat)
    requires |pos| == |lattice| == |center| == |axes| && d < |pos|
    requires 0 <= pos[d] < lattice[d] && Distance(center, axes, pos, |pos|) <= 1.0
    requires axes[d] <= 0.0 ==> Near(center[d], axes[d], pos[d])
    ensures var s := EllipsoidBox(center, axes, lattice); s.start[d] <= pos[d] < s.start[d] + s.length[d]
  {
    hide Term, Distance, LowPixel, HighPixel, Near, EllipsoidBox;
    BoxAxis(center, axes, lattice, d);
    if axes[d] > 0.0 {
      WithinAxis(center, axes, pos, d);
    }
    AxisInBox(center[d], axes[d], pos[d], lattice[d]);
  }

  lemma InsideLattice(lattice: IPosition, pos: IPosition, d: nat)
    requires |pos| == |lattice| && d < |pos| && InBox(Whole(lattice), pos)
    ensures 0 <= pos[d] < lattice[d]
  {
  }

  /** The box leaves out no pixel of the ellipsoid. */
  lemma EllipsoidInBox(center: seq<real>, axes: seq<real>, lattice: IPosition, pos: IPosition)
    requires |pos| == |lattice| == |center| == |axes|
    requires InBox(Whole(lattice), pos) && Distance(center, axes, pos, |pos|) <= 1.0 && NearFlatAxes(center, axes, pos)
    ensures InBox(EllipsoidBox(center, axes, lattice), pos)
  {
    hide Term, Distance, LowPixel, HighPixel, Near, EllipsoidBox, Whole;
    var s := EllipsoidBox(center, axes, lattice);
    forall d | 0 <= d < |pos| ensures s.start[d] <= pos[d] < s.start[d] + s.length[d] {
      InsideLattice(lattice, pos, d);
      AxisOf(center, axes, lattice, pos, d);
    }
  }

  lemma AxisInBox(c: real, a: real, p: int, extent: int)
    requires 0 <= p < extent
    requires if a > 0.0 then -a <= p as real - c <= a else Near(c, a, p)
    ensures LowPixel(c - a) <= p <= HighPixel(c + a, extent)
  {
    FloorCeil(c - a);
    FloorCeil(c + a);
  }

  class LcEllipsoid {
    const center: seq<real>
    const semiAxes: seq<real>
    const lattice: IPosition
    var boundingBox: Slicer

    ghost predicate Valid()
      reads this
    {
      && |lattice| == |center| == |semiAxes|
      && (forall d :: 0 <= d < |lattice| ==> LowPixel(center[d] - semiAxes[d]) <= INT64_MAX)
      && boundingBox == EllipsoidBox(center, semiAxes, lattice)
    }

    /** compute_bounding_box */
    constructor (center: seq<real>, semiAxes: seq<real>, lattice: IPosition)
      requires |lattice| == |center| == |semiAxes|
      requires forall d :: 0 <= d < |lattice| ==> LowPixel(center[d] - semiAxes[d]) <= INT64_MAX
      ensures Valid() && this.center == center && this.semiAxes == semiAxes && this.lattice == lattice
    {
      var blc, len := [], [];
      var i := 0;
      while i < |center|
        invariant i <= |center| && |blc| == |len| == i
        invariant blc == EllipsoidBox(center, semiAxes, lattice).start[..i]
        invariant len == EllipsoidBox(center, semiAxes, lattice).length[..i]
      {
        var low := Max(0, (center[i] - semiAxes[i]).Floor);
        var high := Min(lattice[i] - 1, Ceil(center[i] + semiAxes[i]));
        blc := blc + [low];
        len := len + [high - low + 1];
        i := i + 1;
      }
      this.center := center;
      this.semiAxes := semiAxes;
      this.lattice := lattice;
      boundingBox := Slicer(blc, len);
    }

    /** get_mask, where the box has no negative length: a lattice pixel is a member exactly when it lies within the ellipsoid. */
    method GetMask() returns (mask: Lattice<bool>)
      requires Valid() && NonNegative(boundingBox.length)
      ensures ValidRegion(Masked(boundingBox.start, mask), |lattice|) && mask.shape == boundingBox.length
      ensures forall pos :: |pos| == |lattice| && InBox(Whole(lattice), pos) ==>
        (Member(Masked(boundingBox.start, mask), lattice, pos)
         <==> Distance(center, semiAxes, pos, |pos|) <= 1.0 && NearFlatAxes(center, semiAxes, pos))
    {
      hide Distance, Member, Product, Digits;
      var sh := boundingBox.length;
      var out := new LatticeArray(sh, false);
      var i := 0;
      while i < out.storage.Length
        invariant i <= out.storage.Length
        invariant forall k :: 0 <= k < i ==> out.storage[k] == WithinAt(center, semiAxes, boundingBox, k)
        invariant forall k :: i <= k < out.storage.Length ==> !out.storage[k]
      {
        var pos := Position(boundingBox.start, sh, i);
        var dist := ComputeDistance(center, semiAxes, pos);
        WithinIs(center, semiAxes, boundingBox, i, pos);
        if dist <= 1.0 {
          out.PutFlat(i, true);
        }
        i := i + 1;
      }
      mask := out.Contents();
      forall pos: IPosition | |pos| == |lattice| && InBox(Whole(lattice), pos)
        ensures Member(Masked(boundingBox.start, mask), lattice, pos)
           <==> Distance(center, semiAxes, pos, |pos|) <= 1.0 && NearFlatAxes(center, semiAxes, pos)
      {
        EllipsoidMember(center, semiAxes, lattice, boundingBox, mask, pos);
      }
    }
  }

  /** Flat element k of the box lies within the ellipsoid. */
  ghost predicate WithinAt(center: seq<real>, axes: seq<real>, box: Slicer, k: nat) {
    && |box.start| == |box.length| == |center| == |axes| && NonNegative(box.length) && k < Product(box.length)
    && (ProductNonNegative(box.length);
        Distance(center, axes, Plus(box.start, Digits(k, box.length)), |center|) <= 1.0)
  }

  lemma WithinIs(center: seq<real>, axes: seq<real>, box: Slicer, k: nat, pos: IPosition)
    requires |box.start| == |box.length| == |center| == |axes| && Positive(box.length) && k < Product(box.length)
    requires pos == Plus(box.start, Digits(k, box.length))
    ensures WithinAt(center, axes, box, k) <==> Distance(center, axes, pos, |pos|) <= 1.0
  {
    hide Distance;
  }

  method ComputeDistance(center: seq<real>, axes: seq<real>, pos: IPosition) returns (dist: real)
    requires |pos| == |center| == |axes|
    ensures dist == Distance(center, axes, pos, |pos|)
  {
    hide Term;
    dist := 0.0;
    var d := 0;
    while d < |pos|
      invariant d <= |pos| && dist == Distance(center, axes, pos, d)
    {
      var offset := pos[d] as real - center[d];
      if axes[d] > 0.0 {
        dist := dist + Term(offset, axes[d]);
      }
      d := d + 1;
    }
  }

  lemma EllipsoidMember(center: seq<real>, axes: seq<real>, lattice: IPosition, box: Slicer, mask: Lattice<bool>, pos: IPosition)
    requires |pos| == |lattice| == |center| == |axes|
    requires box == EllipsoidBox(center, axes, lattice) && InBox(Whole(lattice), pos)
    requires ValidRegion(Masked(box.start, mask), |lattice|) && mask.shape == box.length && NonNegative(mask.shape)
    requires forall k :: 0 <= k < |mask.flat| ==> mask.flat[k] == WithinAt(center, axes, box, k)
    ensures Member(Masked(box.start, mask), lattice, pos)
       <==> Distance(center, axes, pos, |pos|) <= 1.0 && NearFlatAxes(center, axes, pos)
  {
    hide Distance, Digits, Product, MaskAt, WithinAt;
    if InBox(box, pos) {
      LocalIndex(box, pos);
      var k := ElementOf(mask, Minus(pos, box.start));
      WithinIs(center, axes, box, k, pos);
      InBoxNearFlat(center, axes, lattice, pos);
    } else if Distance(center, axes, pos, |pos|) <= 1.0 && NearFlatAxes(center, axes, pos) {
      EllipsoidInBox(center, axes, lattice, pos);
    }
  }

  lemma InBoxNearFlat(center: seq<real>, axes: seq<real>, lattice: IPosition, pos: IPosition)
    requires |pos| == |lattice| == |center| == |axes| && InBox(EllipsoidBox(center, axes, lattice), pos)
    ensures NearFlatAxes(center, axes, pos)
  {
    forall d | 0 <= d < |pos| && axes[d] <= 0.0 ensures Near(center[d], axes[d], pos[d]) {
      assert EllipsoidBox(center, axes, lattice).start[d] <= pos[d];
    }
  }

  /** An ellipsoid whose box has a negative length covers no lattice pixel. */
  lemma EllipsoidOffLattice(center: seq<real>, axes: seq<real>, lattice: IPosition, pos: IPosition)
    requires |pos| == |lattice| == |center| == |axes| && InBox(Whole(lattice), pos)
    requires !NonNegative(EllipsoidBox(center, axes, lattice).length)
    ensures !(Distance(center, axes, pos, |pos|) <= 1.0 && NearFlatAxes(center, axes, pos))
  {
    hide Distance, NearFlatAxes, EllipsoidBox;
    if Distance(center, axes, pos, |pos|) <= 1.0 && NearFlatAxes(center, axes, pos) {
      EllipsoidInBox(center, axes, lattice, pos);
      HoldsPixel(EllipsoidBox(center, axes, lattice), pos);
    }
  }
}
