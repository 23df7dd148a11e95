/** What the even-odd test of src/lattice_region.cpp means: crossings as points of edges, triangles, and fans of triangles. */
module ShapeGeometry {
  import opened Wrappers
  import opened LatticeShape
  import opened LatticeRegion
  import opened RegionShapes

  datatype Point = Point(x: real, y: real)

  function Mul(a: real, b: real): real {
    a * b
  }

  // ---- one edge ----

  /** The point a fraction t of the way from a to b. */
  function Along(a: Point, b: Point, t: real): Point {
    Point(a.x + Mul(t, b.x - a.x), a.y + Mul(t, b.y - a.y))
  }

  /** The edge is crossed by the ray from p to the right: one end is above, and a point of the edge at p's height lies right of p. */
  ghost predicate CrossedBy(a: Point, b: Point, p: Point) {
    (a.y > p.y) != (b.y > p.y) && exists t: real :: 0.0 <= t <= 1.0 && Along(a, b, t).y == p.y && p.x < Along(a, b, t).x
  }

  function Vertex(x: seq<real>, y: seq<real>, i: nat): Point
    requires i < |x| == |y|
  {
    Point(x[i], y[i])
  }

  /** The test of the code, edge by edge. */
  lemma CrossesIff(x: seq<real>, y: seq<real>, i: nat, p: Point)
    requires i < |x| == |y|
    ensures Crosses(x, y, i, p.x, p.y) <==> CrossedBy(Vertex(x, y, i), Vertex(x, y, Before(i, |x|)), p)
  {
    hide Mul;
    var a, b := Vertex(x, y, i), Vertex(x, y, Before(i, |x|));
    if (a.y > p.y) != (b.y > p.y) {
      var t := (p.y - a.y) / (b.y - a.y);
      FractionOf(a, b, p, t);
      if CrossedBy(a, b, p) {
        var u: real :| 0.0 <= u <= 1.0 && Along(a, b, u).y == p.y && p.x < Along(a, b, u).x;
        OneFraction(u, t, b.y - a.y, p.y - a.y);
      }
    }
  }

  /** A quotient e/d lies in [0, 1] where e has d's sign and is no larger. */
  lemma UnitQuotient(e: real, d: real, t: real)
    requires t * d == e && (0.0 <= e < d || d < e <= 0.0 || 0.0 < e <= d || d <= e < 0.0)
    ensures 0.0 <= t <= 1.0
  {
    if d > 0.0 {
      SignOfFactor(t, d);
      SignOfFactor(1.0 - t, d);
    } else {
      SignOfFactor(t, -d);
      SignOfFactor(1.0 - t, -d);
    }
  }

  lemma SignOfFactor(t: real, d: real)
    requires d > 0.0 && t * d >= 0.0
    ensures t >= 0.0
  {
  }

  lemma FractionOf(a: Point, b: Point, p: Point, t: real)
    requires (a.y > p.y) != (b.y > p.y) && t == (p.y - a.y) / (b.y - a.y)
    ensures 0.0 <= t <= 1.0 && Along(a, b, t).y == p.y && Along(a, b, t).x == CrossingX(a.x, a.y, b.x, b.y, p.y)
  {
    var d, e, w := b.y - a.y, p.y - a.y, b.x - a.x;
    assert t * d == e;
    UnitQuotient(e, d, t);
    var q := w * e / d;
    assert q * d == w * e;
    assert (t * w) * d == w * (t * d);
    assert (q - t * w) * d == 0.0;
    assert q == t * w;
  }

  lemma OneFraction(u: real, t: real, d: real, e: real)
    requires d != 0.0 && Mul(u, d) == e && t == e / d
    ensures u == t
  {
    assert (u - t) * d == u * d - t * d == 0.0;
  }

  // ---- sides ----

  /** Positive where p lies to the left of the line from a to b, negative to its right. */
  function Turn(a: Point, b: Point, p: Point): real {
    Mul(b.x - a.x, p.y - a.y) - Mul(b.y - a.y, p.x - a.x)
  }

  ghost predicate OnEdge(a: Point, b: Point, p: Point) {
    exists t: real :: 0.0 <= t <= 1.0 && Along(a, b, t) == p
  }

  predicate Above(a: Point, p: Point) {
    a.y > p.y
  }

  lemma TurnBack(a: Point, b: Point, p: Point)
    ensures Turn(b, a, p) == -Turn(a, b, p)
  {
    assert (a.x - b.x) * (p.y - b.y) == -((b.x - a.x) * (p.y - a.y)) + (b.x - a.x) * (b.y - a.y);
    assert (a.y - b.y) * (p.x - b.x) == -((b.y - a.y) * (p.x - a.x)) + (b.y - a.y) * (b.x - a.x);
  }

  /** A rising edge is crossed by the points to its left, a falling one by those to its right. */
  lemma CrossedSide(a: Point, b: Point, p: Point)
    ensures CrossedBy(a, b, p)
       <==> (!Above(a, p) && Above(b, p) && Turn(a, b, p) > 0.0) || (Above(a, p) && !Above(b, p) && Turn(a, b, p) < 0.0)
    ensures Above(a, p) != Above(b, p) && Turn(a, b, p) == 0.0 ==> OnEdge(a, b, p)
  {
    hide Mul;
    if Above(a, p) != Above(b, p) {
      var d, e, w, h := b.y - a.y, p.y - a.y, b.x - a.x, p.x - a.x;
      var t := e / d;
      FractionOf(a, b, p, t);
      SideOfPoint(t, d, e, w, h);
      if CrossedBy(a, b, p) {
        var u: real :| 0.0 <= u <= 1.0 && Along(a, b, u).y == p.y && p.x < Along(a, b, u).x;
        OneFraction(u, t, d, e);
      }
      if Turn(a, b, p) == 0.0 {
        assert Along(a, b, t) == p;
      }
    }
  }

  lemma SideOfPoint(t: real, d: real, e: real, w: real, h: real)
    requires d != 0.0 && t == e / d
    ensures d > 0.0 ==> (h < Mul(t, w) <==> Mul(w, e) - Mul(d, h) > 0.0)
    ensures d < 0.0 ==> (h < Mul(t, w) <==> Mul(w, e) - Mul(d, h) < 0.0)
    ensures h == Mul(t, w) <==> Mul(w, e) - Mul(d, h) == 0.0
  {
    assert t * d == e;
    assert (t * w - h) * d == w * (t * d) - d * h;
    SignOfProduct(t * w - h, d);
  }

  lemma SignOfProduct(v: real, d: real)
    requires d != 0.0
    ensures v * d == 0.0 <==> v == 0.0
    ensures v * d > 0.0 <==> (v > 0.0) == (d > 0.0) && v != 0.0
  {
    if v > 0.0 && d > 0.0 {
      PositiveProduct(v, d);
    } else if v > 0.0 {
      PositiveProduct(v, -d);
      assert v * -d == -(v * d);
    } else if v < 0.0 && d > 0.0 {
      PositiveProduct(-v, d);
      assert (-v) * d == -(v * d);
    } else if v < 0.0 {
      PositiveProduct(-v, -d);
      assert (-v) * (-d) == v * d;
    }
  }

  lemma CrossedEitherWay(a: Point, b: Point, p: Point)
    ensures CrossedBy(a, b, p) == CrossedBy(b, a, p)
  {
    hide Turn, CrossedBy;
    TurnBack(a, b, p);
    CrossedSide(a, b, p);
    CrossedSide(b, a, p);
  }

  // ---- triangles ----

  /** p lies strictly on the same side of the three edges. */
  predicate SameSides(a: Point, b: Point, c: Point, p: Point) {
    || (Turn(a, b, p) > 0.0 && Turn(b, c, p) > 0.0 && Turn(c, a, p) > 0.0)
    || (Turn(a, b, p) < 0.0 && Turn(b, c, p) < 0.0 && Turn(c, a, p) < 0.0)
  }

  ghost predicate OddCrossed(a: Point, b: Point, c: Point, p: Point) {
    CrossedBy(a, b, p) != (CrossedBy(b, c, p) != CrossedBy(c, a, p))
  }

  ghost predicate OffEdges(a: Point, b: Point, c: Point, p: Point) {
    !OnEdge(a, b, p) && !OnEdge(b, c, p) && !OnEdge(c, a, p)
  }

  /** The heights of the vertices over p, weighted by the opposite turns, balance. */
  lemma Balance(a: Point, b: Point, c: Point, p: Point)
    ensures Mul(Turn(b, c, p), a.y - p.y) + Mul(Turn(c, a, p), b.y - p.y) + Mul(Turn(a, b, p), c.y - p.y) == 0.0
  {
    TurnFrom(a, b, p);
    TurnFrom(b, c, p);
    TurnFrom(c, a, p);
    var u0, h0, u1, h1, u2, h2 := a.x - p.x, a.y - p.y, b.x - p.x, b.y - p.y, c.x - p.x, c.y - p.y;
    assert (u1 * h2 - h1 * u2) * h0 + (u2 * h0 - h2 * u0) * h1 + (u0 * h1 - h0 * u1) * h2 == 0.0;
  }

  lemma TurnFrom(a: Point, b: Point, p: Point)
    ensures Turn(a, b, p) == Mul(a.x - p.x, b.y - p.y) - Mul(a.y - p.y, b.x - p.x)
  {
    var u0, h0, u1, h1 := a.x - p.x, a.y - p.y, b.x - p.x, b.y - p.y;
    assert (u1 - u0) * -h0 - (h1 - h0) * -u0 == u0 * h1 - h0 * u1;
  }

  lemma MulSign(a: real, b: real)
    ensures a > 0.0 && b > 0.0 ==> Mul(a, b) > 0.0
    ensures a < 0.0 && b < 0.0 ==> Mul(a, b) > 0.0
    ensures a > 0.0 && b < 0.0 ==> Mul(a, b) < 0.0
    ensures a < 0.0 && b > 0.0 ==> Mul(a, b) < 0.0
    ensures a == 0.0 || b == 0.0 ==> Mul(a, b) == 0.0
  {
    if b != 0.0 {
      SignOfProduct(a, b);
    }
  }

  /** One vertex above p, the others not: the point lies inside if and only if it is left of one of the two sides and right of none. */
  lemma OneAbove(a: Point, b: Point, c: Point, p: Point)
    requires Above(a, p) && !Above(b, p) && !Above(c, p) && OffEdges(a, b, c, p)
    ensures OddCrossed(a, b, c, p) <==> SameSides(a, b, c, p)
  {
    hide CrossedBy, Turn, Mul, OnEdge;
    Crossings(a, b, c, p);
    Balances(a, b, c, p);
    var u, v, w := Turn(a, b, p), Turn(b, c, p), Turn(c, a, p);
    if (u < 0.0 && w < 0.0) || (u > 0.0 && w > 0.0) {
      if b.y == p.y && c.y == p.y {
        LevelBase(a, b, c, p);
      }
    }
  }

  lemma OneBelow(a: Point, b: Point, c: Point, p: Point)
    requires !Above(a, p) && Above(b, p) && Above(c, p) && OffEdges(a, b, c, p)
    ensures OddCrossed(a, b, c, p) <==> SameSides(a, b, c, p)
  {
    hide CrossedBy, Turn, Mul, OnEdge;
    Crossings(a, b, c, p);
    Balances(a, b, c, p);
  }

  lemma OneSide(a: Point, b: Point, c: Point, p: Point)
    requires Above(a, p) == Above(b, p) == Above(c, p)
    ensures !OddCrossed(a, b, c, p) && !SameSides(a, b, c, p)
  {
    hide CrossedBy, Turn, Mul;
    Crossings(a, b, c, p);
    Balances(a, b, c, p);
    if a.y == p.y && b.y == p.y {
      LevelTurn(a, b, p);
    }
  }

  lemma LevelTurn(a: Point, b: Point, p: Point)
    requires a.y == b.y == p.y
    ensures Turn(a, b, p) == 0.0
  {
  }

  lemma Crossings(a: Point, b: Point, c: Point, p: Point)
    ensures CrossedBy(a, b, p)
       <==> (!Above(a, p) && Above(b, p) && Turn(a, b, p) > 0.0) || (Above(a, p) && !Above(b, p) && Turn(a, b, p) < 0.0)
    ensures CrossedBy(b, c, p)
       <==> (!Above(b, p) && Above(c, p) && Turn(b, c, p) > 0.0) || (Above(b, p) && !Above(c, p) && Turn(b, c, p) < 0.0)
    ensures CrossedBy(c, a, p)
       <==> (!Above(c, p) && Above(a, p) && Turn(c, a, p) > 0.0) || (Above(c, p) && !Above(a, p) && Turn(c, a, p) < 0.0)
    ensures Above(a, p) != Above(b, p) && Turn(a, b, p) == 0.0 ==> OnEdge(a, b, p)
    ensures Above(b, p) != Above(c, p) && Turn(b, c, p) == 0.0 ==> OnEdge(b, c, p)
    ensures Above(c, p) != Above(a, p) && Turn(c, a, p) == 0.0 ==> OnEdge(c, a, p)
  {
    hide CrossedBy, Turn, OnEdge, Above;
    CrossedSide(a, b, p);
    CrossedSide(b, c, p);
    CrossedSide(c, a, p);
  }

  lemma Balances(a: Point, b: Point, c: Point, p: Point)
    ensures var f, g, h := Mul(Turn(b, c, p), a.y - p.y), Mul(Turn(c, a, p), b.y - p.y), Mul(Turn(a, b, p), c.y - p.y);
      f + g + h == 0.0
      && SignRule(Turn(b, c, p), a.y - p.y, f) && SignRule(Turn(c, a, p), b.y - p.y, g) && SignRule(Turn(a, b, p), c.y - p.y, h)
  {
    hide Mul, Turn;
    Balance(a, b, c, p);
    MulSign(Turn(b, c, p), a.y - p.y);
    MulSign(Turn(c, a, p), b.y - p.y);
    MulSign(Turn(a, b, p), c.y - p.y);
  }

  predicate SignRule(a: real, b: real, m: real) {
    && (m > 0.0 <==> (a > 0.0 && b > 0.0) || (a < 0.0 && b < 0.0))
    && (m < 0.0 <==> (a > 0.0 && b < 0.0) || (a < 0.0 && b > 0.0))
  }

  /** A level base that p lies between the ends of holds p. */
  lemma LevelBase(a: Point, b: Point, c: Point, p: Point)
    requires b.y == p.y == c.y && a.y > p.y
    requires (Turn(a, b, p) < 0.0 && Turn(c, a, p) < 0.0) || (Turn(a, b, p) > 0.0 && Turn(c, a, p) > 0.0)
    ensures OnEdge(b, c, p)
  {
    hide Mul;
    TurnFrom(a, b, p);
    TurnFrom(c, a, p);
    MulSign(a.x - p.x, b.y - p.y);
    MulSign(a.y - p.y, b.x - p.x);
    MulSign(c.x - p.x, a.y - p.y);
    MulSign(c.y - p.y, a.x - p.x);
    LevelEdge(b, c, p, (p.x - b.x) / (c.x - b.x));
  }

  lemma LevelEdge(b: Point, c: Point, p: Point, t: real)
    requires b.y == p.y == c.y && (b.x < p.x < c.x || c.x < p.x < b.x) && t == (p.x - b.x) / (c.x - b.x)
    ensures OnEdge(b, c, p)
  {
    UnitQuotient(p.x - b.x, c.x - b.x, t);
    assert Along(b, c, t) == p;
  }

  lemma TurnedVertices(a: Point, b: Point, c: Point, p: Point)
    ensures OddCrossed(a, b, c, p) == OddCrossed(b, c, a, p)
    ensures SameSides(a, b, c, p) == SameSides(b, c, a, p)
    ensures OffEdges(a, b, c, p) == OffEdges(b, c, a, p)
  {
    hide CrossedBy, Turn, OnEdge;
  }

  /** Off its edges, a triangle's crossings are odd exactly at the points strictly on one side of all three edges. */
  lemma TriangleParity(a: Point, b: Point, c: Point, p: Point)
    requires OffEdges(a, b, c, p)
    ensures OddCrossed(a, b, c, p) <==> SameSides(a, b, c, p)
  {
    hide OddCrossed, SameSides, OffEdges;
    TurnedVertices(a, b, c, p);
    TurnedVertices(b, c, a, p);
    var i, j, k := Above(a, p), Above(b, p), Above(c, p);
    if i == j == k {
      OneSide(a, b, c, p);
    } else if j == k {
      if i { OneAbove(a, b, c, p); } else { OneBelow(a, b, c, p); }
    } else if k == i {
      if j { OneAbove(b, c, a, p); } else { OneBelow(b, c, a, p); }
    } else {
      if k { OneAbove(c, a, b, p); } else { OneBelow(c, a, b, p); }
    }
  }

  function Centre(ix: int, iy: int): Point {
    Point(ix as real + 0.5, iy as real + 0.5)
  }

  lemma EdgeCrossed(x: seq<real>, y: seq<real>, i: nat, p: Point)
    requires i < |x| == |y|
    ensures Crosses(x, y, i, p.x, p.y) <==> CrossedBy(Vertex(x, y, Before(i, |x|)), Vertex(x, y, i), p)
  {
    hide CrossedBy, Crosses;
    CrossesIff(x, y, i, p);
    CrossedEitherWay(Vertex(x, y, Before(i, |x|)), Vertex(x, y, i), p);
  }

  /** A pixel whose centre is on no edge of a triangle lies inside if and only if the centre is on the same side of all three edges. */
  lemma TriangleInside(x: seq<real>, y: seq<real>, ix: int, iy: int)
    requires |x| == |y| == 3
    requires OffEdges(Vertex(x, y, 0), Vertex(x, y, 1), Vertex(x, y, 2), Centre(ix, iy))
    ensures Inside(x, y, ix, iy) <==> SameSides(Vertex(x, y, 0), Vertex(x, y, 1), Vertex(x, y, 2), Centre(ix, iy))
  {
    hide CrossedBy, Crosses, OnEdge, SameSides;
    var p := Centre(ix, iy);
    EdgeCrossed(x, y, 0, p);
    EdgeCrossed(x, y, 1, p);
    EdgeCrossed(x, y, 2, p);
    TriangleParity(Vertex(x, y, 0), Vertex(x, y, 1), Vertex(x, y, 2), p);
    assert EvenOdd(x, y, p.x, p.y, 1) == Crosses(x, y, 0, p.x, p.y);
    assert EvenOdd(x, y, p.x, p.y, 2) == (Crosses(x, y, 0, p.x, p.y) != Crosses(x, y, 1, p.x, p.y));
  }

  // ---- any polygon as a fan of triangles ----

  /** Parity of the crossings of the first m triangles of the fan around vertex 0. */
  ghost predicate FanCrossed(x: seq<real>, y: seq<real>, p: Point, m: nat)
    requires |x| == |y| && m + 2 <= |x|
  {
    if m == 0 then false
    else FanCrossed(x, y, p, m - 1) != OddCrossed(Vertex(x, y, 0), Vertex(x, y, m), Vertex(x, y, m + 1), p)
  }

  /** Parity of the number of the first m triangles that hold p. */
  ghost predicate FanHolds(x: seq<real>, y: seq<real>, p: Point, m: nat)
    requires |x| == |y| && m + 2 <= |x|
  {
    if m == 0 then false
    else FanHolds(x, y, p, m - 1) != SameSides(Vertex(x, y, 0), Vertex(x, y, m), Vertex(x, y, m + 1), p)
  }

  ghost predicate OffFan(x: seq<real>, y: seq<real>, p: Point)
    requires |x| == |y|
  {
    forall m :: 0 < m < |x| - 1 ==> OffTriangle(x, y, p, m)
  }

  ghost predicate OffTriangle(x: seq<real>, y: seq<real>, p: Point, m: nat)
    requires |x| == |y| && m + 1 < |x|
  {
    OffEdges(Vertex(x, y, 0), Vertex(x, y, m), Vertex(x, y, m + 1), p)
  }

  /** The diagonals inside the fan are met twice and cancel. */
  lemma {:induction false} FanCancels(x: seq<real>, y: seq<real>, p: Point, m: nat)
    requires |x| == |y| && 0 < m && m + 2 <= |x|
    ensures EvenOdd(x, y, p.x, p.y, m + 2)
      == (Crosses(x, y, 0, p.x, p.y) != (FanCrossed(x, y, p, m) != CrossedBy(Vertex(x, y, m + 1), Vertex(x, y, 0), p)))
  {
    hide CrossedBy, Crosses;
    EdgeCrossed(x, y, m + 1, p);
    CrossedEitherWay(Vertex(x, y, m), Vertex(x, y, 0), p);
    if m == 1 {
      EdgeCrossed(x, y, 1, p);
      assert EvenOdd(x, y, p.x, p.y, 1) == Crosses(x, y, 0, p.x, p.y);
      assert EvenOdd(x, y, p.x, p.y, 2) == (Crosses(x, y, 0, p.x, p.y) != Crosses(x, y, 1, p.x, p.y));
      assert !FanCrossed(x, y, p, 0);
    } else {
      FanCancels(x, y, p, m - 1);
    }
  }

  lemma {:induction false} FanHeld(x: seq<real>, y: seq<real>, p: Point, m: nat)
    requires |x| == |y| && m + 2 <= |x| && OffFan(x, y, p)
    ensures FanCrossed(x, y, p, m) == FanHolds(x, y, p, m)
  {
    hide OddCrossed, SameSides, OffEdges;
    if m > 0 {
      FanHeld(x, y, p, m - 1);
      assert OffTriangle(x, y, p, m);
      TriangleParity(Vertex(x, y, 0), Vertex(x, y, m), Vertex(x, y, m + 1), p);
    }
  }

  /** The even-odd test of any polygon counts, modulo two, the crossings of its fan of triangles. */
  lemma PolygonIsFan(x: seq<real>, y: seq<real>, p: Point)
    requires 3 <= |x| == |y|
    ensures EvenOdd(x, y, p.x, p.y, |x|) == FanCrossed(x, y, p, |x| - 2)
  {
    hide CrossedBy, Crosses, EvenOdd, FanCrossed;
    FanCancels(x, y, p, |x| - 2);
    EdgeCrossed(x, y, 0, p);
  }

  /**
   * Any polygon: a pixel lies inside if and only if an odd number of the triangles (0, m, m + 1) hold its centre strictly inside,
   * where the centre is on none of their edges.
   */
  lemma PolygonInside(x: seq<real>, y: seq<real>, ix: int, iy: int)
    requires 3 <= |x| == |y| && OffFan(x, y, Centre(ix, iy))
    ensures Inside(x, y, ix, iy) <==> FanHolds(x, y, Centre(ix, iy), |x| - 2)
  {
    hide OffFan, EvenOdd, FanCrossed, FanHolds;
    PolygonIsFan(x, y, Centre(ix, iy));
    FanHeld(x, y, Centre(ix, iy), |x| - 2);
  }

  // ---- boxes ----

  lemma {:induction false} LowestBelow(xs: seq<real>, v: real)
    requires xs != []
    ensures Lowest(xs) < v <==> exists i :: 0 <= i < |xs| && xs[i] < v
  {
    if |xs| > 1 {
      LowestBelow(xs[..|xs| - 1], v);
    }
  }

  lemma {:induction false} HighestAbove(xs: seq<real>, v: real)
    requires xs != []
    ensures Highest(xs) > v <==> exists i :: 0 <= i < |xs| && xs[i] > v
  {
    if |xs| > 1 {
      HighestAbove(xs[..|xs| - 1], v);
    }
  }

  ghost predicate Spans(xs: seq<real>, i: int) {
    && (exists k :: 0 <= k < |xs| && xs[k] < i as real + 1.0)
    && (exists k :: 0 <= k < |xs| && xs[k] > i as real - 1.0)
  }

  /** The box of a polygon holds exactly the lattice pixels less than one beyond its vertices on either axis. */
  lemma PolygonBoxHolds(x: seq<real>, y: seq<real>, lattice: IPosition, ix: int, iy: int)
    requires 0 < |x| == |y| && |lattice| == 2
    ensures InBox(PolygonBox(x, y, lattice), [ix, iy])
       <==> 0 <= ix < lattice[0] && 0 <= iy < lattice[1] && Spans(x, ix) && Spans(y, iy)
  {
    hide Lowest, Highest, LowPixel, HighPixel;
    LowestBelow(x, ix as real + 1.0);
    HighestAbove(x, ix as real - 1.0);
    LowestBelow(y, iy as real + 1.0);
    HighestAbove(y, iy as real - 1.0);
    PixelRange(Lowest(x), Highest(x), lattice[0], ix);
    PixelRange(Lowest(y), Highest(y), lattice[1], iy);
    var s := PolygonBox(x, y, lattice);
    assert [ix, iy][0] == ix && [ix, iy][1] == iy;
    assert InBox(s, [ix, iy])
      <==> s.start[0] <= ix < s.start[0] + s.length[0] && s.start[1] <= iy < s.start[1] + s.length[1];
  }

  lemma PixelRange(low: real, high: real, extent: int, i: int)
    ensures LowPixel(low) <= i <= HighPixel(high, extent)
       <==> 0 <= i < extent && low < i as real + 1.0 && high > i as real - 1.0
  {
    FloorCeil(low);
    FloorCeil(high);
  }

  /** The box of an ellipsoid holds exactly the lattice pixels less than one beyond its axes. */
  lemma EllipsoidBoxHolds(center: seq<real>, axes: seq<real>, lattice: IPosition, pos: IPosition)
    requires |pos| == |lattice| == |center| == |axes|
    ensures InBox(EllipsoidBox(center, axes, lattice), pos)
       <==> forall d :: 0 <= d < |pos| ==> Reaches(center[d], axes[d], lattice[d], pos[d])
  {
    hide LowPixel, HighPixel, EllipsoidBox, Reaches;
    var s := EllipsoidBox(center, axes, lattice);
    forall d | 0 <= d < |pos|
      ensures s.start[d] <= pos[d] < s.start[d] + s.length[d] <==> Reaches(center[d], axes[d], lattice[d], pos[d])
    {
      BoxAxis(center, axes, lattice, d);
      AxisReaches(center[d], axes[d], lattice[d], pos[d]);
    }
  }

  predicate Reaches(c: real, axis: real, extent: int, i: int) {
    0 <= i < extent && c - axis < i as real + 1.0 && c + axis > i as real - 1.0
  }

  lemma AxisReaches(c: real, axis: real, extent: int, i: int)
    ensures LowPixel(c - axis) <= i < HighPixel(c + axis, extent) + 1 <==> Reaches(c, axis, extent, i)
  {
    PixelRange(c - axis, c + axis, extent, i);
  }

  // ---- ellipsoids as images of a ball ----

  /** Sum of the squares of the first k coordinates. */
  function Norm(u: seq<real>, k: nat): real
    requires k <= |u|
  {
    if k == 0 then 0.0 else Norm(u, k - 1) + Mul(u[k - 1], u[k - 1])
  }

  /** The pixel is the image of u: each coordinate of u times the semi-axis is the offset from the centre; flat axes are left out. */
  predicate ImageOf(u: seq<real>, center: seq<real>, axes: seq<real>, pos: IPosition)
    requires |u| == |pos| == |center| == |axes|
  {
    forall d :: 0 <= d < |pos| ==>
      if axes[d] > 0.0 then center[d] + Mul(u[d], axes[d]) == pos[d] as real else u[d] == 0.0
  }

  lemma TermIs(v: real, offset: real, axis: real)
    requires axis > 0.0 && Mul(v, axis) == offset
    ensures Term(offset, axis) == Mul(v, v)
  {
    PositiveSquare(axis);
    assert (v * axis) * (v * axis) == (v * v) * (axis * axis);
    DivideOut(v * v, axis * axis);
  }

  lemma DivideOut(a: real, b: real)
    requires b != 0.0
    ensures (a * b) / b == a
  {
  }

  lemma {:induction false} DistanceIsNorm(u: seq<real>, center: seq<real>, axes: seq<real>, pos: IPosition, k: nat)
    requires k <= |u| == |pos| == |center| == |axes| && ImageOf(u, center, axes, pos)
    ensures Distance(center, axes, pos, k) == Norm(u, k)
  {
    hide Term, Mul;
    if k > 0 {
      DistanceIsNorm(u, center, axes, pos, k - 1);
      if axes[k - 1] > 0.0 {
        TermIs(u[k - 1], pos[k - 1] as real - center[k - 1], axes[k - 1]);
      } else {
        assert u[k - 1] == 0.0;
        MulSign(u[k - 1], u[k - 1]);
      }
    }
  }

  lemma Preimage(center: seq<real>, axes: seq<real>, pos: IPosition) returns (u: seq<real>)
    requires |pos| == |center| == |axes|
    ensures |u| == |pos| && ImageOf(u, center, axes, pos)
  {
    hide Mul;
    u := seq(|pos|, d requires 0 <= d < |pos| => if axes[d] > 0.0 then (pos[d] as real - center[d]) / axes[d] else 0.0);
    forall d | 0 <= d < |pos| && axes[d] > 0.0 ensures Mul(u[d], axes[d]) == pos[d] as real - center[d] {
      Divided(pos[d] as real - center[d], axes[d]);
    }
  }

  /** A pixel passes the distance test if and only if it is the image of a point of the unit ball. */
  lemma EllipsoidIsBall(center: seq<real>, axes: seq<real>, pos: IPosition)
    requires |pos| == |center| == |axes|
    ensures Distance(center, axes, pos, |pos|) <= 1.0
       <==> exists u: seq<real> :: |u| == |pos| && ImageOf(u, center, axes, pos) && Norm(u, |u|) <= 1.0
  {
    hide Distance, Norm, Mul, ImageOf;
    var u := Preimage(center, axes, pos);
    DistanceIsNorm(u, center, axes, pos, |pos|);
    forall v: seq<real> | |v| == |pos| && ImageOf(v, center, axes, pos)
      ensures Norm(v, |v|) == Distance(center, axes, pos, |pos|)
    {
      DistanceIsNorm(v, center, axes, pos, |pos|);
    }
  }

  lemma Divided(a: real, b: real)
    requires b != 0.0
    ensures Mul(a / b, b) == a
  {
  }
}
