/** src/linear_coordinate.cpp: linear transforms as coordinates of a composite system. */
module LinearCoordinate {
  import opened Wrappers
  import opened GaussJordan
  import opened LinearXform
  import CS = CoordinateSystem

  /** The values a conversion yields; none where it throws. */
  function Values(r: Result<seq<real>, Error>): seq<real> {
    if r.Ok? then r.value else []
  }

  /** The coordinate hands its conversions to the transform. */
  ghost function Linear(x: Xform): CS.Coordinate
    requires x.Valid()
  {
    CS.Coordinate(x.NAxes(), x.NAxes(), p => Values(x.ToWorld(p)), w => Values(x.ToPixel(w)))
  }

  /** The inversion accepts the matrix of the transform. */
  ghost predicate Accepted(x: Xform) {
    x.Valid() && Inverse(x.Product(), x.NAxes()).Some?
  }

  lemma LinearConversions(x: Xform, p: seq<real>)
    requires x.Valid()
    ensures Linear(x).toWorld(p) == Values(x.ToWorld(p)) && Linear(x).toPixel(p) == Values(x.ToPixel(p))
    ensures Linear(x).nWorld == Linear(x).nPixel == x.NAxes()
  {
    hide Values, Inverse, Plus, Less, Matrix.Apply, Xform.ToWorld, Xform.ToPixel, Xform.Valid, Xform.Product;
  }

  lemma LinearInverts(x: Xform, p: seq<real>)
    requires Accepted(x) && |p| == x.NAxes()
    ensures CS.Inverts(Linear(x), p)
  {
    hide Inverse, Linear, Plus, Less, Matrix.Apply, Xform.Product;
    x.WorldThenPixel(p);
    LinearConversions(x, p);
    LinearConversions(x, x.ToWorld(p).value);
  }

  /** Entry k of the system is transform k, and no matrix is rejected. */
  ghost predicate MadeOf(coords: seq<CS.CoordEntry>, xs: seq<Xform>) {
    |xs| == |coords| && forall k :: 0 <= k < |xs| ==> Accepted(xs[k]) && coords[k].coord == Linear(xs[k])
  }

  lemma EntryInverts(coords: seq<CS.CoordEntry>, xs: seq<Xform>, pixel: seq<real>, j: nat)
    requires MadeOf(coords, xs) && j < |coords|
    ensures CS.InvertsAt(coords, pixel, j)
  {
    hide Linear, Inverse, CS.Inverts, CS.Part, Xform.Product;
    var x := xs[j];
    LinearConversions(x, []);
    LinearInverts(x, CS.Part(pixel, CS.PixelBase(coords, j), x.NAxes()));
  }

  /** A system of linear coordinates whose matrices are all accepted returns every pixel position exactly. */
  lemma LinearSystemInverts(coords: seq<CS.CoordEntry>, xs: seq<Xform>, pixel: seq<real>)
    requires MadeOf(coords, xs) && |pixel| == CS.PixelBase(coords, |coords|)
    ensures CS.PixelOf(coords, CS.WorldOf(coords, pixel, |coords|), |coords|) == pixel
  {
    hide MadeOf, CS.PixelOf, CS.WorldOf, CS.InvertsAt;
    forall j | 0 <= j < |coords| ensures CS.InvertsAt(coords, pixel, j) {
      EntryInverts(coords, xs, pixel, j);
    }
    CS.SystemInverts(coords, pixel);
  }
}
