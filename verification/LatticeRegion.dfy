/** Compound regions of src/lattice_region.cpp: bounding boxes and local masks against sets of pixels. */
module LatticeRegion {
  import opened Arithmetic
  import opened Wrappers
  import opened LatticeShape
  import opened LatticeArray

  const INT64_MAX: int := 0x7FFF_FFFF_FFFF_FFFF

  datatype Slicer = Slicer(start: IPosition, length: IPosition)

  /** Masked stands for every leaf with a local mask: pixel sets, full masks, polygons and ellipsoids. */
  datatype Region =
    | Box(blc: IPosition, trc: IPosition)
    | Masked(origin: IPosition, mask: Lattice<bool>)
    | Union(regions: seq<Region>)
    | Intersection(regions: seq<Region>)
    | Difference(region1: Region, region2: Region)
    | Complement(region: Region)

  // ---- positions ----

  function Plus(a: IPosition, b: IPosition): (r: IPosition)
    requires |a| == |b|
    ensures |r| == |a|
  {
    seq(|a|, d requires 0 <= d < |a| => a[d] + b[d])
  }

  function Minus(a: IPosition, b: IPosition): (r: IPosition)
    requires |a| == |b|
    ensures |r| == |a|
  {
    seq(|a|, d requires 0 <= d < |a| => a[d] - b[d])
  }

  function Whole(lattice: IPosition): (s: Slicer)
    ensures |s.start| == |s.length| == |lattice|
  {
    Slicer(seq(|lattice|, _ => 0), lattice)
  }

  predicate InBox(s: Slicer, pos: IPosition)
    requires |s.start| == |s.length| == |pos|
  {
    forall d :: 0 <= d < |pos| ==> s.start[d] <= pos[d] < s.start[d] + s.length[d]
  }

  // ---- bounding boxes ----

  /** A length may be negative, as for a shape off the lattice; the box then holds no pixel. */
  predicate ValidBox(s: Slicer, nd: nat) {
    |s.start| == |s.length| == nd
    && forall d :: 0 <= d < nd ==> s.start[d] <= INT64_MAX
  }

  predicate ValidBoxes(boxes: seq<Slicer>, nd: nat) {
    forall i :: 0 <= i < |boxes| ==> ValidBox(boxes[i], nd)
  }

  /** Smallest start along an axis. */
  function Low(boxes: seq<Slicer>, d: nat, nd: nat): (x: int)
    requires ValidBoxes(boxes, nd) && d < nd
    ensures x <= INT64_MAX
    ensures forall i :: 0 <= i < |boxes| ==> x <= boxes[i].start[d]
  {
    if boxes == [] then INT64_MAX
    else
      var last := |boxes| - 1;
      var x := Low(boxes[..last], d, nd);
      if boxes[last].start[d] < x then boxes[last].start[d] else x
  }

  /** Largest end along an axis, counted from zero. */
  function High(boxes: seq<Slicer>, d: nat, nd: nat): (x: int)
    requires ValidBoxes(boxes, nd) && d < nd
    ensures x >= 0
    ensures forall i :: 0 <= i < |boxes| ==> boxes[i].start[d] + boxes[i].length[d] - 1 <= x
  {
    if boxes == [] then 0
    else
      var last := |boxes| - 1;
      var x := High(boxes[..last], d, nd);
      var end := boxes[last].start[d] + boxes[last].length[d] - 1;
      if x < end then end else x
  }

  /** Largest start along an axis, counted from zero. */
  function HighStart(boxes: seq<Slicer>, d: nat, nd: nat): (x: int)
    requires ValidBoxes(boxes, nd) && d < nd
    ensures 0 <= x <= INT64_MAX
  {
    if boxes == [] then 0
    else
      var last := |boxes| - 1;
      var x := HighStart(boxes[..last], d, nd);
      if x < boxes[last].start[d] then boxes[last].start[d] else x
  }

  /** Smallest end along an axis, counted from the end of the lattice. */
  function LowEnd(boxes: seq<Slicer>, d: nat, lattice: IPosition): int
    requires ValidBoxes(boxes, |lattice|) && d < |lattice|
  {
    if boxes == [] then lattice[d] - 1
    else
      var last := |boxes| - 1;
      var x := LowEnd(boxes[..last], d, lattice);
      var end := boxes[last].start[d] + boxes[last].length[d] - 1;
      if end < x then end else x
  }

  function Max(a: int, b: int): int { if a < b then b else a }

  function Min(a: int, b: int): int { if b < a then b else a }

  function UnionBox(boxes: seq<Slicer>, lattice: IPosition): (s: Slicer)
    requires ValidBoxes(boxes, |lattice|) && NonNegative(lattice)
    ensures ValidBox(s, |lattice|)
  {
    if boxes == [] then Whole(lattice)
    else
      var nd := |lattice|;
      Slicer(seq(nd, d requires 0 <= d < nd => Low(boxes, d, nd)),
             seq(nd, d requires 0 <= d < nd => UnionLength(boxes, d, nd)))
  }

  function UnionLength(boxes: seq<Slicer>, d: nat, nd: nat): int
    requires ValidBoxes(boxes, nd) && d < nd
  {
    High(boxes, d, nd) - Low(boxes, d, nd) + 1
  }

  function IntersectionBox(boxes: seq<Slicer>, lattice: IPosition): (s: Slicer)
    requires ValidBoxes(boxes, |lattice|) && NonNegative(lattice)
    ensures ValidBox(s, |lattice|)
  {
    if boxes == [] then Whole(lattice)
    else
      var nd := |lattice|;
      Slicer(seq(nd, d requires 0 <= d < nd => HighStart(boxes, d, nd)),
             seq(nd, d requires 0 <= d < nd => Max(0, LowEnd(boxes, d, lattice) - HighStart(boxes, d, nd) + 1)))
  }

  /** Ranks agree and masks fill their boxes. */
  predicate ValidRegion(r: Region, nd: nat) {
    match r
    case Box(blc, trc) =>
      |blc| == |trc| == nd && forall d :: 0 <= d < nd ==> blc[d] <= INT64_MAX
    case Masked(origin, mask) =>
      && |origin| == |mask.shape| == nd && (NonNegative(mask.shape) ==> ValidLattice(mask))
      && forall d :: 0 <= d < nd ==> origin[d] <= INT64_MAX
    case Union(rs) => forall i :: 0 <= i < |rs| ==> ValidRegion(rs[i], nd)
    case Intersection(rs) => forall i :: 0 <= i < |rs| ==> ValidRegion(rs[i], nd)
    case Difference(a, b) => ValidRegion(a, nd) && ValidRegion(b, nd)
    case Complement(a) => ValidRegion(a, nd)
  }

  function BoundingBox(r: Region, lattice: IPosition): (s: Slicer)
    requires ValidRegion(r, |lattice|) && NonNegative(lattice)
    ensures ValidBox(s, |lattice|)
    decreases r, 0
  {
    match r
    case Box(blc, trc) => Slicer(blc, seq(|blc|, d requires 0 <= d < |blc| => trc[d] - blc[d] + 1))
    case Masked(origin, mask) => Slicer(origin, mask.shape)
    case Union(rs) => UnionBox(Boxes(rs, lattice), lattice)
    case Intersection(rs) => IntersectionBox(Boxes(rs, lattice), lattice)
    case Difference(a, _) => BoundingBox(a, lattice)
    case Complement(_) => Whole(lattice)
  }

  function Boxes(rs: seq<Region>, lattice: IPosition): (b: seq<Slicer>)
    requires (forall i :: 0 <= i < |rs| ==> ValidRegion(rs[i], |lattice|)) && NonNegative(lattice)
    ensures |b| == |rs| && ValidBoxes(b, |lattice|)
    decreases rs, 1
  {
    seq(|rs|, i requires 0 <= i < |rs| => BoundingBox(rs[i], lattice))
  }

  // ---- the meaning: sets of pixels ----

  function MaskAt(mask: Lattice<bool>, local: IPosition): bool
    requires ValidLattice(mask) && ValidIndex(local, mask.shape)
  {
    ValidIndexPositive(local, mask.shape);
    LinearThenDelinearize(local, mask.shape);
    mask.flat[Offset(local, Strides(mask.shape))]
  }

  predicate InMask(origin: IPosition, mask: Lattice<bool>, pos: IPosition)
    requires (NonNegative(mask.shape) ==> ValidLattice(mask)) && |origin| == |mask.shape| == |pos|
  {
    InBox(Slicer(origin, mask.shape), pos) && (HoldsPixel(Slicer(origin, mask.shape), pos); MaskAt(mask, Minus(pos, origin)))
  }

  /** A box that holds a pixel has no negative length. */
  lemma HoldsPixel(s: Slicer, pos: IPosition)
    requires |s.start| == |s.length| == |pos| && InBox(s, pos)
    ensures Positive(s.length) && NonNegative(s.length) && ValidIndex(Minus(pos, s.start), s.length)
  {
    forall d | 0 <= d < |pos| ensures s.length[d] > 0 {
      assert s.start[d] <= pos[d] < s.start[d] + s.length[d];
    }
  }

  /** The set a region stands for: union, intersection, difference and complement of pixel sets within the lattice. */
  predicate Member(r: Region, lattice: IPosition, pos: IPosition)
    requires ValidRegion(r, |lattice|) && |pos| == |lattice|
  {
    match r
    case Box(blc, trc) => forall d :: 0 <= d < |pos| ==> blc[d] <= pos[d] <= trc[d]
    case Masked(origin, mask) => InMask(origin, mask, pos)
    case Union(rs) => exists i :: 0 <= i < |rs| && Member(rs[i], lattice, pos)
    case Intersection(rs) => InBox(Whole(lattice), pos) && forall i :: 0 <= i < |rs| ==> Member(rs[i], lattice, pos)
    case Difference(a, b) => Member(a, lattice, pos) && !Member(b, lattice, pos)
    case Complement(a) => InBox(Whole(lattice), pos) && !Member(a, lattice, pos)
  }

  /** No bounding box drops a member of its region. */
  lemma {:induction false} BoxHoldsMembers(r: Region, lattice: IPosition, pos: IPosition)
    requires ValidRegion(r, |lattice|) && NonNegative(lattice) && |pos| == |lattice|
    ensures Member(r, lattice, pos) ==> InBox(BoundingBox(r, lattice), pos)
  {
    if Member(r, lattice, pos) {
      match r
      case Union(rs) =>
        var i :| 0 <= i < |rs| && Member(rs[i], lattice, pos);
        BoxHoldsMembers(rs[i], lattice, pos);
        UnionBoxCovers(Boxes(rs, lattice), lattice, i, pos);
      case Intersection(rs) =>
        forall i | 0 <= i < |rs| ensures InBox(Boxes(rs, lattice)[i], pos) {
          BoxHoldsMembers(rs[i], lattice, pos);
        }
        IntersectionBoxCovers(Boxes(rs, lattice), lattice, pos);
      case Difference(a, _) => BoxHoldsMembers(a, lattice, pos);
      case _ =>
    }
  }

  lemma UnionBoxCovers(boxes: seq<Slicer>, lattice: IPosition, i: nat, pos: IPosition)
    requires ValidBoxes(boxes, |lattice|) && NonNegative(lattice) && i < |boxes| && |pos| == |lattice|
    requires InBox(boxes[i], pos)
    ensures InBox(UnionBox(boxes, lattice), pos)
  {
    var nd := |lattice|;
    forall d | 0 <= d < nd
      ensures Low(boxes, d, nd) <= pos[d] < Low(boxes, d, nd) + UnionLength(boxes, d, nd)
    {
    }
  }

  lemma {:induction false} BetweenBounds(boxes: seq<Slicer>, lattice: IPosition, d: nat, x: int)
    requires ValidBoxes(boxes, |lattice|) && d < |lattice| && 0 <= x < lattice[d]
    requires forall i :: 0 <= i < |boxes| ==> boxes[i].start[d] <= x < boxes[i].start[d] + boxes[i].length[d]
    ensures HighStart(boxes, d, |lattice|) <= x <= LowEnd(boxes, d, lattice)
  {
    if boxes != [] {
      BetweenBounds(boxes[..|boxes| - 1], lattice, d, x);
    }
  }

  lemma IntersectionBoxCovers(boxes: seq<Slicer>, lattice: IPosition, pos: IPosition)
    requires ValidBoxes(boxes, |lattice|) && NonNegative(lattice) && |pos| == |lattice|
    requires InBox(Whole(lattice), pos) && forall i :: 0 <= i < |boxes| ==> InBox(boxes[i], pos)
    ensures InBox(IntersectionBox(boxes, lattice), pos)
  {
    forall d | 0 <= d < |lattice|
      ensures HighStart(boxes, d, |lattice|) <= pos[d] <= LowEnd(boxes, d, lattice)
    {
      BetweenBounds(boxes, lattice, d, pos[d]);
    }
  }

  // ---- the algebra, pixel by pixel ----

  lemma DeMorganUnionPixel(rs: seq<Region>, cs: seq<Region>, lattice: IPosition, pos: IPosition)
    requires |pos| == |lattice| && (forall i :: 0 <= i < |rs| ==> ValidRegion(rs[i], |lattice|))
    requires |cs| == |rs| && forall i :: 0 <= i < |rs| ==> cs[i] == Complement(rs[i])
    ensures ValidRegion(Complement(Union(rs)), |lattice|) && ValidRegion(Intersection(cs), |lattice|)
    ensures Member(Complement(Union(rs)), lattice, pos) <==> Member(Intersection(cs), lattice, pos)
  {
    assert ValidRegion(Union(rs), |lattice|);
    forall i | 0 <= i < |cs| ensures ValidRegion(cs[i], |lattice|) { }
    if InBox(Whole(lattice), pos) {
      forall i | 0 <= i < |cs| ensures Member(cs[i], lattice, pos) <==> !Member(rs[i], lattice, pos) { }
      if Member(Intersection(cs), lattice, pos) {
        forall i | 0 <= i < |rs| ensures !Member(rs[i], lattice, pos) {
          assert Member(cs[i], lattice, pos);
        }
      }
    }
  }

  lemma DeMorganIntersectionPixel(rs: seq<Region>, cs: seq<Region>, lattice: IPosition, pos: IPosition)
    requires |pos| == |lattice| && (forall i :: 0 <= i < |rs| ==> ValidRegion(rs[i], |lattice|))
    requires |cs| == |rs| && forall i :: 0 <= i < |rs| ==> cs[i] == Complement(rs[i])
    ensures ValidRegion(Complement(Intersection(rs)), |lattice|) && ValidRegion(Union(cs), |lattice|)
    ensures Member(Complement(Intersection(rs)), lattice, pos) <==> Member(Union(cs), lattice, pos)
  {
    assert ValidRegion(Intersection(rs), |lattice|);
    forall i | 0 <= i < |cs| ensures ValidRegion(cs[i], |lattice|) { }
    forall i | 0 <= i < |cs|
      ensures Member(cs[i], lattice, pos) <==> InBox(Whole(lattice), pos) && !Member(rs[i], lattice, pos)
    {
    }
    ComplementOfIntersection(rs, lattice, pos);
    UnionOf(cs, lattice, pos);
  }

  lemma ComplementOfIntersection(rs: seq<Region>, lattice: IPosition, pos: IPosition)
    requires |pos| == |lattice| && forall i :: 0 <= i < |rs| ==> ValidRegion(rs[i], |lattice|)
    ensures ValidRegion(Complement(Intersection(rs)), |lattice|)
    ensures Member(Complement(Intersection(rs)), lattice, pos)
        <==> InBox(Whole(lattice), pos) && exists i :: 0 <= i < |rs| && !Member(rs[i], lattice, pos)
  {
    hide InBox, Whole;
    assert ValidRegion(Intersection(rs), |lattice|);
  }

  lemma UnionOf(rs: seq<Region>, lattice: IPosition, pos: IPosition)
    requires |pos| == |lattice| && forall i :: 0 <= i < |rs| ==> ValidRegion(rs[i], |lattice|)
    ensures ValidRegion(Union(rs), |lattice|)
    ensures Member(Union(rs), lattice, pos) <==> exists i :: 0 <= i < |rs| && Member(rs[i], lattice, pos)
  {
  }

  lemma DifferenceIsIntersectionPixel(a: Region, b: Region, lattice: IPosition, pos: IPosition)
    requires |pos| == |lattice| && ValidRegion(a, |lattice|) && ValidRegion(b, |lattice|)
    requires InBox(Whole(lattice), pos)
    ensures Member(Difference(a, b), lattice, pos) <==> Member(Intersection([a, Complement(b)]), lattice, pos)
  {
    var rs := [a, Complement(b)];
    assert ValidRegion(rs[0], |lattice|) && ValidRegion(rs[1], |lattice|);
    if Member(Intersection(rs), lattice, pos) {
      assert Member(rs[0], lattice, pos) && Member(rs[1], lattice, pos);
    }
  }

  // ---- bounding boxes computed in place ----

  /** Widens the corners to include a box. */
  method Widen(blc: array<int>, trc: array<int>, box: Slicer)
    requires blc != trc && blc.Length == trc.Length && ValidBox(box, blc.Length)
    modifies blc, trc
    ensures forall d :: 0 <= d < blc.Length ==> blc[d] == Min(old(blc[d]), box.start[d])
    ensures forall d :: 0 <= d < trc.Length ==> trc[d] == Max(old(trc[d]), box.start[d] + box.length[d] - 1)
  {
    var d := 0;
    while d < blc.Length
      invariant d <= blc.Length
      invariant forall k :: 0 <= k < d ==> blc[k] == Min(old(blc[k]), box.start[k])
      invariant forall k :: 0 <= k < d ==> trc[k] == Max(old(trc[k]), box.start[k] + box.length[k] - 1)
      invariant forall k :: d <= k < blc.Length ==> blc[k] == old(blc[k]) && trc[k] == old(trc[k])
    {
      blc[d] := Min(blc[d], box.start[d]);
      trc[d] := Max(trc[d], box.start[d] + box.length[d] - 1);
      d := d + 1;
    }
  }

  /** Clips the corners to a box. */
  method Clip(blc: array<int>, trc: array<int>, box: Slicer)
    requires blc != trc && blc.Length == trc.Length && ValidBox(box, blc.Length)
    modifies blc, trc
    ensures forall d :: 0 <= d < blc.Length ==> blc[d] == Max(old(blc[d]), box.start[d])
    ensures forall d :: 0 <= d < trc.Length ==> trc[d] == Min(old(trc[d]), box.start[d] + box.length[d] - 1)
  {
    var d := 0;
    while d < blc.Length
      invariant d <= blc.Length
      invariant forall k :: 0 <= k < d ==> blc[k] == Max(old(blc[k]), box.start[k])
      invariant forall k :: 0 <= k < d ==> trc[k] == Min(old(trc[k]), box.start[k] + box.length[k] - 1)
      invariant forall k :: d <= k < blc.Length ==> blc[k] == old(blc[k]) && trc[k] == old(trc[k])
    {
      blc[d] := Max(blc[d], box.start[d]);
      trc[d] := Min(trc[d], box.start[d] + box.length[d] - 1);
      d := d + 1;
    }
  }

  lemma WidenNothing(boxes: seq<Slicer>, nd: nat)
    requires boxes == []
    ensures forall k :: 0 <= k < nd ==> Low(boxes, k, nd) == INT64_MAX && High(boxes, k, nd) == 0
  {
  }

  lemma WidenStep(boxes: seq<Slicer>, i: nat, nd: nat)
    requires ValidBoxes(boxes, nd) && i < |boxes|
    ensures forall k :: 0 <= k < nd ==>
      && Low(boxes[..i + 1], k, nd) == Min(Low(boxes[..i], k, nd), boxes[i].start[k])
      && High(boxes[..i + 1], k, nd) == Max(High(boxes[..i], k, nd), boxes[i].start[k] + boxes[i].length[k] - 1)
  {
    assert boxes[..i + 1][..i] == boxes[..i];
  }

  /** compute_union_bb */
  method ComputeUnionBox(boxes: seq<Slicer>, lattice: IPosition) returns (s: Slicer)
    requires ValidBoxes(boxes, |lattice|) && NonNegative(lattice)
    ensures s == UnionBox(boxes, lattice)
  {
    hide Low, High;
    if boxes == [] {
      return Whole(lattice);
    }
    var nd := |lattice|;
    var blc := new int[nd](_ => INT64_MAX);
    var trc := new int[nd](_ => 0);
    WidenNothing(boxes[..0], nd);
    var i := 0;
    while i < |boxes|
      invariant i <= |boxes|
      invariant forall d :: 0 <= d < nd ==> blc[d] == Low(boxes[..i], d, nd) && trc[d] == High(boxes[..i], d, nd)
    {
      WidenStep(boxes, i, nd);
      Widen(blc, trc, boxes[i]);
      i := i + 1;
    }
    assert boxes[..i] == boxes;
    var len := [];
    var d := 0;
    while d < nd
      modifies {}
      invariant d <= nd && |len| == d && forall k :: 0 <= k < d ==> len[k] == UnionLength(boxes, k, nd)
    {
      len := len + [trc[d] - blc[d] + 1];
      d := d + 1;
    }
    assert blc[..] == UnionBox(boxes, lattice).start && len == UnionBox(boxes, lattice).length;
    s := Slicer(blc[..], len);
  }

  lemma ClipNothing(boxes: seq<Slicer>, lattice: IPosition)
    requires boxes == []
    ensures forall k :: 0 <= k < |lattice| ==> HighStart(boxes, k, |lattice|) == 0 && LowEnd(boxes, k, lattice) == lattice[k] - 1
  {
  }

  lemma ClipStep(boxes: seq<Slicer>, i: nat, lattice: IPosition)
    requires ValidBoxes(boxes, |lattice|) && i < |boxes|
    ensures forall k :: 0 <= k < |lattice| ==>
      && HighStart(boxes[..i + 1], k, |lattice|) == Max(HighStart(boxes[..i], k, |lattice|), boxes[i].start[k])
      && LowEnd(boxes[..i + 1], k, lattice) == Min(LowEnd(boxes[..i], k, lattice), boxes[i].start[k] + boxes[i].length[k] - 1)
  {
    assert boxes[..i + 1][..i] == boxes[..i];
  }

  /** compute_intersection_bb */
  method ComputeIntersectionBox(boxes: seq<Slicer>, lattice: IPosition) returns (s: Slicer)
    requires ValidBoxes(boxes, |lattice|) && NonNegative(lattice)
    ensures s == IntersectionBox(boxes, lattice)
  {
    hide HighStart, LowEnd;
    if boxes == [] {
      return Whole(lattice);
    }
    var nd := |lattice|;
    var blc := new int[nd](_ => 0);
    var trc := new int[nd](_ => 0);
    var d := 0;
    while d < nd
      modifies trc
      invariant d <= nd && forall k :: 0 <= k < d ==> trc[k] == lattice[k] - 1
    {
      trc[d] := lattice[d] - 1;
      d := d + 1;
    }
    ClipNothing(boxes[..0], lattice);
    var i := 0;
    while i < |boxes|
      invariant i <= |boxes|
      invariant forall k :: 0 <= k < nd ==> blc[k] == HighStart(boxes[..i], k, nd) && trc[k] == LowEnd(boxes[..i], k, lattice)
    {
      ClipStep(boxes, i, lattice);
      Clip(blc, trc, boxes[i]);
      i := i + 1;
    }
    assert boxes[..i] == boxes;
    var len := [];
    d := 0;
    while d < nd
      modifies {}
      invariant d <= nd && |len| == d
      invariant forall k :: 0 <= k < d ==> len[k] == Max(0, LowEnd(boxes, k, lattice) - HighStart(boxes, k, nd) + 1)
    {
      len := len + [Max(0, trc[d] - blc[d] + 1)];
      d := d + 1;
    }
    assert blc[..] == IntersectionBox(boxes, lattice).start && len == IntersectionBox(boxes, lattice).length;
    s := Slicer(blc[..], len);
  }

  // ---- masks filled pixel by pixel ----

  /** The mask of a region: element i says whether the pixel it stands for is a member. */
  ghost predicate MaskOf(mask: Lattice<bool>, r: Region, lattice: IPosition)
    requires ValidRegion(r, |lattice|) && NonNegative(lattice)
  {
    && ValidLattice(mask) && mask.shape == BoundingBox(r, lattice).length
    && forall i :: 0 <= i < |mask.flat| ==> mask.flat[i] == MemberAt(r, lattice, mask.shape, i)
  }

  /** Membership of the pixel that flat element i of the bounding box stands for. */
  ghost predicate MemberAt(r: Region, lattice: IPosition, shape: IPosition, i: nat)
    requires ValidRegion(r, |lattice|) && NonNegative(lattice)
    requires NonNegative(shape) && |shape| == |lattice| && i < Product(shape)
  {
    ProductNonNegative(shape);
    Member(r, lattice, Plus(BoundingBox(r, lattice).start, Digits(i, shape)))
  }

  /** The lattice position of flat element i of a box. */
  method Position(start: IPosition, shape: IPosition, i: nat) returns (pos: IPosition)
    requires NonNegative(shape) && |start| == |shape| && i < Product(shape)
    ensures Positive(shape) && pos == Plus(start, Digits(i, shape))
  {
    ProductNonNegative(shape);
    var local := Delinearize(i, shape);
    pos := Plus(start, local);
  }

  /** pixel_in_region: box test first, then the local mask where the region has one. */
  method PixelInRegion(r: Region, lattice: IPosition, pos: IPosition) returns (inside: bool)
    requires ValidRegion(r, |lattice|) && NonNegative(lattice) && |pos| == |lattice|
    ensures inside == Member(r, lattice, pos)
    decreases r, 1
  {
    hide Member, BoundingBox;
    var bb := BoundingBox(r, lattice);
    BoxHoldsMembers(r, lattice, pos);
    if !InBox(bb, pos) {
      return false;
    }
    if r.Box? {
      BoxIsMember(r, lattice, pos);
      return true;
    }
    HoldsPixel(bb, pos);
    var local := Minus(pos, bb.start);
    var mask := GetMask(r, lattice);
    LocalMember(r, lattice, mask, pos);
    inside := MaskAt(mask, local);
  }

  lemma BoxIsMember(r: Region, lattice: IPosition, pos: IPosition)
    requires r.Box? && ValidRegion(r, |lattice|) && NonNegative(lattice) && |pos| == |lattice|
    requires InBox(BoundingBox(r, lattice), pos)
    ensures Member(r, lattice, pos)
  {
  }

  /** Looking up the local mask answers membership. */
  lemma LocalMember(r: Region, lattice: IPosition, mask: Lattice<bool>, pos: IPosition)
    requires ValidRegion(r, |lattice|) && NonNegative(lattice) && |pos| == |lattice| && MaskOf(mask, r, lattice)
    requires InBox(BoundingBox(r, lattice), pos)
    ensures var local := Minus(pos, BoundingBox(r, lattice).start);
      ValidIndex(local, mask.shape) && MaskAt(mask, local) == Member(r, lattice, pos)
  {
    hide Member, BoundingBox, ValidRegion, Digits, Offset, Strides, Product, MaskAt;
    var bb := BoundingBox(r, lattice);
    LocalIndex(bb, pos);
    var local := Minus(pos, bb.start);
    var i := ElementOf(mask, local);
    ValidIndexPositive(local, mask.shape);
    assert mask.flat[i] == MemberAt(r, lattice, mask.shape, i);
  }

  lemma LocalIndex(s: Slicer, pos: IPosition)
    requires |s.start| == |s.length| == |pos| && InBox(s, pos)
    ensures ValidIndex(Minus(pos, s.start), s.length) && Plus(s.start, Minus(pos, s.start)) == pos
  {
  }

  /** The flat element that a local index reads. */
  lemma ElementOf(mask: Lattice<bool>, local: IPosition) returns (i: nat)
    requires ValidLattice(mask) && ValidIndex(local, mask.shape)
    ensures Positive(mask.shape) && i < |mask.flat| && Digits(i, mask.shape) == local && MaskAt(mask, local) == mask.flat[i]
  {
    hide Digits, Offset, Strides, Product;
    ValidIndexPositive(local, mask.shape);
    LinearThenDelinearize(local, mask.shape);
    i := Offset(local, Strides(mask.shape));
  }

  /** get_mask */
  method GetMask(r: Region, lattice: IPosition) returns (mask: Lattice<bool>)
    requires ValidRegion(r, |lattice|) && NonNegative(lattice) && NonNegative(BoundingBox(r, lattice).length)
    ensures MaskOf(mask, r, lattice)
    decreases r, 0
  {
    hide Member, BoundingBox;
    match r {
      case Box(_, _) =>
        mask := BoxMask(r, lattice);
      case Masked(_, m) =>
        StoredMask(r, lattice);
        mask := m;
      case Union(rs) =>
        mask := UnionMask(r, lattice, rs);
      case Intersection(rs) =>
        mask := IntersectionMask(r, lattice, rs);
      case Difference(a, b) =>
        mask := DifferenceMask(r, lattice, a, b);
      case Complement(a) =>
        mask := ComplementMask(r, lattice, a);
    }
  }

  method BoxMask(r: Region, lattice: IPosition) returns (mask: Lattice<bool>)
    requires r.Box? && ValidRegion(r, |lattice|) && NonNegative(lattice) && NonNegative(BoundingBox(r, lattice).length)
    ensures MaskOf(mask, r, lattice)
  {
    hide Member, BoundingBox;
    var bb := BoundingBox(r, lattice);
    var out := new LatticeArray(bb.length, true);
    mask := out.Contents();
    forall i | 0 <= i < |mask.flat| ensures MemberAt(r, lattice, bb.length, i) {
      ProductNonNegative(bb.length);
      DelinearizeThenLinear(i, bb.length);
      BoxIsMember(r, lattice, Plus(bb.start, Digits(i, bb.length)));
    }
  }

  lemma StoredMask(r: Region, lattice: IPosition)
    requires r.Masked? && ValidRegion(r, |lattice|) && NonNegative(lattice) && NonNegative(BoundingBox(r, lattice).length)
    ensures MaskOf(r.mask, r, lattice)
  {
    forall i | 0 <= i < |r.mask.flat| ensures r.mask.flat[i] == MemberAt(r, lattice, r.mask.shape, i) {
      ProductNonNegative(r.mask.shape);
      DelinearizeThenLinear(i, r.mask.shape);
      var local := Digits(i, r.mask.shape);
      assert Minus(Plus(r.origin, local), r.origin) == local;
    }
  }

  /** The storage agrees with membership below i and holds the initial value from there on. */
  ghost predicate Progress(out: seq<bool>, r: Region, lattice: IPosition, shape: IPosition, i: nat, initial: bool)
    requires ValidRegion(r, |lattice|) && NonNegative(lattice)
    requires NonNegative(shape) && |shape| == |lattice| && |out| == Product(shape)
  {
    && (forall k :: 0 <= k < i && k < |out| ==> out[k] == MemberAt(r, lattice, shape, k))
    && (forall k :: i <= k < |out| ==> out[k] == initial)
  }

  method UnionMask(r: Region, lattice: IPosition, rs: seq<Region>) returns (mask: Lattice<bool>)
    requires r == Union(rs) && ValidRegion(r, |lattice|) && NonNegative(lattice) && NonNegative(BoundingBox(r, lattice).length)
    ensures MaskOf(mask, r, lattice)
    decreases rs, 0
  {
    hide Member, BoundingBox, MemberAt;
    var bb := BoundingBox(r, lattice);
    var out := new LatticeArray(bb.length, false);
    var i := 0;
    while i < out.storage.Length
      invariant i <= out.storage.Length && Progress(out.storage[..], r, lattice, bb.length, i, false)
    {
      var pos := Position(bb.start, bb.length, i);
      var found := false;
      var k := 0;
      while k < |rs|
        modifies {}
        invariant k <= |rs| && !found && forall j :: 0 <= j < k ==> !Member(rs[j], lattice, pos)
      {
        found := PixelInRegion(rs[k], lattice, pos);
        if found {
          break;
        }
        k := k + 1;
      }
      UnionMember(r, lattice, i, pos, if found then k else 0, found);
      if found {
        out.PutFlat(i, true);
      }
      i := i + 1;
    }
    mask := out.Contents();
  }

  lemma UnionMember(r: Region, lattice: IPosition, i: nat, pos: IPosition, k: nat, found: bool)
    requires r.Union? && ValidRegion(r, |lattice|) && NonNegative(lattice)
    requires var bb := BoundingBox(r, lattice); Positive(bb.length) && i < Product(bb.length) && pos == Plus(bb.start, Digits(i, bb.length))
    requires if found then k < |r.regions| && Member(r.regions[k], lattice, pos)
             else forall j :: 0 <= j < |r.regions| ==> !Member(r.regions[j], lattice, pos)
    ensures MemberAt(r, lattice, BoundingBox(r, lattice).length, i) == found
  {
    hide BoundingBox;
  }

  method IntersectionMask(r: Region, lattice: IPosition, rs: seq<Region>) returns (mask: Lattice<bool>)
    requires r == Intersection(rs) && ValidRegion(r, |lattice|) && NonNegative(lattice) && NonNegative(BoundingBox(r, lattice).length)
    ensures MaskOf(mask, r, lattice)
    decreases rs, 0
  {
    hide Member, BoundingBox, MemberAt;
    var bb := BoundingBox(r, lattice);
    var out := new LatticeArray(bb.length, true);
    var i := 0;
    while i < out.storage.Length
      invariant i <= out.storage.Length && Progress(out.storage[..], r, lattice, bb.length, i, true)
    {
      var pos := Position(bb.start, bb.length, i);
      var all := true;
      var k := 0;
      while k < |rs|
        modifies {}
        invariant k <= |rs| && all && forall j :: 0 <= j < k ==> Member(rs[j], lattice, pos)
      {
        all := PixelInRegion(rs[k], lattice, pos);
        if !all {
          break;
        }
        k := k + 1;
      }
      IntersectionMember(r, lattice, i, pos, if all then 0 else k, all);
      if !all {
        out.PutFlat(i, false);
      }
      i := i + 1;
    }
    mask := out.Contents();
  }

  lemma IntersectionMember(r: Region, lattice: IPosition, i: nat, pos: IPosition, k: nat, all: bool)
    requires r.Intersection? && ValidRegion(r, |lattice|) && NonNegative(lattice)
    requires var bb := BoundingBox(r, lattice); Positive(bb.length) && i < Product(bb.length) && pos == Plus(bb.start, Digits(i, bb.length))
    requires if all then forall j :: 0 <= j < |r.regions| ==> Member(r.regions[j], lattice, pos)
             else k < |r.regions| && !Member(r.regions[k], lattice, pos)
    ensures MemberAt(r, lattice, BoundingBox(r, lattice).length, i) == all
  {
    if all {
      DelinearizeThenLinear(i, BoundingBox(r, lattice).length);
      ClippedToLattice(Boxes(r.regions, lattice), lattice, pos);
    }
  }

  /** The box of an intersection lies inside the lattice. */
  lemma ClippedToLattice(boxes: seq<Slicer>, lattice: IPosition, pos: IPosition)
    requires ValidBoxes(boxes, |lattice|) && NonNegative(lattice) && |pos| == |lattice|
    requires InBox(IntersectionBox(boxes, lattice), pos)
    ensures InBox(Whole(lattice), pos)
  {
    forall d | 0 <= d < |lattice| ensures 0 <= pos[d] < lattice[d] {
      EndInLattice(boxes, d, lattice);
    }
  }

  lemma {:induction false} EndInLattice(boxes: seq<Slicer>, d: nat, lattice: IPosition)
    requires ValidBoxes(boxes, |lattice|) && d < |lattice|
    ensures LowEnd(boxes, d, lattice) <= lattice[d] - 1
  {
    if boxes != [] {
      EndInLattice(boxes[..|boxes| - 1], d, lattice);
    }
  }

  method DifferenceMask(r: Region, lattice: IPosition, a: Region, b: Region) returns (mask: Lattice<bool>)
    requires r == Difference(a, b) && ValidRegion(r, |lattice|) && NonNegative(lattice) && NonNegative(BoundingBox(r, lattice).length)
    ensures MaskOf(mask, r, lattice)
    decreases r, 0, 0
  {
    hide Member, BoundingBox, MemberAt;
    var bb := BoundingBox(r, lattice);
    var out := new LatticeArray(bb.length, false);
    var i := 0;
    while i < out.storage.Length
      invariant i <= out.storage.Length && Progress(out.storage[..], r, lattice, bb.length, i, false)
    {
      var pos := Position(bb.start, bb.length, i);
      var inA := PixelInRegion(a, lattice, pos);
      var inB := false;
      if inA {
        inB := PixelInRegion(b, lattice, pos);
      }
      DifferenceMember(r, lattice, i, pos);
      if inA && !inB {
        out.PutFlat(i, true);
      }
      i := i + 1;
    }
    mask := out.Contents();
  }

  lemma DifferenceMember(r: Region, lattice: IPosition, i: nat, pos: IPosition)
    requires r.Difference? && ValidRegion(r, |lattice|) && NonNegative(lattice)
    requires var bb := BoundingBox(r, lattice); Positive(bb.length) && i < Product(bb.length) && pos == Plus(bb.start, Digits(i, bb.length))
    ensures MemberAt(r, lattice, BoundingBox(r, lattice).length, i)
        <==> Member(r.region1, lattice, pos) && !Member(r.region2, lattice, pos)
  {
  }

  method ComplementMask(r: Region, lattice: IPosition, a: Region) returns (mask: Lattice<bool>)
    requires r == Complement(a) && ValidRegion(r, |lattice|) && NonNegative(lattice) && NonNegative(BoundingBox(r, lattice).length)
    ensures MaskOf(mask, r, lattice)
    decreases r, 0, 0
  {
    hide Member, BoundingBox, MemberAt;
    var bb := BoundingBox(r, lattice);
    var out := new LatticeArray(bb.length, true);
    var i := 0;
    while i < out.storage.Length
      invariant i <= out.storage.Length && Progress(out.storage[..], r, lattice, bb.length, i, true)
    {
      var pos := Position(bb.start, bb.length, i);
      var inA := PixelInRegion(a, lattice, pos);
      ComplementMember(r, lattice, i, pos);
      if inA {
        out.PutFlat(i, false);
      }
      i := i + 1;
    }
    mask := out.Contents();
  }

  lemma ComplementMember(r: Region, lattice: IPosition, i: nat, pos: IPosition)
    requires r.Complement? && ValidRegion(r, |lattice|) && NonNegative(lattice)
    requires var bb := BoundingBox(r, lattice); Positive(bb.length) && i < Product(bb.length) && pos == Plus(bb.start, Digits(i, bb.length))
    ensures MemberAt(r, lattice, BoundingBox(r, lattice).length, i) <==> !Member(r.region, lattice, pos)
  {
    DelinearizeThenLinear(i, lattice);
  }

  // ---- the algebra of the computed masks ----

  /** Regions with one box and the same members in it have the same mask. */
  lemma SameMask(r: Region, q: Region, lattice: IPosition, a: Lattice<bool>, b: Lattice<bool>)
    requires ValidRegion(r, |lattice|) && ValidRegion(q, |lattice|) && NonNegative(lattice)
    requires MaskOf(a, r, lattice) && MaskOf(b, q, lattice) && BoundingBox(r, lattice) == BoundingBox(q, lattice)
    requires forall pos: IPosition :: |pos| == |lattice| ==> (Member(r, lattice, pos) <==> Member(q, lattice, pos))
    ensures a == b
  {
    hide Member, BoundingBox, Digits, Product, ValidRegion;
    forall i | 0 <= i < |a.flat| ensures a.flat[i] == b.flat[i] {
      assert a.flat[i] == MemberAt(r, lattice, a.shape, i) && b.flat[i] == MemberAt(q, lattice, b.shape, i);
    }
  }

  predicate AllWhole(boxes: seq<Slicer>, lattice: IPosition) {
    forall i :: 0 <= i < |boxes| ==> boxes[i] == Whole(lattice)
  }

  lemma {:induction false} WholeBounds(boxes: seq<Slicer>, lattice: IPosition, d: nat)
    requires ValidBoxes(boxes, |lattice|) && NonNegative(lattice) && d < |lattice|
    requires AllWhole(boxes, lattice)
    ensures HighStart(boxes, d, |lattice|) == 0 && LowEnd(boxes, d, lattice) == lattice[d] - 1
    ensures boxes != [] ==> Low(boxes, d, |lattice|) == 0 && High(boxes, d, |lattice|) == Max(0, lattice[d] - 1)
  {
    if boxes != [] {
      WholeBounds(boxes[..|boxes| - 1], lattice, d);
    }
  }

  lemma ClippedWhole(boxes: seq<Slicer>, lattice: IPosition)
    requires ValidBoxes(boxes, |lattice|) && NonNegative(lattice)
    requires AllWhole(boxes, lattice)
    ensures IntersectionBox(boxes, lattice) == Whole(lattice)
  {
    hide HighStart, LowEnd;
    forall d: nat | d < |lattice| ensures HighStart(boxes, d, |lattice|) == 0 && LowEnd(boxes, d, lattice) == lattice[d] - 1 {
      WholeBounds(boxes, lattice, d);
    }
  }

  lemma UnitedWhole(boxes: seq<Slicer>, lattice: IPosition)
    requires ValidBoxes(boxes, |lattice|) && NonNegative(lattice)
    requires AllWhole(boxes, lattice)
    ensures UnionBox(boxes, lattice).start == Whole(lattice).start
    ensures UnionBox(boxes, lattice).length == lattice <==> boxes == [] || Positive(lattice)
  {
    hide Low, High;
    var s := UnionBox(boxes, lattice);
    if boxes != [] {
      forall d: nat | d < |lattice| ensures s.start[d] == 0 && s.length[d] == Max(1, lattice[d]) {
        WholeBounds(boxes, lattice, d);
      }
    }
  }

  lemma BoxesOfComplements(cs: seq<Region>, lattice: IPosition)
    requires NonNegative(lattice)
    requires forall i :: 0 <= i < |cs| ==> cs[i].Complement? && ValidRegion(cs[i], |lattice|)
    ensures AllWhole(Boxes(cs, lattice), lattice)
  {
    hide ValidRegion;
  }

  /** get_mask gives the same for the complement of a union and the intersection of the complements. */
  lemma DeMorganUnion(rs: seq<Region>, cs: seq<Region>, lattice: IPosition, a: Lattice<bool>, b: Lattice<bool>)
    requires NonNegative(lattice) && ValidRegion(Complement(Union(rs)), |lattice|) && ValidRegion(Intersection(cs), |lattice|)
    requires |cs| == |rs| && forall i :: 0 <= i < |rs| ==> cs[i] == Complement(rs[i])
    requires MaskOf(a, Complement(Union(rs)), lattice) && MaskOf(b, Intersection(cs), lattice)
    ensures a == b
  {
    hide Member, MaskOf, IntersectionBox, UnionBox;
    var r, q := Complement(Union(rs)), Intersection(cs);
    assert ValidRegion(Union(rs), |lattice|);
    BoxesOfComplements(cs, lattice);
    ClippedWhole(Boxes(cs, lattice), lattice);
    forall pos: IPosition | |pos| == |lattice| ensures Member(r, lattice, pos) <==> Member(q, lattice, pos) {
      DeMorganUnionPixel(rs, cs, lattice, pos);
    }
    SameMask(r, q, lattice, a, b);
  }

  /**
   * get_mask gives the same for the complement of an intersection and the union of the complements, exactly when there is
   * nothing to unite or no extent is zero: the box of a union is never empty.
   */
  lemma DeMorganIntersection(rs: seq<Region>, cs: seq<Region>, lattice: IPosition, a: Lattice<bool>, b: Lattice<bool>)
    requires NonNegative(lattice) && ValidRegion(Complement(Intersection(rs)), |lattice|) && ValidRegion(Union(cs), |lattice|)
    requires |cs| == |rs| && forall i :: 0 <= i < |rs| ==> cs[i] == Complement(rs[i])
    requires MaskOf(a, Complement(Intersection(rs)), lattice) && MaskOf(b, Union(cs), lattice)
    ensures a == b <==> rs == [] || Positive(lattice)
  {
    hide Member, IntersectionBox, UnionBox;
    var r, q := Complement(Intersection(rs)), Union(cs);
    assert ValidRegion(Intersection(rs), |lattice|);
    BoxesOfComplements(cs, lattice);
    UnitedWhole(Boxes(cs, lattice), lattice);
    forall pos: IPosition | |pos| == |lattice| ensures Member(r, lattice, pos) <==> Member(q, lattice, pos) {
      DeMorganIntersectionPixel(rs, cs, lattice, pos);
    }
    if rs == [] || Positive(lattice) {
      SameMask(r, q, lattice, a, b);
    }
  }

  lemma ClippedBox(s: Slicer, lattice: IPosition)
    requires ValidBox(s, |lattice|) && NonNegative(s.length) && NonNegative(lattice)
    requires InLattice(s, lattice)
    ensures IntersectionBox([s, Whole(lattice)], lattice) == s
  {
    var boxes := [s, Whole(lattice)];
    forall d: nat | d < |lattice|
      ensures HighStart(boxes, d, |lattice|) == s.start[d] && LowEnd(boxes, d, lattice) == s.start[d] + s.length[d] - 1
    {
      assert 0 <= s.start[d] && s.start[d] + s.length[d] <= lattice[d];
      assert boxes[..1] == [s] && [s][..0] == [];
      assert LowEnd([], d, lattice) == lattice[d] - 1;
      assert HighStart([], d, |lattice|) == 0 && HighStart([s], d, |lattice|) == s.start[d];
      assert LowEnd([s], d, lattice) == s.start[d] + s.length[d] - 1;
    }
  }

  predicate InLattice(s: Slicer, lattice: IPosition)
    requires |s.start| == |s.length| == |lattice|
  {
    forall d :: 0 <= d < |lattice| ==> 0 <= s.start[d] && s.start[d] + s.length[d] <= lattice[d]
  }

  /** For a first region inside the lattice, get_mask of a difference is that of the intersection with the complement. */
  lemma DifferenceIsIntersection(x: Region, y: Region, lattice: IPosition, a: Lattice<bool>, b: Lattice<bool>)
    requires NonNegative(lattice) && ValidRegion(Difference(x, y), |lattice|)
    requires ValidRegion(Intersection([x, Complement(y)]), |lattice|)
    requires MaskOf(a, Difference(x, y), lattice) && MaskOf(b, Intersection([x, Complement(y)]), lattice)
    requires InLattice(BoundingBox(x, lattice), lattice)
    ensures a == b
  {
    hide Member, IntersectionBox, InLattice;
    var r, q, s := Difference(x, y), Intersection([x, Complement(y)]), BoundingBox(x, lattice);
    BoxesOfTwo(x, y, lattice);
    ClippedBox(s, lattice);
    forall pos: IPosition | |pos| == |lattice| ensures Member(r, lattice, pos) <==> Member(q, lattice, pos) {
      DifferenceMembers(x, y, lattice, pos);
    }
    SameMask(r, q, lattice, a, b);
  }

  lemma BoxesOfTwo(x: Region, y: Region, lattice: IPosition)
    requires NonNegative(lattice) && ValidRegion(Difference(x, y), |lattice|) && ValidRegion(Intersection([x, Complement(y)]), |lattice|)
    ensures BoundingBox(Intersection([x, Complement(y)]), lattice)
         == IntersectionBox([BoundingBox(x, lattice), Whole(lattice)], lattice)
  {
    hide IntersectionBox;
    var rs := [x, Complement(y)];
    assert ValidRegion(rs[0], |lattice|) && ValidRegion(rs[1], |lattice|);
    assert Boxes(rs, lattice) == [BoundingBox(x, lattice), Whole(lattice)];
  }

  lemma DifferenceMembers(x: Region, y: Region, lattice: IPosition, pos: IPosition)
    requires NonNegative(lattice) && ValidRegion(Difference(x, y), |lattice|) && |pos| == |lattice|
    requires ValidRegion(Intersection([x, Complement(y)]), |lattice|)
    requires InLattice(BoundingBox(x, lattice), lattice)
    ensures Member(Difference(x, y), lattice, pos) <==> Member(Intersection([x, Complement(y)]), lattice, pos)
  {
    hide BoundingBox;
    BoxHoldsMembers(x, lattice, pos);
    if InBox(Whole(lattice), pos) {
      DifferenceIsIntersectionPixel(x, y, lattice, pos);
    } else {
      OffLattice(BoundingBox(x, lattice), lattice, pos);
    }
  }

  lemma OffLattice(s: Slicer, lattice: IPosition, pos: IPosition)
    requires |s.start| == |s.length| == |lattice| == |pos| && InLattice(s, lattice) && !InBox(Whole(lattice), pos)
    ensures !InBox(s, pos)
  {
  }

  // ---- boxes are as small as they can be ----

  lemma {:induction false} LowAttained(boxes: seq<Slicer>, d: nat, nd: nat) returns (i: nat)
    requires ValidBoxes(boxes, nd) && d < nd && boxes != []
    ensures i < |boxes| && Low(boxes, d, nd) == boxes[i].start[d]
  {
    var last := |boxes| - 1;
    i := last;
    if last > 0 {
      var j := LowAttained(boxes[..last], d, nd);
      if Low(boxes, d, nd) == Low(boxes[..last], d, nd) {
        i := j;
      }
    }
  }

  lemma {:induction false} HighAttained(boxes: seq<Slicer>, d: nat, nd: nat) returns (i: nat)
    requires ValidBoxes(boxes, nd) && d < nd
    ensures High(boxes, d, nd) == 0 || (i < |boxes| && High(boxes, d, nd) == boxes[i].start[d] + boxes[i].length[d] - 1)
  {
    i := 0;
    if boxes != [] {
      var last := |boxes| - 1;
      i := HighAttained(boxes[..last], d, nd);
      if High(boxes, d, nd) != High(boxes[..last], d, nd) {
        i := last;
      }
    }
  }

  /** On each axis the box of a union starts where one of the boxes does and ends where one does, or at the first pixel. */
  lemma UnionBoxTight(boxes: seq<Slicer>, lattice: IPosition, d: nat)
    requires ValidBoxes(boxes, |lattice|) && NonNegative(lattice) && boxes != [] && d < |lattice|
    ensures var s := UnionBox(boxes, lattice);
      && (exists i :: 0 <= i < |boxes| && s.start[d] == boxes[i].start[d])
      && (s.start[d] + s.length[d] == 1
          || exists i :: 0 <= i < |boxes| && s.start[d] + s.length[d] == boxes[i].start[d] + boxes[i].length[d])
  {
    hide Low, High;
    var i := LowAttained(boxes, d, |lattice|);
    var j := HighAttained(boxes, d, |lattice|);
    var s := UnionBox(boxes, lattice);
    assert s.start[d] == boxes[i].start[d];
    assert s.start[d] + s.length[d] == 1 || s.start[d] + s.length[d] == boxes[j].start[d] + boxes[j].length[d];
  }

  lemma {:induction false} BoundsBetween(boxes: seq<Slicer>, lattice: IPosition, d: nat, x: int)
    requires ValidBoxes(boxes, |lattice|) && d < |lattice| && HighStart(boxes, d, |lattice|) <= x <= LowEnd(boxes, d, lattice)
    ensures 0 <= x < lattice[d]
    ensures forall i :: 0 <= i < |boxes| ==> boxes[i].start[d] <= x < boxes[i].start[d] + boxes[i].length[d]
  {
    if boxes != [] {
      var last := |boxes| - 1;
      BoundsBetween(boxes[..last], lattice, d, x);
      forall i | 0 <= i < last ensures boxes[i].start[d] <= x < boxes[i].start[d] + boxes[i].length[d] {
        assert boxes[..last][i] == boxes[i];
      }
    }
  }

  /** The box of an intersection holds exactly the lattice pixels in all of the boxes. */
  lemma IntersectionBoxIs(boxes: seq<Slicer>, lattice: IPosition, pos: IPosition)
    requires ValidBoxes(boxes, |lattice|) && NonNegative(lattice) && |pos| == |lattice|
    ensures InBox(IntersectionBox(boxes, lattice), pos)
       <==> InBox(Whole(lattice), pos) && forall i :: 0 <= i < |boxes| ==> InBox(boxes[i], pos)
  {
    hide HighStart, LowEnd;
    var s := IntersectionBox(boxes, lattice);
    if InBox(s, pos) {
      forall d | 0 <= d < |lattice| && boxes != []
        ensures 0 <= pos[d] < lattice[d]
        ensures forall i :: 0 <= i < |boxes| ==> boxes[i].start[d] <= pos[d] < boxes[i].start[d] + boxes[i].length[d]
      {
        assert s.start[d] <= pos[d] < s.start[d] + s.length[d];
        BoundsBetween(boxes, lattice, d, pos[d]);
      }
    } else if InBox(Whole(lattice), pos) && forall i :: 0 <= i < |boxes| ==> InBox(boxes[i], pos) {
      IntersectionBoxCovers(boxes, lattice, pos);
    }
  }

  /** Both corners belong to a box, and with them exactly the positions between. */
  lemma CornersBelong(blc: IPosition, trc: IPosition, lattice: IPosition, pos: IPosition)
    requires ValidRegion(Box(blc, trc), |lattice|) && |pos| == |lattice| && NonNegative(lattice)
    requires forall d :: 0 <= d < |lattice| ==> blc[d] <= trc[d]
    ensures Member(Box(blc, trc), lattice, blc) && Member(Box(blc, trc), lattice, trc)
    ensures Member(Box(blc, trc), lattice, pos) <==> InBox(BoundingBox(Box(blc, trc), lattice), pos)
    ensures Member(Box(blc, trc), lattice, pos)
       <==> forall d :: 0 <= d < |lattice| ==> !(pos[d] < blc[d]) && !(pos[d] > trc[d])
  {
  }
}
