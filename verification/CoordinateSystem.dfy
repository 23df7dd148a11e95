/** src/coordinate_system.cpp: coordinates composed through axis maps. */
module CoordinateSystem {
  import opened Wrappers

  const INT64_MAX: nat := 0x7FFF_FFFF_FFFF_FFFF

  /** A coordinate: its axis counts and its two conversions, whose content is not part of this model. */
  datatype Coordinate = Coordinate(nWorld: nat, nPixel: nat, toWorld: seq<real> -> seq<real>, toPixel: seq<real> -> seq<real>)

  datatype CoordEntry = CoordEntry(coord: Coordinate, worldMap: seq<int>, pixelMap: seq<int>,
                                   worldReplace: seq<real>, pixelReplace: seq<real>)

  // ---- axis maps ----

  /** World axes before entry k. */
  function WorldBase(coords: seq<CoordEntry>, k: nat): nat
    requires k <= |coords|
  {
    if k == 0 then 0 else WorldBase(coords, k - 1) + coords[k - 1].coord.nWorld
  }

  function PixelBase(coords: seq<CoordEntry>, k: nat): nat
    requires k <= |coords|
  {
    if k == 0 then 0 else PixelBase(coords, k - 1) + coords[k - 1].coord.nPixel
  }

  predicate Consecutive(m: seq<int>, base: nat, n: nat) {
    |m| == n && forall a :: 0 <= a < n ==> m[a] == base + a
  }

  predicate AllZero(r: seq<real>, n: nat) {
    |r| == n && forall a :: 0 <= a < n ==> r[a] == 0.0
  }

  predicate ValidEntry(coords: seq<CoordEntry>, k: nat)
    requires k < |coords|
  {
    var e := coords[k];
    && Consecutive(e.worldMap, WorldBase(coords, k), e.coord.nWorld) && AllZero(e.worldReplace, e.coord.nWorld)
    && Consecutive(e.pixelMap, PixelBase(coords, k), e.coord.nPixel) && AllZero(e.pixelReplace, e.coord.nPixel)
  }

  predicate ValidEntries(coords: seq<CoordEntry>) {
    forall k :: 0 <= k < |coords| ==> ValidEntry(coords, k)
  }

  lemma {:induction false} BaseOfPrefix(coords: seq<CoordEntry>, more: seq<CoordEntry>, k: nat)
    requires k <= |coords|
    ensures WorldBase(coords + more, k) == WorldBase(coords, k) && PixelBase(coords + more, k) == PixelBase(coords, k)
  {
    if k > 0 {
      BaseOfPrefix(coords, more, k - 1);
    }
  }

  lemma {:induction false} BaseMonotone(coords: seq<CoordEntry>, j: nat, k: nat)
    requires j <= k <= |coords|
    ensures WorldBase(coords, j) <= WorldBase(coords, k) && PixelBase(coords, j) <= PixelBase(coords, k)
  {
    if j < k {
      BaseMonotone(coords, j, k - 1);
    }
  }

  /** Every world axis of the system belongs to exactly one axis of one coordinate. */
  lemma {:induction false} WorldAxesPartition(coords: seq<CoordEntry>, x: nat, n: nat) returns (k: nat, a: nat)
    requires ValidEntries(coords) && n <= |coords| && x < WorldBase(coords, n)
    ensures k < n && a < |coords[k].worldMap| && coords[k].worldMap[a] == x
    ensures forall j, b :: 0 <= j < |coords| && 0 <= b < |coords[j].worldMap| && coords[j].worldMap[b] == x ==> j == k && b == a
  {
    assert ValidEntry(coords, n - 1);
    if x < WorldBase(coords, n - 1) {
      k, a := WorldAxesPartition(coords, x, n - 1);
    } else {
      k, a := n - 1, x - WorldBase(coords, n - 1);
      forall j, b | 0 <= j < |coords| && 0 <= b < |coords[j].worldMap| && coords[j].worldMap[b] == x ensures j == k && b == a {
        assert ValidEntry(coords, j);
        if j < k {
          BaseMonotone(coords, j + 1, k);
        } else if k < j {
          BaseMonotone(coords, k + 1, j);
        }
      }
    }
  }

  /** Every pixel axis of the system belongs to exactly one axis of one coordinate. */
  lemma {:induction false} PixelAxesPartition(coords: seq<CoordEntry>, x: nat, n: nat) returns (k: nat, a: nat)
    requires ValidEntries(coords) && n <= |coords| && x < PixelBase(coords, n)
    ensures k < n && a < |coords[k].pixelMap| && coords[k].pixelMap[a] == x
    ensures forall j, b :: 0 <= j < |coords| && 0 <= b < |coords[j].pixelMap| && coords[j].pixelMap[b] == x ==> j == k && b == a
  {
    assert ValidEntry(coords, n - 1);
    if x < PixelBase(coords, n - 1) {
      k, a := PixelAxesPartition(coords, x, n - 1);
    } else {
      k, a := n - 1, x - PixelBase(coords, n - 1);
      forall j, b | 0 <= j < |coords| && 0 <= b < |coords[j].pixelMap| && coords[j].pixelMap[b] == x ensures j == k && b == a {
        assert ValidEntry(coords, j);
        if j < k {
          BaseMonotone(coords, j + 1, k);
        } else if k < j {
          BaseMonotone(coords, k + 1, j);
        }
      }
    }
  }

  // ---- conversion as a whole ----

  /** n values from `base` on; zero where the input is too short. */
  function Part(values: seq<real>, base: nat, n: nat): (p: seq<real>)
    ensures |p| == n
  {
    seq(n, a requires 0 <= a < n => if base + a < |values| then values[base + a] else 0.0)
  }

  /** The world values of the first k coordinates. */
  function WorldOf(coords: seq<CoordEntry>, pixel: seq<real>, k: nat): (w: seq<real>)
    requires k <= |coords|
    ensures |w| == WorldBase(coords, k)
  {
    if k == 0 then []
    else
      var c := coords[k - 1].coord;
      WorldOf(coords, pixel, k - 1) + Part(c.toWorld(Part(pixel, PixelBase(coords, k - 1), c.nPixel)), 0, c.nWorld)
  }

  function PixelOf(coords: seq<CoordEntry>, world: seq<real>, k: nat): (p: seq<real>)
    requires k <= |coords|
    ensures |p| == PixelBase(coords, k)
  {
    if k == 0 then []
    else
      var c := coords[k - 1].coord;
      PixelOf(coords, world, k - 1) + Part(c.toPixel(Part(world, WorldBase(coords, k - 1), c.nWorld)), 0, c.nPixel)
  }

  /** On this pixel position the coordinate's conversions undo each other. */
  predicate Inverts(c: Coordinate, p: seq<real>) {
    |c.toWorld(p)| == c.nWorld && c.toPixel(c.toWorld(p)) == p
  }

  lemma {:induction false} WorldPart(coords: seq<CoordEntry>, pixel: seq<real>, k: nat, n: nat)
    requires k < n <= |coords|
    ensures var c := coords[k].coord;
      Part(WorldOf(coords, pixel, n), WorldBase(coords, k), c.nWorld)
      == Part(c.toWorld(Part(pixel, PixelBase(coords, k), c.nPixel)), 0, c.nWorld)
  {
    var c := coords[k].coord;
    var last := WorldOf(coords, pixel, n - 1);
    if k < n - 1 {
      WorldPart(coords, pixel, k, n - 1);
      BaseMonotone(coords, k + 1, n - 1);
      PartOfPrefix(last, Part(coords[n - 1].coord.toWorld(Part(pixel, PixelBase(coords, n - 1), coords[n - 1].coord.nPixel)),
                              0, coords[n - 1].coord.nWorld), WorldBase(coords, k), c.nWorld);
    }
  }

  lemma PartOfPrefix(a: seq<real>, b: seq<real>, base: nat, n: nat)
    requires base + n <= |a|
    ensures Part(a + b, base, n) == Part(a, base, n)
  {
  }

  lemma WholePart(p: seq<real>)
    ensures Part(p, 0, |p|) == p
  {
  }

  /** Coordinate j undoes its own conversion at its part of the position. */
  predicate InvertsAt(coords: seq<CoordEntry>, pixel: seq<real>, j: nat)
    requires j < |coords|
  {
    Inverts(coords[j].coord, Part(pixel, PixelBase(coords, j), coords[j].coord.nPixel))
  }

  lemma NextPart(pixel: seq<real>, base: nat, n: nat)
    requires base + n <= |pixel|
    ensures pixel[..base] + Part(pixel, base, n) == pixel[..base + n]
  {
  }

  lemma {:induction false} RoundTripUpTo(coords: seq<CoordEntry>, pixel: seq<real>, k: nat)
    requires k <= |coords| && |pixel| == PixelBase(coords, |coords|)
    requires forall j :: 0 <= j < |coords| ==> InvertsAt(coords, pixel, j)
    ensures PixelBase(coords, k) <= |pixel|
    ensures PixelOf(coords, WorldOf(coords, pixel, |coords|), k) == pixel[..PixelBase(coords, k)]
  {
    hide Part, WorldOf, InvertsAt;
    BaseMonotone(coords, k, |coords|);
    if k > 0 {
      RoundTripUpTo(coords, pixel, k - 1);
      assert InvertsAt(coords, pixel, k - 1);
      OneInverts(coords, pixel, k - 1);
      NextPart(pixel, PixelBase(coords, k - 1), coords[k - 1].coord.nPixel);
    }
  }

  /** Converting coordinate k's part of the system's world position gives back its pixels. */
  lemma OneInverts(coords: seq<CoordEntry>, pixel: seq<real>, k: nat)
    requires k < |coords| && InvertsAt(coords, pixel, k)
    ensures var c := coords[k].coord;
      Part(c.toPixel(Part(WorldOf(coords, pixel, |coords|), WorldBase(coords, k), c.nWorld)), 0, c.nPixel)
      == Part(pixel, PixelBase(coords, k), c.nPixel)
  {
    hide Part, WorldOf;
    var c := coords[k].coord;
    var p := Part(pixel, PixelBase(coords, k), c.nPixel);
    WorldPart(coords, pixel, k, |coords|);
    WholePart(c.toWorld(p));
    WholePart(p);
  }

  /** If each coordinate undoes its own conversion, so does the whole system. */
  lemma SystemInverts(coords: seq<CoordEntry>, pixel: seq<real>)
    requires |pixel| == PixelBase(coords, |coords|)
    requires forall j :: 0 <= j < |coords| ==> InvertsAt(coords, pixel, j)
    ensures PixelOf(coords, WorldOf(coords, pixel, |coords|), |coords|) == pixel
  {
    hide InvertsAt, PixelOf, WorldOf;
    RoundTripUpTo(coords, pixel, |coords|);
    assert pixel[..|pixel|] == pixel;
  }

  // ---- values by axis ----

  /** Value of an axis of the system, zero where the position is too short. */
  function AxisValue(values: seq<real>, axis: int): real {
    if 0 <= axis < |values| then values[axis] else 0.0
  }

  /** What coordinate k is given: the values of the axes its map names. */
  function Gathered(values: seq<real>, axes: seq<int>): (g: seq<real>)
    ensures |g| == |axes|
  {
    seq(|axes|, b requires 0 <= b < |axes| => AxisValue(values, axes[b]))
  }

  /**
   * World axis a of coordinate k, wherever the map puts it, has the value of the coordinate's own conversion of the pixel
   * values its map names.
   */
  lemma WorldValue(coords: seq<CoordEntry>, pixel: seq<real>, k: nat, a: nat)
    requires ValidEntries(coords) && k < |coords| && a < coords[k].coord.nWorld
    ensures var e, w := coords[k], WorldOf(coords, pixel, |coords|);
      |e.worldMap| == e.coord.nWorld && 0 <= e.worldMap[a] < |w|
      && w[e.worldMap[a]] == AxisValue(e.coord.toWorld(Gathered(pixel, e.pixelMap)), a)
  {
    hide WorldOf;
    assert ValidEntry(coords, k);
    var e, w := coords[k], WorldOf(coords, pixel, |coords|);
    WorldPart(coords, pixel, k, |coords|);
    BaseMonotone(coords, k + 1, |coords|);
    assert Gathered(pixel, e.pixelMap) == Part(pixel, PixelBase(coords, k), e.coord.nPixel);
    assert w[e.worldMap[a]] == Part(w, WorldBase(coords, k), e.coord.nWorld)[a];
  }

  lemma {:induction false} PixelPart(coords: seq<CoordEntry>, world: seq<real>, k: nat, n: nat)
    requires k < n <= |coords|
    ensures var c := coords[k].coord;
      Part(PixelOf(coords, world, n), PixelBase(coords, k), c.nPixel)
      == Part(c.toPixel(Part(world, WorldBase(coords, k), c.nWorld)), 0, c.nPixel)
  {
    var c := coords[k].coord;
    var last := PixelOf(coords, world, n - 1);
    if k < n - 1 {
      PixelPart(coords, world, k, n - 1);
      BaseMonotone(coords, k + 1, n - 1);
      PartOfPrefix(last, Part(coords[n - 1].coord.toPixel(Part(world, WorldBase(coords, n - 1), coords[n - 1].coord.nWorld)),
                              0, coords[n - 1].coord.nPixel), PixelBase(coords, k), c.nPixel);
    }
  }

  /** The same for a pixel axis and the coordinate's conversion of world values. */
  lemma PixelValue(coords: seq<CoordEntry>, world: seq<real>, k: nat, a: nat)
    requires ValidEntries(coords) && k < |coords| && a < coords[k].coord.nPixel
    ensures var e, p := coords[k], PixelOf(coords, world, |coords|);
      |e.pixelMap| == e.coord.nPixel && 0 <= e.pixelMap[a] < |p|
      && p[e.pixelMap[a]] == AxisValue(e.coord.toPixel(Gathered(world, e.worldMap)), a)
  {
    hide PixelOf;
    assert ValidEntry(coords, k);
    var e, p := coords[k], PixelOf(coords, world, |coords|);
    PixelPart(coords, world, k, |coords|);
    BaseMonotone(coords, k + 1, |coords|);
    assert Gathered(world, e.worldMap) == Part(world, WorldBase(coords, k), e.coord.nWorld);
    assert p[e.pixelMap[a]] == Part(p, PixelBase(coords, k), e.coord.nPixel)[a];
  }

  /** The axis maps number the axes of the coordinates one after another, from zero. */
  lemma AxesInOrder(coords: seq<CoordEntry>, k: nat)
    requires ValidEntries(coords) && k < |coords|
    ensures var e := coords[k];
      |e.worldMap| == e.coord.nWorld && |e.pixelMap| == e.coord.nPixel
      && (forall a :: 0 < a < |e.worldMap| ==> e.worldMap[a] == e.worldMap[a - 1] + 1)
      && (forall a :: 0 < a < |e.pixelMap| ==> e.pixelMap[a] == e.pixelMap[a - 1] + 1)
    ensures k == 0 ==> (coords[0].worldMap != [] ==> coords[0].worldMap[0] == 0) && (coords[0].pixelMap != [] ==> coords[0].pixelMap[0] == 0)
    ensures k > 0 && coords[k].worldMap != [] && coords[k - 1].worldMap != [] ==>
      coords[k].worldMap[0] == coords[k - 1].worldMap[|coords[k - 1].worldMap| - 1] + 1
    ensures k > 0 && coords[k].pixelMap != [] && coords[k - 1].pixelMap != [] ==>
      coords[k].pixelMap[0] == coords[k - 1].pixelMap[|coords[k - 1].pixelMap| - 1] + 1
  {
    assert ValidEntry(coords, k);
    if k > 0 {
      assert ValidEntry(coords, k - 1);
    }
  }

  // ---- the class ----

  class CoordinateSystem {
    var coords: seq<CoordEntry>
    var totalWorld: nat
    var totalPixel: nat

    ghost predicate Valid()
      reads this
    {
      && ValidEntries(coords)
      && totalWorld == WorldBase(coords, |coords|) <= INT64_MAX
      && totalPixel == PixelBase(coords, |coords|) <= INT64_MAX
    }

    constructor ()
      ensures Valid() && coords == []
    {
      coords := [];
      totalWorld := 0;
      totalPixel := 0;
    }

    /** Appends a coordinate behind the axes there are; fails when an axis count would exceed 64 bits. */
    method AddCoordinate(c: Coordinate) returns (index: Option<nat>)
      requires Valid()
      modifies this
      ensures Valid()
      ensures index.None? <==> c.nWorld > INT64_MAX - old(totalWorld) || c.nPixel > INT64_MAX - old(totalPixel)
      ensures index.None? ==> coords == old(coords)
      ensures index.Some? ==> index.value == |old(coords)| && |coords| == |old(coords)| + 1
                              && coords[..|old(coords)|] == old(coords) && coords[|old(coords)|].coord == c
    {
      if c.nWorld > INT64_MAX - totalWorld || c.nPixel > INT64_MAX - totalPixel {
        return None;
      }
      var n := |coords|;
      var worldMap := Numbered(totalWorld, c.nWorld);
      var pixelMap := Numbered(totalPixel, c.nPixel);
      var e := CoordEntry(c, worldMap, pixelMap, seq(c.nWorld, _ => 0.0), seq(c.nPixel, _ => 0.0));
      AppendKeeps(coords, e);
      totalWorld := totalWorld + c.nWorld;
      totalPixel := totalPixel + c.nPixel;
      coords := coords + [e];
      return Some(n);
    }

    /** The coordinate and axis a world axis belongs to, if the system has it. */
    method FindWorldAxis(axis: nat) returns (r: Option<(nat, nat)>)
      requires Valid()
      ensures r.Some? <==> axis < totalWorld
      ensures r.Some? ==> r.value.0 < |coords| && r.value.1 < |coords[r.value.0].worldMap|
                          && coords[r.value.0].worldMap[r.value.1] == axis
    {
      var ci := 0;
      while ci < |coords|
        invariant ci <= |coords|
        invariant forall k, a :: 0 <= k < ci && 0 <= a < |coords[k].worldMap| ==> coords[k].worldMap[a] != axis
      {
        var ai := FindIn(coords[ci].worldMap, axis);
        if ai < |coords[ci].worldMap| {
          assert ValidEntry(coords, ci);
          BaseMonotone(coords, ci + 1, |coords|);
          return Some((ci, ai));
        }
        ci := ci + 1;
      }
      if axis < totalWorld {
        var k, a := WorldAxesPartition(coords, axis, |coords|);
        assert false;
      }
      return None;
    }

    method FindPixelAxis(axis: nat) returns (r: Option<(nat, nat)>)
      requires Valid()
      ensures r.Some? <==> axis < totalPixel
      ensures r.Some? ==> r.value.0 < |coords| && r.value.1 < |coords[r.value.0].pixelMap|
                          && coords[r.value.0].pixelMap[r.value.1] == axis
    {
      var ci := 0;
      while ci < |coords|
        invariant ci <= |coords|
        invariant forall k, a :: 0 <= k < ci && 0 <= a < |coords[k].pixelMap| ==> coords[k].pixelMap[a] != axis
      {
        var ai := FindIn(coords[ci].pixelMap, axis);
        if ai < |coords[ci].pixelMap| {
          assert ValidEntry(coords, ci);
          BaseMonotone(coords, ci + 1, |coords|);
          return Some((ci, ai));
        }
        ci := ci + 1;
      }
      if axis < totalPixel {
        var k, a := PixelAxesPartition(coords, axis, |coords|);
        assert false;
      }
      return None;
    }

    method ToWorld(pixel: seq<real>) returns (world: seq<real>)
      requires Valid()
      ensures world == WorldOf(coords, pixel, |coords|)
    {
      hide Part, Consecutive, AllZero;
      var out := new real[totalWorld](_ => 0.0);
      var i := 0;
      while i < |coords|
        invariant i <= |coords|
        invariant WorldBase(coords, i) <= out.Length && out[..WorldBase(coords, i)] == WorldOf(coords, pixel, i)
        invariant forall x :: WorldBase(coords, i) <= x < out.Length ==> out[x] == 0.0
      {
        var e := coords[i];
        assert ValidEntry(coords, i);
        MapSizes(coords, i);
        BaseMonotone(coords, i + 1, |coords|);
        var p := Gather(pixel, e.pixelMap, e.pixelReplace, PixelBase(coords, i));
        Scatter(out, e.coord.toWorld(p), e.worldMap, WorldBase(coords, i));
        i := i + 1;
      }
      world := out[..];
    }

    method ToPixel(world: seq<real>) returns (pixel: seq<real>)
      requires Valid()
      ensures pixel == PixelOf(coords, world, |coords|)
    {
      hide Part, Consecutive, AllZero;
      var out := new real[totalPixel](_ => 0.0);
      var i := 0;
      while i < |coords|
        invariant i <= |coords|
        invariant PixelBase(coords, i) <= out.Length && out[..PixelBase(coords, i)] == PixelOf(coords, world, i)
        invariant forall x :: PixelBase(coords, i) <= x < out.Length ==> out[x] == 0.0
      {
        var e := coords[i];
        assert ValidEntry(coords, i);
        MapSizes(coords, i);
        BaseMonotone(coords, i + 1, |coords|);
        var w := Gather(world, e.worldMap, e.worldReplace, WorldBase(coords, i));
        Scatter(out, e.coord.toPixel(w), e.pixelMap, PixelBase(coords, i));
        i := i + 1;
      }
      pixel := out[..];
    }
  }

  lemma MapSizes(coords: seq<CoordEntry>, k: nat)
    requires k < |coords| && ValidEntry(coords, k)
    ensures |coords[k].worldMap| == coords[k].coord.nWorld && |coords[k].pixelMap| == coords[k].coord.nPixel
  {
  }

  method Numbered(base: nat, n: nat) returns (m: seq<int>)
    ensures Consecutive(m, base, n)
  {
    m := [];
    var i := 0;
    while i < n
      invariant i <= n && Consecutive(m, base, i)
    {
      m := m + [base + i];
      i := i + 1;
    }
  }

  lemma AppendKeeps(coords: seq<CoordEntry>, e: CoordEntry)
    requires ValidEntries(coords)
    requires Consecutive(e.worldMap, WorldBase(coords, |coords|), e.coord.nWorld) && AllZero(e.worldReplace, e.coord.nWorld)
    requires Consecutive(e.pixelMap, PixelBase(coords, |coords|), e.coord.nPixel) && AllZero(e.pixelReplace, e.coord.nPixel)
    ensures ValidEntries(coords + [e])
    ensures WorldBase(coords + [e], |coords| + 1) == WorldBase(coords, |coords|) + e.coord.nWorld
    ensures PixelBase(coords + [e], |coords| + 1) == PixelBase(coords, |coords|) + e.coord.nPixel
  {
    hide Consecutive, AllZero;
    BaseOfPrefix(coords, [e], |coords|);
    forall k | 0 <= k < |coords + [e]| ensures ValidEntry(coords + [e], k) {
      BaseOfPrefix(coords, [e], k);
      if k < |coords| {
        assert ValidEntry(coords, k);
      }
    }
  }

  method FindIn(m: seq<int>, target: int) returns (i: nat)
    ensures i <= |m| && (i < |m| ==> m[i] == target) && forall a :: 0 <= a < i ==> m[a] != target
  {
    i := 0;
    while i < |m| && m[i] != target
      invariant i <= |m| && forall a :: 0 <= a < i ==> m[a] != target
    {
      i := i + 1;
    }
  }

  /** Takes the values at the mapped axes, the replacement where the input does not have the axis. */
  method Gather(values: seq<real>, m: seq<int>, replace: seq<real>, ghost base: nat) returns (p: seq<real>)
    requires Consecutive(m, base, |m|) && AllZero(replace, |m|)
    ensures p == Part(values, base, |m|)
  {
    p := [];
    var a := 0;
    while a < |m|
      invariant a <= |m| && p == Part(values, base, |m|)[..a]
    {
      var v := 0.0;
      if 0 <= m[a] < |values| {
        v := values[m[a]];
      } else if a < |replace| {
        v := replace[a];
      }
      p := p + [v];
      a := a + 1;
    }
  }

  /** Writes the values to the mapped axes, as far as there are any. */
  method Scatter(out: array<real>, values: seq<real>, m: seq<int>, ghost base: nat)
    requires Consecutive(m, base, |m|) && base + |m| <= out.Length
    requires forall x :: base <= x < out.Length ==> out[x] == 0.0
    modifies out
    ensures out[..base + |m|] == old(out[..base]) + Part(values, 0, |m|)
    ensures forall x :: base + |m| <= x < out.Length ==> out[x] == 0.0
  {
    var a := 0;
    while a < |m| && a < |values|
      invariant a <= |m| && out[..base] == old(out[..base])
      invariant forall b :: 0 <= b < a ==> b < |values| && out[base + b] == values[b]
      invariant forall x :: base + a <= x < out.Length ==> out[x] == 0.0
    {
      if 0 <= m[a] < out.Length {
        out[m[a]] := values[a];
      }
      a := a + 1;
    }
    forall b | 0 <= b < |m| ensures out[base + b] == Part(values, 0, |m|)[b] { }
    assert out[..base + |m|] == out[..base] + Part(values, 0, |m|);
  }
}
