/**
 * The map generator of tools/mkmap.py as far as it decides what is land: outlines are dropped unless a
 * vertex of theirs is near the box, the others are projected, clipped and written out; and when the map
 * drawn from them is the original one. Lengths are in the units of the written map.
 */
module Bake {
  import opened Geometry
  import opened Clip
  import opened MapLand

  datatype Degrees = Degrees(lon: real, lat: real)

  type Outline = seq<Degrees>

  /** How far apart two degrees are. */
  function Length(to: real, from: real, degree: real): real {
    (to - from) * degree
  }

  /** The antenna, and the length of a degree there, east and north. */
  datatype Site = Site(lon: real, lat: real, kx: real, ky: real)
  {
    predicate Valid() { 0.0 < kx && 0.0 < ky }

    function Project(d: Degrees): Point {
      Point(Length(d.lon, lon, kx), Length(d.lat, lat, ky))
    }
  }

  /** The antenna is the origin; a degree east or north of any place is its length further. */
  lemma ProjectedFromAntenna(site: Site, d: Degrees)
    ensures site.Project(Degrees(site.lon, site.lat)) == Point(0.0, 0.0)
    ensures var p := site.Project(d);
            && site.Project(Degrees(d.lon + 1.0, d.lat)) == Point(p.x + site.kx, p.y)
            && site.Project(Degrees(d.lon, d.lat + 1.0)) == Point(p.x, p.y + site.ky)
  {
    hide Length;
    OneMore(site.lon, site.lon, site.kx);
    OneMore(site.lat, site.lat, site.ky);
    OneMore(d.lon, site.lon, site.kx);
    OneMore(d.lat, site.lat, site.ky);
  }

  lemma OneMore(x: real, from: real, k: real)
    ensures Length(x + 1.0, from, k) == Length(x, from, k) + k && Length(from, from, k) == 0.0
  {
  }

  datatype Box = Box(halfX: real, halfY: real)
  {
    predicate Contains(q: Point) {
      -halfX < q.x < halfX && -halfY < q.y < halfY
    }
  }

  /** The box and half a degree around it. */
  predicate InWindow(site: Site, box: Box, d: Degrees)
    requires site.Valid()
  {
    var dlat, dlon := box.halfY / site.ky + 0.5, box.halfX / site.kx + 0.5;
    -dlat <= d.lat - site.lat <= dlat && -dlon <= d.lon - site.lon <= dlon
  }

  /** In lengths the window is the box and half a degree's length there around it, east and north. */
  lemma WindowInLengths(site: Site, box: Box, d: Degrees)
    requires site.Valid()
    ensures var p := site.Project(d);
            InWindow(site, box, d) <==>
              && -(box.halfX + site.kx / 2.0) <= p.x <= box.halfX + site.kx / 2.0
              && -(box.halfY + site.ky / 2.0) <= p.y <= box.halfY + site.ky / 2.0
  {
    Bounds(d.lon - site.lon, box.halfX, site.kx, box.halfX / site.kx + 0.5);
    Bounds(d.lat - site.lat, box.halfY, site.ky, box.halfY / site.ky + 0.5);
  }

  lemma Bounds(x: real, half: real, k: real, w: real)
    requires 0.0 < k && w == half / k + 0.5
    ensures -w <= x <= w <==> -(half + k / 2.0) <= x * k <= half + k / 2.0
  {
    assert w * k == half + k / 2.0;
    Larger(x, w, k);
    Larger(-w, x, k);
    assert (-w) * k == -(w * k);
  }

  lemma Larger(x: real, w: real, k: real)
    requires 0.0 < k
    ensures x <= w <==> x * k <= w * k
  {
    var d := w - x;
    assert d * k == w * k - x * k && (-d) * k == -(d * k);
    if d >= 0.0 { Product(d, k); } else { Product(-d, k); }
    assert d < 0.0 ==> d * k != 0.0;
  }

  predicate Near(site: Site, box: Box, o: Outline)
    requires site.Valid()
  {
    exists k :: 0 <= k < |o| && InWindow(site, box, o[k])
  }

  function Projected(site: Site, o: Outline): (r: Ring)
    ensures |r| == |o|
  {
    seq(|o|, k requires 0 <= k < |o| => site.Project(o[k]))
  }

  function AllProjected(site: Site, outlines: seq<Outline>): seq<Ring> {
    if outlines == [] then []
    else AllProjected(site, outlines[..|outlines| - 1]) + [Projected(site, outlines[|outlines| - 1])]
  }

  /** The outlines with a vertex in the window, or those without. */
  function Sieved(site: Site, box: Box, outlines: seq<Outline>, near: bool): seq<Outline>
    requires site.Valid()
  {
    if outlines == [] then []
    else
      var o := outlines[|outlines| - 1];
      Sieved(site, box, outlines[..|outlines| - 1], near) + if Near(site, box, o) == near then [o] else []
  }

  function Kept(site: Site, box: Box, outlines: seq<Outline>): seq<Ring>
    requires site.Valid()
  {
    AllProjected(site, Sieved(site, box, outlines, true))
  }

  function Gone(site: Site, box: Box, outlines: seq<Outline>): seq<Ring>
    requires site.Valid()
  {
    AllProjected(site, Sieved(site, box, outlines, false))
  }

  /** What clipping leaves of the rings, without those it leaves nothing of. */
  function ClippedMap(rings: seq<Ring>, box: Box): seq<Ring> {
    if |rings| == 0 then []
    else
      var c := Clipped(rings[|rings| - 1], Sides(box.halfX, box.halfY), 4);
      ClippedMap(rings[..|rings| - 1], box) + if c == [] then [] else [c]
  }

  /** What the generator writes for the outlines it reads. */
  function Baked(site: Site, box: Box, outlines: seq<Outline>): seq<Ring>
    requires site.Valid()
  {
    ClippedMap(Kept(site, box, outlines), box)
  }

  /** The land of the outlines themselves. */
  predicate Land(site: Site, outlines: seq<Outline>, q: Point) {
    LandAt(AllProjected(site, outlines), q)
  }

  // ---------------------------------------------------------------- the generator's loop

  method HasVertexNear(site: Site, box: Box, o: Outline) returns (near: bool)
    requires site.Valid()
    ensures near == Near(site, box, o)
  {
    hide InWindow;
    near := false;
    for i := 0 to |o|
      invariant near == exists k :: 0 <= k < i && InWindow(site, box, o[k])
    {
      if InWindow(site, box, o[i]) { near := true; }
    }
  }

  method BakeMap(site: Site, box: Box, outlines: seq<Outline>) returns (polys: seq<Ring>)
    requires site.Valid()
    ensures polys == Baked(site, box, outlines)
  {
    hide Near, Clipped, Projected;
    polys := [];
    for i := 0 to |outlines|
      invariant polys == Baked(site, box, outlines[..i])
    {
      BakedNext(site, box, outlines, i);
      var near := HasVertexNear(site, box, outlines[i]);
      if !near { continue; }
      var pts := ClipRing(Projected(site, outlines[i]), box.halfX, box.halfY);
      if pts != [] { polys := polys + [pts]; }
    }
    assert outlines[..|outlines|] == outlines;
  }

  lemma BakedNext(site: Site, box: Box, outlines: seq<Outline>, i: nat)
    requires site.Valid() && i < |outlines|
    ensures var b, o := Baked(site, box, outlines[..i]), outlines[i];
            var c := Clipped(Projected(site, o), Sides(box.halfX, box.halfY), 4);
            Baked(site, box, outlines[..i + 1]) == if !Near(site, box, o) || c == [] then b else b + [c]
  {
    hide Near, Clipped, Projected;
    var before, o := outlines[..i], outlines[i];
    assert outlines[..i + 1][..i] == before;
    var kept := Sieved(site, box, before, true);
    if Near(site, box, o) {
      assert Sieved(site, box, outlines[..i + 1], true) == kept + [o];
      assert (kept + [o])[..|kept|] == kept;
      var rings := AllProjected(site, kept);
      assert (rings + [Projected(site, o)])[..|rings|] == rings;
    } else {
      assert Sieved(site, box, outlines[..i + 1], true) == kept + [] == kept;
    }
  }

  // ---------------------------------------------------------------- what is drawn

  lemma {:induction false} ClippedMapLand(rings: seq<Ring>, box: Box, q: Point)
    requires box.Contains(q)
    ensures LandAt(ClippedMap(rings, box), q) == LandAt(rings, q)
  {
    hide RingParity, Clipped;
    if |rings| > 0 {
      var r, m := rings[|rings| - 1], ClippedMap(rings[..|rings| - 1], box);
      var c := Clipped(r, Sides(box.halfX, box.halfY), 4);
      ClippedMapLand(rings[..|rings| - 1], box, q);
      ClippingPreservesMeaning(r, box.halfX, box.halfY, q);
      if c == [] {
        NoRing(q);
        assert m + [] == m;
      } else {
        assert (m + [c])[..|m|] == m;
      }
    }
  }

  /** Clipped to a box and drawn, rings show what they are: a cell in view whose centre lies strictly
      inside the box is drawn exactly when the centre is inside an odd number of them. */
  lemma ClippedThenDrawn(rings: seq<Ring>, box: Box, v: View, rows: int, cols: int, y: int, x: int)
    requires v.Valid() && 0 <= y < rows && 0 <= x < cols && box.Contains(v.Centre(y, x))
    requires var m := ClippedMap(rings, box); |Crossings(m, |m|, v.RowY(y))| <= MAX_CROSS
    ensures (y, x) in Grid(ClippedMap(rings, box), v, rows, cols) <==> LandAt(rings, v.Centre(y, x))
  {
    hide Grid, Crossings, LandAt, ClippedMap;
    ScanlineRefinesRay(ClippedMap(rings, box), v, rows, cols, y, x);
    ClippedMapLand(rings, box, v.Centre(y, x));
  }

  lemma LandNext(rings: seq<Ring>, r: Ring, q: Point)
    ensures LandAt(rings + [r], q) == (LandAt(rings, q) != RingParity(r, q))
  {
    hide RingParity;
    assert (rings + [r])[..|rings|] == rings;
  }

  lemma ProjectedNext(site: Site, outlines: seq<Outline>, o: Outline)
    ensures AllProjected(site, outlines + [o]) == AllProjected(site, outlines) + [Projected(site, o)]
  {
    assert (outlines + [o])[..|outlines|] == outlines;
  }

  /** The land of the outlines is that of the ones kept and of the ones dropped, even-odd. */
  lemma {:induction false} KeptAndGone(site: Site, box: Box, outlines: seq<Outline>, q: Point)
    requires site.Valid()
    ensures Land(site, outlines, q) == (LandAt(Kept(site, box, outlines), q) != LandAt(Gone(site, box, outlines), q))
  {
    hide RingParity, LandAt, Near, Projected;
    if outlines == [] {
      NoLand(q);
    } else {
      var before, o := outlines[..|outlines| - 1], outlines[|outlines| - 1];
      KeptAndGone(site, box, before, q);
      var kept, gone := Sieved(site, box, before, true), Sieved(site, box, before, false);
      LandNext(AllProjected(site, before), Projected(site, o), q);
      if Near(site, box, o) {
        ProjectedNext(site, kept, o);
        LandNext(AllProjected(site, kept), Projected(site, o), q);
        assert gone + [] == gone;
      } else {
        ProjectedNext(site, gone, o);
        LandNext(AllProjected(site, gone), Projected(site, o), q);
        assert kept + [] == kept;
      }
    }
  }

  lemma NoLand(q: Point)
    ensures !LandAt([], q)
  {
  }

  /** What is drawn is what was there exactly where the dropped outlines have no land: elsewhere in the
      box, sea is drawn for land and land for sea. */
  lemma DroppingDecides(site: Site, box: Box, outlines: seq<Outline>, v: View, rows: int, cols: int, y: int, x: int)
    requires site.Valid() && v.Valid() && 0 <= y < rows && 0 <= x < cols && box.Contains(v.Centre(y, x))
    requires var m := Baked(site, box, outlines); |Crossings(m, |m|, v.RowY(y))| <= MAX_CROSS
    ensures var q := v.Centre(y, x);
            ((y, x) in Grid(Baked(site, box, outlines), v, rows, cols) <==> Land(site, outlines, q))
            <==> !LandAt(Gone(site, box, outlines), q)
  {
    hide Grid, Crossings, LandAt, ClippedMap, Kept, Gone, Land;
    ClippedThenDrawn(Kept(site, box, outlines), box, v, rows, cols, y, x);
    KeptAndGone(site, box, outlines, v.Centre(y, x));
  }

  // ---------------------------------------------------------------- outlines that may be dropped

  /** Every vertex on the far side of one side of the box. */
  predicate Beyond(s: Side, r: Ring) {
    forall k :: 0 <= k < |r| ==> !Inside(s, r[k])
  }

  predicate OffOneSide(box: Box, r: Ring) {
    exists i :: 0 <= i < 4 && Beyond(Sides(box.halfX, box.halfY)[i], r)
  }

  lemma {:induction false} BeyondIsEmpty(s: Side, c: seq<Point>, i: nat)
    requires i < |c| && Beyond(s, c)
    ensures Emitted(s, c, i) == []
  {
    hide Inside, Cross;
    if i > 0 { BeyondIsEmpty(s, c, i - 1); }
  }

  lemma BeyondHasNoLand(s: Side, r: Ring, q: Point)
    requires Beyond(s, r) && Within(s, q)
    ensures !RingParity(r, q)
  {
    hide Inside, RingParity, Emitted, Within;
    ClipSideParity(s, r, q);
    if r != [] { BeyondIsEmpty(s, Closed(r), |r|); }
    NoRing(q);
  }

  lemma OffOneSideHasNoLand(box: Box, r: Ring, q: Point)
    requires OffOneSide(box, r) && box.Contains(q)
    ensures !RingParity(r, q)
  {
    hide RingParity, Beyond;
    var i :| 0 <= i < 4 && Beyond(Sides(box.halfX, box.halfY)[i], r);
    BeyondHasNoLand(Sides(box.halfX, box.halfY)[i], r, q);
  }

  /** Each outline has a vertex in the window or lies beyond one side of the box. */
  ghost predicate Droppable(site: Site, box: Box, outlines: seq<Outline>)
    requires site.Valid()
  {
    forall k :: 0 <= k < |outlines| ==> Near(site, box, outlines[k]) || OffOneSide(box, Projected(site, outlines[k]))
  }

  lemma {:induction false} GoneHasNoLand(site: Site, box: Box, outlines: seq<Outline>, q: Point)
    requires site.Valid() && Droppable(site, box, outlines) && box.Contains(q)
    ensures !LandAt(Gone(site, box, outlines), q)
  {
    hide RingParity, LandAt, Near, Projected, OffOneSide;
    if outlines == [] {
      NoLand(q);
    } else {
      var before, o := outlines[..|outlines| - 1], outlines[|outlines| - 1];
      var gone := Sieved(site, box, before, false);
      GoneHasNoLand(site, box, before, q);
      if Near(site, box, o) {
        assert gone + [] == gone;
      } else {
        OffOneSideHasNoLand(box, Projected(site, o), q);
        ProjectedNext(site, gone, o);
        LandNext(AllProjected(site, gone), Projected(site, o), q);
      }
    }
  }

  /** The drawn land is the original land, for outlines that each have a vertex in the window or lie
      beyond one side of the box. */
  lemma DrawnLandIsOriginalLand(site: Site, box: Box, outlines: seq<Outline>, v: View, rows: int, cols: int, y: int, x: int)
    requires site.Valid() && v.Valid() && 0 <= y < rows && 0 <= x < cols && box.Contains(v.Centre(y, x))
    requires Droppable(site, box, outlines)
    requires var m := Baked(site, box, outlines); |Crossings(m, |m|, v.RowY(y))| <= MAX_CROSS
    ensures (y, x) in Grid(Baked(site, box, outlines), v, rows, cols) <==> Land(site, outlines, v.Centre(y, x))
  {
    hide Grid, Crossings, LandAt, Baked, Gone, Land, Droppable;
    DroppingDecides(site, box, outlines, v, rows, cols, y, x);
    GoneHasNoLand(site, box, outlines, v.Centre(y, x));
  }

  // ---------------------------------------------------------------- an outline that is missed

  /** A square a degree larger than the box on every side. */
  function Around(site: Site, box: Box): Outline
    requires site.Valid()
  {
    var dx, dy := box.halfX / site.kx + 1.0, box.halfY / site.ky + 1.0;
    [Degrees(site.lon - dx, site.lat - dy), Degrees(site.lon + dx, site.lat - dy),
     Degrees(site.lon + dx, site.lat + dy), Degrees(site.lon - dx, site.lat + dy)]
  }

  function Rectangle(hx: real, hy: real): Ring {
    [Point(-hx, -hy), Point(hx, -hy), Point(hx, hy), Point(-hx, hy)]
  }

  lemma Scaled(at: real, half: real, k: real, d: real)
    requires 0.0 < k && d == half / k + 1.0
    ensures (at + d - at) * k == half + k && (at - d - at) * k == -(half + k)
  {
    assert at + d - at == d && at - d - at == -d;
    assert d * k == half + k;
    assert (-d) * k == -(d * k);
  }

  lemma AroundProjects(site: Site, box: Box)
    requires site.Valid()
    ensures Projected(site, Around(site, box)) == Rectangle(box.halfX + site.kx, box.halfY + site.ky)
  {
    var dx, dy := box.halfX / site.kx + 1.0, box.halfY / site.ky + 1.0;
    Scaled(site.lon, box.halfX, site.kx, dx);
    Scaled(site.lat, box.halfY, site.ky, dy);
    var o, r := Around(site, box), Rectangle(box.halfX + site.kx, box.halfY + site.ky);
    assert site.Project(o[0]) == r[0] && site.Project(o[1]) == r[1];
    assert site.Project(o[2]) == r[2] && site.Project(o[3]) == r[3];
    assert Projected(site, o) == r;
  }

  lemma UprightCrossing(a: Point, b: Point, y: real)
    requires Straddles(a, b, y) && a.x == b.x
    ensures CrossingX(a, b, y) == a.x
  {
    Quotient(0.0, b.y - a.y, 0.0);
  }

  lemma InRectangle(hx: real, hy: real, q: Point)
    requires -hx < q.x < hx && -hy < q.y < hy
    ensures RingParity(Rectangle(hx, hy), q)
  {
    var r := Rectangle(hx, hy);
    UprightCrossing(r[1], r[2], q.y);
    UprightCrossing(r[3], r[0], q.y);
    assert !Hits(r[0], r[1], q) && !Hits(r[1], r[2], q) && !Hits(r[2], r[3], q) && Hits(r[3], r[0], q);
    hide Hits, PathParity;
    PathExtend([], r[0], q);
    PathExtend([r[0]], r[1], q);
    PathExtend([r[0], r[1]], r[2], q);
    PathExtend([r[0], r[1], r[2]], r[3], q);
    PathExtend(r, r[0], q);
    assert [] + [r[0]] == [r[0]] && [r[0]] + [r[1]] == [r[0], r[1]] && [r[0], r[1]] + [r[2]] == [r[0], r[1], r[2]];
    assert [r[0], r[1], r[2]] + [r[3]] == r;
  }

  /** The condition is needed: an outline that surrounds the box, whatever the antenna and the box, is
      dropped, and nothing is drawn where all is land. */
  lemma SurroundingLandIsLost(site: Site, box: Box, v: View, rows: int, cols: int, q: Point)
    requires site.Valid() && v.Valid() && box.Contains(q)
    ensures Land(site, [Around(site, box)], q)
    ensures Grid(Baked(site, box, [Around(site, box)]), v, rows, cols) == []
  {
    hide Land, LandAt, Baked, Gone, Grid, Around;
    AroundIsGone(site, box, [], q);
    NothingBaked(site, box, q);
    EmptyGrid(v, rows, cols);
    assert [] + [Around(site, box)] == [Around(site, box)];
  }

  /** Inland the whole map is inverted: with such an outline beside ones that may be dropped, a cell is
      drawn exactly when it is not land. */
  lemma InlandIsInverted(site: Site, box: Box, others: seq<Outline>, v: View, rows: int, cols: int, y: int, x: int)
    requires site.Valid() && v.Valid() && 0 <= y < rows && 0 <= x < cols && box.Contains(v.Centre(y, x))
    requires Droppable(site, box, others)
    requires var m := Baked(site, box, others + [Around(site, box)]); |Crossings(m, |m|, v.RowY(y))| <= MAX_CROSS
    ensures var all := others + [Around(site, box)];
            (y, x) in Grid(Baked(site, box, all), v, rows, cols) <==> !Land(site, all, v.Centre(y, x))
  {
    hide Grid, Crossings, Land, LandAt, Baked, Gone, Around, Droppable;
    DroppingDecides(site, box, others + [Around(site, box)], v, rows, cols, y, x);
    GoneHasNoLand(site, box, others, v.Centre(y, x));
    AroundIsGone(site, box, others, v.Centre(y, x));
  }

  lemma AroundIsGone(site: Site, box: Box, others: seq<Outline>, q: Point)
    requires site.Valid() && box.Contains(q)
    ensures LandAt(Gone(site, box, others + [Around(site, box)]), q) == !LandAt(Gone(site, box, others), q)
    ensures Land(site, others + [Around(site, box)], q) == !Land(site, others, q)
  {
    hide RingParity, Near, LandAt, Projected, Around, AllProjected;
    var o, gone := Around(site, box), Sieved(site, box, others, false);
    NotNear(site, box);
    AroundIsLand(site, box, q);
    assert (others + [o])[..|others|] == others;
    ProjectedNext(site, others, o);
    LandNext(AllProjected(site, others), Projected(site, o), q);
    ProjectedNext(site, gone, o);
    LandNext(AllProjected(site, gone), Projected(site, o), q);
  }

  lemma AroundIsLand(site: Site, box: Box, q: Point)
    requires site.Valid() && box.Contains(q)
    ensures RingParity(Projected(site, Around(site, box)), q)
  {
    hide RingParity, Projected, Around, Rectangle;
    AroundProjects(site, box);
    InRectangle(box.halfX + site.kx, box.halfY + site.ky, q);
  }

  lemma NothingBaked(site: Site, box: Box, q: Point)
    requires site.Valid()
    ensures Baked(site, box, [Around(site, box)]) == [] && !Land(site, [], q)
  {
    hide Near, Around, Projected, Clipped, RingParity;
    var o := Around(site, box);
    NotNear(site, box);
    NoLand(q);
    assert [o][..0] == [];
    assert Sieved(site, box, [o], true) == [];
  }

  lemma NotNear(site: Site, box: Box)
    requires site.Valid()
    ensures !Near(site, box, Around(site, box))
  {
  }

  lemma {:induction false} EmptyGrid(v: View, rows: int, cols: int)
    requires v.Valid()
    ensures Grid([], v, rows, cols) == []
    decreases rows
  {
    if rows > 0 {
      EmptyGrid(v, rows - 1, cols);
      EmptyRow(v.ToScale(), rows - 1, cols);
    }
  }

  lemma {:induction false} EmptyRow(s: Scale, y: int, bound: int)
    requires 0.0 < s.sx
    ensures LitCells([], s, y, bound) == []
    decreases bound
  {
    if bound > 0 { EmptyRow(s, y, bound - 1); }
  }
}
