/**
 * Points, rings and the even-odd rule that tools/mkmap.py and main/map.c share: a ray to the left
 * of a point, half-open in y, and the parity of the edges it crosses.
 */
module Geometry {

  datatype Point = Point(x: real, y: real)

  type Ring = seq<Point>

  predicate Straddles(a: Point, b: Point, y: real) {
    (a.y <= y) != (b.y <= y)
  }

  function CrossingX(a: Point, b: Point, y: real): real
    requires Straddles(a, b, y)
  {
    a.x + (b.x - a.x) * (y - a.y) / (b.y - a.y)
  }

  /** The edge from a to b crosses the row of q at or left of q. */
  predicate Hits(a: Point, b: Point, q: Point) {
    Straddles(a, b, q.y) && CrossingX(a, b, q.y) <= q.x
  }

  /** Whether an odd number of the edges of an open path hit. */
  predicate PathParity(p: seq<Point>, q: Point) {
    |p| >= 2 && PathParity(p[..|p| - 1], q) != Hits(p[|p| - 2], p[|p| - 1], q)
  }

  function Closed(r: Ring): seq<Point> {
    if r == [] then [] else r + [r[0]]
  }

  /** q is inside the ring by the even-odd rule. */
  predicate RingParity(r: Ring, q: Point) {
    PathParity(Closed(r), q)
  }

  /** q is inside an odd number of the rings. */
  predicate LandAt(rings: seq<Ring>, q: Point) {
    |rings| > 0 && LandAt(rings[..|rings| - 1], q) != RingParity(rings[|rings| - 1], q)
  }

  lemma PathExtend(p: seq<Point>, v: Point, q: Point)
    ensures PathParity(p + [v], q) == (|p| > 0 && PathParity(p, q) != Hits(p[|p| - 1], v, q))
  {
    hide Hits;
    assert (p + [v])[..|p|] == p;
  }

  // ---------------------------------------------------------------- segments

  lemma Quotient(x: real, y: real, z: real)
    requires y != 0.0 && x == z * y
    ensures x / y == z
  {
  }

  /** A crossing lies a fraction s of the way along its edge. */
  lemma CrossingFraction(a: Point, b: Point, y: real) returns (s: real)
    requires Straddles(a, b, y)
    ensures 0.0 <= s <= 1.0 && s * (b.y - a.y) == y - a.y
    ensures CrossingX(a, b, y) == a.x + (b.x - a.x) * s
  {
    s := (y - a.y) / (b.y - a.y);
    var dx, dy := b.x - a.x, b.y - a.y;
    Quotient(dx * (y - a.y), dy, dx * s);
    if dy < 0.0 { FractionBounds(a.y - y, a.y - b.y, s); } else { FractionBounds(y - a.y, dy, s); }
  }

  lemma FractionBounds(x: real, y: real, s: real)
    requires 0.0 <= x <= y && 0.0 < y && s * y == x
    ensures 0.0 <= s <= 1.0
  {
  }

  /** Two ways to write the crossing of one line agree. */
  lemma CrossingUnique(a: Point, b: Point, y: real, s: real)
    requires Straddles(a, b, y) && s * (b.y - a.y) == y - a.y
    ensures CrossingX(a, b, y) == a.x + (b.x - a.x) * s
  {
    Quotient((b.x - a.x) * (y - a.y), b.y - a.y, (b.x - a.x) * s);
  }

  lemma HitsSymmetric(a: Point, b: Point, q: Point)
    ensures Hits(a, b, q) == Hits(b, a, q)
  {
    if Straddles(a, b, q.y) {
      var s := CrossingFraction(a, b, q.y);
      CrossingUnique(b, a, q.y, 1.0 - s);
      assert b.x + (a.x - b.x) * (1.0 - s) == a.x + (b.x - a.x) * s;
    }
  }

  /** c lies the fraction t of the way from a to b. */
  predicate Along(a: Point, b: Point, c: Point, t: real) {
    0.0 <= t <= 1.0 && c.x == a.x + (b.x - a.x) * t && c.y == a.y + (b.y - a.y) * t
  }

  lemma Between(u: real, v: real, t: real, y: real)
    requires 0.0 <= t <= 1.0
    ensures var w := u + (v - u) * t;
      (u <= y && v <= y ==> w <= y) && (y <= u && y <= v ==> y <= w) && (y < u && y < v ==> y < w)
  {
    var d := v - u;
    Product(if d < 0.0 then -d else d, t);
    Product(if d < 0.0 then -d else d, 1.0 - t);
    assert d * (1.0 - t) == d - d * t;
    assert (-d) * t == -(d * t) && (-d) * (1.0 - t) == -(d * (1.0 - t));
  }

  lemma Product(x: real, y: real)
    requires 0.0 <= x && 0.0 <= y
    ensures 0.0 <= x * y
  {
  }

  /** Cutting an edge in two keeps its crossing on exactly one of the parts. */
  lemma SplitHits(a: Point, b: Point, c: Point, t: real, q: Point)
    requires Along(a, b, c, t)
    ensures Hits(a, b, q) == (Hits(a, c, q) != Hits(c, b, q))
  {
    var y := q.y;
    Between(a.y, b.y, t, y);
    if Straddles(a, b, y) {
      var s := CrossingFraction(a, b, y);
      if Straddles(a, c, y) { FirstPart(a, b, c, t, y, s); } else { SecondPart(a, b, c, t, y, s); }
    }
  }

  lemma FirstPart(a: Point, b: Point, c: Point, t: real, y: real, s: real)
    requires Along(a, b, c, t) && Straddles(a, c, y) && s * (b.y - a.y) == y - a.y
    ensures CrossingX(a, c, y) == a.x + (b.x - a.x) * s
  {
    assert t != 0.0;
    var r := s / t;
    Quotient(s, t, r);
    assert r * t == s;
    assert r * (c.y - a.y) == (r * t) * (b.y - a.y);
    CrossingUnique(a, c, y, r);
    assert (c.x - a.x) * r == (b.x - a.x) * (r * t);
  }

  lemma SecondPart(a: Point, b: Point, c: Point, t: real, y: real, s: real)
    requires Along(a, b, c, t) && Straddles(c, b, y) && s * (b.y - a.y) == y - a.y
    ensures CrossingX(c, b, y) == a.x + (b.x - a.x) * s
  {
    assert t != 1.0;
    var r := (s - t) / (1.0 - t);
    assert r * (1.0 - t) == s - t;
    assert b.y - c.y == (b.y - a.y) * (1.0 - t);
    assert b.x - c.x == (b.x - a.x) * (1.0 - t);
    assert r * (b.y - c.y) == (r * (1.0 - t)) * (b.y - a.y);
    assert (s - t) * (b.y - a.y) == y - c.y;
    CrossingUnique(c, b, y, r);
    assert (b.x - c.x) * r == (b.x - a.x) * (r * (1.0 - t));
  }
}
