/**
 * Which way up the map of main/map.c is: what a cell shows in kilometres from the antenna, on which side of
 * it land is drawn, and how the drawing moves with the land.
 */
module Compass {
  import opened Geometry
  import opened MapLand

  // ---------------------------------------------------------------- rows and columns in data units

  lemma RowIs(v: View, y: int)
    requires v.Valid()
    ensures v.RowY(y) == (v.cy - y as real) * v.kmPerRow / v.unit
    ensures v.RowY(y) * v.unit == (v.cy - y as real) * v.kmPerRow
    ensures v.RowY(y) == v.RowY(y + 1) + v.kmPerRow / v.unit
    ensures (y as real >= v.cy ==> v.RowY(y) <= 0.0) && (y as real <= v.cy ==> v.RowY(y) >= 0.0)
  {
    var d := v.cy - y as real;
    assert (y + 1) as real == y as real + 1.0;
    assert (d - 1.0) * v.kmPerRow == d * v.kmPerRow - v.kmPerRow;
    Apart(d * v.kmPerRow, v.kmPerRow, v.unit);
    Signed(d, v.kmPerRow, v.unit);
  }

  lemma Apart(a: real, b: real, u: real)
    requires 0.0 < u
    ensures a / u * u == a && a / u == (a - b) / u + b / u
  {
  }

  lemma Signed(d: real, k: real, u: real)
    requires 0.0 < k && 0.0 < u
    ensures (0.0 <= d ==> 0.0 <= d * k / u) && (d <= 0.0 ==> d * k / u <= 0.0)
  {
    var q := d * k / u;
    assert q * u == d * k;
    if 0.0 <= d { Product(d, k); } else { Product(-d, k); }
    if q < 0.0 { Product(-q, u); } else { Product(q, u); }
    assert (-d) * k == -(d * k) && (-q) * u == -(q * u);
    if q < 0.0 && 0.0 <= d * k { Positive(-q, u); }
    if q > 0.0 && d * k <= 0.0 { Positive(q, u); }
  }

  lemma Positive(x: real, y: real)
    requires 0.0 < x && 0.0 < y
    ensures 0.0 < x * y
  {
  }

  lemma CellIs(v: View, x: int)
    requires v.Valid()
    ensures CellX(v.ToScale(), x) == (x as real - v.cx) * v.kmPerCol / v.unit
    ensures CellX(v.ToScale(), x) * v.unit == (x as real - v.cx) * v.kmPerCol
    ensures CellX(v.ToScale(), x) == CellX(v.ToScale(), x - 1) + v.kmPerCol / v.unit
    ensures (x as real <= v.cx ==> CellX(v.ToScale(), x) <= 0.0) && (x as real >= v.cx ==> CellX(v.ToScale(), x) >= 0.0)
  {
    var d, k, u := x as real - v.cx, v.kmPerCol, v.unit;
    Inverted(d, k, u);
    Inverted(d - 1.0, k, u);
    assert (x - 1) as real == x as real - 1.0;
    assert (d - 1.0) * k == d * k - k;
    Apart(d * k, k, u);
    Signed(d, k, u);
  }

  lemma Inverted(d: real, k: real, u: real)
    requires 0.0 < k && 0.0 < u
    ensures d / (u / k) == d * k / u
  {
    var s, q := u / k, d * k / u;
    assert s * k == u && q * u == d * k;
    assert (q * s) * k == q * (s * k) == d * k;
    Same(q * s, d, k);
    Quotient(d, s, q);
  }

  lemma Same(a: real, b: real, k: real)
    requires 0.0 < k && a * k == b * k
    ensures a == b
  {
    var d := a - b;
    assert d * k == 0.0 && (-d) * k == 0.0;
    if d < 0.0 { Positive(-d, k); }
    if d > 0.0 { Positive(d, k); }
  }

  // ---------------------------------------------------------------- land on one side of the antenna

  predicate AllNorth(r: Ring) { forall i :: 0 <= i < |r| ==> r[i].y > 0.0 }
  predicate AllSouth(r: Ring) { forall i :: 0 <= i < |r| ==> r[i].y < 0.0 }
  predicate AllEast(r: Ring) { forall i :: 0 <= i < |r| ==> r[i].x > 0.0 }
  predicate AllWest(r: Ring) { forall i :: 0 <= i < |r| ==> r[i].x < 0.0 }

  /** No edge of the ring crosses the row. */
  predicate Clear(r: Ring, y: real) {
    (forall i :: 0 <= i < |r| ==> r[i].y <= y) || (forall i :: 0 <= i < |r| ==> r[i].y > y)
  }

  lemma {:induction false} ClearRing(r: Ring, n: nat, y: real)
    requires n <= |r| && Clear(r, y)
    ensures RingCrossings(r, n, y) == []
  {
    hide CrossingX;
    if n > 0 { ClearRing(r, n - 1, y); }
  }

  lemma {:induction false} ClearRow(rings: seq<Ring>, n: nat, y: real)
    requires n <= |rings| && forall i :: 0 <= i < |rings| ==> Clear(rings[i], y)
    ensures Crossings(rings, n, y) == []
  {
    hide RingCrossings, Clear;
    if n > 0 {
      ClearRow(rings, n - 1, y);
      ClearRing(rings[n - 1], |rings[n - 1]|, y);
    }
  }

  /** A row no edge crosses shows nothing. */
  lemma ClearRowIsDark(rings: seq<Ring>, v: View, rows: int, cols: int, y: int, x: int)
    requires v.Valid() && forall i :: 0 <= i < |rings| ==> Clear(rings[i], v.RowY(y))
    ensures (y, x) !in Grid(rings, v, rows, cols)
  {
    hide Clear, Grid, CellX;
    GridExact(rings, v, rows, cols, (y, x));
    ClearRow(rings, |rings|, v.RowY(y));
  }

  /** Land north of the antenna is drawn above its row, and nowhere else. */
  lemma NorthIsAbove(rings: seq<Ring>, v: View, rows: int, cols: int, y: int, x: int)
    requires v.Valid() && (y, x) in Grid(rings, v, rows, cols) && forall i :: 0 <= i < |rings| ==> AllNorth(rings[i])
    ensures y as real < v.cy
  {
    hide Grid;
    RowIs(v, y);
    if y as real >= v.cy {
      forall i | 0 <= i < |rings| ensures Clear(rings[i], v.RowY(y)) { assert AllNorth(rings[i]); }
      ClearRowIsDark(rings, v, rows, cols, y, x);
    }
  }

  /** Land south of the antenna is drawn below its row, and nowhere else. */
  lemma SouthIsBelow(rings: seq<Ring>, v: View, rows: int, cols: int, y: int, x: int)
    requires v.Valid() && (y, x) in Grid(rings, v, rows, cols) && forall i :: 0 <= i < |rings| ==> AllSouth(rings[i])
    ensures y as real > v.cy
  {
    hide Grid;
    RowIs(v, y);
    if y as real <= v.cy {
      forall i | 0 <= i < |rings| ensures Clear(rings[i], v.RowY(y)) { assert AllSouth(rings[i]); }
      ClearRowIsDark(rings, v, rows, cols, y, x);
    }
  }

  predicate AllOver(xs: seq<real>) { forall i :: 0 <= i < |xs| ==> xs[i] > 0.0 }
  predicate AllUnder(xs: seq<real>) { forall i :: 0 <= i < |xs| ==> xs[i] < 0.0 }

  lemma EdgeSide(r: Ring, i: nat, y: real)
    requires i < |r|
    ensures AllEast(r) ==> AllOver(EdgeCrossing(r, i, y))
    ensures AllWest(r) ==> AllUnder(EdgeCrossing(r, i, y))
  {
    var a, b := r[i], Previous(r, i);
    if Straddles(a, b, y) {
      var f := CrossingFraction(a, b, y);
      hide CrossingX;
      Inner(a.x, b.x, f);
    }
  }

  lemma Inner(u: real, w: real, t: real)
    requires 0.0 <= t <= 1.0
    ensures (u > 0.0 && w > 0.0 ==> u + (w - u) * t > 0.0) && (u < 0.0 && w < 0.0 ==> u + (w - u) * t < 0.0)
  {
    Between(u, w, t, 0.0);
    Between(-u, -w, t, 0.0);
    Mirrored(u, w, t);
  }

  lemma Mirrored(u: real, w: real, t: real)
    ensures -u + (-w - (-u)) * t == -(u + (w - u) * t)
  {
  }

  lemma {:induction false} RingSide(r: Ring, n: nat, y: real)
    requires n <= |r|
    ensures AllEast(r) ==> AllOver(RingCrossings(r, n, y))
    ensures AllWest(r) ==> AllUnder(RingCrossings(r, n, y))
  {
    hide EdgeCrossing, AllEast, AllWest;
    if n > 0 {
      RingSide(r, n - 1, y);
      EdgeSide(r, n - 1, y);
    }
  }

  lemma {:induction false} RowSide(rings: seq<Ring>, n: nat, y: real)
    requires n <= |rings|
    ensures (forall i :: 0 <= i < |rings| ==> AllEast(rings[i])) ==> AllOver(Crossings(rings, n, y))
    ensures (forall i :: 0 <= i < |rings| ==> AllWest(rings[i])) ==> AllUnder(Crossings(rings, n, y))
  {
    hide RingCrossings, AllEast, AllWest;
    if n > 0 {
      RowSide(rings, n - 1, y);
      RingSide(rings[n - 1], |rings[n - 1]|, y);
    }
  }

  lemma {:induction false} CountSide(xs: seq<real>, x: real)
    ensures AllOver(xs) && x <= 0.0 ==> CountLeft(xs, x) == 0
    ensures AllUnder(xs) && x >= 0.0 ==> CountLeft(xs, x) == |xs|
  {
    if xs != [] { CountSide(xs[..|xs| - 1], x); }
  }

  /** Land east of the antenna is drawn right of its column, land west of it left. */
  lemma EastIsRight(rings: seq<Ring>, v: View, rows: int, cols: int, y: int, x: int)
    requires v.Valid() && (y, x) in Grid(rings, v, rows, cols)
    ensures (forall i :: 0 <= i < |rings| ==> AllEast(rings[i])) ==> x as real > v.cx
    ensures (forall i :: 0 <= i < |rings| ==> AllWest(rings[i])) ==> x as real < v.cx
  {
    hide Grid, CellX, CountLeft, Crossings, InsertAll, AllEast, AllWest;
    var all, at := Crossings(rings, |rings|, v.RowY(y)), CellX(v.ToScale(), x);
    GridExact(rings, v, rows, cols, (y, x));
    CellIs(v, x);
    RowSide(rings, |rings|, v.RowY(y));
    TableSorted(rings, v, y);
    InsertAllSorts(FirstOf(all), at);
    CountSide(FirstOf(all), at);
  }

  // ---------------------------------------------------------------- land that moves

  function MovedRing(r: Ring, dx: real, dy: real): (s: Ring)
    ensures |s| == |r|
  {
    seq(|r|, i requires 0 <= i < |r| => Point(r[i].x + dx, r[i].y + dy))
  }

  function Moved(rings: seq<Ring>, dx: real, dy: real): (s: seq<Ring>)
    ensures |s| == |rings|
  {
    seq(|rings|, i requires 0 <= i < |rings| => MovedRing(rings[i], dx, dy))
  }

  function Plus(xs: seq<real>, d: real): (s: seq<real>)
    ensures |s| == |xs|
  {
    seq(|xs|, i requires 0 <= i < |xs| => xs[i] + d)
  }

  lemma PlusJoin(a: seq<real>, b: seq<real>, d: real)
    ensures Plus(a + b, d) == Plus(a, d) + Plus(b, d)
  {
  }

  lemma MovedEdge(r: Ring, i: nat, y: real, dx: real, dy: real)
    requires i < |r|
    ensures EdgeCrossing(MovedRing(r, dx, dy), i, y + dy) == Plus(EdgeCrossing(r, i, y), dx)
  {
    var a, b := r[i], Previous(r, i);
    var c, e := Point(a.x + dx, a.y + dy), Point(b.x + dx, b.y + dy);
    if Straddles(a, b, y) {
      assert c.y - e.y == a.y - b.y && y + dy - c.y == y - a.y && e.x - c.x == b.x - a.x && e.y - c.y == b.y - a.y;
      assert CrossingX(c, e, y + dy) == CrossingX(a, b, y) + dx;
      hide CrossingX;
    }
  }

  lemma {:induction false} MovedRingCrossings(r: Ring, n: nat, y: real, dx: real, dy: real)
    requires n <= |r|
    ensures RingCrossings(MovedRing(r, dx, dy), n, y + dy) == Plus(RingCrossings(r, n, y), dx)
  {
    hide EdgeCrossing;
    if n > 0 {
      MovedRingCrossings(r, n - 1, y, dx, dy);
      MovedEdge(r, n - 1, y, dx, dy);
      PlusJoin(RingCrossings(r, n - 1, y), EdgeCrossing(r, n - 1, y), dx);
    }
  }

  lemma {:induction false} MovedCrossings(rings: seq<Ring>, n: nat, y: real, dx: real, dy: real)
    requires n <= |rings|
    ensures Crossings(Moved(rings, dx, dy), n, y + dy) == Plus(Crossings(rings, n, y), dx)
  {
    hide RingCrossings;
    if n > 0 {
      MovedCrossings(rings, n - 1, y, dx, dy);
      MovedRingCrossings(rings[n - 1], |rings[n - 1]|, y, dx, dy);
      PlusJoin(Crossings(rings, n - 1, y), RingCrossings(rings[n - 1], |rings[n - 1]|, y), dx);
    }
  }

  lemma {:induction false} PlusCount(xs: seq<real>, d: real, x: real)
    ensures CountLeft(Plus(xs, d), x + d) == CountLeft(xs, x)
  {
    if xs != [] {
      assert Plus(xs, d)[..|xs| - 1] == Plus(xs[..|xs| - 1], d);
      PlusCount(xs[..|xs| - 1], d, x);
    }
  }

  lemma PlusFirst(xs: seq<real>, d: real)
    ensures FirstOf(Plus(xs, d)) == Plus(FirstOf(xs), d)
  {
  }

  /** What a cell shows of the table of its row, sorted or not. */
  lemma GridCounts(rings: seq<Ring>, v: View, rows: int, cols: int, y: int, x: int)
    requires v.Valid()
    ensures (y, x) in Grid(rings, v, rows, cols) <==>
              0 <= y < rows && 0 <= x < cols
              && Odd(CountLeft(FirstOf(Crossings(rings, |rings|, v.RowY(y))), CellX(v.ToScale(), x)))
  {
    hide Grid, CellX, CountLeft, Crossings, InsertAll, Odd;
    GridExact(rings, v, rows, cols, (y, x));
    InsertAllSorts(FirstOf(Crossings(rings, |rings|, v.RowY(y))), CellX(v.ToScale(), x));
  }

  lemma MovedLit(rings: seq<Ring>, y: real, x: real, dx: real, dy: real)
    ensures CountLeft(FirstOf(Crossings(Moved(rings, dx, dy), |rings|, y + dy)), x + dx)
         == CountLeft(FirstOf(Crossings(rings, |rings|, y)), x)
  {
    hide CountLeft, Crossings, FirstOf;
    MovedCrossings(rings, |rings|, y, dx, dy);
    PlusFirst(Crossings(rings, |rings|, y), dx);
    PlusCount(FirstOf(Crossings(rings, |rings|, y)), dx, x);
  }

  /** Land moved north by the height of a cell is drawn one row up. */
  lemma NorthMovesUp(rings: seq<Ring>, v: View, rows: int, cols: int, y: int, x: int)
    requires v.Valid() && 0 <= y < rows - 1
    ensures (y, x) in Grid(Moved(rings, 0.0, v.kmPerRow / v.unit), v, rows, cols) <==> (y + 1, x) in Grid(rings, v, rows, cols)
  {
    hide Grid, CellX, CountLeft, Crossings, Moved, Odd, FirstOf;
    var d := v.kmPerRow / v.unit;
    RowIs(v, y);
    MovedLit(rings, v.RowY(y + 1), CellX(v.ToScale(), x), 0.0, d);
    GridCounts(Moved(rings, 0.0, d), v, rows, cols, y, x);
    GridCounts(rings, v, rows, cols, y + 1, x);
  }

  /** Land moved east by the width of a cell is drawn one column to the right. */
  lemma EastMovesRight(rings: seq<Ring>, v: View, rows: int, cols: int, y: int, x: int)
    requires v.Valid() && 0 < x < cols
    ensures (y, x) in Grid(Moved(rings, v.kmPerCol / v.unit, 0.0), v, rows, cols) <==> (y, x - 1) in Grid(rings, v, rows, cols)
  {
    hide Grid, CellX, CountLeft, Crossings, Moved, Odd, FirstOf;
    var d := v.kmPerCol / v.unit;
    CellIs(v, x);
    MovedLit(rings, v.RowY(y), CellX(v.ToScale(), x - 1), d, 0.0);
    GridCounts(Moved(rings, d, 0.0), v, rows, cols, y, x);
    GridCounts(rings, v, rows, cols, y, x - 1);
  }

  // ---------------------------------------------------------------- kilometres

  function Km(p: Point, unit: real): Point {
    Point(p.x * unit, p.y * unit)
  }

  function RingInKm(r: Ring, unit: real): (s: Ring)
    ensures |s| == |r|
  {
    seq(|r|, i requires 0 <= i < |r| => Km(r[i], unit))
  }

  function InKm(rings: seq<Ring>, unit: real): (s: seq<Ring>)
    ensures |s| == |rings|
  {
    seq(|rings|, i requires 0 <= i < |rings| => RingInKm(rings[i], unit))
  }

  lemma Order(a: real, b: real, u: real)
    requires 0.0 < u
    ensures a * u <= b * u <==> a <= b
  {
    if a < b { Positive(b - a, u); assert (b - a) * u == b * u - a * u; }
    if b < a { Positive(a - b, u); assert (a - b) * u == a * u - b * u; }
  }

  lemma KmFraction(f: real, a: real, b: real, y: real, u: real)
    requires f * (b - a) == y - a
    ensures f * (b * u - a * u) == y * u - a * u
  {
    assert f * (b * u - a * u) == (f * (b - a)) * u;
  }

  lemma KmAlong(f: real, a: real, b: real, u: real, c: real)
    requires c == a + (b - a) * f
    ensures a * u + (b * u - a * u) * f == c * u
  {
  }

  lemma KmStraddles(a: Point, b: Point, q: Point, u: real)
    requires 0.0 < u
    ensures Straddles(Km(a, u), Km(b, u), Km(q, u).y) == Straddles(a, b, q.y)
  {
    Order(a.y, q.y, u);
    Order(b.y, q.y, u);
  }

  lemma KmCrossing(a: Point, b: Point, q: Point, u: real)
    requires 0.0 < u && Straddles(a, b, q.y) && Straddles(Km(a, u), Km(b, u), Km(q, u).y)
    ensures CrossingX(Km(a, u), Km(b, u), Km(q, u).y) == CrossingX(a, b, q.y) * u
  {
    var f := CrossingFraction(a, b, q.y);
    hide CrossingX, Straddles, Km;
    KmCrossingAt(a, b, q, u, f, CrossingX(a, b, q.y));
  }

  lemma KmCrossingAt(a: Point, b: Point, q: Point, u: real, f: real, c: real)
    requires Straddles(Km(a, u), Km(b, u), Km(q, u).y)
    requires f * (b.y - a.y) == q.y - a.y && c == a.x + (b.x - a.x) * f
    ensures CrossingX(Km(a, u), Km(b, u), Km(q, u).y) == c * u
  {
    hide CrossingX, Straddles;
    KmFraction(f, a.y, b.y, q.y, u);
    CrossingNamed(Km(a, u), Km(b, u), Km(q, u).y, f, b.x * u - a.x * u, b.y * u - a.y * u);
    KmAlong(f, a.x, b.x, u, c);
  }

  lemma CrossingNamed(a: Point, b: Point, y: real, f: real, dx: real, dy: real)
    requires Straddles(a, b, y) && dx == b.x - a.x && dy == b.y - a.y && f * dy == y - a.y
    ensures CrossingX(a, b, y) == a.x + dx * f
  {
    CrossingUnique(a, b, y, f);
  }

  lemma KmOrder(x: real, q: Point, u: real)
    requires 0.0 < u
    ensures x * u <= Km(q, u).x <==> x <= q.x
  {
    Order(x, q.x, u);
  }

  lemma KmHits(a: Point, b: Point, q: Point, u: real)
    requires 0.0 < u
    ensures Hits(Km(a, u), Km(b, u), Km(q, u)) == Hits(a, b, q)
  {
    hide CrossingX, Straddles, Km;
    KmStraddles(a, b, q, u);
    if Straddles(a, b, q.y) {
      KmCrossing(a, b, q, u);
      KmOrder(CrossingX(a, b, q.y), q, u);
    }
  }

  lemma {:induction false} KmPath(p: seq<Point>, q: Point, u: real)
    requires 0.0 < u
    ensures PathParity(RingInKm(p, u), Km(q, u)) == PathParity(p, q)
  {
    hide Hits, Km;
    if |p| >= 2 {
      var n := |p| - 1;
      assert RingInKm(p, u)[..n] == RingInKm(p[..n], u);
      KmPath(p[..n], q, u);
      KmHits(p[n - 1], p[n], q, u);
    }
  }

  lemma KmRing(r: Ring, q: Point, u: real)
    requires 0.0 < u
    ensures RingParity(RingInKm(r, u), Km(q, u)) == RingParity(r, q)
  {
    hide PathParity, Km;
    assert Closed(RingInKm(r, u)) == RingInKm(Closed(r), u);
    KmPath(Closed(r), q, u);
  }

  /** Land is land in whatever unit it is measured. */
  lemma {:induction false} KmLand(rings: seq<Ring>, q: Point, u: real)
    requires 0.0 < u
    ensures LandAt(InKm(rings, u), Km(q, u)) == LandAt(rings, q)
  {
    hide RingParity, Km;
    if rings != [] {
      var n := |rings| - 1;
      assert InKm(rings, u)[..n] == InKm(rings[..n], u);
      KmLand(rings[..n], q, u);
      KmRing(rings[n], q, u);
    }
  }

  /** With at most 128 crossings in its row, a cell is drawn exactly when the place it stands for is on
      land: its column right of the antenna's times the width of a cell kilometres east, and the antenna's
      row below its own times the height of one kilometres north. */
  lemma CellShowsKm(rings: seq<Ring>, v: View, rows: int, cols: int, y: int, x: int)
    requires v.Valid() && 0 <= y < rows && 0 <= x < cols
    requires |Crossings(rings, |rings|, (v.cy - y as real) * v.kmPerRow / v.unit)| <= MAX_CROSS
    ensures (y, x) in Grid(rings, v, rows, cols) <==>
              LandAt(InKm(rings, v.unit), Point((x as real - v.cx) * v.kmPerCol, (v.cy - y as real) * v.kmPerRow))
  {
    hide Grid, Crossings, LandAt, CellX, InKm, View.RowY;
    RowIs(v, y);
    CellIs(v, x);
    ScanlineRefinesRay(rings, v, rows, cols, y, x);
    KmLand(rings, v.Centre(y, x), v.unit);
    assert Km(v.Centre(y, x), v.unit) == Point((x as real - v.cx) * v.kmPerCol, (v.cy - y as real) * v.kmPerRow);
  }
}
