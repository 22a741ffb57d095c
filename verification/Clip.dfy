/**
 * clip_ring of tools/mkmap.py: Sutherland-Hodgman clipping against the four sides of a box, and
 * the proof that it keeps the even-odd rule inside the box.
 */
module Clip {
  import opened Geometry

  /** A half-plane: x >= h, x <= h, y >= h, y <= h. */
  datatype Side = West(h: real) | East(h: real) | South(h: real) | North(h: real)

  predicate Inside(s: Side, p: Point) {
    match s
    case West(h) => p.x >= h
    case East(h) => p.x <= h
    case South(h) => p.y >= h
    case North(h) => p.y <= h
  }

  /** The value at h on the line through (u, p) and (v, r). */
  function Line(p: real, r: real, u: real, v: real, h: real): real
    requires u != v
  {
    p + (r - p) * (h - u) / (v - u)
  }

  /** Where an edge that leaves or enters the half-plane meets its boundary. */
  function Cross(s: Side, a: Point, b: Point): Point
    requires Inside(s, a) != Inside(s, b)
  {
    if s.West? || s.East? then Point(s.h, Line(a.y, b.y, a.x, b.x, s.h))
    else Point(Line(a.x, b.x, a.y, b.y, s.h), s.h)
  }

  /** What one edge adds to the output. */
  function Emit(s: Side, a: Point, b: Point): seq<Point> {
    (if Inside(s, a) then [a] else []) + (if Inside(s, a) != Inside(s, b) then [Cross(s, a, b)] else [])
  }

  /** The output of the first i edges of a closed path. */
  function Emitted(s: Side, c: seq<Point>, i: nat): seq<Point>
    requires i < |c|
  {
    if i == 0 then [] else Emitted(s, c, i - 1) + Emit(s, c[i - 1], c[i])
  }

  function ClipSide(s: Side, r: Ring): Ring {
    if r == [] then [] else Emitted(s, Closed(r), |r|)
  }

  method ClipPass(r: Ring, s: Side) returns (out: Ring)
    ensures out == ClipSide(s, r)
  {
    hide Inside, Cross;
    out := [];
    for i := 0 to |r|
      invariant if r == [] then out == [] else out == Emitted(s, Closed(r), i)
    {
      var a, b := r[i], if i + 1 < |r| then r[i + 1] else r[0];
      ghost var c, before := Closed(r), out;
      assert a == c[i] && b == c[i + 1];
      var ia, ib := Inside(s, a), Inside(s, b);
      if ia { out := out + [a]; }
      if ia != ib { out := out + [Cross(s, a, b)]; }
      assert out == before + Emit(s, c[i], c[i + 1]);
      assert Emitted(s, c, i + 1) == before + Emit(s, c[i], c[i + 1]);
    }
  }

  function Sides(halfX: real, halfY: real): seq<Side> {
    [West(-halfX), East(halfX), South(-halfY), North(halfY)]
  }

  /** The passes over the first i sides; fewer than three points are nothing. */
  function Clipped(r: Ring, sides: seq<Side>, i: nat): Ring
    requires i <= |sides|
  {
    if i == 0 then r
    else
      var pts := ClipSide(sides[i - 1], Clipped(r, sides, i - 1));
      if |pts| < 3 then [] else pts
  }

  method ClipRing(r: Ring, halfX: real, halfY: real) returns (pts: Ring)
    ensures pts == Clipped(r, Sides(halfX, halfY), 4)
  {
    hide ClipSide;
    var sides := Sides(halfX, halfY);
    pts := r;
    for i := 0 to 4
      invariant pts == Clipped(r, sides, i)
    {
      pts := ClipPass(pts, sides[i]);
      if |pts| < 3 {
        assert Clipped(r, sides, i + 1) == [];
        EmptyStays(r, sides, i + 1);
        return [];
      }
    }
  }

  lemma {:induction false} EmptyStays(r: Ring, sides: seq<Side>, i: nat)
    requires i <= |sides| && Clipped(r, sides, i) == []
    ensures Clipped(r, sides, |sides|) == []
    decreases |sides| - i
  {
    hide ClipSide;
    if i < |sides| {
      ClipEmpty(sides[i]);
      EmptyStays(r, sides, i + 1);
    }
  }

  lemma ClipEmpty(s: Side)
    ensures ClipSide(s, []) == []
  {
  }

  // ---------------------------------------------------------------- the even-odd rule through one pass

  /** Strictly inside the half-plane. */
  predicate Within(s: Side, q: Point) {
    match s
    case West(h) => q.x > h
    case East(h) => q.x < h
    case South(h) => q.y > h
    case North(h) => q.y < h
  }

  /** What stands for a vertex beyond the boundary: whether the ray would have passed below it. */
  predicate Potential(s: Side, p: Point, q: Point) {
    s.West? && p.y <= q.y
  }

  /** Beyond the boundary an edge hits exactly when the potential changes. */
  lemma BeyondHits(s: Side, a: Point, b: Point, q: Point)
    requires Within(s, q) && !Within(s, a) && !Within(s, b)
    ensures Hits(a, b, q) == (Potential(s, a, q) != Potential(s, b, q))
  {
    if Straddles(a, b, q.y) {
      var f := CrossingFraction(a, b, q.y);
      Between(a.x, b.x, f, s.h);
    }
  }

  lemma CrossAlong(s: Side, a: Point, b: Point) returns (t: real)
    requires Inside(s, a) != Inside(s, b)
    ensures Along(a, b, Cross(s, a, b), t)
  {
    hide Line;
    if s.West? || s.East? {
      t := CutFraction(a.x, b.x, s.h);
      Interpolate(a.y, b.y, a.x, b.x, s.h, t);
    } else {
      t := CutFraction(a.y, b.y, s.h);
      Interpolate(a.x, b.x, a.y, b.y, s.h, t);
    }
  }

  lemma Interpolate(p: real, r: real, u: real, v: real, h: real, t: real)
    requires u != v && t * (v - u) == h - u
    ensures Line(p, r, u, v, h) == p + (r - p) * t
  {
    Quotient((r - p) * (h - u), v - u, (r - p) * t);
  }

  lemma CutFraction(u: real, v: real, h: real) returns (t: real)
    requires (u < h <= v) || (u <= h < v) || (v < h <= u) || (v <= h < u)
    ensures 0.0 <= t <= 1.0 && h == u + (v - u) * t && t * (v - u) == h - u
  {
    t := (h - u) / (v - u);
    if v < u { FractionBounds(u - h, u - v, t); } else { FractionBounds(h - u, v - u, t); }
  }

  /** An edge that leaves or enters: its inner part and the potential of its outer part. */
  lemma CutHits(s: Side, a: Point, b: Point, q: Point)
    requires Within(s, q) && Inside(s, a) != Inside(s, b)
    ensures var c := Cross(s, a, b); !Within(s, c)
    ensures var c := Cross(s, a, b);
      Hits(a, b, q) == if Inside(s, a) then Hits(a, c, q) != (Potential(s, c, q) != Potential(s, b, q))
                       else (Potential(s, a, q) != Potential(s, c, q)) != Hits(c, b, q)
  {
    var c := Cross(s, a, b);
    var t := CrossAlong(s, a, b);
    hide Hits, Cross;
    SplitHits(a, b, c, t, q);
    CrossOnBoundary(s, a, b);
    if Inside(s, a) { BeyondHits(s, c, b, q); } else { BeyondHits(s, a, c, q); }
  }

  lemma CrossOnBoundary(s: Side, a: Point, b: Point)
    requires Inside(s, a) != Inside(s, b)
    ensures !Within(s, Cross(s, a, b)) && Inside(s, Cross(s, a, b))
  {
  }

  /** The output so far, and the current vertex when it is to be kept. */
  function Extended(s: Side, c: seq<Point>, i: nat): seq<Point>
    requires i < |c|
  {
    Emitted(s, c, i) + if Inside(s, c[i]) then [c[i]] else []
  }

  /** How the first i edges of a closed path and the output for them compare. */
  ghost predicate Matches(s: Side, c: seq<Point>, i: nat, q: Point)
    requires i < |c|
  {
    var e, v := Extended(s, c, i), c[i];
    var before := PathParity(c[..i + 1], q);
    if e == [] then
      !Inside(s, c[0]) && !Inside(s, v) && before == (Potential(s, c[0], q) != Potential(s, v, q))
    else
      var f, l := e[0], e[|e| - 1];
      && (if Inside(s, c[0]) then f == c[0] else !Within(s, f))
      && (if Inside(s, v) then l == v else !Within(s, l))
      && before == (((!Inside(s, c[0]) && Potential(s, c[0], q) != Potential(s, f, q)) != PathParity(e, q))
                    != (!Inside(s, v) && Potential(s, l, q) != Potential(s, v, q)))
  }

  lemma ExtendedStep(s: Side, c: seq<Point>, i: nat)
    requires i + 1 < |c|
    ensures var e, v, w := Extended(s, c, i), c[i], c[i + 1];
      Extended(s, c, i + 1) == if Inside(s, v) && Inside(s, w) then e + [w]
                               else if Inside(s, v) then e + [Cross(s, v, w)]
                               else if Inside(s, w) then e + [Cross(s, v, w)] + [w]
                               else e
  {
    hide Inside, Cross;
  }

  lemma MatchStep(s: Side, c: seq<Point>, i: nat, q: Point)
    requires i + 1 < |c| && Within(s, q) && Matches(s, c, i, q)
    ensures Matches(s, c, i + 1, q)
  {
    hide Inside, Within, Cross, Hits, Extended, Potential, PathParity;
    var e, v, w := Extended(s, c, i), c[i], c[i + 1];
    ExtendedStep(s, c, i);
    assert c[..i + 2] == c[..i + 1] + [w];
    PathExtend(c[..i + 1], w, q);
    if Inside(s, v) && Inside(s, w) {
      PathExtend(e, w, q);
    } else if Inside(s, v) || Inside(s, w) {
      var x := Cross(s, v, w);
      CutHits(s, v, w, q);
      PathExtend(e, x, q);
      if Inside(s, w) {
        PathExtend(e + [x], w, q);
        if e != [] { WithinInside(s, e[|e| - 1]); BeyondHits(s, e[|e| - 1], x, q); }
      }
    } else {
      WithinInside(s, v);
      WithinInside(s, w);
      BeyondHits(s, v, w, q);
    }
  }

  lemma WithinInside(s: Side, p: Point)
    ensures Within(s, p) ==> Inside(s, p)
  {
  }

  lemma {:induction false} MatchAll(s: Side, c: seq<Point>, i: nat, q: Point)
    requires i < |c| && Within(s, q)
    ensures Matches(s, c, i, q)
  {
    if i == 0 {
      assert Extended(s, c, 0) == if Inside(s, c[0]) then [c[0]] else [];
    } else {
      MatchAll(s, c, i - 1, q);
      MatchStep(s, c, i - 1, q);
    }
  }

  /** One pass keeps the even-odd parity around every point strictly inside its half-plane. */
  lemma ClipSideParity(s: Side, r: Ring, q: Point)
    requires Within(s, q)
    ensures RingParity(ClipSide(s, r), q) == RingParity(r, q)
  {
    if r != [] {
      var c := Closed(r);
      MatchAll(s, c, |r|, q);
      assert c[..|c|] == c;
      hide Matches, PathParity, Closed, Emitted;
      RingEnds(r);
      if Inside(s, r[0]) { EndsInside(s, c, q); } else { EndsBeyond(s, c, q); }
    }
  }

  lemma EndsInside(s: Side, c: seq<Point>, q: Point)
    requires |c| >= 2 && c[0] == c[|c| - 1] && Inside(s, c[0]) && Matches(s, c, |c| - 1, q)
    ensures RingParity(Emitted(s, c, |c| - 1), q) == PathParity(c, q)
  {
    var n := |c| - 1;
    FirstKept(s, c, n);
    hide Inside, Within, Potential, PathParity, Emitted;
    var out := Emitted(s, c, n);
    assert c[..n + 1] == c;
    assert Extended(s, c, n) == out + [out[0]];
    RingIs(out, q);
  }

  lemma EndsBeyond(s: Side, c: seq<Point>, q: Point)
    requires |c| >= 2 && c[0] == c[|c| - 1] && !Inside(s, c[0]) && Within(s, q) && Matches(s, c, |c| - 1, q)
    ensures RingParity(Emitted(s, c, |c| - 1), q) == PathParity(c, q)
  {
    hide Inside, Within, Potential, PathParity, Emitted, Hits;
    var n := |c| - 1;
    var out := Emitted(s, c, n);
    assert c[..n + 1] == c;
    assert Extended(s, c, n) == out;
    if out == [] {
      NoRing(q);
    } else {
      RingIs(out, q);
      PathExtend(out, out[0], q);
      BeyondHits(s, out[|out| - 1], out[0], q);
    }
  }

  lemma RingEnds(r: Ring)
    requires r != []
    ensures var c := Closed(r); |c| == |r| + 1 && c[0] == r[0] && c[|r|] == r[0]
  {
  }

  lemma RingIs(r: Ring, q: Point)
    requires r != []
    ensures RingParity(r, q) == PathParity(r + [r[0]], q)
  {
  }

  lemma NoRing(q: Point)
    ensures !RingParity([], q)
  {
  }

  lemma {:induction false} FirstKept(s: Side, c: seq<Point>, i: nat)
    requires 0 < i < |c| && Inside(s, c[0])
    ensures Emitted(s, c, i) != [] && Emitted(s, c, i)[0] == c[0]
  {
    hide Cross;
    if i > 1 { FirstKept(s, c, i - 1); }
  }

  /** A ring of fewer than three points has nothing inside it. */
  lemma TinyRing(r: Ring, q: Point)
    requires |r| < 3
    ensures !RingParity(r, q)
  {
    hide Hits;
    if |r| == 1 {
      PathExtend([], r[0], q);
      PathExtend([r[0]], r[0], q);
      assert Closed(r) == [r[0]] + [r[0]];
      assert [] + [r[0]] == [r[0]];
      NoLoop(r[0], q);
    } else if |r| == 2 {
      PathExtend([], r[0], q);
      assert [] + [r[0]] == [r[0]];
      PathExtend([r[0]], r[1], q);
      PathExtend([r[0]] + [r[1]], r[0], q);
      assert Closed(r) == [r[0]] + [r[1]] + [r[0]];
      HitsSymmetric(r[0], r[1], q);
    }
  }

  lemma NoLoop(a: Point, q: Point)
    ensures !Hits(a, a, q)
  {
  }

  lemma {:induction false} ClippedParity(r: Ring, sides: seq<Side>, i: nat, q: Point)
    requires i <= |sides| && forall k :: 0 <= k < |sides| ==> Within(sides[k], q)
    ensures RingParity(Clipped(r, sides, i), q) == RingParity(r, q)
  {
    hide RingParity, Within, ClipSide;
    if i > 0 {
      ClippedParity(r, sides, i - 1, q);
      var pts := ClipSide(sides[i - 1], Clipped(r, sides, i - 1));
      ClipSideParity(sides[i - 1], Clipped(r, sides, i - 1), q);
      if |pts| < 3 {
        TinyRing(pts, q);
        TinyRing([], q);
      }
    }
  }

  /** Clipping preserves meaning: around every point strictly inside the box, the clipped ring has the
      even-odd parity of the original, also when nothing is left of it. */
  lemma ClippingPreservesMeaning(r: Ring, halfX: real, halfY: real, q: Point)
    requires -halfX < q.x < halfX && -halfY < q.y < halfY
    ensures RingParity(Clipped(r, Sides(halfX, halfY), 4), q) == RingParity(r, q)
  {
    ClippedParity(r, Sides(halfX, halfY), 4, q);
  }

  // ---------------------------------------------------------------- the output stays in the box

  predicate AllInside(s: Side, p: seq<Point>) {
    forall k :: 0 <= k < |p| ==> Inside(s, p[k])
  }

  /** Cutting against one side leaves every other half-plane intact. */
  lemma CrossKeeps(s: Side, t: Side, a: Point, b: Point)
    requires Inside(s, a) != Inside(s, b) && Inside(t, a) && Inside(t, b)
    ensures Inside(t, Cross(s, a, b))
  {
    hide Cross, Along, Inside;
    var f := CrossAlong(s, a, b);
    AlongKeeps(t, a, b, Cross(s, a, b), f);
  }

  lemma AlongKeeps(t: Side, a: Point, b: Point, p: Point, f: real)
    requires Along(a, b, p, f) && Inside(t, a) && Inside(t, b)
    ensures Inside(t, p)
  {
    if t.West? || t.East? { Between(a.x, b.x, f, t.h); } else { Between(a.y, b.y, f, t.h); }
  }

  lemma {:induction false} EmittedInside(s: Side, t: Side, c: seq<Point>, i: nat)
    requires i < |c| && (s == t || AllInside(t, c))
    ensures AllInside(t, Emitted(s, c, i))
  {
    hide Inside, Cross;
    if i > 0 {
      EmittedInside(s, t, c, i - 1);
      var a, b := c[i - 1], c[i];
      if Inside(s, a) != Inside(s, b) {
        if s == t { CrossOnBoundary(s, a, b); } else { CrossKeeps(s, t, a, b); }
      }
    }
  }

  lemma {:induction false} ClippedInside(r: Ring, sides: seq<Side>, i: nat, k: nat)
    requires k < i <= |sides|
    ensures AllInside(sides[k], Clipped(r, sides, i))
  {
    hide Inside, Emitted;
    var pts := Clipped(r, sides, i - 1);
    if k < i - 1 { ClippedInside(r, sides, i - 1, k); }
    if pts != [] { EmittedInside(sides[i - 1], sides[k], Closed(pts), |pts|); }
  }

  /** Every vertex of the clipped ring lies in the box. */
  lemma ClippedInBox(r: Ring, halfX: real, halfY: real, k: nat)
    requires k < |Clipped(r, Sides(halfX, halfY), 4)|
    ensures var p := Clipped(r, Sides(halfX, halfY), 4)[k]; -halfX <= p.x <= halfX && -halfY <= p.y <= halfY
  {
    var sides := Sides(halfX, halfY);
    hide Clipped;
    forall i: nat | i < 4 ensures Inside(sides[i], Clipped(r, sides, 4)[k]) { ClippedInside(r, sides, 4, i); }
    assert Inside(sides[0], Clipped(r, sides, 4)[k]) && Inside(sides[1], Clipped(r, sides, 4)[k]);
    assert Inside(sides[2], Clipped(r, sides, 4)[k]) && Inside(sides[3], Clipped(r, sides, 4)[k]);
  }
}
