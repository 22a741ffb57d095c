/**
 * map_land of main/map.c: the even-odd scanline with insertion-sorted crossings, and the proof
 * that it marks exactly the cells the ray rule puts on land.
 */
module MapLand {
  import opened Geometry
  import opened Clip

  const MAX_CROSS: nat := 128

  // ---------------------------------------------------------------- the crossings of a row

  /** The point before point i of a ring, cyclically. */
  function Previous(r: Ring, i: nat): Point
    requires i < |r|
  {
    if i == 0 then r[|r| - 1] else r[i - 1]
  }

  function EdgeCrossing(r: Ring, i: nat, y: real): seq<real>
    requires i < |r|
  {
    if Straddles(r[i], Previous(r, i), y) then [CrossingX(r[i], Previous(r, i), y)] else []
  }

  /** Crossings of the row y with the edges that end at the first n points, in table order. */
  function RingCrossings(r: Ring, n: nat, y: real): seq<real>
    requires n <= |r|
  {
    if n == 0 then [] else RingCrossings(r, n - 1, y) + EdgeCrossing(r, n - 1, y)
  }

  function Crossings(rings: seq<Ring>, n: nat, y: real): seq<real>
    requires n <= |rings|
  {
    if n == 0 then [] else Crossings(rings, n - 1, y) + RingCrossings(rings[n - 1], |rings[n - 1]|, y)
  }

  function FirstOf(xs: seq<real>): (r: seq<real>)
    ensures |r| <= MAX_CROSS
  {
    if |xs| <= MAX_CROSS then xs else xs[..MAX_CROSS]
  }

  /** How many crossings lie at or left of x. */
  function CountLeft(xs: seq<real>, x: real): (n: nat)
    ensures n <= |xs|
  {
    if |xs| == 0 then 0 else CountLeft(xs[..|xs| - 1], x) + if xs[|xs| - 1] <= x then 1 else 0
  }

  lemma CountAppend(xs: seq<real>, v: real, x: real)
    ensures CountLeft(xs + [v], x) == CountLeft(xs, x) + if v <= x then 1 else 0
  {
    assert (xs + [v])[..|xs|] == xs;
  }

  lemma {:induction false} CountConcat(xs: seq<real>, ys: seq<real>, x: real)
    ensures CountLeft(xs + ys, x) == CountLeft(xs, x) + CountLeft(ys, x)
  {
    if ys == [] {
      assert xs + ys == xs;
    } else {
      var n := |ys| - 1;
      CountConcat(xs, ys[..n], x);
      assert xs + ys == xs + ys[..n] + [ys[n]];
      CountAppend(xs + ys[..n], ys[n], x);
    }
  }

  // ---------------------------------------------------------------- the insertion sort

  predicate Sorted(xs: seq<real>) {
    forall i, j :: 0 <= i < j < |xs| ==> xs[i] <= xs[j]
  }

  /** x after the last entry not above it. */
  function Insert(xs: seq<real>, x: real): (r: seq<real>)
    ensures |r| == |xs| + 1
  {
    if |xs| == 0 || xs[|xs| - 1] <= x then xs + [x]
    else Insert(xs[..|xs| - 1], x) + [xs[|xs| - 1]]
  }

  function InsertAll(xs: seq<real>): (r: seq<real>)
    ensures |r| == |xs|
  {
    if |xs| == 0 then [] else Insert(InsertAll(xs[..|xs| - 1]), xs[|xs| - 1])
  }

  lemma {:induction false} InsertCount(xs: seq<real>, v: real, x: real)
    ensures CountLeft(Insert(xs, v), x) == CountLeft(xs, x) + if v <= x then 1 else 0
  {
    if |xs| == 0 || xs[|xs| - 1] <= v {
      CountAppend(xs, v, x);
    } else {
      InsertCount(xs[..|xs| - 1], v, x);
      CountAppend(Insert(xs[..|xs| - 1], v), xs[|xs| - 1], x);
    }
  }

  lemma {:induction false} InsertSorted(xs: seq<real>, v: real)
    requires Sorted(xs)
    ensures Sorted(Insert(xs, v))
    ensures forall u :: u in Insert(xs, v) ==> u == v || u in xs
  {
    if |xs| > 0 && xs[|xs| - 1] > v {
      var p, l := xs[..|xs| - 1], xs[|xs| - 1];
      InsertSorted(p, v);
      var r := Insert(p, v);
      forall i | 0 <= i < |r| ensures r[i] <= l { assert r[i] in r; }
    }
  }

  lemma {:induction false} InsertAllSorts(xs: seq<real>, x: real)
    ensures Sorted(InsertAll(xs)) && CountLeft(InsertAll(xs), x) == CountLeft(xs, x)
  {
    if |xs| > 0 {
      InsertAllSorts(xs[..|xs| - 1], x);
      InsertSorted(InsertAll(xs[..|xs| - 1]), xs[|xs| - 1]);
      InsertCount(InsertAll(xs[..|xs| - 1]), xs[|xs| - 1], x);
    }
  }

  lemma {:induction false} InsertAt(xs: seq<real>, x: real, k: nat)
    requires k <= |xs| && (k == 0 || xs[k - 1] <= x) && forall i :: k <= i < |xs| ==> xs[i] > x
    ensures Insert(xs, x) == xs[..k] + [x] + xs[k..]
    decreases |xs|
  {
    if k < |xs| {
      var p := xs[..|xs| - 1];
      InsertAt(p, x, k);
      assert p[..k] == xs[..k] && xs[k..] == p[k..] + [xs[|xs| - 1]];
    } else {
      assert xs[..k] == xs && xs[k..] == [];
    }
  }

  /** The inner while loop: shift larger crossings up, drop the new one in. */
  method InsertCrossing(xs: array<real>, n: nat, x: real)
    requires n < xs.Length
    modifies xs
    ensures xs[..n + 1] == Insert(old(xs[..n]), x)
  {
    ghost var s := xs[..n];
    var k := n;
    while k > 0 && xs[k - 1] > x
      invariant k <= n
      invariant forall i :: 0 <= i < k ==> xs[i] == s[i]
      invariant forall i :: k < i <= n ==> xs[i] == s[i - 1]
      invariant forall i :: k <= i < n ==> s[i] > x
    {
      xs[k] := xs[k - 1];
      k := k - 1;
    }
    xs[k] := x;
    InsertAt(s, x, k);
    Shifted(s, xs[..n + 1], x, k);
  }

  lemma Shifted(s: seq<real>, t: seq<real>, x: real, k: nat)
    requires k <= |s| && |t| == |s| + 1
    requires forall i :: 0 <= i < k ==> t[i] == s[i]
    requires t[k] == x && forall i :: k < i <= |s| ==> t[i] == s[i - 1]
    ensures t == s[..k] + [x] + s[k..]
  {
  }

  // ---------------------------------------------------------------- closed rings cross evenly

  predicate Odd(n: nat) {
    n % 2 == 1
  }

  lemma OddSum(a: nat, b: nat)
    ensures Odd(a + b) == (Odd(a) != Odd(b))
  {
  }

  lemma RingCrossingsNext(r: Ring, n: nat, y: real)
    requires n < |r|
    ensures RingCrossings(r, 0, y) == []
    ensures RingCrossings(r, n + 1, y) == RingCrossings(r, n, y) + EdgeCrossing(r, n, y)
  {
    hide EdgeCrossing;
  }

  lemma CountEmpty(x: real)
    ensures CountLeft([], x) == 0
  {
  }

  /** Crossings counted to the left of q decide the even-odd rule of a ring. */
  lemma {:induction false} RingCount(r: Ring, n: nat, q: Point)
    requires 0 < n <= |r|
    ensures Odd(CountLeft(RingCrossings(r, n, q.y), q.x)) == (Hits(r[0], Previous(r, 0), q) != PathParity(r[..n], q))
    decreases n
  {
    hide Hits, EdgeCrossing, RingCrossings, CountLeft, PathParity, Odd;
    var before := RingCrossings(r, n - 1, q.y);
    RingCrossingsNext(r, n - 1, q.y);
    EdgeCount(before, r, n - 1, q);
    var hit := Hits(r[n - 1], Previous(r, n - 1), q);
    OddSum(CountLeft(before, q.x), if hit then 1 else 0);
    OddSmall();
    assert r[..n] == r[..n - 1] + [r[n - 1]];
    PathExtend(r[..n - 1], r[n - 1], q);
    if n == 1 {
      CountEmpty(q.x);
    } else {
      RingCount(r, n - 1, q);
      HitsSymmetric(r[n - 1], r[n - 2], q);
    }
  }

  lemma OddSmall()
    ensures Odd(1) && !Odd(0)
  {
  }

  lemma EdgeCount(xs: seq<real>, r: Ring, i: nat, q: Point)
    requires i < |r|
    ensures CountLeft(xs + EdgeCrossing(r, i, q.y), q.x)
         == CountLeft(xs, q.x) + if Hits(r[i], Previous(r, i), q) then 1 else 0
  {
    if Straddles(r[i], Previous(r, i), q.y) {
      CountAppend(xs, CrossingX(r[i], Previous(r, i), q.y), q.x);
    } else {
      assert xs + [] == xs;
    }
  }

  lemma RingCountIsParity(r: Ring, q: Point)
    ensures Odd(CountLeft(RingCrossings(r, |r|, q.y), q.x)) == RingParity(r, q)
  {
    hide Hits;
    if r != [] {
      RingCount(r, |r|, q);
      assert r[..|r|] == r;
      PathExtend(r, r[0], q);
      HitsSymmetric(r[0], r[|r| - 1], q);
    }
  }

  /** A closed ring crosses every row an even number of times. */
  lemma {:induction false} RingCrossesEvenly(r: Ring, n: nat, y: real)
    requires 0 < n <= |r|
    ensures Odd(|RingCrossings(r, n, y)|) == ((r[n - 1].y <= y) != (r[|r| - 1].y <= y))
  {
    hide CrossingX, RingCrossings, Odd;
    RingCrossingsNext(r, n - 1, y);
    OddSum(|RingCrossings(r, n - 1, y)|, |EdgeCrossing(r, n - 1, y)|);
    OddSmall();
    if n > 1 { RingCrossesEvenly(r, n - 1, y); }
  }

  lemma {:induction false} CrossingsAreLand(rings: seq<Ring>, n: nat, q: Point)
    requires n <= |rings|
    ensures Odd(CountLeft(Crossings(rings, n, q.y), q.x)) == LandAt(rings[..n], q)
    ensures !Odd(|Crossings(rings, n, q.y)|)
  {
    hide RingParity, RingCrossings;
    if n > 0 {
      assert rings[..n][..n - 1] == rings[..n - 1];
      CrossingsAreLand(rings, n - 1, q);
      hide Odd, CountLeft, LandAt;
      var r, c := rings[n - 1], Crossings(rings, n - 1, q.y);
      var d := RingCrossings(r, |r|, q.y);
      CountConcat(c, d, q.x);
      OddSum(CountLeft(c, q.x), CountLeft(d, q.x));
      OddSum(|c|, |d|);
      RingCountIsParity(r, q);
      LandNext(rings, n, q);
      if r == [] { NoCrossings(r, q.y); } else { RingCrossesEvenly(r, |r|, q.y); }
    }
  }

  lemma LandNext(rings: seq<Ring>, n: nat, q: Point)
    requires 0 < n <= |rings|
    ensures LandAt(rings[..n], q) == (LandAt(rings[..n - 1], q) != RingParity(rings[n - 1], q))
  {
    hide RingParity;
    assert rings[..n][..n - 1] == rings[..n - 1];
  }

  lemma NoCrossings(r: Ring, y: real)
    requires r == []
    ensures RingCrossings(r, |r|, y) == [] && !Odd(0)
  {
  }

  // ---------------------------------------------------------------- collecting a row

  predicate IsPrefix(xs: seq<real>, ys: seq<real>) {
    |xs| <= |ys| && ys[..|xs|] == xs
  }

  lemma {:induction false} CrossingsGrow(rings: seq<Ring>, m: nat, n: nat, y: real)
    requires m <= n <= |rings|
    ensures IsPrefix(Crossings(rings, m, y), Crossings(rings, n, y))
    decreases n
  {
    hide RingCrossings;
    if m < n { CrossingsGrow(rings, m, n - 1, y); }
  }

  lemma {:induction false} RingGrows(r: Ring, m: nat, n: nat, y: real)
    requires m <= n <= |r|
    ensures IsPrefix(RingCrossings(r, m, y), RingCrossings(r, n, y))
    decreases n
  {
    hide EdgeCrossing;
    if m < n { RingGrows(r, m, n - 1, y); }
  }

  lemma AppendPrefix(c: seq<real>, d: seq<real>, e: seq<real>, all: seq<real>)
    requires IsPrefix(d, e) && IsPrefix(c + e, all)
    ensures IsPrefix(c + d, all)
  {
    assert all[..|c + d|] == (c + e)[..|c + d|];
    assert (c + e)[..|c + d|] == c + e[..|d|];
  }

  /** The crossings of one ring, added to the sorted table until it is full. */
  method CollectRing(r: Ring, y: real, xs: array<real>, n0: nat, ghost c0: seq<real>, ghost all: seq<real>)
    returns (n: nat, ghost c: seq<real>)
    requires xs.Length == MAX_CROSS && n0 == |c0| <= MAX_CROSS && xs[..n0] == InsertAll(c0)
    requires IsPrefix(c0 + RingCrossings(r, |r|, y), all)
    modifies xs
    ensures n == |c| <= MAX_CROSS && xs[..n] == InsertAll(c) && IsPrefix(c, all)
    ensures n < MAX_CROSS ==> c == c0 + RingCrossings(r, |r|, y)
  {
    hide Straddles, CrossingX, Insert, InsertAll, RingCrossings;
    n, c := n0, c0;
    AppendPrefix(c0, [], RingCrossings(r, |r|, y), all);
    assert c0 + [] == c0;
    RingNone(r, y);
    var i, j := 0, |r| - 1;
    while i < |r| && n < MAX_CROSS
      invariant i <= |r| && n == |c| <= MAX_CROSS && xs[..n] == InsertAll(c) && IsPrefix(c, all)
      invariant j == if i == 0 then |r| - 1 else i - 1
      invariant n < MAX_CROSS ==> c == c0 + RingCrossings(r, i, y)
    {
      RingCrossingsNext(r, i, y);
      RingGrows(r, i + 1, |r|, y);
      AppendPrefix(c0, RingCrossings(r, i + 1, y), RingCrossings(r, |r|, y), all);
      assert c0 + RingCrossings(r, i + 1, y) == c + EdgeCrossing(r, i, y);
      if Straddles(r[i], r[j], y) {
        var x := CrossingX(r[i], r[j], y);
        InsertNext(c, x);
        InsertCrossing(xs, n, x);
        c := c + [x];
        n := n + 1;
      } else {
        assert c + [] == c;
      }
      i, j := i + 1, i;
    }
  }

  lemma RingNone(r: Ring, y: real)
    ensures RingCrossings(r, 0, y) == []
  {
  }

  /** The crossings of one row, sorted as they are found; collecting stops when the table is full. */
  method CollectRow(rings: seq<Ring>, y: real, xs: array<real>) returns (n: nat)
    requires xs.Length == MAX_CROSS
    modifies xs
    ensures n <= MAX_CROSS && xs[..n] == InsertAll(FirstOf(Crossings(rings, |rings|, y)))
  {
    hide InsertAll, RingCrossings, Crossings, IsPrefix, FirstOf;
    ghost var all := Crossings(rings, |rings|, y);
    ghost var c: seq<real> := [];
    EmptyInsert(xs[..0]);
    NoRings(rings, y);
    n := 0;
    var p := 0;
    while p < |rings| && n < MAX_CROSS
      invariant p <= |rings| && n == |c| <= MAX_CROSS && xs[..n] == InsertAll(c) && IsPrefix(c, all)
      invariant n < MAX_CROSS ==> c == Crossings(rings, p, y)
    {
      CrossingsGrow(rings, p + 1, |rings|, y);
      RowGrows(rings, p, y);
      n, c := CollectRing(rings[p], y, xs, n, c, all);
      p := p + 1;
    }
    FullOrWhole(c, all);
  }

  lemma NoRings(rings: seq<Ring>, y: real)
    ensures Crossings(rings, 0, y) == [] && IsPrefix([], Crossings(rings, |rings|, y))
  {
    CrossingsGrow(rings, 0, |rings|, y);
  }

  lemma RowGrows(rings: seq<Ring>, p: nat, y: real)
    requires p < |rings|
    ensures Crossings(rings, p + 1, y) == Crossings(rings, p, y) + RingCrossings(rings[p], |rings[p]|, y)
  {
    hide RingCrossings;
  }

  lemma FullOrWhole(c: seq<real>, all: seq<real>)
    requires IsPrefix(c, all) && |c| <= MAX_CROSS && (|c| < MAX_CROSS ==> c == all)
    ensures FirstOf(all) == c
  {
  }

  lemma EmptyInsert(xs: seq<real>)
    requires xs == []
    ensures InsertAll(xs) == []
  {
  }

  lemma InsertNext(c: seq<real>, x: real)
    ensures InsertAll(c + [x]) == Insert(InsertAll(c), x)
  {
    hide Insert;
    assert (c + [x])[..|c|] == c;
  }

  // ---------------------------------------------------------------- filling a row

  /** Data units to the cell grid. */
  datatype Scale = Scale(sx: real, cx: real)

  /** The first cell at or right of a crossing. */
  function Reach(s: Scale, x: real): int {
    -(-(x * s.sx + s.cx)).Floor
  }

  /** The cell's centre in data units. */
  function CellX(s: Scale, x: int): real
    requires 0.0 < s.sx
  {
    (x as real - s.cx) / s.sx
  }

  /** An odd number of crossings at or left of the cell's centre. */
  predicate Lit(xs: seq<real>, s: Scale, x: int)
    requires 0.0 < s.sx
  {
    Odd(CountLeft(xs, CellX(s, x)))
  }

  /** The lit cells of a row left of a bound, from left to right. */
  function LitCells(xs: seq<real>, s: Scale, y: int, bound: int): seq<(int, int)>
    requires 0.0 < s.sx
    decreases bound
  {
    if bound <= 0 then []
    else LitCells(xs, s, y, bound - 1) + if Lit(xs, s, bound - 1) then [(y, bound - 1)] else []
  }

  lemma ReachIsLeft(s: Scale, c: real, x: int)
    requires 0.0 < s.sx
    ensures Reach(s, c) <= x <==> c <= CellX(s, x)
  {
    var d := CellX(s, x);
    assert d * s.sx == x as real - s.cx;
    ScaleOrder(c, d, s.sx);
  }

  lemma ScaleOrder(a: real, b: real, k: real)
    requires 0.0 < k
    ensures a <= b <==> a * k <= b * k
  {
    if a <= b { Product(b - a, k); } else { PositiveProduct(a - b, k); }
  }

  lemma PositiveProduct(x: real, y: real)
    requires 0.0 < x && 0.0 < y
    ensures 0.0 < x * y
  {
  }

  lemma {:induction false} CountSplit(xs: seq<real>, i: nat, v: real)
    requires i <= |xs| && (forall k :: 0 <= k < i ==> xs[k] <= v) && (forall k :: i <= k < |xs| ==> v < xs[k])
    ensures CountLeft(xs, v) == i
    decreases |xs|
  {
    if |xs| > 0 { CountSplit(xs[..|xs| - 1], if i < |xs| then i else i - 1, v); }
  }

  /** Between the crossings i - 1 and i of a sorted table a cell has exactly i crossings to its left. */
  lemma LitBetween(xs: seq<real>, s: Scale, i: nat, x: int)
    requires 0.0 < s.sx && Sorted(xs) && i <= |xs|
    requires i > 0 ==> Reach(s, xs[i - 1]) <= x
    requires i < |xs| ==> x < Reach(s, xs[i])
    ensures Lit(xs, s, x) == Odd(i)
  {
    hide Reach, CellX, CountLeft;
    var v := CellX(s, x);
    if i > 0 { ReachIsLeft(s, xs[i - 1], x); }
    if i < |xs| { ReachIsLeft(s, xs[i], x); }
    CountSplit(xs, i, v);
  }

  /** A column clipped to a view of w columns. */
  function Clamp(v: int, w: nat): (r: nat)
    ensures r <= w
  {
    if v < 0 then 0 else if v > w then w else v
  }

  /** The cells from column a up to column b. */
  function Stretch(y: int, a: int, b: int): seq<(int, int)>
    decreases b - a
  {
    if b <= a then [] else Stretch(y, a, b - 1) + [(y, b - 1)]
  }

  /** Column x is at or right of the first i crossings and left of the others. */
  predicate InGap(xs: seq<real>, s: Scale, i: nat, x: int)
    requires i <= |xs|
  {
    (i > 0 ==> Reach(s, xs[i - 1]) <= x) && (i < |xs| ==> x < Reach(s, xs[i]))
  }

  lemma {:induction false} GapCells(xs: seq<real>, s: Scale, y: int, i: nat, a: nat, b: nat)
    requires 0.0 < s.sx && Sorted(xs) && i <= |xs| && a <= b
    requires forall x :: a <= x < b ==> InGap(xs, s, i, x)
    ensures LitCells(xs, s, y, b) == LitCells(xs, s, y, a) + if Odd(i) then Stretch(y, a, b) else []
    decreases b
  {
    hide Reach, Lit, Odd;
    if a < b {
      GapCells(xs, s, y, i, a, b - 1);
      assert InGap(xs, s, i, b - 1);
      LitBetween(xs, s, i, b - 1);
    }
  }

  lemma ReachMonotone(s: Scale, a: real, b: real)
    requires 0.0 < s.sx && a <= b
    ensures Reach(s, a) <= Reach(s, b)
  {
    ScaleOrder(a, b, s.sx);
  }

  /** The columns before crossing i, in the view. */
  function Bound(xs: seq<real>, s: Scale, i: nat, w: nat): nat {
    if i < |xs| then Clamp(Reach(s, xs[i]), w) else w
  }

  /** One pair of crossings: the cells between them are lit, and those up to the next pair are not. */
  lemma PairCells(xs: seq<real>, s: Scale, y: int, i: nat, w: nat)
    requires 0.0 < s.sx && Sorted(xs) && i + 1 < |xs| && !Odd(i)
    ensures Bound(xs, s, i, w) <= Bound(xs, s, i + 1, w) <= Bound(xs, s, i + 2, w)
    ensures LitCells(xs, s, y, Bound(xs, s, i + 2, w))
         == LitCells(xs, s, y, Bound(xs, s, i, w)) + Stretch(y, Bound(xs, s, i, w), Bound(xs, s, i + 1, w))
  {
    hide Reach, LitCells, Stretch;
    OddSum(i, 1);
    OddSum(i, 2);
    OddTwo();
    ReachMonotone(s, xs[i], xs[i + 1]);
    if i + 2 < |xs| { ReachMonotone(s, xs[i + 1], xs[i + 2]); }
    var a, b, c := Bound(xs, s, i, w), Bound(xs, s, i + 1, w), Bound(xs, s, i + 2, w);
    GapCells(xs, s, y, i + 1, a, b);
    GapCells(xs, s, y, i + 2, b, c);
    assert LitCells(xs, s, y, b) + [] == LitCells(xs, s, y, b);
  }

  lemma OddTwo()
    ensures Odd(1) && !Odd(2) && !Odd(0)
  {
  }

  lemma BeforeFirst(xs: seq<real>, s: Scale, y: int, w: nat)
    requires 0.0 < s.sx && Sorted(xs)
    ensures LitCells(xs, s, y, Bound(xs, s, 0, w)) == []
  {
    GapCells(xs, s, y, 0, 0, Bound(xs, s, 0, w));
  }

  method FillStretch(y: int, xa: int, xb: int, cells0: seq<(int, int)>) returns (cells: seq<(int, int)>)
    ensures cells == cells0 + Stretch(y, xa, xb)
  {
    cells := cells0;
    var x := xa;
    while x < xb
      invariant x == xa || x <= xb
      invariant xa <= x && cells == cells0 + Stretch(y, xa, x)
    {
      cells := cells + [(y, x)];
      x := x + 1;
    }
  }

  method FillRow(xs: array<real>, n: nat, s: Scale, y: int, cols: int, cells0: seq<(int, int)>)
    returns (cells: seq<(int, int)>)
    requires n <= xs.Length && Sorted(xs[..n]) && !Odd(n) && 0.0 < s.sx
    ensures cells == cells0 + LitCells(xs[..n], s, y, cols)
  {
    hide Reach, Lit, LitCells;
    ghost var t := xs[..n];
    ghost var w: nat := if cols < 0 then 0 else cols;
    BeforeFirst(t, s, y, w);
    cells := cells0;
    assert cells0 + [] == cells0;
    var i := 0;
    while i + 1 < n
      invariant i <= n && !Odd(i)
      invariant cells == cells0 + LitCells(t, s, y, Bound(t, s, i, w))
      decreases n - i
    {
      var xa := Reach(s, xs[i]);
      var xb := Reach(s, xs[i + 1]);
      if xa < 0 { xa := 0; }
      if xb > cols { xb := cols; }
      PairCells(t, s, y, i, w);
      assert Stretch(y, xa, xb) == Stretch(y, Bound(t, s, i, w), Bound(t, s, i + 1, w));
      cells := FillStretch(y, xa, xb, cells);
      i := i + 2;
    }
    NoView(t, s, y, cols, w);
  }

  lemma NoView(xs: seq<real>, s: Scale, y: int, cols: int, w: nat)
    requires 0.0 < s.sx && w == if cols < 0 then 0 else cols
    ensures LitCells(xs, s, y, w) == LitCells(xs, s, y, cols)
  {
  }

  // ---------------------------------------------------------------- the whole grid

  /** The view: the antenna's cell, and the cell and data units in kilometres. */
  datatype View = View(cy: real, cx: real, kmPerRow: real, kmPerCol: real, unit: real)
  {
    predicate Valid() { 0.0 < kmPerRow && 0.0 < kmPerCol && 0.0 < unit }

    function RowY(y: int): real
      requires Valid()
    {
      (cy - y as real) * kmPerRow / unit
    }

    function ToScale(): (s: Scale)
      requires Valid()
      ensures 0.0 < s.sx
    {
      Scale(unit / kmPerCol, cx)
    }

    /** The centre of a cell in data units. */
    function Centre(y: int, x: int): Point
      requires Valid()
    {
      Point(CellX(ToScale(), x), RowY(y))
    }
  }

  /** The sorted crossing table of a row. */
  function RowTable(rings: seq<Ring>, v: View, y: int): seq<real>
    requires v.Valid()
  {
    InsertAll(FirstOf(Crossings(rings, |rings|, v.RowY(y))))
  }

  /** The cells of the first rows, row by row. */
  function Grid(rings: seq<Ring>, v: View, rows: int, cols: int): seq<(int, int)>
    requires v.Valid()
    decreases rows
  {
    if rows <= 0 then []
    else Grid(rings, v, rows - 1, cols) + LitCells(RowTable(rings, v, rows - 1), v.ToScale(), rows - 1, cols)
  }

  lemma TableSorted(rings: seq<Ring>, v: View, y: int)
    requires v.Valid()
    ensures Sorted(RowTable(rings, v, y)) && !Odd(|RowTable(rings, v, y)|)
  {
    hide Crossings, Sorted, InsertAll;
    var c := Crossings(rings, |rings|, v.RowY(y));
    InsertAllSorts(FirstOf(c), 0.0);
    CrossingsAreLand(rings, |rings|, Point(0.0, v.RowY(y)));
  }

  /** map_land, its callback's calls collected in order. */
  method MapLand(rings: seq<Ring>, rows: int, cols: int, v: View) returns (cells: seq<(int, int)>)
    requires v.Valid()
    ensures cells == Grid(rings, v, rows, cols)
  {
    hide LitCells, InsertAll, Crossings, Sorted, Odd;
    cells := [];
    var y := 0;
    while y < rows
      invariant y == 0 || y <= rows
      invariant 0 <= y && cells == Grid(rings, v, y, cols)
    {
      var xs := new real[MAX_CROSS];
      var n := CollectRow(rings, v.RowY(y), xs);
      TableSorted(rings, v, y);
      cells := FillRow(xs, n, v.ToScale(), y, cols, cells);
      y := y + 1;
    }
  }

  // ---------------------------------------------------------------- what the grid means

  lemma {:induction false} LitCellsExact(xs: seq<real>, s: Scale, y: int, cols: int, c: (int, int))
    requires 0.0 < s.sx
    ensures c in LitCells(xs, s, y, cols) <==> c.0 == y && 0 <= c.1 < cols && Lit(xs, s, c.1)
    decreases cols
  {
    hide Lit;
    if cols > 0 { LitCellsExact(xs, s, y, cols - 1, c); }
  }

  lemma {:induction false} GridExact(rings: seq<Ring>, v: View, rows: int, cols: int, c: (int, int))
    requires v.Valid()
    ensures c in Grid(rings, v, rows, cols)
       <==> 0 <= c.0 < rows && 0 <= c.1 < cols && Lit(RowTable(rings, v, c.0), v.ToScale(), c.1)
    decreases rows
  {
    hide Lit, LitCells, RowTable;
    if rows > 0 {
      GridExact(rings, v, rows - 1, cols, c);
      LitCellsExact(RowTable(rings, v, rows - 1), v.ToScale(), rows - 1, cols, c);
    }
  }

  /** Reading order: row by row, from left to right. */
  predicate Precedes(a: (int, int), b: (int, int)) {
    a.0 < b.0 || (a.0 == b.0 && a.1 < b.1)
  }

  ghost predicate InOrder(cells: seq<(int, int)>) {
    forall i, j :: 0 <= i < j < |cells| ==> Precedes(cells[i], cells[j])
  }

  lemma {:induction false} LitCellsOrder(xs: seq<real>, s: Scale, y: int, cols: int)
    requires 0.0 < s.sx
    ensures InOrder(LitCells(xs, s, y, cols))
    decreases cols
  {
    hide Lit;
    if cols > 0 {
      LitCellsOrder(xs, s, y, cols - 1);
      var r := LitCells(xs, s, y, cols - 1);
      forall i | 0 <= i < |r| ensures r[i].0 == y && r[i].1 < cols - 1 {
        assert r[i] in r;
        LitCellsExact(xs, s, y, cols - 1, r[i]);
      }
    }
  }

  /** No cell is drawn twice: the calls come in reading order. */
  lemma {:induction false} GridOrder(rings: seq<Ring>, v: View, rows: int, cols: int)
    requires v.Valid()
    ensures InOrder(Grid(rings, v, rows, cols))
    decreases rows
  {
    hide Lit, LitCells, RowTable;
    if rows > 0 {
      var g, r := Grid(rings, v, rows - 1, cols), LitCells(RowTable(rings, v, rows - 1), v.ToScale(), rows - 1, cols);
      GridOrder(rings, v, rows - 1, cols);
      LitCellsOrder(RowTable(rings, v, rows - 1), v.ToScale(), rows - 1, cols);
      forall i | 0 <= i < |g| ensures g[i].0 < rows - 1 { assert g[i] in g; GridExact(rings, v, rows - 1, cols, g[i]); }
      forall i | 0 <= i < |r| ensures r[i].0 == rows - 1 {
        assert r[i] in r;
        LitCellsExact(RowTable(rings, v, rows - 1), v.ToScale(), rows - 1, cols, r[i]);
      }
    }
  }

  /** The scanline agrees with the ray rule exactly when, of the crossings past the 128th that the table
      has no room for, an even number lie at or left of the cell. */
  lemma ScanlineExact(rings: seq<Ring>, v: View, rows: int, cols: int, y: int, x: int)
    requires v.Valid() && 0 <= y < rows && 0 <= x < cols
    ensures var all := Crossings(rings, |rings|, v.RowY(y));
      var dropped := if |all| <= MAX_CROSS then [] else all[MAX_CROSS..];
      ((y, x) in Grid(rings, v, rows, cols) <==> LandAt(rings, v.Centre(y, x)))
      <==> !Odd(CountLeft(dropped, v.Centre(y, x).x))
  {
    hide Grid, Crossings, CountLeft, InsertAll, LandAt, Odd, CellX;
    var all, q := Crossings(rings, |rings|, v.RowY(y)), v.Centre(y, x);
    var dropped := if |all| <= MAX_CROSS then [] else all[MAX_CROSS..];
    GridExact(rings, v, rows, cols, (y, x));
    InsertAllSorts(FirstOf(all), q.x);
    CrossingsAreLand(rings, |rings|, q);
    assert rings[..|rings|] == rings;
    CountConcat(FirstOf(all), dropped, q.x);
    assert FirstOf(all) + dropped == all;
    OddSum(CountLeft(FirstOf(all), q.x), CountLeft(dropped, q.x));
  }

  /** With at most 128 crossings in its row, a cell in view is drawn exactly when its centre is on land. */
  lemma ScanlineRefinesRay(rings: seq<Ring>, v: View, rows: int, cols: int, y: int, x: int)
    requires v.Valid() && 0 <= y < rows && 0 <= x < cols
    requires |Crossings(rings, |rings|, v.RowY(y))| <= MAX_CROSS
    ensures (y, x) in Grid(rings, v, rows, cols) <==> LandAt(rings, v.Centre(y, x))
  {
    hide Grid, Crossings, LandAt;
    ScanlineExact(rings, v, rows, cols, y, x);
    CountEmpty(v.Centre(y, x).x);
  }

  // ---------------------------------------------------------------- one ring too many

  /** A square one unit wide, across the row at 0. */
  function Square(k: nat): Ring {
    var x := 2.0 * k as real;
    [Point(x, -1.0), Point(x + 1.0, -1.0), Point(x + 1.0, 1.0), Point(x, 1.0)]
  }

  /** Squares side by side, a unit apart. */
  function Squares(n: nat): (rings: seq<Ring>)
    ensures |rings| == n && forall k :: 0 <= k < n ==> rings[k] == Square(k)
  {
    seq(n, k requires 0 <= k < n => Square(k))
  }

  lemma SquareCrossings(k: nat)
    ensures RingCrossings(Square(k), 4, 0.0) == [2.0 * k as real, 2.0 * k as real + 1.0]
  {
    var r, x := Square(k), 2.0 * k as real;
    assert EdgeCrossing(r, 0, 0.0) == [x];
    assert EdgeCrossing(r, 1, 0.0) == [];
    assert EdgeCrossing(r, 2, 0.0) == [x + 1.0];
    assert EdgeCrossing(r, 3, 0.0) == [];
    hide EdgeCrossing;
    assert RingCrossings(r, 1, 0.0) == [x];
    assert RingCrossings(r, 2, 0.0) == [x];
    assert RingCrossings(r, 3, 0.0) == [x, x + 1.0];
  }

  /** All crossings of the first m squares are among 0, 1, ... and at or left of any x beyond them. */
  lemma {:induction false} SquaresCrossings(n: nat, m: nat, x: real)
    requires m <= n && 2.0 * m as real - 1.0 <= x
    ensures var c := Crossings(Squares(n), m, 0.0); |c| == 2 * m && CountLeft(c, x) == 2 * m
  {
    hide RingCrossings, CountLeft;
    CountEmpty(x);
    if m > 0 {
      SquaresCrossings(n, m - 1, x);
      SquareCrossings(m - 1);
      var c, a := Crossings(Squares(n), m - 1, 0.0), 2.0 * (m - 1) as real;
      assert c + [a, a + 1.0] == (c + [a]) + [a + 1.0];
      CountAppend(c, a, x);
      CountAppend(c + [a], a + 1.0, x);
    }
  }

  /** The bound on a row's crossings is needed: of 65 squares across one row, the last is land that is not
      drawn. */
  lemma SixtyFifthIsNotDrawn(v: View, cols: int)
    requires v == View(0.0, 0.0, 1.0, 1.0, 1.0) && 129 <= cols
    ensures LandAt(Squares(65), v.Centre(0, 128)) && (0, 128) !in Grid(Squares(65), v, 1, cols)
  {
    hide Grid, Crossings, RingCrossings, CountLeft, LandAt, InsertAll, Lit, Odd, Square;
    var rings, q := Squares(65), v.Centre(0, 128);
    var all := Crossings(rings, 65, 0.0);
    AtTheSquare(v);
    SquaresCrossings(65, 64, 128.0);
    SquareCrossings(64);
    LastSquare(rings, all);
    LastCounts(all[..128], all);
    CrossingsAreLand(rings, 65, q);
    assert rings[..65] == rings;
    ScanlineExact(rings, v, 1, cols, 0, 128);
  }

  lemma AtTheSquare(v: View)
    requires v == View(0.0, 0.0, 1.0, 1.0, 1.0)
    ensures v.RowY(0) == 0.0 && v.Centre(0, 128) == Point(128.0, 0.0)
  {
  }

  lemma LastCounts(first: seq<real>, all: seq<real>)
    requires |first| == 128 && CountLeft(first, 128.0) == 128 && |all| == 130
    requires all[..128] == first && all[128..] == [128.0, 129.0]
    ensures Odd(CountLeft(all, 128.0)) && Odd(CountLeft(all[128..], 128.0))
  {
    hide CountLeft;
    CountEmpty(128.0);
    CountAppend([], 128.0, 128.0);
    CountAppend([128.0], 129.0, 128.0);
    assert [] + [128.0] == [128.0] && [128.0] + [129.0] == all[128..];
    CountConcat(first, all[128..], 128.0);
    assert first + all[128..] == all;
  }

  lemma LastSquare(rings: seq<Ring>, all: seq<real>)
    requires rings == Squares(65) && all == Crossings(rings, 65, 0.0)
    requires |Crossings(rings, 64, 0.0)| == 128 && RingCrossings(Square(64), 4, 0.0) == [128.0, 129.0]
    ensures |all| == 130 && all[..128] == Crossings(rings, 64, 0.0) && all[128..] == [128.0, 129.0]
  {
  }
}
