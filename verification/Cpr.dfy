/**
 * Compact Position Reporting: the global and relative decoders of main/cpr.c, the
 * encoder of RTCA DO-260B section A.1.7, and the proof that decoding inverts encoding.
 * Arithmetic is over exact reals.
 */
module Cpr {
  import opened Arithmetic

  /** The decoders' return code with its out-parameters: 0, -1 and -2. */
  datatype Result = Fix(lat: real, lon: real) | TryAgain | Impossible

  // ---------------------------------------------------------------- the decoders

  /** |latitude| bounds; below entry k the latitude has 59 - k longitude zones. */
  const NL_BOUNDS: seq<real> := [
    10.47047130, 14.82817437, 18.18626357, 21.02939493, 23.54504487, 25.82924707,
    27.93898710, 29.91135686, 31.77209708, 33.53993436, 35.22899598, 36.85025108,
    38.41241892, 39.92256684, 41.38651832, 42.80914012, 44.19454951, 45.54626723,
    46.86733252, 48.16039128, 49.42776439, 50.67150166, 51.89342469, 53.09516153,
    54.27817472, 55.44378444, 56.59318756, 57.72747354, 58.84763776, 59.95459277,
    61.04917774, 62.13216659, 63.20427479, 64.26616523, 65.31845310, 66.36171008,
    67.39646774, 68.42322022, 69.44242631, 70.45451075, 71.45986473, 72.45884545,
    73.45177442, 74.43893416, 75.42056257, 76.39684391, 77.36789461, 78.33374083,
    79.29428225, 80.24923213, 81.19801349, 82.13956981, 83.07199445, 83.99173563,
    84.89166191, 85.75541621, 86.53536998, 87.00000000]

  function ZonesFrom(a: real, k: nat): (n: int)
    requires k <= 58
    ensures 1 <= n <= 59 - k
    decreases 58 - k
  {
    if k == 58 then 1
    else if a < NL_BOUNDS[k] then 59 - k
    else ZonesFrom(a, k + 1)
  }

  function Nl(lat: real): (n: int)
    ensures 1 <= n <= 59
  {
    ZonesFrom(if lat < 0.0 then -lat else lat, 0)
  }

  function NZones(lat: real, odd: bool): (n: int)
    ensures 1 <= n <= 59
  {
    var n := Nl(lat) - (if odd then 1 else 0);
    if n < 1 then 1 else n
  }

  /** C's remainder keeps the dividend's sign; the decoder folds it into [0, b). */
  function ModInt(a: int, b: int): (r: int)
    requires 0 < b
    ensures r == a % b
  {
    var r := if a < 0 then -((-a) % b) else a % b;
    assert a < 0 ==> a == b * -((-a) / b) + r by { assert -a == b * ((-a) / b) + (-a) % b; }
    var m := if r < 0 then r + b else r;
    assert m == a % b by { if a < 0 { ModUnique(a, b, if r < 0 then -((-a) / b) - 1 else -((-a) / b), m); } }
    m
  }

  function Trunc(x: real): int {
    if x < 0.0 then -(-x).Floor else x.Floor
  }

  function ModDbl(a: real, b: real): (r: real)
    requires 0.0 < b
  {
    var r := a - b * Trunc(a / b) as real;
    if r < 0.0 then r + b else r
  }

  const Q: int := 131072

  /** Degrees covered by the position codes: a quarter turn on the surface. */
  function Span(surface: bool): (d: real)
    ensures 90.0 <= d <= 360.0
  {
    if surface then 90.0 else 360.0
  }

  function Dlon(lat: real, odd: bool, surface: bool): real {
    Span(surface) / NZones(lat, odd) as real
  }

  function LonIndex(evenLon: int, oddLon: int, nl: int): int {
    ((evenLon * (nl - 1) - oddLon * nl) as real / 131072.0 + 0.5).Floor
  }

  function DecodeLon(lat: real, evenLon: int, oddLon: int, oddLatest: bool, surface: bool): real {
    var m := LonIndex(evenLon, oddLon, Nl(lat));
    var raw := if oddLatest then oddLon else evenLon;
    Dlon(lat, oddLatest, surface) * (ModInt(m, NZones(lat, oddLatest)) as real + raw as real / 131072.0)
  }

  function LatIndex(evenLat: int, oddLat: int): int {
    ((59 * evenLat - 60 * oddLat) as real / 131072.0 + 0.5).Floor
  }

  predicate InLatRange(x: real) {
    -90.0 <= x <= 90.0
  }

  /** Longitude brought into [-180, 180). */
  function Wrap180(x: real): real {
    x - ((x + 180.0) / 360.0).Floor as real * 360.0
  }

  function DecodeAirborne(evenLat: int, evenLon: int, oddLat: int, oddLon: int, oddLatest: bool): Result {
    var j := LatIndex(evenLat, oddLat);
    var r0 := 360.0 / 60.0 * (ModInt(j, 60) as real + evenLat as real / 131072.0);
    var r1 := 360.0 / 59.0 * (ModInt(j, 59) as real + oddLat as real / 131072.0);
    var rlat0 := if r0 >= 270.0 then r0 - 360.0 else r0;
    var rlat1 := if r1 >= 270.0 then r1 - 360.0 else r1;
    if !InLatRange(rlat0) || !InLatRange(rlat1) then Impossible
    else if Nl(rlat0) != Nl(rlat1) then TryAgain
    else
      var rlat := if oddLatest then rlat1 else rlat0;
      Fix(rlat, Wrap180(DecodeLon(rlat, evenLon, oddLon, oddLatest, false)))
  }

  function SurfaceLatQuadrant(rlat: real, reflat: real): real {
    if rlat == 0.0 then
      if reflat < -45.0 then -90.0 else if reflat > 45.0 then 90.0 else 0.0
    else if rlat - reflat > 45.0 then rlat - 90.0 else rlat
  }

  function DecodeSurface(reflat: real, reflon: real, evenLat: int, evenLon: int, oddLat: int, oddLon: int,
                         oddLatest: bool): Result
  {
    var j := LatIndex(evenLat, oddLat);
    var rlat0 := SurfaceLatQuadrant(90.0 / 60.0 * (ModInt(j, 60) as real + evenLat as real / 131072.0), reflat);
    var rlat1 := SurfaceLatQuadrant(90.0 / 59.0 * (ModInt(j, 59) as real + oddLat as real / 131072.0), reflat);
    if !InLatRange(rlat0) || !InLatRange(rlat1) then Impossible
    else if Nl(rlat0) != Nl(rlat1) then TryAgain
    else
      var rlat := if oddLatest then rlat1 else rlat0;
      var rlon := DecodeLon(rlat, evenLon, oddLon, oddLatest, true);
      Fix(rlat, Wrap180(rlon + ((reflon - rlon + 45.0) / 90.0).Floor as real * 90.0))
  }

  function Abs(x: real): real {
    if x < 0.0 then -x else x
  }

  /** The cell index of the relative decoder: the fraction placed nearest the reference. */
  function NearestIndex(ref: real, cell: real, frac: real): int
    requires 0.0 < cell
  {
    (ref / cell).Floor + (0.5 + ModDbl(ref, cell) / cell - frac).Floor
  }

  /** The point with this fraction of a cell that lies nearest the reference. */
  function Nearest(ref: real, cell: real, frac: real): real
    requires 0.0 < cell
  {
    cell * (NearestIndex(ref, cell, frac) as real + frac)
  }

  function RelDlat(odd: bool, surface: bool): (d: real)
    ensures 1.5 <= d <= 6.2
  {
    Span(surface) / (if odd then 59.0 else 60.0)
  }

  function DecodeRelative(reflat: real, reflon: real, cprLat: int, cprLon: int, odd: bool, surface: bool): Result {
    var flat := cprLat as real / 131072.0;
    var flon := cprLon as real / 131072.0;
    var dlat := RelDlat(odd, surface);
    var r := Nearest(reflat, dlat, flat);
    var rlat := if r >= 270.0 then r - 360.0 else r;
    if !InLatRange(rlat) then TryAgain
    else if Abs(rlat - reflat) > dlat / 2.0 then TryAgain
    else
      var dl := Dlon(rlat, odd, surface);
      assert 0.0 < dl by { DlonPositive(rlat, odd, surface); }
      var l := Nearest(reflon, dl, flon);
      var rlon := if l > 180.0 then l - 360.0 else l;
      if Abs(rlon - reflon) > dl / 2.0 then TryAgain else Fix(rlat, rlon)
  }

  // ---------------------------------------------------------------- the encoder (specification)

  /** MOD of section A.1.7: the remainder with the sign of the divisor. */
  function Mod(x: real, y: real): real
    requires 0.0 < y
  {
    x - y * (x / y).Floor as real
  }

  /** Bins per cell: 2^17 airborne, 2^19 on the surface. */
  function Bins(surface: bool): int {
    if surface then 524288 else 131072
  }

  function Bin(x: real, cell: real, surface: bool): int
    requires 0.0 < cell
  {
    (Bins(surface) as real * Mod(x, cell) / cell + 0.5).Floor
  }

  /** The point of the grid the encoder names: YZ and the zone index give Rlat. */
  function GridPoint(x: real, cell: real, surface: bool): real
    requires 0.0 < cell
  {
    cell * (Bin(x, cell, surface) as real / Bins(surface) as real + (x / cell).Floor as real)
  }

  function EncDlat(odd: bool): (d: real)
    ensures 6.0 <= d <= 6.2
  {
    if odd then 360.0 / 59.0 else 360.0 / 60.0
  }

  function EncRlat(lat: real, odd: bool, surface: bool): real {
    GridPoint(lat, EncDlat(odd), surface)
  }

  function EncDlon(lat: real, odd: bool, surface: bool): (d: real)
    ensures 0.0 < d
  {
    360.0 / NZones(EncRlat(lat, odd, surface), odd) as real
  }

  function EncRlon(lat: real, lon: real, odd: bool, surface: bool): real {
    GridPoint(lon, EncDlon(lat, odd, surface), surface)
  }

  function EncodeLat(lat: real, odd: bool, surface: bool): int {
    Bin(lat, EncDlat(odd), surface) % Q
  }

  function EncodeLon(lat: real, lon: real, odd: bool, surface: bool): int {
    Bin(lon, EncDlon(lat, odd, surface), surface) % Q
  }

  // ---------------------------------------------------------------- arithmetic

  lemma FloorShift(x: real, k: int)
    ensures (x + k as real).Floor == x.Floor + k
  {
  }

  lemma FloorUnique(x: real, k: int)
    requires k as real <= x < k as real + 1.0
    ensures x.Floor == k
  {
  }

  lemma MulAbs(x: real, c: real, n: real) returns (p: real)
    requires -c <= x <= c && 0.0 <= n
    ensures p == x * n && p <= c * n && 0.0 <= p + c * n
  {
    p := x * n;
    assert 0.0 <= (c - x) * n;
    assert 0.0 <= (c + x) * n;
  }

  lemma DivMul(x: real, y: real)
    requires y != 0.0
    ensures x / y * y == x
  {
  }

  lemma DivUnique(x: real, y: real, z: real)
    requires y != 0.0 && x == z * y
    ensures x / y == z
  {
  }

  // ---------------------------------------------------------------- the lattice

  /** The rounding of x to the 17-bit lattice of a span of n cells. */
  function Lattice(x: real, span: real, n: int): int
    requires span != 0.0
  {
    (x * n as real * 131072.0 / span + 0.5).Floor
  }

  function Point(i: int, span: real, n: int): real
    requires 0 < n
  {
    span / n as real * (i as real / 131072.0)
  }

  lemma LatticeNear(x: real, span: real, n: int)
    requires span == 90.0 || span == 360.0
    requires 0 < n
    ensures Abs(Point(Lattice(x, span, n), span, n) - x) <= span / n as real / 262144.0
  {
    var i := Lattice(x, span, n);
    var d := span / n as real;
    DivMul(span, n as real);
    var u := x * n as real;
    assert -0.5 <= i as real - u * 131072.0 / span <= 0.5;
    var e := i as real / 131072.0 - u / span;
    assert -1.0 / 262144.0 <= e <= 1.0 / 262144.0;
    assert x == d * (u / span) by {
      assert d * (u / span) == d * n as real * x / span;
    }
    assert d * e == d * (i as real / 131072.0) - d * (u / span);
    var p := MulAbs(e, 1.0 / 262144.0, d);
  }

  lemma BinRatio(x: real, cell: real, bins: real)
    requires 0.0 < cell
    ensures bins * Mod(x, cell) / cell == bins * (x / cell) - bins * (x / cell).Floor as real
  {
    var v := x / cell - (x / cell).Floor as real;
    assert Mod(x, cell) == v * cell by { DivMul(x, cell); }
    DivUnique(bins * Mod(x, cell), cell, bins * v);
  }

  lemma CellOf(x: real, n: int)
    requires 0 < n
    ensures 0.0 < 360.0 / n as real
    ensures x / (360.0 / n as real) == x * n as real / 360.0
  {
    var cell := 360.0 / n as real;
    DivMul(360.0, n as real);
    assert x * n as real / 360.0 * cell == x * (n as real * cell) / 360.0;
    DivUnique(x, cell, x * n as real / 360.0);
  }

  lemma BinIsLattice(x: real, n: int, surface: bool)
    requires 0 < n
    ensures 0.0 < 360.0 / n as real
    ensures Bin(x, 360.0 / n as real, surface)
         == Lattice(x, Span(surface), n) - Bins(surface) * (x / (360.0 / n as real)).Floor
  {
    CellOf(x, n);
    var cell := 360.0 / n as real;
    var f := (x / cell).Floor;
    BinRatio(x, cell, Bins(surface) as real);
    var u := x * n as real;
    FloorShift(u * 131072.0 / Span(surface) + 0.5, -(Bins(surface) * f));
  }

  lemma PointScale(i: int, n: int, surface: bool)
    requires 0 < n
    ensures 360.0 / n as real * (i as real / Bins(surface) as real) == Point(i, Span(surface), n)
  {
    DivMul(90.0, n as real);
    DivUnique(360.0, n as real, 4.0 * (90.0 / n as real));
  }

  /** The encoder's bin and zone index are the lattice rounding, and its grid point the lattice point. */
  lemma GridIsLattice(x: real, n: int, surface: bool)
    requires 0 < n
    ensures 0.0 < 360.0 / n as real
    ensures Bin(x, 360.0 / n as real, surface) % Q == Lattice(x, Span(surface), n) % Q
    ensures GridPoint(x, 360.0 / n as real, surface) == Point(Lattice(x, Span(surface), n), Span(surface), n)
  {
    BinIsLattice(x, n, surface);
    var i := Lattice(x, Span(surface), n);
    var b := Bin(x, 360.0 / n as real, surface);
    var f := (x / (360.0 / n as real)).Floor;
    var k := if surface then 4 * f else f;
    ModUnique(b, Q, i / Q - k, i % Q);
    assert b as real / Bins(surface) as real + f as real == i as real / Bins(surface) as real;
    PointScale(i, n, surface);
  }

  /** A cell count k congruent to the lattice point's own, turned into degrees. */
  lemma CellValue(span: real, n: int, k: int, i: int, s: int)
    requires 0 < n && k == i / Q + n * s
    ensures span / n as real * (k as real + (i % Q) as real / 131072.0) == Point(i, span, n) + span * s as real
  {
    var d := span / n as real;
    DivMul(span, n as real);
    assert i as real / 131072.0 == (i / Q) as real + (i % Q) as real / 131072.0;
    assert (n * s) as real == n as real * s as real;
    assert d * (n as real * s as real) == span * s as real;
    var a := i as real / 131072.0;
    assert d * (a + n as real * s as real) == d * a + d * (n as real * s as real);
  }

  // ---------------------------------------------------------------- latitude

  /** A pair of lattice latitudes less than half a zone apart fixes both zone indices. */
  lemma ZoneIndices(ie: int, io: int)
    requires -65536 <= 59 * ie - 60 * io < 65536
    ensures var j := LatIndex(ie % Q, io % Q);
      j % 60 == (ie / Q) % 60 && j % 59 == (io / Q) % 59
  {
    var ke, ko := ie / Q, io / Q;
    var j := 60 * ko - 59 * ke;
    assert 59 * (ie % Q) - 60 * (io % Q) == 59 * ie - 60 * io + Q * j;
    FloorUnique((59 * (ie % Q) - 60 * (io % Q)) as real / 131072.0 + 0.5, j);
    ModShift(ke, 60, ko - ke);
    ModShift(ko, 59, ko - ke);
  }

  function LatZones(odd: bool): int {
    if odd then 59 else 60
  }

  lemma LatticeInRange(lat: real, odd: bool, surface: bool)
    requires InLatRange(lat)
    ensures var i := Lattice(lat, Span(surface), LatZones(odd)); var p := Point(i, Span(surface), LatZones(odd));
      InLatRange(p) && (surface ==> -LatZones(odd) * Q <= i <= LatZones(odd) * Q)
  {
  }

  /** Two latitudes within a hundred-and-twentieth of a zone's span satisfy ZoneIndices. */
  lemma LatPairClose(latE: real, latO: real, surface: bool)
    requires Abs(latE - latO) <= (if surface then 0.0125 else 0.05)
    ensures -65536 <= 59 * Lattice(latE, Span(surface), 60) - 60 * Lattice(latO, Span(surface), 59) < 65536
  {
    var x := 59.0 * (latE * 60.0 * 131072.0 / Span(surface)) - 60.0 * (latO * 59.0 * 131072.0 / Span(surface));
    assert x == (latE - latO) * 60.0 * 59.0 * 131072.0 / Span(surface);
    assert -65000.0 <= x <= 65000.0;
  }

  lemma AirborneLat(i: int, j: int, odd: bool)
    requires InLatRange(Point(i, 360.0, LatZones(odd)))
    requires j % LatZones(odd) == (i / Q) % LatZones(odd)
    ensures var d := if odd then 360.0 / 59.0 else 360.0 / 60.0;
      var r := d * (ModInt(j, LatZones(odd)) as real + (i % Q) as real / 131072.0);
      (if r >= 270.0 then r - 360.0 else r) == Point(i, 360.0, LatZones(odd))
  {
    var n := LatZones(odd);
    var s := if i < 0 then 1 else 0;
    assert -15 * Q <= i <= 15 * Q;
    ModUnique(i / Q, n, -s, i / Q + n * s);
    CellValue(360.0, n, i / Q + n * s, i, s);
  }

  /** A latitude known to 90 degrees is settled by any reference within 45 degrees of it. */
  lemma SurfaceLat(i: int, j: int, odd: bool, reflat: real)
    requires InLatRange(Point(i, 90.0, LatZones(odd)))
    requires j % LatZones(odd) == (i / Q) % LatZones(odd)
    requires Abs(Point(i, 90.0, LatZones(odd)) - reflat) < 45.0
    ensures var d := if odd then 90.0 / 59.0 else 90.0 / 60.0;
      SurfaceLatQuadrant(d * (ModInt(j, LatZones(odd)) as real + (i % Q) as real / 131072.0), reflat)
      == Point(i, 90.0, LatZones(odd))
  {
    var n := LatZones(odd);
    var s := if i < 0 then 1 else if i == n * Q then -1 else 0;
    assert -n * Q <= i <= n * Q;
    ModUnique(i / Q, n, -s, i / Q + n * s);
    CellValue(90.0, n, i / Q + n * s, i, s);
  }

  // ---------------------------------------------------------------- longitude

  lemma FloorSum(xe: int, xo: int, e: int, o: int, n: int, w: int)
    requires xe == e % Q && xo == o % Q
    requires -65536 <= e * (n - 1) - o * n - Q * w < 65536
    ensures ((xe * (n - 1) - xo * n) as real / 131072.0 + 0.5).Floor == n * (o / Q) - (n - 1) * (e / Q) + w
  {
    var m := n * (o / Q) - (n - 1) * (e / Q) + w;
    assert e * (n - 1) == Q * ((n - 1) * (e / Q)) + xe * (n - 1) by { assert e == Q * (e / Q) + xe; }
    assert o * n == Q * (n * (o / Q)) + xo * n by { assert o == Q * (o / Q) + xo; }
    var v := xe * (n - 1) - xo * n;
    assert -65536 <= v - Q * m < 65536;
    FloorUnique(v as real / 131072.0 + 0.5, m);
  }

  lemma LatticeError(x: real, span: real, n: int)
    requires span == 90.0 || span == 360.0
    ensures -0.5 <= Lattice(x, span, n) as real - x * n as real * (131072.0 / span) <= 0.5
  {
    var u := x * n as real;
    assert u * 131072.0 / span == u * (131072.0 / span);
  }

  lemma LonAlgebra(le: real, lo: real, n: real, e: real, o: real, f: real, re: real, ro: real)
    requires e == le * n * f + re && o == lo * (n - 1.0) * f + ro
    ensures e * (n - 1.0) - o * n == re * (n - 1.0) - ro * n + (le - lo) * (n * (n - 1.0) * f)
  {
    assert e * (n - 1.0) == le * (n * (n - 1.0) * f) + re * (n - 1.0);
    assert o * n == lo * (n * (n - 1.0) * f) + ro * n;
  }

  lemma ErrorBound(re: real, ro: real, n: real) returns (r: real)
    requires 2.0 <= n <= 59.0 && -0.5 <= re <= 0.5 && -0.5 <= ro <= 0.5
    ensures r == re * (n - 1.0) - ro * n && r <= 60.0 && -60.0 <= r
  {
    var a := MulAbs(re, 0.5, n - 1.0);
    var b := MulAbs(ro, 0.5, n);
    r := a - b;
  }

  /** Rounding moves the zone difference by less than sixty lattice steps. */
  lemma RoundingBound(le: real, lo: real, n: real, e: real, o: real, f: real) returns (z: real, p: real)
    requires 2.0 <= n <= 59.0
    requires -0.5 <= e - le * n * f <= 0.5
    requires -0.5 <= o - lo * (n - 1.0) * f <= 0.5
    ensures -60.0 <= z - p <= 60.0
    ensures z == e * (n - 1.0) - o * n && p == (le - lo) * (n * (n - 1.0) * f)
  {
    var re, ro := e - le * n * f, o - lo * (n - 1.0) * f;
    LonAlgebra(le, lo, n, e, o, f, re, ro);
    var r := ErrorBound(re, ro, n);
    z, p := e * (n - 1.0) - o * n, (le - lo) * (n * (n - 1.0) * f);
  }

  lemma IntProducts(e: int, o: int, n: int)
    ensures (e * (n - 1) - o * n) as real == e as real * (n as real - 1.0) - o as real * n as real
    ensures (n * (n - 1)) as real == n as real * (n as real - 1.0)
  {
  }

  lemma LatticePair(le: real, lo: real, n: int, span: real, e: int, o: int) returns (p: real)
    requires 2 <= n <= 59 && (span == 90.0 || span == 360.0)
    requires e == Lattice(le, span, n) && o == Lattice(lo, span, n - 1)
    ensures -60.0 <= (e * (n - 1) - o * n) as real - p <= 60.0
    ensures p == (le - lo) * ((n * (n - 1)) as real * (131072.0 / span))
  {
    hide Lattice;
    LatticeError(le, span, n);
    LatticeError(lo, span, n - 1);
    IntProducts(e, o, n);
    var y;
    y, p := RoundingBound(le, lo, n as real, e as real, o as real, 131072.0 / span);
  }

  /** Longitudes close modulo 360 are, over k = n (n - 1) zones, close modulo whole zones. */
  lemma SpreadBound(delta: real, t: int, k: int, p: real, surface: bool)
    requires 0 <= k <= 3422 && p == delta * (k as real * (131072.0 / Span(surface)))
    requires Abs(delta - 360.0 * t as real) <= (if surface then 0.0125 else 0.05)
    ensures -65000.0 <= p - 131072.0 * ((if surface then 4 else 1) * (t * k)) as real <= 65000.0
  {
    var d, g := delta - 360.0 * t as real, k as real * (131072.0 / Span(surface));
    var r := MulAbs(d, if surface then 0.0125 else 0.05, g);
    assert delta * g == d * g + 360.0 * t as real * g;
    assert t as real * k as real == (t * k) as real;
  }

  lemma ZonePairs(n: int)
    requires 2 <= n <= 59
    ensures 0 <= n * (n - 1) <= 3422
  {
    assert 0 <= (59 - n) * (n - 1) && 0 <= 59 * (59 - n);
  }

  lemma RoundedSpread(z: int, p: real, w: int)
    requires -60.0 <= z as real - p <= 60.0
    requires -65000.0 <= p - 131072.0 * w as real <= 65000.0
    ensures -65536 <= z - Q * w < 65536
  {
  }

  /** Longitudes of one NL band, close modulo 360, lie less than half a zone apart modulo whole zones. */
  lemma LonPairClose(lonE: real, lonO: real, t: int, n: int, surface: bool, e: int, o: int)
    requires 2 <= n <= 59
    requires Abs(lonE - lonO - 360.0 * t as real) <= (if surface then 0.0125 else 0.05)
    requires e == Lattice(lonE, Span(surface), n) && o == Lattice(lonO, Span(surface), n - 1)
    ensures -65536 <= e * (n - 1) - o * n - Q * ((if surface then 4 else 1) * (t * (n * (n - 1)))) < 65536
  {
    hide Lattice, Abs;
    var p := LatticePair(lonE, lonO, n, Span(surface), e, o);
    ZonePairs(n);
    var k := n * (n - 1);
    SpreadBound(lonE - lonO, t, k, p, surface);
    RoundedSpread(e * (n - 1) - o * n, p, (if surface then 4 else 1) * (t * k));
  }

  lemma IndexMods(m: int, a: int, b: int, c: int, n: int)
    requires 2 <= n
    requires m == n * a - (n - 1) * b + c * (n * (n - 1))
    ensures m % n == b % n && m % (n - 1) == a % (n - 1)
  {
    assert m == b + n * (a - b + c * (n - 1));
    ModShift(b, n, a - b + c * (n - 1));
    assert m == a + (n - 1) * (a - b + c * n);
    ModShift(a, n - 1, a - b + c * n);
  }

  lemma LonIndices(lonE: real, lonO: real, t: int, n: int, surface: bool)
    requires 2 <= n <= 59
    requires Abs(lonE - lonO - 360.0 * t as real) <= (if surface then 0.0125 else 0.05)
    ensures var e, o := Lattice(lonE, Span(surface), n), Lattice(lonO, Span(surface), n - 1);
      var m := LonIndex(e % Q, o % Q, n);
      m % n == (e / Q) % n && m % (n - 1) == (o / Q) % (n - 1)
  {
    hide Lattice, Abs, LonIndex;
    var e, o := Lattice(lonE, Span(surface), n), Lattice(lonO, Span(surface), n - 1);
    LonPairClose(lonE, lonO, t, n, surface, e, o);
    var c := (if surface then 4 else 1) * t;
    assert (if surface then 4 else 1) * (t * (n * (n - 1))) == c * (n * (n - 1));
    IndicesFrom(e, o, n, c);
  }

  lemma IndicesFrom(e: int, o: int, n: int, c: int)
    requires 2 <= n
    requires -65536 <= e * (n - 1) - o * n - Q * (c * (n * (n - 1))) < 65536
    ensures var m := LonIndex(e % Q, o % Q, n);
      m % n == (e / Q) % n && m % (n - 1) == (o / Q) % (n - 1)
  {
    FloorSum(e % Q, o % Q, e, o, n, c * (n * (n - 1)));
    IndexMods(LonIndex(e % Q, o % Q, n), o / Q, e / Q, c, n);
  }

  lemma LonCore(lonE: real, lonO: real, t: int, n: int, no: int, odd: bool, surface: bool, e: int, o: int, ni: int)
    returns (s: int)
    requires 1 <= n <= 59 && no == (if n == 1 then 1 else n - 1) && ni == (if odd then no else n)
    requires Abs(lonE - lonO - 360.0 * t as real) <= (if surface then 0.0125 else 0.05)
    requires e == Lattice(lonE, Span(surface), n) && o == Lattice(lonO, Span(surface), no)
    ensures Span(surface) / ni as real
            * (ModInt(LonIndex(e % Q, o % Q, n), ni) as real + (if odd then o % Q else e % Q) as real / 131072.0)
         == Point(if odd then o else e, Span(surface), ni) + Span(surface) * s as real
  {
    hide ModInt, LonIndex, Lattice, Point;
    if n >= 2 { LonIndices(lonE, lonO, t, n, surface); }
    s := LonValue(LonIndex(e % Q, o % Q, n), if odd then o else e, Span(surface), ni);
  }

  /** The longitude decoder returns the chosen frame's lattice longitude, up to whole spans. */
  lemma LonRecovered(lat: real, lonE: real, lonO: real, t: int, odd: bool, surface: bool, e: int, o: int)
    returns (s: int)
    requires Abs(lonE - lonO - 360.0 * t as real) <= (if surface then 0.0125 else 0.05)
    requires e == Lattice(lonE, Span(surface), NZones(lat, false))
    requires o == Lattice(lonO, Span(surface), NZones(lat, true))
    ensures DecodeLon(lat, e % Q, o % Q, odd, surface)
         == Point(if odd then o else e, Span(surface), NZones(lat, odd)) + Span(surface) * s as real
  {
    hide ModInt, LonIndex, Lattice, Point, Span, Nl;
    var n, no, ni := Nl(lat), NZones(lat, true), NZones(lat, odd);
    assert NZones(lat, false) == n;
    s := LonCore(lonE, lonO, t, n, no, odd, surface, e, o, ni);
    assert DecodeLon(lat, e % Q, o % Q, odd, surface) == Span(surface) / ni as real
            * (ModInt(LonIndex(e % Q, o % Q, n), ni) as real + (if odd then o % Q else e % Q) as real / 131072.0);
  }

  lemma LonValue(m: int, i: int, span: real, ni: int) returns (s: int)
    requires 0 < ni && m % ni == (i / Q) % ni
    ensures span / ni as real * (ModInt(m, ni) as real + (i % Q) as real / 131072.0)
         == Point(i, span, ni) + span * s as real
  {
    s := -(i / Q / ni);
    CellValue(span, ni, m % ni, i, s);
  }

  lemma Wrap180Turns(x: real, s: int)
    ensures Wrap180(x + 360.0 * s as real) == Wrap180(x)
    ensures -180.0 <= Wrap180(x) < 180.0
  {
    FloorShift((x + 180.0) / 360.0, s);
    assert (x + 360.0 * s as real + 180.0) / 360.0 == (x + 180.0) / 360.0 + s as real;
  }

  /** Rounding to quarter turns towards the reference finds the one value within 45 degrees of it. */
  lemma QuarterTurns(x: real, s: int, ref: real)
    requires Abs(x - ref) < 45.0
    ensures var y := x + 90.0 * s as real; y + ((ref - y + 45.0) / 90.0).Floor as real * 90.0 == x
  {
    var y := x + 90.0 * s as real;
    FloorUnique((ref - y + 45.0) / 90.0, -s);
  }

  // ---------------------------------------------------------------- the encoder, on the lattice

  lemma EncodedLat(lat: real, odd: bool, surface: bool)
    ensures var i := Lattice(lat, Span(surface), LatZones(odd));
      EncodeLat(lat, odd, surface) == i % Q && EncRlat(lat, odd, surface) == Point(i, Span(surface), LatZones(odd))
  {
    GridIsLattice(lat, LatZones(odd), surface);
  }

  lemma EncodedLon(lat: real, lon: real, odd: bool, surface: bool)
    ensures var n := NZones(EncRlat(lat, odd, surface), odd);
      var i := Lattice(lon, Span(surface), n);
      EncodeLon(lat, lon, odd, surface) == i % Q && EncRlon(lat, lon, odd, surface) == Point(i, Span(surface), n)
  {
    hide NZones, EncRlat;
    GridIsLattice(lon, NZones(EncRlat(lat, odd, surface), odd), surface);
  }

  lemma LatAccuracy(lat: real, odd: bool, surface: bool)
    ensures Abs(EncRlat(lat, odd, surface) - lat) <= EncDlat(odd) / (if surface then 1048576.0 else 262144.0)
  {
    hide EncRlat, Lattice, Point, EncodeLat;
    EncodedLat(lat, odd, surface);
    LatticeNear(lat, Span(surface), LatZones(odd));
  }

  lemma QuarterCell(n: int)
    requires 0 < n
    ensures 90.0 / n as real == 360.0 / n as real / 4.0
  {
    DivMul(90.0, n as real);
    DivUnique(360.0, n as real, 4.0 * (90.0 / n as real));
  }

  lemma LonAccuracy(lat: real, lon: real, odd: bool, surface: bool)
    ensures Abs(EncRlon(lat, lon, odd, surface) - lon)
         <= EncDlon(lat, odd, surface) / (if surface then 1048576.0 else 262144.0)
  {
    hide EncRlat, EncRlon, Lattice, Point, EncodeLon, NZones;
    EncodedLon(lat, lon, odd, surface);
    var n := NZones(EncRlat(lat, odd, surface), odd);
    LatticeNear(lon, Span(surface), n);
    QuarterCell(n);
  }

  // ---------------------------------------------------------------- main results

  /** The angle between two longitudes. */
  function LonDistance(a: real, b: real): real {
    Abs(Wrap180(a - b))
  }

  /** A fix at a position, to within half a quantum of the frame it came from. */
  ghost predicate Recovers(r: Result, lat: real, lon: real, odd: bool, surface: bool) {
    && r.Fix?
    && Abs(r.lat - lat) <= EncDlat(odd) / (if surface then 1048576.0 else 262144.0)
    && LonDistance(r.lon, lon) <= EncDlon(lat, odd, surface) / (if surface then 1048576.0 else 262144.0)
    && InLatRange(r.lat) && -180.0 <= r.lon < 180.0
    && r.lat == EncRlat(lat, odd, surface)
    && r.lon == Wrap180(EncRlon(lat, lon, odd, surface))
  }

  lemma LatticeFixRecovers(lat: real, lon: real, odd: bool, surface: bool)
    requires InLatRange(lat)
    ensures Recovers(Fix(EncRlat(lat, odd, surface), Wrap180(EncRlon(lat, lon, odd, surface))), lat, lon, odd, surface)
  {
    var x := EncRlon(lat, lon, odd, surface);
    LatAccuracy(lat, odd, surface);
    LonAccuracy(lat, lon, odd, surface);
    EncodedLat(lat, odd, surface);
    LatticeInRange(lat, odd, surface);
    Wrap180Turns(x, 0);
    var s := -((x + 180.0) / 360.0).Floor;
    Wrap180Turns(x - lon, s);
    assert EncDlon(lat, odd, surface) <= 360.0 by { DlonBound(NZones(EncRlat(lat, odd, surface), odd)); }
    FloorUnique((x - lon + 180.0) / 360.0, 0);
    assert Wrap180(Wrap180(x) - lon) == x - lon;
  }

  lemma DlonBound(n: int)
    requires 1 <= n
    ensures 360.0 / n as real <= 360.0
  {
    DivMul(360.0, n as real);
    assert 360.0 / n as real * (n as real - 1.0) >= 0.0;
  }

  /** The even and odd latitudes an airborne pair decodes to. */
  lemma AirborneLats(latE: real, latO: real)
    requires InLatRange(latE) && InLatRange(latO) && Abs(latE - latO) <= 0.05
    ensures var xe, xo := EncodeLat(latE, false, false), EncodeLat(latO, true, false);
      var r0 := 360.0 / 60.0 * (ModInt(LatIndex(xe, xo), 60) as real + xe as real / 131072.0);
      var r1 := 360.0 / 59.0 * (ModInt(LatIndex(xe, xo), 59) as real + xo as real / 131072.0);
      && (if r0 >= 270.0 then r0 - 360.0 else r0) == EncRlat(latE, false, false)
      && (if r1 >= 270.0 then r1 - 360.0 else r1) == EncRlat(latO, true, false)
      && InLatRange(EncRlat(latE, false, false)) && InLatRange(EncRlat(latO, true, false))
  {
    hide ModInt, LatIndex, Lattice, Point, EncRlat, EncodeLat;
    EncodedLat(latE, false, false);
    EncodedLat(latO, true, false);
    LatticeInRange(latE, false, false);
    LatticeInRange(latO, true, false);
    LatPairClose(latE, latO, false);
    var e, o := Lattice(latE, 360.0, 60), Lattice(latO, 360.0, 59);
    ZoneIndices(e, o);
    AirborneLat(e, LatIndex(e % Q, o % Q), false);
    AirborneLat(o, LatIndex(e % Q, o % Q), true);
  }

  /** The longitude of a pair whose grid latitudes share an NL band. */
  lemma PairLon(latE: real, lonE: real, latO: real, lonO: real, t: int, odd: bool, surface: bool) returns (s: int)
    requires Abs(lonE - lonO - 360.0 * t as real) <= (if surface then 0.0125 else 0.05)
    requires Nl(EncRlat(latE, false, surface)) == Nl(EncRlat(latO, true, surface))
    ensures DecodeLon(EncRlat(if odd then latO else latE, odd, surface),
                      EncodeLon(latE, lonE, false, surface), EncodeLon(latO, lonO, true, surface), odd, surface)
         == EncRlon(if odd then latO else latE, if odd then lonO else lonE, odd, surface) + Span(surface) * s as real
  {
    hide Lattice, Point, EncRlat, EncRlon, EncodeLon, DecodeLon, Nl, Span;
    var lat := EncRlat(if odd then latO else latE, odd, surface);
    EncodedLon(latE, lonE, false, surface);
    EncodedLon(latO, lonO, true, surface);
    assert NZones(lat, false) == NZones(EncRlat(latE, false, surface), false);
    assert NZones(lat, true) == NZones(EncRlat(latO, true, surface), true);
    s := LonRecovered(lat, lonE, lonO, t, odd, surface,
                      Lattice(lonE, Span(surface), NZones(lat, false)), Lattice(lonO, Span(surface), NZones(lat, true)));
  }

  /** Airborne global decoding inverts encoding. For true positions within 0.05 degrees of each
      other, longitudes taken modulo 360, it never reports impossible data, it succeeds exactly
      when the two grid latitudes share an NL band, and it then returns the newer position. */
  lemma AirborneRecovers(latE: real, lonE: real, latO: real, lonO: real, t: int, odd: bool)
    requires InLatRange(latE) && InLatRange(latO)
    requires Abs(latE - latO) <= 0.05 && Abs(lonE - lonO - 360.0 * t as real) <= 0.05
    ensures var r := DecodeAirborne(EncodeLat(latE, false, false), EncodeLon(latE, lonE, false, false),
                                    EncodeLat(latO, true, false), EncodeLon(latO, lonO, true, false), odd);
      if Nl(EncRlat(latE, false, false)) == Nl(EncRlat(latO, true, false))
      then Recovers(r, if odd then latO else latE, if odd then lonO else lonE, odd, false)
      else r == TryAgain
  {
    hide ModInt, LatIndex, Lattice, Point, EncRlat, EncRlon, EncodeLat, EncodeLon, DecodeLon, Nl, Wrap180, Recovers;
    AirborneLats(latE, latO);
    if Nl(EncRlat(latE, false, false)) == Nl(EncRlat(latO, true, false)) {
      var lat, lon := if odd then latO else latE, if odd then lonO else lonE;
      var s := PairLon(latE, lonE, latO, lonO, t, odd, false);
      Wrap180Turns(EncRlon(lat, lon, odd, false), s);
      LatticeFixRecovers(lat, lon, odd, false);
    }
  }

  /** The latitudes of a surface pair, for a reference nearer than 45 degrees. */
  lemma SurfaceLats(latE: real, latO: real, reflat: real)
    requires InLatRange(latE) && InLatRange(latO) && Abs(latE - latO) <= 0.0125
    requires Abs(reflat - latE) < 45.0 - EncDlat(false) / 1048576.0
    requires Abs(reflat - latO) < 45.0 - EncDlat(true) / 1048576.0
    ensures var xe, xo := EncodeLat(latE, false, true), EncodeLat(latO, true, true);
      var j := LatIndex(xe, xo);
      && SurfaceLatQuadrant(90.0 / 60.0 * (ModInt(j, 60) as real + xe as real / 131072.0), reflat)
         == EncRlat(latE, false, true)
      && SurfaceLatQuadrant(90.0 / 59.0 * (ModInt(j, 59) as real + xo as real / 131072.0), reflat)
         == EncRlat(latO, true, true)
      && InLatRange(EncRlat(latE, false, true)) && InLatRange(EncRlat(latO, true, true))
  {
    hide ModInt, LatIndex, Lattice, Point, EncRlat, EncodeLat, SurfaceLatQuadrant;
    EncodedLat(latE, false, true);
    EncodedLat(latO, true, true);
    LatticeInRange(latE, false, true);
    LatticeInRange(latO, true, true);
    LatticeNear(latE, 90.0, 60);
    LatticeNear(latO, 90.0, 59);
    LatPairClose(latE, latO, true);
    var e, o := Lattice(latE, 90.0, 60), Lattice(latO, 90.0, 59);
    ZoneIndices(e, o);
    SurfaceLat(e, LatIndex(e % Q, o % Q), false, reflat);
    SurfaceLat(o, LatIndex(e % Q, o % Q), true, reflat);
  }

  /** Surface global decoding inverts encoding, in the right one of the quadrants, poles and equator
      included: for true positions within 0.0125 degrees of each other and any reference within
      45 degrees, less half a quantum, of them (u counts whole turns of longitude). */
  lemma SurfaceRecovers(latE: real, lonE: real, latO: real, lonO: real, t: int, odd: bool,
                        reflat: real, reflon: real, u: int)
    requires InLatRange(latE) && InLatRange(latO)
    requires Abs(latE - latO) <= 0.0125 && Abs(lonE - lonO - 360.0 * t as real) <= 0.0125
    requires Abs(reflat - latE) < 45.0 - EncDlat(false) / 1048576.0
    requires Abs(reflat - latO) < 45.0 - EncDlat(true) / 1048576.0
    requires Abs((if odd then lonO else lonE) + 360.0 * u as real - reflon)
           < 45.0 - EncDlon(if odd then latO else latE, odd, true) / 1048576.0
    ensures var r := DecodeSurface(reflat, reflon, EncodeLat(latE, false, true), EncodeLon(latE, lonE, false, true),
                                   EncodeLat(latO, true, true), EncodeLon(latO, lonO, true, true), odd);
      if Nl(EncRlat(latE, false, true)) == Nl(EncRlat(latO, true, true))
      then Recovers(r, if odd then latO else latE, if odd then lonO else lonE, odd, true)
      else r == TryAgain
  {
    hide ModInt, LatIndex, Lattice, Point, EncRlat, EncRlon, EncodeLat, EncodeLon, DecodeLon, Nl, Wrap180, Recovers,
         SurfaceLatQuadrant, EncDlon;
    SurfaceLats(latE, latO, reflat);
    if Nl(EncRlat(latE, false, true)) == Nl(EncRlat(latO, true, true)) {
      var lat, lon := if odd then latO else latE, if odd then lonO else lonE;
      var s := PairLon(latE, lonE, latO, lonO, t, odd, true);
      var x := EncRlon(lat, lon, odd, true);
      LonAccuracy(lat, lon, odd, true);
      var rlon := DecodeLon(EncRlat(lat, odd, true), EncodeLon(latE, lonE, false, true),
                            EncodeLon(latO, lonO, true, true), odd, true);
      assert Abs(x + 360.0 * u as real - reflon) < 45.0;
      QuarterTurns(x + 360.0 * u as real, s - 4 * u, reflon);
      assert rlon == x + 360.0 * u as real + 90.0 * (s - 4 * u) as real;
      assert rlon + ((reflon - rlon + 45.0) / 90.0).Floor as real * 90.0 == x + 360.0 * u as real;
      Wrap180Turns(x, u);
      LatticeFixRecovers(lat, lon, odd, true);
    }
  }

  // ---------------------------------------------------------------- one frame and a reference

  lemma FmodIsMod(a: real, b: real)
    requires 0.0 < b
    ensures ModDbl(a, b) == Mod(a, b)
  {
    var q := a / b;
    DivMul(a, b);
    assert Trunc(q) == q.Floor || (q < 0.0 && Trunc(q) == q.Floor + 1);
    if Trunc(q) != q.Floor {
      assert b * (q.Floor + 1) as real == b * q.Floor as real + b;
      assert a - b * Trunc(q) as real == b * (q - Trunc(q) as real);
      assert q - Trunc(q) as real < 0.0;
    } else {
      assert a - b * q.Floor as real == b * (q - q.Floor as real);
    }
  }

  lemma NearestIsFloor(ref: real, cell: real, frac: real)
    requires 0.0 < cell
    ensures NearestIndex(ref, cell, frac) == (ref / cell + 0.5 - frac).Floor
  {
    FmodIsMod(ref, cell);
    BinRatio(ref, cell, 1.0);
    FloorShift(0.5 + ref / cell - (ref / cell).Floor as real - frac, (ref / cell).Floor);
  }

  lemma NearestNear(ref: real, cell: real, frac: real)
    requires 0.0 < cell
    ensures -cell / 2.0 < Nearest(ref, cell, frac) - ref <= cell / 2.0
  {
    NearestIsFloor(ref, cell, frac);
    var k := NearestIndex(ref, cell, frac) as real;
    DivMul(ref, cell);
    var v := k + frac - ref / cell;
    assert -0.5 < v <= 0.5;
    assert Nearest(ref, cell, frac) - ref == cell * v;
    assert 0.0 < cell * (v + 0.5) && 0.0 <= cell * (0.5 - v);
    assert cell * (v + 0.5) == cell * v + cell / 2.0;
    assert cell * (0.5 - v) == cell / 2.0 - cell * v;
  }

  lemma HalfScaled(cell: real, v: real)
    requires 0.0 < cell
    ensures v <= -0.5 ==> cell * v <= -cell / 2.0
    ensures 0.5 <= v ==> cell / 2.0 <= cell * v
  {
    if v <= -0.5 { assert 0.0 <= cell * (-0.5 - v); }
    if 0.5 <= v { assert 0.0 <= cell * (v - 0.5); }
  }

  lemma NearestUnique(ref: real, cell: real, frac: real, k: int, x: real)
    requires 0.0 < cell && x == cell * (k as real + frac)
    requires -cell / 2.0 < x - ref < cell / 2.0
    ensures NearestIndex(ref, cell, frac) == k && Nearest(ref, cell, frac) == x
  {
    NearestIsFloor(ref, cell, frac);
    DivMul(ref, cell);
    var v := k as real + frac - ref / cell;
    assert x - ref == cell * v;
    HalfScaled(cell, v);
    FloorUnique(ref / cell + 0.5 - frac, k);
  }

  lemma DlonPositive(lat: real, odd: bool, surface: bool)
    ensures 0.0 < Dlon(lat, odd, surface) <= 360.0
  {
    var n := NZones(lat, odd);
    DivMul(Span(surface), n as real);
    DlonBound(n);
  }

  /** What the relative decoder does, for every frame and every reference on the globe: it succeeds
      exactly when the frame's nearest point is on the globe and not past the antimeridian (except
      for a single 360-degree cell, where the two ends tie), and then returns that nearest point. */
  lemma RelativeExact(reflat: real, reflon: real, cprLat: int, cprLon: int, odd: bool, surface: bool)
    requires InLatRange(reflat) && -180.0 <= reflon <= 180.0
    ensures var p := Nearest(reflat, RelDlat(odd, surface), cprLat as real / 131072.0);
      var dl := Dlon(p, odd, surface);
      var r := DecodeRelative(reflat, reflon, cprLat, cprLon, odd, surface);
      && 0.0 < dl
      && var l := Nearest(reflon, dl, cprLon as real / 131072.0);
      && (r.Fix? <==> InLatRange(p) && (l <= 180.0 || (dl == 360.0 && l == reflon + 180.0)))
      && (!r.Fix? ==> r == TryAgain)
      && (r.Fix? ==> r == Fix(p, if l <= 180.0 then l else l - 360.0))
      && (r.Fix? ==> Abs(r.lat - reflat) <= RelDlat(odd, surface) / 2.0 && Abs(r.lon - reflon) <= dl / 2.0)
  {
    hide NearestIndex, Dlon, Nl;
    var d := RelDlat(odd, surface);
    var p := Nearest(reflat, d, cprLat as real / 131072.0);
    NearestNear(reflat, d, cprLat as real / 131072.0);
    DlonPositive(p, odd, surface);
    var dl := Dlon(p, odd, surface);
    NearestNear(reflon, dl, cprLon as real / 131072.0);
    var l := Nearest(reflon, dl, cprLon as real / 131072.0);
    var r := DecodeRelative(reflat, reflon, cprLat, cprLon, odd, surface);
    assert Abs(p - reflat) <= d / 2.0;
    assert !InLatRange(p) ==> r == TryAgain;
    if InLatRange(p) {
      assert l <= 180.0 ==> r == Fix(p, l);
      assert l > 180.0 ==> r == if Abs(l - 360.0 - reflon) > dl / 2.0 then TryAgain else Fix(p, l - 360.0);
      assert l > 180.0 && dl < 360.0 ==> Abs(l - 360.0 - reflon) > dl / 2.0;
    }
  }

  /** A lattice point in cell form, its whole turns moved into the cell count. */
  lemma PointCell(i: int, span: real, n: int, s: int, c: int)
    requires 0 < n && (span == 90.0 || span == 360.0) && c == (if span == 90.0 then 4 else 1) * s
    ensures Point(i, span, n) + 360.0 * s as real
         == span / n as real * ((i / Q + n * c) as real + (i % Q) as real / 131072.0)
  {
    CellValue(span, n, i / Q + n * c, i, c);
  }

  lemma NearestLat(lat: real, odd: bool, surface: bool, reflat: real)
    requires Abs(EncRlat(lat, odd, surface) - reflat) < RelDlat(odd, surface) / 2.0
    ensures Nearest(reflat, RelDlat(odd, surface), EncodeLat(lat, odd, surface) as real / 131072.0)
         == EncRlat(lat, odd, surface)
  {
    hide NearestIndex, Nearest, Point, EncRlat, EncodeLat, Lattice;
    EncodedLat(lat, odd, surface);
    var i := Lattice(lat, Span(surface), LatZones(odd));
    PointCell(i, Span(surface), LatZones(odd), 0, 0);
    NearestUnique(reflat, RelDlat(odd, surface), (i % Q) as real / 131072.0, i / Q, EncRlat(lat, odd, surface));
  }

  lemma NearestLon(lat: real, lon: real, odd: bool, surface: bool, reflon: real)
    requires var dl := Dlon(EncRlat(lat, odd, surface), odd, surface);
      Abs(Wrap180(EncRlon(lat, lon, odd, surface)) - reflon) < dl / 2.0
    ensures var dl := Dlon(EncRlat(lat, odd, surface), odd, surface);
      0.0 < dl && Nearest(reflon, dl, EncodeLon(lat, lon, odd, surface) as real / 131072.0)
               == Wrap180(EncRlon(lat, lon, odd, surface))
  {
    hide NearestIndex, Nearest, Point, EncRlat, EncRlon, EncodeLon, Lattice, Dlon, Wrap180, NZones;
    var p, x := EncRlat(lat, odd, surface), EncRlon(lat, lon, odd, surface);
    var n := NZones(p, odd);
    EncodedLon(lat, lon, odd, surface);
    DlonPositive(p, odd, surface);
    DlonIs(p, odd, surface);
    var k := Lattice(lon, Span(surface), n);
    var s := WrapCount(x);
    var c := (if surface then 4 else 1) * s;
    PointCell(k, Span(surface), n, s, c);
    NearestUnique(reflon, Dlon(p, odd, surface), (k % Q) as real / 131072.0, k / Q + n * c, Wrap180(x));
  }

  /** Relative and global decoding agree: a reference less than half a cell from the position the global
      decoder returns for a frame makes the relative decoder return exactly that position. */
  lemma RelativeRecovers(lat: real, lon: real, odd: bool, surface: bool, reflat: real, reflon: real)
    requires InLatRange(lat) && InLatRange(reflat)
    requires Abs(EncRlat(lat, odd, surface) - reflat) < RelDlat(odd, surface) / 2.0
    requires Abs(Wrap180(EncRlon(lat, lon, odd, surface)) - reflon) < Dlon(EncRlat(lat, odd, surface), odd, surface) / 2.0
    ensures var r := DecodeRelative(reflat, reflon, EncodeLat(lat, odd, surface), EncodeLon(lat, lon, odd, surface), odd, surface);
      r == Fix(EncRlat(lat, odd, surface), Wrap180(EncRlon(lat, lon, odd, surface)))
      && Recovers(r, lat, lon, odd, surface)
  {
    hide NearestIndex, Nearest, Nl, EncRlat, EncRlon, EncodeLat, EncodeLon, Lattice, Point, Dlon, Recovers, Wrap180;
    var p, x := EncRlat(lat, odd, surface), EncRlon(lat, lon, odd, surface);
    LatticeFixRecovers(lat, lon, odd, surface);
    assert InLatRange(p) && -180.0 <= Wrap180(x) < 180.0 by {
      EncodedLat(lat, odd, surface);
      LatticeInRange(lat, odd, surface);
      WrapRange(x);
    }
    NearestLat(lat, odd, surface, reflat);
    NearestLon(lat, lon, odd, surface, reflon);
  }

  lemma DlonIs(lat: real, odd: bool, surface: bool)
    ensures Dlon(lat, odd, surface) == Span(surface) / NZones(lat, odd) as real
  {
  }

  lemma WrapCount(x: real) returns (s: int)
    ensures Wrap180(x) == x + 360.0 * s as real
  {
    s := -((x + 180.0) / 360.0).Floor;
  }

  lemma WrapRange(x: real)
    ensures -180.0 <= Wrap180(x) < 180.0
  {
    Wrap180Turns(x, 0);
  }

  // ---------------------------------------------------------------- whatever the frames say

  /** Whatever two frames say, honest or not, a fix is a place on the globe. */
  lemma FixOnGlobe(evenLat: int, evenLon: int, oddLat: int, oddLon: int, odd: bool, reflat: real, reflon: real)
    ensures var r := DecodeAirborne(evenLat, evenLon, oddLat, oddLon, odd);
            r.Fix? ==> -90.0 <= r.lat <= 90.0 && -180.0 <= r.lon < 180.0
    ensures var r := DecodeSurface(reflat, reflon, evenLat, evenLon, oddLat, oddLon, odd);
            r.Fix? ==> -90.0 <= r.lat <= 90.0 && -180.0 <= r.lon < 180.0
  {
    hide DecodeLon, Nl, LatIndex, Wrap180, SurfaceLatQuadrant;
    var r, s := DecodeAirborne(evenLat, evenLon, oddLat, oddLon, odd), DecodeSurface(reflat, reflon, evenLat, evenLon, oddLat, oddLon, odd);
    if r.Fix? { WrapRange(DecodeLon(r.lat, evenLon, oddLon, odd, false)); }
    if s.Fix? {
      var rlon := DecodeLon(s.lat, evenLon, oddLon, odd, true);
      WrapRange(rlon + ((reflon - rlon + 45.0) / 90.0).Floor as real * 90.0);
    }
  }

  /** A pair that can only stand for latitude 122 is refused. */
  lemma OffGlobeIsImpossible(evenLon: int, oddLon: int, odd: bool)
    ensures DecodeAirborne(44431, evenLon, 0, oddLon, odd) == Impossible
  {
    hide DecodeLon, Nl, Wrap180;
    assert LatIndex(44431, 0) == 20;
    assert ModInt(20, 60) == 20;
  }
}
