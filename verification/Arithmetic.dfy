/** Division with remainder, for divisors that are not constants. */
module Arithmetic {

  lemma MulAtLeast(b: int, d: int)
    requires 0 < b
    ensures 1 <= d ==> b <= b * d
    ensures d <= -1 ==> b * d <= -b
  {
  }

  lemma ModUnique(a: int, b: int, k: int, r: int)
    requires 0 <= r < b && a == b * k + r
    ensures a % b == r && a / b == k
  {
    var d := a / b - k;
    assert b * d == b * (a / b) - b * k;
    MulAtLeast(b, d);
  }

  lemma ModShift(a: int, b: int, k: int)
    requires 0 < b
    ensures (a + b * k) % b == a % b
  {
    assert a + b * k == b * (a / b + k) + a % b;
    ModUnique(a + b * k, b, a / b + k, a % b);
  }

  /** Numbers less than b apart have different remainders. */
  lemma ModDistinct(i: int, j: int, b: int)
    requires i < j < i + b
    ensures i % b != j % b
  {
    var d := j / b - i / b;
    assert j - i == b * d + (j % b - i % b);
    MulAtLeast(b, d);
  }

  /** Reducing by a multiple of b first changes nothing modulo b. */
  lemma ModOfMod(x: int, i: int, m: int, b: int)
    requires 0 < b && 0 < m && m % b == 0
    ensures (x % m + i) % b == (x + i) % b
  {
    var k := m / b;
    assert m == b * k;
    assert x + i == (x % m + i) + b * (k * (x / m)) by { assert m * (x / m) == b * (k * (x / m)); }
    ModShift(x % m + i, b, k * (x / m));
  }
}
