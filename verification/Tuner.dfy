/**
 * The arithmetic of the fractional-N synthesiser in main/tuner_r82xx.c: the mixer divider, the integer
 * part split over two register fields, and the loop that turns the rest into a 16-bit fraction.
 */
module Tuner {
  import opened Arithmetic
  import opened Basics

  const VCO_MIN: nat := 1_770_000
  const VCO_MAX: nat := 3_540_000

  /** What is programmed: the mixer divider and its log, the integer part's two fields, the fraction. */
  datatype Plan = Plan(mixDiv: nat, divNum: nat, ni: nat, si: nat, sdm: nat)

  /** How a tuning ends: with a plan, with the message that there is none, or on a division by zero. */
  datatype Outcome = Tuned(plan: Plan) | NoPll | DividesByZero

  const WORD: nat := 0x1_0000_0000
  const LONG: nat := 0x1_0000_0000_0000_0000

  // ---------------------------------------------------------------- the divider

  predicate InBand(khz: nat, div: int) {
    VCO_MIN <= khz * div < VCO_MAX
  }

  predicate Divider(div: int) {
    div in {2, 4, 8, 16, 32, 64}
  }

  /** How often a divider halves down to 2: 2 gives 0, 64 gives 5. */
  function LogOf(div: nat): nat {
    if div <= 2 then 0 else 1 + LogOf(div / 2)
  }

  /** The divider and the number its register holds. */
  predicate Halvings(div: int, num: int) {
    || (div == 2 && num == 0) || (div == 4 && num == 1) || (div == 8 && num == 2)
    || (div == 16 && num == 3) || (div == 32 && num == 4) || (div == 64 && num == 5)
  }

  /** The frequencies for which some divider puts the oscillator in its band are exactly these, and
      then only one divider does. */
  lemma DividerUnique(khz: nat)
    ensures (exists d :: Divider(d) && InBand(khz, d)) <==> 27_657 <= khz < 1_770_000
    ensures forall d, e :: Divider(d) && Divider(e) && InBand(khz, d) && InBand(khz, e) ==> d == e
  {
    if 27_657 <= khz < 1_770_000 {
      var d := if khz < 55_313 then 64 else if khz < 110_625 then 32 else if khz < 221_250 then 16
               else if khz < 442_500 then 8 else if khz < 885_000 then 4 else 2;
      assert Divider(d) && InBand(khz, d);
    }
  }

  /** The doubling search; 128 and 0 when no divider fits, as the registers would then be written. */
  method FindDivider(khz: nat) returns (mixDiv: nat, divNum: nat)
    ensures mixDiv != 128 ==> Divider(mixDiv) && InBand(khz, mixDiv) && Halvings(mixDiv, divNum)
    ensures mixDiv == 128 ==> divNum == 0 && forall d :: Divider(d) ==> !InBand(khz, d)
  {
    mixDiv, divNum := 2, 0;
    while mixDiv <= 64
      invariant Divider(mixDiv) || mixDiv == 128
      invariant divNum == 0 && forall d :: Divider(d) && d < mixDiv ==> !InBand(khz, d)
      decreases 128 - mixDiv
    {
      if khz * mixDiv >= VCO_MIN && khz * mixDiv < VCO_MAX {
        var divBuf := mixDiv;
        while divBuf > 2
          invariant Divider(divBuf) && LogOf(mixDiv) == divNum + LogOf(divBuf)
        {
          divBuf := divBuf / 2;
          divNum := divNum + 1;
        }
        SmallLog(mixDiv);
        return;
      }
      mixDiv := mixDiv * 2;
    }
  }

  lemma SmallLog(div: nat)
    requires Divider(div)
    ensures Halvings(div, LogOf(div))
  {
    assert LogOf(2) == 0 && LogOf(4) == 1 && LogOf(8) == 2 && LogOf(16) == 3;
    assert LogOf(32) == 4 && LogOf(64) == 5;
  }

  // ---------------------------------------------------------------- the integer part

  function Register(ni: nat, si: nat): nat {
    ni + si * 64
  }

  /** The register byte gives the integer part back. */
  function Integer(reg: nat): nat {
    4 * (reg % 64) + reg / 64 + 13
  }

  lemma IntegerRecovered(ni: nat, si: nat)
    requires ni < 64 && si < 4
    ensures Register(ni, si) < 256 && Integer(Register(ni, si)) == 4 * ni + si + 13
  {
    ModUnique(ni + 64 * si, 64, si, ni);
  }

  // ---------------------------------------------------------------- the fraction

  /** What divisor n is worth, in whole kHz, and the bit that stands for it. */
  function Share(r: nat, n: nat): nat
    requires n > 0
  {
    r / n
  }

  function Bit(n: nat): nat
    requires n > 1
  {
    32768 / (n / 2)
  }

  /** The loop from divisor n on, with r twice the reference in kHz: none if n, a 16-bit word, would be
      shifted to zero, and the next division fail. */
  function Sdm(r: nat, f: nat, n: nat, sdm: nat): Option<nat>
    requires 2 <= n <= 0x8000
    decreases 0x8000 - n
  {
    if f <= 1 then Some(sdm)
    else
      var take := f > Share(r, n);
      var f1 := if take then f - Share(r, n) else f;
      var sdm1 := if take then sdm + Bit(n) else sdm;
      if n * 2 > 0x8000 then (if take then Some(sdm1) else None)
      else Sdm(r, f1, n * 2, sdm1)
  }

  lemma SdmNext(r: nat, f: nat, n: nat, sdm: nat)
    requires 2 <= n <= 0x8000 && f > 1
    ensures var take := f > Share(r, n);
            var f1 := if take then f - Share(r, n) else f;
            var sdm1 := if take then sdm + Bit(n) else sdm;
            Sdm(r, f, n, sdm) == if n * 2 <= 0x8000 then Sdm(r, f1, n * 2, sdm1) else if take then Some(sdm1) else None
  {
    hide Share, Bit;
  }

  lemma SdmDone(r: nat, f: nat, n: nat, sdm: nat)
    requires 2 <= n <= 0x8000 && f <= 1
    ensures Sdm(r, f, n, sdm) == Some(sdm)
  {
  }

  method CalculateSdm(r: nat, fraction: nat) returns (result: Option<nat>)
    ensures result == Sdm(r, fraction, 2, 0)
  {
    hide Share, Bit, Sdm, Count;
    FirstNumber();
    var f: nat, n: nat, sdm: nat := fraction, 2, 0;
    ghost var k: nat := 0;
    while f > 1
      invariant Count(n, k) && 2 <= n <= 0x8000
      invariant Sdm(r, f, n, sdm) == Sdm(r, fraction, 2, 0)
      decreases 0x8000 - n
    {
      Numbered(n, k);
      SdmNext(r, f, n, sdm);
      if f > Share(r, n) {
        sdm := sdm + Bit(n);
        f := f - Share(r, n);
        if n >= 0x8000 { return Some(sdm); }
      }
      if n >= 0x8000 { return None; }
      n, k := n * 2, k + 1;
    }
    SdmDone(r, f, n, sdm);
    return Some(sdm);
  }

  /** A divisor of the loop and the weight of its bit in the fraction. */
  predicate Power(n: int, p: int) {
    || (n == 2 && p == 32768) || (n == 4 && p == 16384) || (n == 8 && p == 8192) || (n == 16 && p == 4096)
    || (n == 32 && p == 2048) || (n == 64 && p == 1024) || (n == 128 && p == 512) || (n == 256 && p == 256)
    || (n == 512 && p == 128) || (n == 1024 && p == 64) || (n == 2048 && p == 32) || (n == 4096 && p == 16)
    || (n == 8192 && p == 8) || (n == 16384 && p == 4) || (n == 32768 && p == 2)
  }

  function Times(r: nat, p: nat): nat {
    r * p
  }

  predicate Multiple(s: nat, p: nat) {
    p > 0 && s % p == 0
  }

  lemma Quotient(r: nat, n: nat, p: nat)
    requires Power(n, p)
    ensures 65536 * Share(r, n) <= Times(r, p) < 65536 * Share(r, n) + 65536
    ensures n == 2 && r % 2 == 0 ==> 65536 * Share(r, n) == Times(r, p)
    ensures Bit(n) == p && p % 2 == 0 && p > 0
    ensures n == 32768 || Power(n * 2, p / 2)
    ensures n == 32768 && r < 65536 ==> Times(r, p) < 2 * 65536
  {
  }

  /** How far the programmed fraction is from the wanted one, in 65536ths of a kHz. */
  function Off(r: nat, wanted: nat, sdm: nat): int {
    65536 * wanted - Times(r, sdm)
  }

  lemma OffStep(r: nat, wanted: nat, sdm: nat, p: nat)
    requires p % 2 == 0
    ensures Off(r, wanted, sdm + p) == Off(r, wanted, sdm) - Times(r, p)
    ensures 2 * Times(r, p / 2) == Times(r, p)
  {
  }

  /** The next bit of the fraction is still clear, and adding it stays clear of the ones after. */
  lemma NextBit(sdm: nat, p: nat)
    requires p > 0 && Multiple(sdm, 2 * p) && sdm + 2 * p <= 65536
    ensures Multiple(sdm, p) && Multiple(sdm + p, p) && sdm + p + p <= 65536
  {
    var k := sdm / (2 * p);
    assert sdm == p * (2 * k);
    ModUnique(sdm, p, 2 * k, 0);
    ModUnique(sdm + p, p, 2 * k + 1, 0);
  }

  /** One turn of the loop, with x for what the weight's bit stands for: what is off moves by x or
      stays, and is at most x after. */
  lemma OneTurn(f: nat, q: nat, x: int, off: int, lost: nat) returns (f1: nat, off1: int, lost1: nat)
    requires 65536 * q <= x < 65536 * q + 65536 && off == 65536 * f - lost <= 2 * x
    ensures f1 == (if f > q then f - q else f) && off1 == (if f > q then off - x else off)
    ensures off1 == 65536 * f1 - lost1 <= x
    ensures lost <= lost1 < lost + 65536 && (x == 65536 * q ==> lost1 == lost)
  {
    f1 := if f > q then f - q else f;
    off1 := if f > q then off - x else off;
    lost1 := if f > q then lost + (x - 65536 * q) else lost;
  }

  /** From divisor n on: whole kHz still wanted, minus the fractions of a kHz lost so far, is what is
      off; at most two weights' worth remains; and the loop ends with a fraction within bounds. */
  lemma {:induction false} SdmBounds(r: nat, wanted: nat, f: nat, n: nat, p: nat, sdm: nat, lost: nat, k: nat)
    requires Power(n, p) && Count(n, k) && r < 65536 && r % 2 == 0
    requires Multiple(sdm, 2 * p) && sdm + 2 * p <= 65536
    requires Off(r, wanted, sdm) == 65536 * f - lost <= 2 * Times(r, p)
    requires lost <= 65536 * (if k == 0 then 0 else k - 1)
    ensures var s := Sdm(r, f, n, sdm);
            s.Some? && s.value < 65536 && -14 * 65536 <= Off(r, wanted, s.value) <= 2 * 65536
    decreases 0x8000 - n
  {
    hide Off, Power, Count, Share, Bit, Times, Multiple, Sdm;
    Quotient(r, n, p);
    Numbered(n, k);
    NextBit(sdm, p);
    OffStep(r, wanted, sdm, p);
    var f1, off1, lost1 := OneTurn(f, Share(r, n), Times(r, p), Off(r, wanted, sdm), lost);
    var sdm1 := if f > Share(r, n) then sdm + p else sdm;
    if f <= 1 {
      SdmDone(r, f, n, sdm);
    } else {
      SdmNext(r, f, n, sdm);
      if n < 32768 {
        assert 2 * (p / 2) == p;
        SdmBounds(r, wanted, f1, n * 2, p / 2, sdm1, lost1, k + 1);
      } else {
        LastTake(r, f, n);
      }
    }
  }

  /** At the last divisor a fraction above 1 is always taken. */
  lemma LastTake(r: nat, f: nat, n: nat)
    requires r < 65536 && f > 1 && n >= 0x8000
    ensures f > Share(r, n)
  {
  }

  lemma Numbered(n: nat, k: nat)
    requires Count(n, k)
    ensures k <= 14 && (k == 0 <==> n == 2) && 2 <= n <= 32768 && (n < 32768 ==> Count(n * 2, k + 1))
  {
  }

  lemma FirstNumber()
    ensures Count(2, 0)
  {
  }

  /** The number of the divisor: 2 is the zeroth, 32768 the fourteenth. */
  predicate Count(n: int, k: int) {
    || (n == 2 && k == 0) || (n == 4 && k == 1) || (n == 8 && k == 2) || (n == 16 && k == 3) || (n == 32 && k == 4)
    || (n == 64 && k == 5) || (n == 128 && k == 6) || (n == 256 && k == 7) || (n == 512 && k == 8)
    || (n == 1024 && k == 9) || (n == 2048 && k == 10) || (n == 4096 && k == 11) || (n == 8192 && k == 12)
    || (n == 16384 && k == 13) || (n == 32768 && k == 14)
  }

  /** Below 65536 kHz the loop ends before its divisor is shifted out, whatever fraction is wanted. */
  lemma {:induction false} SdmEnds(r: nat, f: nat, n: nat, sdm: nat, k: nat)
    requires r < 65536 && 2 <= n <= 0x8000 && Count(n, k)
    ensures Sdm(r, f, n, sdm).Some?
    decreases 0x8000 - n
  {
    hide Share, Bit, Sdm, Count;
    Numbered(n, k);
    if f <= 1 {
      SdmDone(r, f, n, sdm);
    } else {
      SdmNext(r, f, n, sdm);
      var f1 := if f > Share(r, n) then f - Share(r, n) else f;
      var sdm1 := if f > Share(r, n) then sdm + Bit(n) else sdm;
      if n < 0x8000 { SdmEnds(r, f1, n * 2, sdm1, k + 1); } else { LastTake(r, f, n); }
    }
  }

  /** Twice a whole-kHz reference below 65536 kHz: the loop ends before its divisor is shifted out, the
      bits it sets do not carry, and the fraction is at most 2 kHz short and 14 kHz over. */
  lemma SdmAccurate(r: nat, wanted: nat)
    requires r < 65536 && r % 2 == 0 && wanted <= r
    ensures var s := Sdm(r, wanted, 2, 0);
            s.Some? && s.value < 65536 && -14 * 65536 <= Off(r, wanted, s.value) <= 2 * 65536
  {
    SdmBounds(r, wanted, wanted, 2, 32768, 0, 0, 0);
  }

  lemma {:induction false} SdmRunsOut(r: nat, n: nat, p: nat, sdm: nat)
    requires Power(n, p) && 65536 <= r
    ensures Sdm(r, r / 32768, n, sdm) == None
    decreases 0x8000 - n
  {
    Quotient(r, n, p);
    assert r / 32768 <= Share(r, n);
    if n < 32768 { SdmRunsOut(r, n * 2, p / 2, sdm); }
  }

  /** The loop is safe for every wanted fraction exactly when twice the reference is below 65536 kHz. */
  lemma SdmSafeExactly(r: nat)
    ensures (forall f: nat :: f < r ==> Sdm(r, f, 2, 0).Some?) <==> r < 65536
  {
    if r < 65536 {
      FirstNumber();
      forall f: nat | f < r ensures Sdm(r, f, 2, 0).Some? { SdmEnds(r, f, 2, 0, 0); }
    } else {
      SdmRunsOut(r, 2, 32768, 0);
      assert r / 32768 < r;
    }
  }

  // ---------------------------------------------------------------- the whole plan

  /** The oscillator frequency a plan programs, in 65536ths of a hertz. */
  function Programmed(ni: nat, si: nat, sdm: nat, pllRef: nat): nat {
    2 * pllRef * (65536 * Integer(Register(ni, si)) + sdm)
  }

  /** What is asked of the oscillator. */
  function Wanted(freq: nat, p: Plan): nat {
    freq * p.mixDiv
  }

  predicate Within(error: int, khz: nat) {
    -(65_536_000 * khz) <= error <= 65_536_000 * khz
  }

  /** Twice the reference, to the nearest even number of kHz. */
  function TwiceKhz(pllRef: nat): nat {
    2 * ((pllRef + 500) / 1000)
  }

  /** A reference the fraction loop is safe with, whatever is tuned: up to 32767 kHz. */
  predicate Supported(pllRef: nat) {
    0 < pllRef && TwiceKhz(pllRef) < 65536
  }

  /** The oscillator's kHz error is the fraction's, less than a kHz of truncation, and less than a kHz from
      rounding the reference. */
  lemma ErrorAdds(vco: nat, pllRef: nat, nint: nat, fraction: nat, sdm: nat)
    requires 0 < pllRef && nint == vco / (2 * pllRef) && sdm < 65536
    requires fraction == (vco - 2 * pllRef * nint) / 1000
    requires -14 * 65536 <= Off(TwiceKhz(pllRef), fraction, sdm) <= 2 * 65536
    ensures Within(65536 * vco - 2 * pllRef * (65536 * nint + sdm), 16)
  {
    var left, r := vco - 2 * pllRef * nint, TwiceKhz(pllRef);
    assert left == vco % (2 * pllRef);
    Distribute(2 * pllRef, 65536 * nint, sdm);
    Distribute2(2 * pllRef, nint);
    var slip := 2 * pllRef - 1000 * r;
    RoundedReference(pllRef, sdm);
    assert 65536 * vco - 2 * pllRef * (65536 * nint + sdm) == 65536 * left - 2 * pllRef * sdm;
  }

  /** Rounding the reference moves the programmed fraction by less than a kHz. */
  lemma RoundedReference(pllRef: nat, sdm: nat)
    requires sdm < 65536
    ensures 1000 * Times(TwiceKhz(pllRef), sdm) - 65_536_000 <= 2 * pllRef * sdm <= 1000 * Times(TwiceKhz(pllRef), sdm) + 65_536_000
  {
    var r := TwiceKhz(pllRef);
    var slip := 2 * pllRef - 1000 * r;
    assert -1000 <= slip <= 1000;
    assert 2 * pllRef * sdm == 1000 * (r * sdm) + slip * sdm by {
      Distribute(sdm, 1000 * r, slip);
      Distribute3(r, sdm);
    }
    SmallProduct(slip, sdm);
  }

  lemma Distribute3(r: int, sdm: int)
    ensures sdm * (1000 * r) == 1000 * (r * sdm)
  {
  }

  lemma SmallProduct(slip: int, sdm: nat)
    requires -1000 <= slip <= 1000 && sdm < 65536
    ensures -65_536_000 <= slip * sdm <= 65_536_000
  {
    assert (1000 - slip) * sdm >= 0 && (1000 + slip) * sdm >= 0;
  }

  lemma Distribute(a: int, b: int, c: int)
    ensures a * (b + c) == a * b + a * c
  {
  }

  lemma Distribute2(a: int, b: int)
    ensures a * (65536 * b) == 65536 * (a * b)
  {
  }

  /** What is left over the integer part is no more kHz than twice the reference. */
  lemma FractionBelow(vco: nat, pllRef: nat)
    requires pllRef > 0
    ensures 2 * pllRef * (vco / (2 * pllRef)) <= vco
    ensures (vco - 2 * pllRef * (vco / (2 * pllRef))) / 1000 <= TwiceKhz(pllRef)
  {
    assert vco - 2 * pllRef * (vco / (2 * pllRef)) == vco % (2 * pllRef);
  }

  /** In the tuning range the oscillator frequency stays within 32 bits. */
  lemma VcoRange(freq: nat, div: nat)
    requires Divider(div) && InBand((freq + 500) / 1000, div)
    ensures 1_769_968_000 <= freq * div < 3_540_032_000
  {
    var k := (freq + 500) / 1000;
    assert 1000 * k - 500 <= freq < 1000 * k + 500;
  }

  lemma QuotientAtLeast(v: nat, d: nat, k: nat)
    requires d > 0 && d * k <= v
    ensures k <= v / d
  {
    var q := v / d;
    assert d * (k - q) == d * k - d * q;
    MulAtLeast(d, k - q);
  }

  lemma QuotientBelow(v: nat, d: nat, k: nat)
    requires d > 0 && v < d * k
    ensures v / d < k
  {
    var q := v / d;
    assert d * (q - k + 1) == d * q - d * k + d;
    MulAtLeast(d, q - k + 1);
  }

  lemma IntegerRange(vco: nat, pllRef: nat)
    requires Supported(pllRef) && 1_769_968_000 <= vco
    ensures 13 <= vco / (2 * pllRef)
  {
    QuotientAtLeast(vco, 2 * pllRef, 13);
  }

  /** Division as C does it, towards zero, into an unsigned byte. */
  function ByteQuotient(a: int, b: nat): (q: nat)
    requires b > 0
    ensures q < 256
  {
    (if a >= 0 then a / b else -((-a) / b)) % 256
  }

  /** The frequencies some divider can tune. */
  predicate Tunable(freq: nat) {
    27_657 <= (freq + 500) / 1000 < 1_770_000
  }

  /** An oscillator frequency in its band, a supported reference, and an integer part that fits its byte. */
  predicate Regular(vco: nat, pllRef: nat) {
    1_769_968_000 <= vco < 3_540_032_000 && Supported(pllRef) && vco / (2 * pllRef) < 256
  }

  /** An integer part out of range: 128 or more with power reference 1, 64 or more with 2. */
  predicate TooHigh(vco: nat, pllRef: nat, powerRef: nat)
    requires powerRef > 0
  {
    vco >= 2 * pllRef * (128 / powerRef)
  }

  /** Twice the reference as a 32-bit word, and in kHz. */
  function Doubled(pllRef: nat): nat {
    2 * pllRef % WORD
  }

  function DoubledKhz(pllRef: nat): nat {
    2 * ((pllRef + 500) % WORD / 1000) % WORD
  }

  /** The integer part as a byte, and what is left over it in kHz, in 32- and 64-bit words. */
  function IntegerPart(vco: nat, ref2: nat): (n: nat)
    requires ref2 > 0
    ensures n < 256
  {
    vco / ref2 % 256
  }

  function FractionPart(vco: nat, ref2: nat, nint: nat): nat {
    (vco - ref2 * nint % WORD) % LONG / 1000 % WORD
  }

  /** For regular operands none of these widths loses anything. */
  lemma NothingWraps(vco: nat, pllRef: nat)
    requires Regular(vco, pllRef)
    ensures Doubled(pllRef) == 2 * pllRef && DoubledKhz(pllRef) == TwiceKhz(pllRef)
    ensures var nint := vco / (2 * pllRef);
            && IntegerPart(vco, 2 * pllRef) == nint
            && FractionPart(vco, 2 * pllRef, nint) == (vco - 2 * pllRef * nint) / 1000
  {
    hide Doubled, DoubledKhz, TwiceKhz, IntegerPart, FractionPart;
    WordsFit(pllRef);
    ByteFits(vco, 2 * pllRef);
    LeftFits(vco, 2 * pllRef);
  }

  lemma WordsFit(pllRef: nat)
    requires Supported(pllRef)
    ensures Doubled(pllRef) == 2 * pllRef && DoubledKhz(pllRef) == TwiceKhz(pllRef)
  {
    var half := (pllRef + 500) / 1000;
    assert half < 32768;
    assert (pllRef + 500) % WORD == pllRef + 500;
  }

  lemma ByteFits(vco: nat, ref2: nat)
    requires ref2 > 0 && vco / ref2 < 256
    ensures IntegerPart(vco, ref2) == vco / ref2
  {
    SmallByte(vco / ref2);
  }

  lemma SmallByte(q: nat)
    requires q < 256
    ensures q % 256 == q
  {
  }

  lemma LeftFits(vco: nat, ref2: nat)
    requires ref2 > 0 && vco < WORD
    ensures FractionPart(vco, ref2, vco / ref2) == (vco - ref2 * (vco / ref2)) / 1000
  {
    hide FractionPart;
    Whole(vco, ref2);
    FractionOf(vco, ref2, vco / ref2);
  }

  lemma Whole(vco: nat, ref2: nat)
    requires ref2 > 0
    ensures ref2 * (vco / ref2) <= vco
  {
    assert vco - ref2 * (vco / ref2) == vco % ref2;
  }

  lemma FractionOf(vco: nat, ref2: nat, nint: nat)
    requires vco < WORD && ref2 * nint <= vco
    ensures FractionPart(vco, ref2, nint) == (vco - ref2 * nint) / 1000
  {
    var whole := ref2 * nint;
    NoWrap(whole, vco - whole);
  }

  lemma NoWrap(whole: nat, left: nat)
    requires whole + left < WORD
    ensures (whole + left - whole % WORD) % LONG / 1000 % WORD == left / 1000
  {
  }

  /** Integer part and fraction for any oscillator frequency and reference, in the widths of the source. */
  method Synthesise(vco: nat, pllRef: nat, powerRef: nat) returns (o: Outcome)
    requires vco < LONG && pllRef < WORD && (powerRef == 1 || powerRef == 2)
    ensures o.Tuned? && Regular(vco, pllRef) ==>
              var p := o.plan;
              && p.ni < 64 && p.si < 4 && p.sdm < 65536
              && Within(65536 * vco - Programmed(p.ni, p.si, p.sdm, pllRef), 16)
    ensures Regular(vco, pllRef) ==> (o.NoPll? <==> TooHigh(vco, pllRef, powerRef))
    ensures o.DividesByZero? ==> !Supported(pllRef)
  {
    hide Sdm, Programmed, Within, Doubled, DoubledKhz, IntegerPart, FractionPart, ByteQuotient, Regular, Supported, TooHigh;
    RegularSupported(vco, pllRef);
    var ref2 := Doubled(pllRef);
    if ref2 == 0 {
      Unsafe(pllRef, 0);
      return DividesByZero;
    }
    var nint := IntegerPart(vco, ref2);
    var fraction := FractionPart(vco, ref2, nint);
    if Regular(vco, pllRef) { NoPlan(vco, pllRef, powerRef); }
    if nint > 128 / powerRef - 1 {
      return NoPll;
    }
    var ni := ByteQuotient(nint - 13, 4);
    var si := (nint - 4 * ni - 13) % 256;
    var sdm := CalculateSdm(DoubledKhz(pllRef), fraction);
    if sdm.None? {
      Unsafe(pllRef, fraction);
      return DividesByZero;
    }
    o := Tuned(Plan(0, 0, ni, si, sdm.value));
    if Regular(vco, pllRef) { RegularPlan(vco, pllRef, o.plan); }
  }

  /** A division by zero is a reference that is not supported. */
  lemma Unsafe(pllRef: nat, fraction: nat)
    requires pllRef < WORD
    ensures Supported(pllRef) ==> Doubled(pllRef) != 0 && Sdm(DoubledKhz(pllRef), fraction, 2, 0).Some?
  {
    FirstNumber();
    if Supported(pllRef) {
      SupportedKhz(pllRef);
      hide Sdm, DoubledKhz, Count;
      SdmEnds(DoubledKhz(pllRef), fraction, 2, 0, 0);
    }
  }

  lemma SupportedKhz(pllRef: nat)
    requires pllRef < WORD && Supported(pllRef)
    ensures Doubled(pllRef) != 0 && DoubledKhz(pllRef) < 65536
  {
  }

  lemma NoPlan(vco: nat, pllRef: nat, powerRef: nat)
    requires Regular(vco, pllRef) && Doubled(pllRef) > 0 && (powerRef == 1 || powerRef == 2)
    ensures IntegerPart(vco, Doubled(pllRef)) > 128 / powerRef - 1 <==> TooHigh(vco, pllRef, powerRef)
  {
    hide Doubled, DoubledKhz, TwiceKhz, IntegerPart, FractionPart;
    NothingWraps(vco, pllRef);
    var limit := 128 / powerRef;
    if vco >= 2 * pllRef * limit {
      QuotientAtLeast(vco, 2 * pllRef, limit);
    } else {
      QuotientBelow(vco, 2 * pllRef, limit);
    }
  }

  lemma RegularSupported(vco: nat, pllRef: nat)
    ensures Regular(vco, pllRef) ==> Supported(pllRef)
  {
  }

  lemma RegularPlan(vco: nat, pllRef: nat, p: Plan)
    requires Regular(vco, pllRef) && Doubled(pllRef) > 0
    requires var nint := IntegerPart(vco, Doubled(pllRef));
             && p.ni == ByteQuotient(nint - 13, 4) && p.si == (nint - 4 * p.ni - 13) % 256
             && Sdm(DoubledKhz(pllRef), FractionPart(vco, Doubled(pllRef), nint), 2, 0) == Some(p.sdm)
    ensures p.ni < 64 && p.si < 4 && p.sdm < 65536
    ensures Within(65536 * vco - Programmed(p.ni, p.si, p.sdm, pllRef), 16)
  {
    hide Sdm, Programmed, Within, Doubled, DoubledKhz, IntegerPart, FractionPart, ByteQuotient, TwiceKhz;
    NothingWraps(vco, pllRef);
    Accurate(vco, pllRef, p);
  }

  lemma Accurate(vco: nat, pllRef: nat, p: Plan)
    requires Regular(vco, pllRef)
    requires var nint := vco / (2 * pllRef);
             && p.ni == ByteQuotient(nint - 13, 4) && p.si == (nint - 4 * p.ni - 13) % 256
             && Sdm(TwiceKhz(pllRef), (vco - 2 * pllRef * nint) / 1000, 2, 0) == Some(p.sdm)
    ensures p.ni < 64 && p.si < 4 && p.sdm < 65536
    ensures Within(65536 * vco - Programmed(p.ni, p.si, p.sdm, pllRef), 16)
  {
    hide Sdm, Off, Times, Integer, Register, Within, TwiceKhz, ByteQuotient;
    var nint := vco / (2 * pllRef);
    var fraction := (vco - 2 * pllRef * nint) / 1000;
    IntegerRange(vco, pllRef);
    SplitByte(nint, p.ni, p.si);
    FractionBelow(vco, pllRef);
    EvenKhz(pllRef);
    SdmAccurate(TwiceKhz(pllRef), fraction);
    ErrorAdds(vco, pllRef, nint, fraction, p.sdm);
  }

  /** From 13 on, the two register fields hold the integer part. */
  lemma SplitByte(nint: nat, ni: nat, si: nat)
    requires 13 <= nint < 256 && ni == ByteQuotient(nint - 13, 4) && si == (nint - 4 * ni - 13) % 256
    ensures ni < 64 && si < 4 && Integer(Register(ni, si)) == nint
  {
    hide Integer, Register;
    assert ni == (nint - 13) / 4 && si == (nint - 13) % 4;
    IntegerRecovered(ni, si);
  }

  lemma EvenKhz(pllRef: nat)
    ensures TwiceKhz(pllRef) % 2 == 0
  {
  }

  /** One tuning, for any frequency and reference. With a supported reference it never divides by zero; if
      the frequency is tunable and the integer part fits its byte, the oscillator is programmed to within
      16 kHz of what was asked, so the tuner to within 16 kHz over the divider. */
  method SetPll(freq: nat, pllRef: nat, powerRef: nat) returns (o: Outcome)
    requires freq < WORD && pllRef < WORD && (powerRef == 1 || powerRef == 2)
    ensures o.Tuned? && Tunable(freq) && Regular(Wanted(freq, o.plan), pllRef) ==>
              && Divider(o.plan.mixDiv) && InBand((freq + 500) / 1000, o.plan.mixDiv)
              && o.plan.ni < 64 && o.plan.si < 4 && o.plan.sdm < 65536
              && !TooHigh(Wanted(freq, o.plan), pllRef, powerRef)
              && Within(65536 * Wanted(freq, o.plan) - Programmed(o.plan.ni, o.plan.si, o.plan.sdm, pllRef), 16)
    ensures o.Tuned? && Tunable(freq) ==> Halvings(o.plan.mixDiv, o.plan.divNum)
    ensures o.Tuned? && Tunable(freq) ==> 1_769_968_000 <= Wanted(freq, o.plan) < 3_540_032_000
    ensures o.NoPll? && Tunable(freq) ==>
              exists d :: Divider(d) && InBand((freq + 500) / 1000, d)
                          && (Regular(freq * d, pllRef) ==> TooHigh(freq * d, pllRef, powerRef))
    ensures o.DividesByZero? ==> !Supported(pllRef)
  {
    hide Programmed, LogOf, Within, Regular, Supported, TooHigh;
    var khz := (freq + 500) % WORD / 1000;
    DividerUnique(khz);
    var mixDiv, divNum := FindDivider(khz);
    if Tunable(freq) { VcoRange(freq, mixDiv); }
    SmallVco(freq, mixDiv);
    o := Synthesise(freq * mixDiv, pllRef, powerRef);
    if o.Tuned? { o := Tuned(o.plan.(mixDiv := mixDiv, divNum := divNum)); }
  }

  lemma SmallVco(freq: nat, mixDiv: nat)
    requires freq < WORD && mixDiv <= 128
    ensures freq * mixDiv < LONG
  {
    assert freq * (128 - mixDiv) >= 0;
  }
}
