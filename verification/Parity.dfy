/**
 * The Mode S parity of main/mode-s.c: the table-driven checksum, its meaning as polynomial
 * division by the generator of ICAO Annex 10 Volume IV section 3.1.2.3.3, and the bit fixers.
 */
module Parity {

  type Byte = bv8

  // ---------------------------------------------------------------- messages as bits

  /** Bit i of a byte, the most significant first. */
  function Mask(i: nat): Byte
    requires i < 8
  {
    if i == 0 then 0x80 else if i == 1 then 0x40 else if i == 2 then 0x20 else if i == 3 then 0x10
    else if i == 4 then 0x08 else if i == 5 then 0x04 else if i == 6 then 0x02 else 0x01
  }

  predicate Test(x: Byte, i: nat)
    requires i < 8
  {
    x & Mask(i) != 0
  }

  function Toggle(x: Byte, i: nat): Byte
    requires i < 8
  {
    x ^ Mask(i)
  }

  function Bit(m: seq<Byte>, j: nat): bool
    requires j < 8 * |m|
  {
    Test(m[j / 8], j % 8)
  }

  function Bits(m: seq<Byte>): (b: seq<bool>)
    ensures |b| == 8 * |m|
  {
    seq(8 * |m|, j requires 0 <= j < 8 * |m| => Bit(m, j))
  }

  lemma BitsAt(m: seq<Byte>, j: nat)
    requires j < 8 * |m|
    ensures Bits(m)[j] == Test(m[j / 8], j % 8)
  {
  }

  lemma SameByte(a: Byte, b: Byte)
    requires forall i :: 0 <= i < 8 ==> Test(a, i) == Test(b, i)
    ensures a == b
  {
    assert Test(a, 0) == Test(b, 0) && Test(a, 1) == Test(b, 1) && Test(a, 2) == Test(b, 2) && Test(a, 3) == Test(b, 3);
    assert Test(a, 4) == Test(b, 4) && Test(a, 5) == Test(b, 5) && Test(a, 6) == Test(b, 6) && Test(a, 7) == Test(b, 7);
  }

  lemma SameBits(m: seq<Byte>, w: seq<Byte>)
    requires |m| == |w| && Bits(m) == Bits(w)
    ensures m == w
  {
    hide Bits, Test;
    forall i | 0 <= i < |m| ensures m[i] == w[i] {
      forall k | 0 <= k < 8 ensures Test(m[i], k) == Test(w[i], k) {
        BitsAt(m, 8 * i + k);
        BitsAt(w, 8 * i + k);
      }
      SameByte(m[i], w[i]);
    }
  }

  function Flip(m: seq<Byte>, j: nat): (r: seq<Byte>)
    requires j < 8 * |m|
    ensures |r| == |m|
  {
    m[j / 8 := Toggle(m[j / 8], j % 8)]
  }

  /** Short and long messages, in bytes. */
  predicate IsMessage(m: seq<Byte>) {
    |m| == 7 || |m| == 14
  }

  // ---------------------------------------------------------------- the table

  /** The parity table, eight entries a row; the last 24 are zero. */
  function Row(i: nat): (r: seq<bv32>)
    ensures |r| == 8
  {
    if i == 0 then [0x3935ea, 0x1c9af5, 0xf1b77e, 0x78dbbf, 0xc397db, 0x9e31e9, 0xb0e2f0, 0x587178]
    else if i == 1 then [0x2c38bc, 0x161c5e, 0x0b0e2f, 0xfa7d13, 0x82c48d, 0xbe9842, 0x5f4c21, 0xd05c14]
    else if i == 2 then [0x682e0a, 0x341705, 0xe5f186, 0x72f8c3, 0xc68665, 0x9cb936, 0x4e5c9b, 0xd8d449]
    else if i == 3 then [0x939020, 0x49c810, 0x24e408, 0x127204, 0x093902, 0x049c81, 0xfdb444, 0x7eda22]
    else if i == 4 then [0x3f6d11, 0xe04c8c, 0x702646, 0x381323, 0xe3f395, 0x8e03ce, 0x4701e7, 0xdc7af7]
    else if i == 5 then [0x91c77f, 0xb719bb, 0xa476d9, 0xadc168, 0x56e0b4, 0x2b705a, 0x15b82d, 0xf52612]
    else if i == 6 then [0x7a9309, 0xc2b380, 0x6159c0, 0x30ace0, 0x185670, 0x0c2b38, 0x06159c, 0x030ace]
    else if i == 7 then [0x018567, 0xff38b7, 0x80665f, 0xbfc92b, 0xa01e91, 0xaff54c, 0x57faa6, 0x2bfd53]
    else if i == 8 then [0xea04ad, 0x8af852, 0x457c29, 0xdd4410, 0x6ea208, 0x375104, 0x1ba882, 0x0dd441]
    else if i == 9 then [0xf91024, 0x7c8812, 0x3e4409, 0xe0d800, 0x706c00, 0x383600, 0x1c1b00, 0x0e0d80]
    else if i == 10 then [0x0706c0, 0x038360, 0x01c1b0, 0x00e0d8, 0x00706c, 0x003836, 0x001c1b, 0xfff409]
    else [0, 0, 0, 0, 0, 0, 0, 0]
  }

  /** Entry k of the parity table. */
  function T(k: nat): bv32
    requires k < 112
  {
    Row(k / 8)[k % 8]
  }

  function Add(a: bv32, b: bv32): bv32 {
    a ^ b
  }

  function Gate(b: bool, w: bv32): bv32 {
    if b then w else 0
  }

  /** The entries, from the given one on, of the set bits among the first n. */
  function XorSum(b: seq<bool>, n: nat, offset: nat): bv32
    requires n <= |b| && offset + n <= 112
  {
    if n == 0 then 0 else Add(XorSum(b, n - 1, offset), Gate(b[n - 1], T(offset + n - 1)))
  }

  /** What mode_s_checksum computes: the table entries of the set bits, xored. */
  function Checksum(m: seq<Byte>): bv32
    requires IsMessage(m)
  {
    XorSum(Bits(m), 8 * |m|, 112 - 8 * |m|)
  }

  lemma XorSumNext(b: seq<bool>, n: nat, offset: nat)
    requires n < |b| && offset + n < 112
    ensures XorSum(b, n + 1, offset) == if b[n] then Add(XorSum(b, n, offset), T(n + offset)) else XorSum(b, n, offset)
  {
    AddZero(XorSum(b, n, offset));
    hide T, Add;
  }

  method ComputeChecksum(msg: array<Byte>, bits: nat) returns (crc: bv32)
    requires bits == 56 || bits == 112
    requires bits / 8 <= msg.Length
    ensures crc == Checksum(msg[..bits / 8])
  {
    hide T, Test, Add, Bits, Bit, Gate;
    crc := 0;
    var offset := if bits == 112 then 0 else 112 - 56;
    ghost var m := msg[..bits / 8];
    ghost var b := Bits(m);
    for j := 0 to bits
      invariant crc == XorSum(b, j, offset)
    {
      XorSumNext(b, j, offset);
      BitsAt(m, j);
      if Test(msg[j / 8], j % 8) {
        crc := Add(crc, T(j + offset));
      }
    }
  }

  lemma AddZero(a: bv32)
    ensures Add(a, 0) == a && Add(0, a) == a && Add(a, a) == 0
  {
  }

  lemma AddAssoc(a: bv32, b: bv32, c: bv32)
    ensures Add(Add(a, b), c) == Add(a, Add(b, c))
  {
  }

  lemma AddComm(a: bv32, b: bv32)
    ensures Add(a, b) == Add(b, a)
  {
  }

  lemma AddSwap(a: bv32, b: bv32, c: bv32)
    ensures Add(Add(a, b), c) == Add(Add(a, c), b)
  {
    hide Add;
    AddAssoc(a, b, c);
    AddComm(b, c);
    AddAssoc(a, c, b);
  }

  lemma AddPairs(a: bv32, b: bv32, c: bv32, d: bv32)
    ensures Add(Add(a, b), Add(c, d)) == Add(Add(a, c), Add(b, d))
  {
    hide Add;
    AddAssoc(Add(a, b), c, d);
    AddSwap(a, b, c);
    AddAssoc(Add(a, c), b, d);
  }

  predicate Top(r: bv32) {
    r & 0x800000 != 0
  }

  function Double(r: bv32): bv32 {
    r << 1
  }

  /** Multiplication by x of a remainder modulo the generator 0x1FFF409. */
  function TimesX(r: bv32): bv32 {
    Add(Double(r), Gate(Top(r), 0x1FFF409))
  }

  /** The effect of each message bit on the checksum and the parity field together: a table entry for a
      data bit, and for a parity bit its own power of two. */
  function WeightRow(i: nat): (r: seq<bv32>)
    ensures |r| == 8
  {
    if i < 11 then Row(i)
    else if i == 11 then [0x800000, 0x400000, 0x200000, 0x100000, 0x080000, 0x040000, 0x020000, 0x010000]
    else if i == 12 then [0x008000, 0x004000, 0x002000, 0x001000, 0x000800, 0x000400, 0x000200, 0x000100]
    else [0x000080, 0x000040, 0x000020, 0x000010, 0x000008, 0x000004, 0x000002, 0x000001]
  }

  function Weight(k: nat): bv32
    requires k < 112
  {
    WeightRow(k / 8)[k % 8]
  }

  /** Within row i and on to the next row, each weight is x times the one after it, and only the last is 1. */
  predicate RowSteps(i: nat) {
    var r := WeightRow(i);
    && r[0] == TimesX(r[1]) && r[1] == TimesX(r[2]) && r[2] == TimesX(r[3]) && r[3] == TimesX(r[4])
    && r[4] == TimesX(r[5]) && r[5] == TimesX(r[6]) && r[6] == TimesX(r[7])
    && (i < 13 ==> r[7] == TimesX(WeightRow(i + 1)[0]))
    && r[0] != 1 && r[1] != 1 && r[2] != 1 && r[3] != 1 && r[4] != 1 && r[5] != 1 && r[6] != 1
    && (r[7] == 1 <==> i == 13)
  }

  lemma Rows0() ensures RowSteps(0) && RowSteps(1) && RowSteps(2) {}
  lemma Rows1() ensures RowSteps(3) && RowSteps(4) && RowSteps(5) {}
  lemma Rows2() ensures RowSteps(6) && RowSteps(7) && RowSteps(8) {}
  lemma Rows3() ensures RowSteps(9) && RowSteps(10) && RowSteps(11) {}
  lemma Rows4() ensures RowSteps(12) && RowSteps(13) {}

  lemma RowStepsHold(i: nat)
    requires i < 14
    ensures RowSteps(i)
  {
    hide RowSteps;
    if i < 3 { Rows0(); assert i == 0 || i == 1 || i == 2; }
    else if i < 6 { Rows1(); assert i == 3 || i == 4 || i == 5; }
    else if i < 9 { Rows2(); assert i == 6 || i == 7 || i == 8; }
    else if i < 12 { Rows3(); assert i == 9 || i == 10 || i == 11; }
    else { Rows4(); assert i == 12 || i == 13; }
  }

  lemma WeightStep(k: nat)
    requires k < 112
    ensures k < 111 ==> Weight(k) == TimesX(Weight(k + 1))
    ensures Weight(k) == 1 <==> k == 111
  {
    hide WeightRow, TimesX;
    RowStepsHold(k / 8);
  }

  /** The table entries are the weights of the data bits; the parity bits do not enter the checksum. */
  lemma TableIsWeight(k: nat)
    requires k < 112
    ensures T(k) == if k < 88 then Weight(k) else 0
  {
  }

  lemma TopAdd(a: bv32, b: bv32)
    ensures Top(Add(a, b)) == (Top(a) != Top(b))
  {
  }

  lemma DoubleAdd(a: bv32, b: bv32)
    ensures Double(Add(a, b)) == Add(Double(a), Double(b))
  {
  }

  lemma GateAdd(p: bool, q: bool, w: bv32)
    ensures Gate(p != q, w) == Add(Gate(p, w), Gate(q, w))
  {
    hide Add;
    AddZero(w);
    AddZero(0);
  }

  lemma TimesXAdd(a: bv32, b: bv32)
    ensures TimesX(Add(a, b)) == Add(TimesX(a), TimesX(b))
  {
    hide Add, Double, Top, Gate;
    DoubleAdd(a, b);
    TopAdd(a, b);
    GateAdd(Top(a), Top(b), 0x1FFF409);
    AddPairs(Double(a), Double(b), Gate(Top(a), 0x1FFF409), Gate(Top(b), 0x1FFF409));
  }

  lemma TimesXGate(b: bool, w: bv32)
    ensures TimesX(Gate(b, w)) == Gate(b, TimesX(w))
  {
    assert TimesX(0) == 0;
    hide TimesX;
  }

  // ---------------------------------------------------------------- the checksum as a remainder

  /** The remainder of b(x) x^24 modulo the generator, b the first n bits, by Horner's rule. */
  function Horner(b: seq<bool>, n: nat): bv32
    requires n <= |b|
  {
    if n == 0 then 0 else Add(TimesX(Horner(b, n - 1)), Gate(b[n - 1], 0xFFF409))
  }

  lemma {:induction false} XorSumShift(b: seq<bool>, n: nat, offset: nat)
    requires n <= |b| && offset + n <= 87
    ensures XorSum(b, n, offset) == TimesX(XorSum(b, n, offset + 1))
  {
    hide T, Weight, TimesX, Add, Gate;
    if n == 0 {
      TimesXZero();
    } else {
      var k := offset + n - 1;
      XorSumShift(b, n - 1, offset);
      TableIsWeight(k);
      TableIsWeight(k + 1);
      WeightStep(k);
      TimesXGate(b[n - 1], T(k + 1));
      TimesXAdd(XorSum(b, n - 1, offset + 1), Gate(b[n - 1], T(k + 1)));
    }
  }

  lemma {:induction false} XorSumIsHorner(b: seq<bool>, n: nat)
    requires n <= |b| && n <= 88
    ensures XorSum(b, n, 88 - n) == Horner(b, n)
  {
    hide T, Weight, TimesX, Add, Gate;
    if n > 0 {
      XorSumIsHorner(b, n - 1);
      XorSumShift(b, n - 1, 88 - n);
      TableIsWeight(87);
      WeightStep(87);
      FirstPower();
    }
  }

  lemma FirstPower()
    ensures Weight(88) == 0x800000 && TimesX(0x800000) == 0xFFF409
  {
  }

  lemma {:induction false} ZeroTail(b: seq<bool>, n: nat, offset: nat, k: nat)
    requires k <= n <= |b| && 88 <= offset + k && offset + n <= 112
    ensures XorSum(b, n, offset) == XorSum(b, k, offset)
    decreases n
  {
    hide T, Weight, Add;
    if k < n {
      ZeroTail(b, n - 1, offset, k);
      TableIsWeight(offset + n - 1);
      AddZero(XorSum(b, k, offset));
    }
  }

  /** The checksum of a message is the remainder of its data bits, the parity field left out. */
  lemma ChecksumIsHorner(m: seq<Byte>)
    requires IsMessage(m)
    ensures Checksum(m) == Horner(Bits(m), 8 * |m| - 24)
  {
    hide Bits, XorSum, Horner;
    ZeroTail(Bits(m), 8 * |m|, 112 - 8 * |m|, 8 * |m| - 24);
    XorSumIsHorner(Bits(m), 8 * |m| - 24);
  }

  // ---------------------------------------------------------------- polynomials over GF(2)

  /** Coefficients, the highest power first. */
  type Poly = seq<bool>

  function Zeros(n: nat): (p: Poly)
    ensures |p| == n
  {
    seq(n, _ => false)
  }

  function Xor(p: Poly, q: Poly): (r: Poly)
    requires |p| == |q|
    ensures |r| == |p|
    ensures forall i :: 0 <= i < |r| ==> r[i] == (p[i] != q[i])
  {
    seq(|p|, i requires 0 <= i < |p| => p[i] != q[i])
  }

  /** Coefficient 23 - i of a remainder. */
  function Bit24(r: bv32, i: nat): bool
    decreases i
  {
    if i == 0 then Top(r) else Bit24(Double(r), i - 1)
  }

  /** A remainder as 24 coefficients. */
  function Bits24(r: bv32): (p: Poly)
    ensures |p| == 24
  {
    seq(24, i requires 0 <= i < 24 => Bit24(r, i))
  }

  /** The generator 0x1FFF409: x^24 and the low part 0xFFF409. */
  function Generator(): (p: Poly)
    ensures |p| == 25
  {
    [true] + Bits24(0xFFF409)
  }

  /** Schoolbook multiplication by the generator. */
  function TimesGenerator(q: Poly): (p: Poly)
    ensures |p| == |q| + 24
  {
    if |q| == 0 then Zeros(24)
    else Xor(TimesGenerator(q[..|q| - 1]) + [false],
             Zeros(|q| - 1) + (if q[|q| - 1] then Generator() else Zeros(25)))
  }

  /** data(x) x^24 == q(x) g(x) + r(x) */
  predicate Divides(data: Poly, q: Poly, r: Poly)
    requires |r| == 24 && |q| == |data|
  {
    data + Zeros(24) == Xor(TimesGenerator(q), Zeros(|data|) + r)
  }

  lemma {:induction false} Bit24Add(a: bv32, b: bv32, i: nat)
    ensures Bit24(Add(a, b), i) == (Bit24(a, i) != Bit24(b, i))
    decreases i
  {
    hide Add, Double, Top;
    if i == 0 { TopAdd(a, b); } else { DoubleAdd(a, b); Bit24Add(Double(a), Double(b), i - 1); }
  }

  lemma {:induction false} Bit24Zero(i: nat)
    ensures !Bit24(0, i)
    decreases i
  {
    assert Double(0) == 0 && !Top(0);
    hide Double, Top;
    if i > 0 { Bit24Zero(i - 1); }
  }

  function Low(k: nat): bv32 {
    if k == 0 then 0 else (Low(k - 1) << 1) | 1
  }

  lemma {:induction false} Bit24Vanishes(r: bv32, k: nat, i: nat)
    requires k + i == 24 && r & Low(k) == 0
    ensures !Bit24(r, i)
    decreases i
  {
    hide Double, Top;
    if i > 0 {
      DoubleLow(r, k);
      Bit24Vanishes(Double(r), k + 1, i - 1);
    } else {
      LowAll();
      TopLow(r);
    }
  }

  lemma LowAll()
    ensures Low(24) == 0xFFFFFF
  {
    assert Low(4) == 0xF;
    assert Low(8) == 0xFF;
    assert Low(12) == 0xFFF;
    assert Low(16) == 0xFFFF;
    assert Low(20) == 0xFFFFF;
  }

  lemma TopLow(r: bv32)
    requires r & 0xFFFFFF == 0
    ensures !Top(r)
  {
  }

  lemma DoubleLow(r: bv32, k: nat)
    requires r & Low(k) == 0
    ensures Double(r) & Low(k + 1) == 0
  {
    DoubleAnd(r, Low(k));
  }

  lemma DoubleAnd(r: bv32, l: bv32)
    requires r & l == 0
    ensures (r << 1) & ((l << 1) | 1) == 0
  {
  }

  lemma Bit24Ignored(i: nat)
    requires i < 24
    ensures Bit24(0x1FFF409, i) == Bit24(0xFFF409, i)
  {
    assert Add(0xFFF409, 0x1000000) == 0x1FFF409;
    hide Add;
    Bit24Add(0xFFF409, 0x1000000, i);
    if i > 0 {
      assert Double(0x1000000) == 0x2000000;
      Bit24Above(0x2000000, i - 1);
    }
  }

  lemma {:induction false} Bit24Above(r: bv32, i: nat)
    requires r & 0xFFFFFF == 0
    ensures !Bit24(r, i)
    decreases i
  {
    assert Double(r) & 0xFFFFFF == 0 && !Top(r);
    hide Double, Top;
    if i > 0 { Bit24Above(Double(r), i - 1); }
  }

  lemma NextRemainderBit(r: bv32, c: bool, i: nat)
    requires i < 24
    ensures var b := Bit24(r, 0) != c;
      Bit24(Add(TimesX(r), Gate(c, 0xFFF409)), i)
      == ((i < 23 && Bit24(r, i + 1)) != (b && Bit24(0xFFF409, i)))
  {
    hide Add, Double, Top;
    Bit24Add(TimesX(r), Gate(c, 0xFFF409), i);
    Bit24Add(Double(r), Gate(Top(r), 0x1FFF409), i);
    Bit24Zero(i);
    Bit24Ignored(i);
    Bit24Vanishes(r, 0, 24);
  }

  /** Long division: Horner's remainder leaves a quotient. */
  lemma {:induction false} HornerDivides(b: seq<bool>, n: nat) returns (q: Poly)
    requires n <= |b|
    ensures |q| == n && Divides(b[..n], q, Bits24(Horner(b, n)))
  {
    if n == 0 {
      q := [];
      forall i | 0 <= i < 24 ensures !Bit24(0, i) { Bit24Zero(i); }
    } else {
      var p := HornerDivides(b, n - 1);
      var r := Horner(b, n - 1);
      var top := Bit24(r, 0) != b[n - 1];
      q := p + [top];
      DivisionStep(b[..n], p, r, top);
      assert b[..n][..n - 1] == b[..n - 1];
    }
  }

  lemma NextMultipleBit(p: Poly, b: bool, k: nat)
    requires k < |p| + 25
    ensures TimesGenerator(p + [b])[k]
         == ((k < |p| + 24 && TimesGenerator(p)[k]) != (b && |p| <= k && (k == |p| || Bit24(0xFFF409, k - |p| - 1))))
  {
    hide Bit24;
    assert (p + [b])[..|p|] == p;
  }

  lemma DivisionStep(data: Poly, p: Poly, r: bv32, b: bool)
    requires |data| == |p| + 1 && Divides(data[..|p|], p, Bits24(r))
    requires b == (Bit24(r, 0) != data[|p|])
    ensures Divides(data, p + [b], Bits24(Add(TimesX(r), Gate(data[|p|], 0xFFF409))))
  {
    hide Add, Gate, TimesX, Bit24, Divides, TimesGenerator, Generator;
    var n := |p|;
    var q, r' := p + [b], Add(TimesX(r), Gate(data[n], 0xFFF409));
    var left, right := data + Zeros(24), Xor(TimesGenerator(q), Zeros(n + 1) + Bits24(r'));
    var before, after := data[..n] + Zeros(24), Xor(TimesGenerator(p), Zeros(n) + Bits24(r));
    assert before == after by { DividesIs(data[..n], p, Bits24(r)); }
    forall k | 0 <= k < n + 25 ensures left[k] == right[k] {
      NextMultipleBit(p, b, k);
      if k < n + 24 { assert before[k] == after[k]; }
      if k > n { NextRemainderBit(r, data[n], k - n - 1); }
    }
    assert left == right;
    DividesIs(data, q, Bits24(r'));
  }

  lemma DividesIs(data: Poly, q: Poly, r: Poly)
    requires |r| == 24 && |q| == |data|
    ensures Divides(data, q, r) <==> data + Zeros(24) == Xor(TimesGenerator(q), Zeros(|data|) + r)
  {
  }

  /** A multiple of the generator is determined by its leading coefficients. */
  lemma {:induction false} QuotientUnique(p: Poly, q: Poly)
    requires |p| == |q| && TimesGenerator(p)[..|p|] == TimesGenerator(q)[..|q|]
    ensures p == q
  {
    if |p| > 0 {
      var n := |p| - 1;
      var p', q' := p[..n], q[..n];
      forall k | 0 <= k < n ensures TimesGenerator(p')[k] == TimesGenerator(q')[k] {
        assert TimesGenerator(p)[..n + 1][k] == TimesGenerator(q)[..n + 1][k];
      }
      assert TimesGenerator(p')[..n] == TimesGenerator(q')[..n];
      QuotientUnique(p', q');
      assert TimesGenerator(p)[..n + 1][n] == TimesGenerator(q)[..n + 1][n];
      assert p == p' + [p[n]] && q == q' + [q[n]];
    }
  }

  lemma {:induction false} HornerSmall(b: seq<bool>, n: nat)
    requires n <= |b|
    ensures Horner(b, n) < 0x1000000
  {
    hide TimesX, Add;
    if n > 0 {
      HornerSmall(b, n - 1);
      TimesXSmall(Horner(b, n - 1));
      AddSmall(TimesX(Horner(b, n - 1)), Gate(b[n - 1], 0xFFF409));
    }
  }

  lemma AddSmall(a: bv32, b: bv32)
    requires a < 0x1000000 && b < 0x1000000
    ensures Add(a, b) < 0x1000000
  {
  }

  lemma TimesXSmall(a: bv32)
    requires a < 0x1000000
    ensures TimesX(a) < 0x1000000
  {
  }

  lemma {:induction false} NoBits(r: bv32, k: nat)
    requires k <= 24 && r & Low(k) == 0 && r < 0x1000000
    requires forall i :: 0 <= i < 24 - k ==> !Bit24(r, i)
    ensures r == 0
    decreases 24 - k
  {
    hide Double, Top;
    if k == 24 {
      LowAll();
    } else {
      assert !Bit24(r, 0);
      DoubleSmall(r);
      DoubleLow(r, k);
      forall i | 0 <= i < 24 - k - 1 ensures !Bit24(Double(r), i) { assert !Bit24(r, i + 1); }
      NoBits(Double(r), k + 1);
    }
  }

  lemma DoubleSmall(r: bv32)
    requires r < 0x1000000 && !Top(r)
    ensures Double(r) < 0x1000000 && (Double(r) == 0 ==> r == 0)
  {
  }

  lemma AddSelf(a: bv32, b: bv32)
    requires Add(a, b) == 0
    ensures a == b
  {
  }

  lemma Bits24Injective(a: bv32, b: bv32)
    requires a < 0x1000000 && b < 0x1000000 && Bits24(a) == Bits24(b)
    ensures a == b
  {
    hide Add, Bit24;
    AddSmall(a, b);
    forall i | 0 <= i < 24 ensures !Bit24(Add(a, b), i) {
      Bit24Add(a, b, i);
      assert Bits24(a)[i] == Bits24(b)[i];
    }
    LowNone(Add(a, b));
    NoBits(Add(a, b), 0);
    AddSelf(a, b);
  }

  lemma LowNone(r: bv32)
    ensures r & Low(0) == 0
  {
  }

  lemma RemainderUnique(data: Poly, q1: Poly, r1: Poly, q2: Poly, r2: Poly)
    requires |r1| == 24 && |r2| == 24 && |q1| == |data| && |q2| == |data|
    requires Divides(data, q1, r1) && Divides(data, q2, r2)
    ensures q1 == q2 && r1 == r2
  {
    var n := |data|;
    var x1, x2 := Xor(TimesGenerator(q1), Zeros(n) + r1), Xor(TimesGenerator(q2), Zeros(n) + r2);
    hide TimesGenerator;
    assert x1 == x2;
    forall k | 0 <= k < n ensures TimesGenerator(q1)[k] == TimesGenerator(q2)[k] { assert x1[k] == x2[k]; }
    assert TimesGenerator(q1)[..n] == TimesGenerator(q2)[..n];
    QuotientUnique(q1, q2);
    forall k | 0 <= k < 24 ensures r1[k] == r2[k] { assert x1[n + k] == x2[n + k]; }
  }

  function DataBits(m: seq<Byte>): Poly
    requires IsMessage(m)
  {
    Bits(m)[..8 * |m| - 24]
  }

  /** The table computes polynomial division: the checksum of a 56- or 112-bit message is the one
      24-bit word that is the remainder of its data bits, shifted by 24, modulo the generator. */
  lemma ChecksumIsRemainder(m: seq<Byte>, w: bv32)
    requires IsMessage(m) && w < 0x1000000
    ensures Checksum(m) == w <==> exists q: Poly :: |q| == |DataBits(m)| && Divides(DataBits(m), q, Bits24(w))
  {
    hide Bits, Divides, Horner, Bits24, Checksum;
    var n := 8 * |m| - 24;
    ChecksumIsHorner(m);
    HornerSmall(Bits(m), n);
    var q := HornerDivides(Bits(m), n);
    if p: Poly :| |p| == |DataBits(m)| && Divides(DataBits(m), p, Bits24(w)) {
      RemainderUnique(DataBits(m), q, Bits24(Checksum(m)), p, Bits24(w));
      Bits24Injective(Checksum(m), w);
    }
  }

  // ---------------------------------------------------------------- one flipped bit

  function Word(a: Byte, b: Byte, c: Byte): bv32 {
    ((a as bv32) << 16) | ((b as bv32) << 8) | (c as bv32)
  }

  /** The parity field: the last three bytes. */
  function Field(m: seq<Byte>): bv32
    requires IsMessage(m)
  {
    Word(m[|m| - 3], m[|m| - 2], m[|m| - 1])
  }

  predicate ValidMessage(m: seq<Byte>)
    requires IsMessage(m)
  {
    Field(m) == Checksum(m)
  }

  /** A byte in its place in the parity field. */
  function Placed(w: Byte, i: nat): bv32 {
    if i == 0 then (w as bv32) << 16 else if i == 1 then (w as bv32) << 8 else w as bv32
  }

  lemma MaskWeight(i: nat, k: nat)
    requires i < 3 && k < 8
    ensures WeightRow(11 + i)[k] == Placed(Mask(k), i)
  {
  }

  lemma WordHigh(a: Byte, b: Byte, c: Byte, k: nat)
    requires k < 8
    ensures Word(Toggle(a, k), b, c) == Add(Word(a, b, c), Placed(Mask(k), 0))
  {
    hide Mask;
  }

  lemma WordMiddle(a: Byte, b: Byte, c: Byte, k: nat)
    requires k < 8
    ensures Word(a, Toggle(b, k), c) == Add(Word(a, b, c), Placed(Mask(k), 1))
  {
    hide Mask;
  }

  lemma WordLow(a: Byte, b: Byte, c: Byte, k: nat)
    requires k < 8
    ensures Word(a, b, Toggle(c, k)) == Add(Word(a, b, c), Placed(Mask(k), 2))
  {
    hide Mask;
  }

  lemma FieldFlip(m: seq<Byte>, j: nat)
    requires IsMessage(m) && j < 8 * |m|
    ensures Field(Flip(m, j)) == Add(Field(m), if j < 8 * |m| - 24 then 0 else Weight(112 - 8 * |m| + j))
  {
    hide Add, Word, Toggle, Mask, WeightRow, Placed;
    var n, i := |m|, j / 8;
    var a, b, c := m[n - 3], m[n - 2], m[n - 1];
    AddZero(Word(a, b, c));
    if i >= n - 3 {
      assert (112 - 8 * n + j) / 8 == 14 - n + i && (112 - 8 * n + j) % 8 == j % 8;
      MaskWeight(i + 3 - n, j % 8);
      if i == n - 3 { WordHigh(a, b, c, j % 8); }
      else if i == n - 2 { WordMiddle(a, b, c, j % 8); }
      else { WordLow(a, b, c, j % 8); }
    }
  }

  lemma ToggleTwice(x: Byte, w: Byte)
    ensures (x ^ w) ^ w == x
  {
  }

  lemma MaskDisjoint(a: nat, b: nat)
    requires a < 8 && b < 8 && a != b
    ensures Mask(a) & Mask(b) == 0
  {
  }

  lemma ToggleOther(x: Byte, p: Byte, q: Byte)
    requires p & q == 0
    ensures (x ^ p) & q == x & q
  {
  }

  lemma ToggleSame(x: Byte, a: nat)
    requires a < 8
    ensures Test(Toggle(x, a), a) == !Test(x, a)
  {
  }

  lemma ToggleTest(x: Byte, a: nat, b: nat)
    requires a < 8 && b < 8
    ensures Test(Toggle(x, a), b) == (Test(x, b) != (a == b))
  {
    hide Mask;
    if a == b { ToggleSame(x, a); } else { MaskDisjoint(a, b); ToggleOther(x, Mask(a), Mask(b)); }
  }

  lemma FlipTwice(m: seq<Byte>, j: nat)
    requires j < 8 * |m|
    ensures Flip(Flip(m, j), j) == m
  {
    hide Mask;
    ToggleTwice(m[j / 8], Mask(j % 8));
  }

  lemma FlipBit(m: seq<Byte>, j: nat, k: nat)
    requires j < 8 * |m| && k < 8 * |m|
    ensures Bits(Flip(m, j))[k] == (Bits(m)[k] != (k == j))
  {
    hide Toggle, Test, Bits, Bit;
    BitsAt(m, k);
    BitsAt(Flip(m, j), k);
    ToggleTest(m[j / 8], j % 8, k % 8);
  }

  lemma {:induction false} XorSumFlip(b: seq<bool>, c: seq<bool>, j: nat, n: nat, offset: nat)
    requires n <= |b| == |c| && offset + n <= 112 && offset + j < 112
    requires forall k :: 0 <= k < |b| ==> c[k] == (b[k] != (k == j))
    ensures XorSum(c, n, offset)
         == if j < n then Add(XorSum(b, n, offset), T(offset + j)) else XorSum(b, n, offset)
  {
    hide T, Add, Gate;
    if n > 0 {
      var s, w := XorSum(b, n - 1, offset), T(offset + n - 1);
      XorSumFlip(b, c, j, n - 1, offset);
      if j < n - 1 { AddSwap(s, T(offset + j), Gate(b[n - 1], w)); }
      else if j == n - 1 { GateNot(s, b[n - 1], w); }
    }
  }

  lemma GateNot(s: bv32, p: bool, w: bv32)
    ensures Add(s, Gate(!p, w)) == Add(Add(s, Gate(p, w)), w)
  {
    hide Add;
    AddZero(s);
    AddZero(w);
    AddAssoc(s, w, w);
  }

  /** Checksum and parity field together, zero for a valid message. */
  function Syndrome(m: seq<Byte>): bv32
    requires IsMessage(m)
  {
    Add(Field(m), Checksum(m))
  }

  lemma SyndromeZero(m: seq<Byte>)
    requires IsMessage(m)
    ensures ValidMessage(m) <==> Syndrome(m) == 0
  {
    hide Checksum, Field;
    if Syndrome(m) == 0 { AddSelf(Field(m), Checksum(m)); }
    AddZero(Field(m));
  }

  /** Flipping a bit adds its weight to the syndrome. */
  lemma SyndromeFlip(m: seq<Byte>, j: nat)
    requires IsMessage(m) && j < 8 * |m|
    ensures Syndrome(Flip(m, j)) == Add(Syndrome(m), Weight(112 - 8 * |m| + j))
  {
    hide Add, Field, XorSum, Bits, T, Weight, Flip;
    var k := 112 - 8 * |m| + j;
    FieldFlip(m, j);
    forall i | 0 <= i < 8 * |m| ensures Bits(Flip(m, j))[i] == (Bits(m)[i] != (i == j)) { FlipBit(m, j, i); }
    XorSumFlip(Bits(m), Bits(Flip(m, j)), j, 8 * |m|, 112 - 8 * |m|);
    TableIsWeight(k);
    var f, c := Field(m), Checksum(m);
    AddZero(c);
    AddZero(f);
    if j < 8 * |m| - 24 { AddAssoc(f, c, Weight(k)); } else { AddSwap(f, Weight(k), c); }
  }

  /** No two bits have the same weight: the powers of x stay distinct over the 112 bits. */
  lemma {:induction false} WeightsDistinct(j: nat, k: nat)
    requires j < 112 && k < 112 && Weight(j) == Weight(k)
    ensures j == k
    decreases 112 - j
  {
    hide Weight, TimesX;
    WeightStep(j);
    WeightStep(k);
    if j < 111 && k < 111 {
      WeightSmall(j + 1);
      WeightSmall(k + 1);
      TimesXInjective(Weight(j + 1), Weight(k + 1));
      WeightsDistinct(j + 1, k + 1);
    }
  }

  lemma {:induction false} WeightSmall(j: nat)
    requires j < 112
    ensures 0 < Weight(j) < 0x1000000
    decreases 112 - j
  {
    hide Weight, TimesX;
    WeightStep(j);
    if j < 111 {
      WeightSmall(j + 1);
      TimesXSmall(Weight(j + 1));
      TimesXInjective(Weight(j + 1), 0);
      TimesXZero();
    }
  }

  lemma TimesXZero()
    ensures TimesX(0) == 0
  {
  }

  lemma SameTop(a: bv32, b: bv32)
    requires TimesX(a) == TimesX(b)
    ensures Top(a) == Top(b)
  {
  }

  lemma AddCancel(a: bv32, b: bv32, c: bv32)
    requires Add(a, c) == Add(b, c)
    ensures a == b
  {
  }

  lemma DoubleInjective(a: bv32, b: bv32)
    requires a < 0x1000000 && b < 0x1000000 && Double(a) == Double(b)
    ensures a == b
  {
  }

  lemma TimesXInjective(a: bv32, b: bv32)
    requires a < 0x1000000 && b < 0x1000000
    ensures TimesX(a) == TimesX(b) ==> a == b
  {
    if TimesX(a) == TimesX(b) {
      SameTop(a, b);
      hide Add, Double, Top, Gate;
      AddCancel(Double(a), Double(b), Gate(Top(a), 0x1FFF409));
      DoubleInjective(a, b);
    }
  }

  // ---------------------------------------------------------------- the single-bit fixer

  /** The first bit from j on whose flip makes the message valid, or -1. */
  function FirstFix(m: seq<Byte>, j: nat): (r: int)
    requires IsMessage(m) && j <= 8 * |m|
    ensures r == -1 || j <= r < 8 * |m|
    decreases 8 * |m| - j
  {
    if j == 8 * |m| then -1
    else if ValidMessage(Flip(m, j)) then j
    else FirstFix(m, j + 1)
  }

  method FixSingleBitErrors(msg: array<Byte>, bits: nat) returns (r: int)
    requires bits == 56 || bits == 112
    requires bits / 8 <= msg.Length
    modifies msg
    ensures r == FirstFix(old(msg[..bits / 8]), 0)
    ensures msg[..bits / 8] == if r == -1 then old(msg[..bits / 8]) else Flip(old(msg[..bits / 8]), r)
    ensures msg[bits / 8..] == old(msg[bits / 8..])
  {
    hide ValidMessage, Flip, Toggle;
    var n := bits / 8;
    ghost var m := msg[..n];
    var aux := new Byte[14];
    for j := 0 to bits
      invariant msg[..] == old(msg[..])
      invariant FirstFix(m, 0) == FirstFix(m, j)
    {
      Copy(msg, aux, n);
      FlipInPlace(aux, n, j);
      var ok := Matches(aux, bits);
      if ok {
        Copy(aux, msg, n);
        return j;
      }
    }
    r := -1;
  }

  method FlipInPlace(a: array<Byte>, n: nat, j: nat)
    requires n <= a.Length && j < 8 * n
    modifies a
    ensures a[..n] == Flip(old(a[..n]), j)
  {
    hide Toggle;
    a[j / 8] := Toggle(a[j / 8], j % 8);
  }

  /** Whether the parity field agrees with the checksum. */
  method Matches(a: array<Byte>, bits: nat) returns (ok: bool)
    requires bits == 56 || bits == 112
    requires bits / 8 <= a.Length
    ensures ok == ValidMessage(a[..bits / 8])
  {
    hide Checksum, Word;
    var n := bits / 8;
    var crc1 := Word(a[n - 3], a[n - 2], a[n - 1]);
    var crc2 := ComputeChecksum(a, bits);
    ok := crc1 == crc2;
  }

  method Copy(source: array<Byte>, target: array<Byte>, n: nat)
    requires n <= source.Length && n <= target.Length && source != target
    modifies target
    ensures target[..n] == source[..n] && target[n..] == old(target[n..])
  {
    for i := 0 to n
      invariant target[..i] == source[..i] && target[n..] == old(target[n..])
    {
      target[i] := source[i];
    }
  }

  /** At most one flip makes a message valid, and the fixer finds it. */
  lemma FixerFindsTheBit(m: seq<Byte>, k: nat)
    requires IsMessage(m) && k < 8 * |m|
    ensures FirstFix(m, 0) == k <==> ValidMessage(Flip(m, k))
  {
    hide ValidMessage, Flip;
    var r := FirstFix(m, 0);
    FirstFixSound(m, 0);
    if ValidMessage(Flip(m, k)) {
      FirstFixComplete(m, 0, k);
      OneFix(m, r, k);
    }
  }

  lemma {:induction false} FirstFixSound(m: seq<Byte>, j: nat)
    requires IsMessage(m) && j <= 8 * |m|
    ensures FirstFix(m, j) != -1 ==> ValidMessage(Flip(m, FirstFix(m, j)))
    decreases 8 * |m| - j
  {
    hide ValidMessage, Flip;
    if j < 8 * |m| && !ValidMessage(Flip(m, j)) { FirstFixSound(m, j + 1); }
  }

  lemma {:induction false} FirstFixComplete(m: seq<Byte>, j: nat, k: nat)
    requires IsMessage(m) && j <= k < 8 * |m| && ValidMessage(Flip(m, k))
    ensures FirstFix(m, j) != -1
    decreases k - j
  {
    hide ValidMessage, Flip;
    if j < k && !ValidMessage(Flip(m, j)) { FirstFixComplete(m, j + 1, k); }
  }

  lemma OneFix(m: seq<Byte>, j: nat, k: nat)
    requires IsMessage(m) && j < 8 * |m| && k < 8 * |m|
    requires ValidMessage(Flip(m, j)) && ValidMessage(Flip(m, k))
    ensures j == k
  {
    hide ValidMessage, Flip, Syndrome, Add, Weight;
    SyndromeZero(Flip(m, j));
    SyndromeZero(Flip(m, k));
    SyndromeFlip(m, j);
    SyndromeFlip(m, k);
    var o := 112 - 8 * |m|;
    AddSelf(Syndrome(m), Weight(o + j));
    AddSelf(Syndrome(m), Weight(o + k));
    WeightsDistinct(o + j, o + k);
  }

  /** A valid message with one flipped bit is restored, and a valid message is left alone. */
  lemma SingleErrorCorrected(m: seq<Byte>, k: nat)
    requires IsMessage(m) && ValidMessage(m) && k < 8 * |m|
    ensures FirstFix(Flip(m, k), 0) == k && Flip(Flip(m, k), k) == m
    ensures !ValidMessage(Flip(m, k))
    ensures FirstFix(m, 0) == -1
  {
    hide ValidMessage, Flip, Syndrome, Add, Weight;
    FlipTwice(m, k);
    FixerFindsTheBit(Flip(m, k), k);
    SingleErrorDetected(m, k);
    FirstFixSound(m, 0);
    if FirstFix(m, 0) != -1 { SingleErrorDetected(m, FirstFix(m, 0)); }
  }

  lemma SingleErrorDetected(m: seq<Byte>, k: nat)
    requires IsMessage(m) && ValidMessage(m) && k < 8 * |m|
    ensures !ValidMessage(Flip(m, k))
  {
    hide ValidMessage, Flip, Syndrome, Add, Weight;
    SyndromeZero(m);
    SyndromeZero(Flip(m, k));
    SyndromeFlip(m, k);
    AddZero(Weight(112 - 8 * |m| + k));
    WeightSmall(112 - 8 * |m| + k);
  }

  /** Two errors never look like none: valid messages differ in at least three bits. */
  lemma DoubleErrorDetected(m: seq<Byte>, j: nat, k: nat)
    requires IsMessage(m) && ValidMessage(m) && j < 8 * |m| && k < 8 * |m| && j != k
    ensures !ValidMessage(Flip(Flip(m, j), k))
  {
    hide ValidMessage, Flip;
    FlipTwice(m, j);
    if ValidMessage(Flip(Flip(m, j), k)) { OneFix(Flip(m, j), j, k); }
  }

  // ---------------------------------------------------------------- an odd number of errors

  /** Whether an odd number of the top n bits of 24 are set. */
  function OddTop(r: bv32, n: nat): bool {
    if n == 0 then false else OddTop(r, n - 1) != Bit24(r, n - 1)
  }

  predicate OddWeight(r: bv32) {
    OddTop(r, 24)
  }

  lemma {:induction false} OddTopAdd(a: bv32, b: bv32, n: nat)
    ensures OddTop(Add(a, b), n) == (OddTop(a, n) != OddTop(b, n))
  {
    hide Add, Bit24;
    if n > 0 {
      OddTopAdd(a, b, n - 1);
      Bit24Add(a, b, n - 1);
    }
  }

  lemma OddAdd(a: bv32, b: bv32)
    ensures OddWeight(Add(a, b)) == (OddWeight(a) != OddWeight(b))
  {
    OddTopAdd(a, b, 24);
  }

  lemma {:induction false} OddTopDouble(r: bv32, n: nat)
    ensures OddTop(Double(r), n) == (OddTop(r, n + 1) != Top(r))
  {
    hide Double, Top;
    assert Bit24(r, 0) == Top(r);
    if n > 0 {
      OddTopDouble(r, n - 1);
      assert Bit24(Double(r), n - 1) == Bit24(r, n);
    }
  }

  lemma OddDouble(r: bv32)
    ensures OddWeight(Double(r)) == (OddWeight(r) != Top(r))
  {
    LowNone(r);
    hide Double, Top, Bit24, Low;
    OddTopDouble(r, 23);
    DoubleLow(r, 0);
    Bit24Vanishes(Double(r), 1, 23);
  }

  lemma {:induction false} OddTopZero(r: bv32, n: nat)
    requires r & 0xFFFFFF == 0
    ensures !OddTop(r, n)
  {
    hide Bit24;
    if n > 0 {
      OddTopZero(r, n - 1);
      Bit24Above(r, n - 1);
    }
  }

  /** A multiple of x + 1 has an even number of terms, but for those beyond 24 bits. */
  lemma OddTelescope(q: bv32)
    ensures OddWeight(Add(q, Double(q))) == Top(q)
  {
    hide OddWeight, Add, Double, Top;
    OddAdd(q, Double(q));
    OddDouble(q);
  }

  lemma Telescopes()
    ensures Double(0x800000) == 0x1000000 && Top(0x800000)
    ensures Add(0x7FFFFF, Double(0x7FFFFF)) == Add(1, 0x800000) && !Top(0x7FFFFF)
    ensures Add(0x555000, Double(0x555000)) == 0xFFF000 && !Top(0x555000)
    ensures Add(0x3F8, Double(0x3F8)) == 0x408 && !Top(0x3F8)
    ensures Add(Add(0xFFF000, 0x408), Add(1, 0x1000000)) == 0x1FFF409
  {
  }

  lemma OddValues()
    ensures !OddWeight(0) && OddWeight(1) && OddWeight(0x1FFF409)
  {
    OddTopZero(0, 24);
    OddTopZero(0x1000000, 24);
    Telescopes();
    hide OddTop, Add, Double, Top;
    OddDouble(0x800000);
    OddTelescope(0x7FFFFF);
    OddTelescope(0x555000);
    OddTelescope(0x3F8);
    OddAdd(1, 0x800000);
    OddAdd(1, 0x1000000);
    OddAdd(0xFFF000, 0x408);
    OddAdd(Add(0xFFF000, 0x408), Add(1, 0x1000000));
  }

  /** The generator has an even number of terms, its leading one among them, so multiplying by x keeps a
      remainder's parity. */
  lemma OddTimesX(r: bv32)
    ensures OddWeight(TimesX(r)) == OddWeight(r)
  {
    hide OddWeight, Add, Double, Top;
    OddAdd(Double(r), Gate(Top(r), 0x1FFF409));
    OddDouble(r);
    OddValues();
  }

  lemma {:induction false} WeightsOdd(j: nat)
    requires j < 112
    ensures OddWeight(Weight(j))
    decreases 112 - j
  {
    hide OddWeight, Weight, TimesX;
    WeightStep(j);
    OddValues();
    if j < 111 {
      WeightsOdd(j + 1);
      OddTimesX(Weight(j + 1));
    }
  }

  /** The message with the listed bits flipped, one after the other. */
  function FlipAll(m: seq<Byte>, flips: seq<nat>): (r: seq<Byte>)
    requires IsMessage(m) && forall i :: 0 <= i < |flips| ==> flips[i] < 8 * |m|
    ensures |r| == |m|
  {
    if flips == [] then m else Flip(FlipAll(m, flips[..|flips| - 1]), flips[|flips| - 1])
  }

  lemma {:induction false} OddSyndrome(m: seq<Byte>, flips: seq<nat>)
    requires IsMessage(m) && ValidMessage(m) && forall i :: 0 <= i < |flips| ==> flips[i] < 8 * |m|
    ensures OddWeight(Syndrome(FlipAll(m, flips))) == (|flips| % 2 == 1)
  {
    hide OddWeight, Syndrome, ValidMessage, Flip, Weight, Add;
    if flips == [] {
      SyndromeZero(m);
      OddValues();
    } else {
      var n := |flips| - 1;
      var was, j := FlipAll(m, flips[..n]), flips[n];
      OddSyndrome(m, flips[..n]);
      SyndromeFlip(was, j);
      WeightsOdd(112 - 8 * |m| + j);
      OddAdd(Syndrome(was), Weight(112 - 8 * |m| + j));
    }
  }

  /** No odd number of errors, wherever they fall, looks like none: with the lemmas above, valid messages
      differ in at least four bits. */
  lemma OddErrorsDetected(m: seq<Byte>, flips: seq<nat>)
    requires IsMessage(m) && ValidMessage(m) && |flips| % 2 == 1
    requires forall i :: 0 <= i < |flips| ==> flips[i] < 8 * |m|
    ensures !ValidMessage(FlipAll(m, flips))
  {
    hide OddWeight, Syndrome, ValidMessage, FlipAll;
    OddSyndrome(m, flips);
    SyndromeZero(FlipAll(m, flips));
    OddValues();
  }

  // ---------------------------------------------------------------- the two-bit fixer

  /** The two repaired bits, which the source packs into one integer. */
  datatype Pair = NoPair | Pair(first: nat, second: nat)

  /** The first pair of flips from (j, i) on that makes the message valid. */
  function FirstPair(m: seq<Byte>, j: nat, i: nat): (r: Pair)
    requires IsMessage(m) && j < i <= 8 * |m|
    ensures r.Pair? ==> j <= r.first < r.second < 8 * |m|
    decreases 8 * |m| - j, 8 * |m| - i
  {
    if i < 8 * |m| then
      if ValidMessage(Flip(Flip(m, j), i)) then Pair(j, i) else FirstPair(m, j, i + 1)
    else if j + 2 < 8 * |m| then FirstPair(m, j + 1, j + 2)
    else NoPair
  }

  lemma {:induction false} FirstPairSound(m: seq<Byte>, j: nat, i: nat)
    requires IsMessage(m) && j < i <= 8 * |m|
    ensures var r := FirstPair(m, j, i); r.Pair? ==> ValidMessage(Flip(Flip(m, r.first), r.second))
    decreases 8 * |m| - j, 8 * |m| - i
  {
    hide ValidMessage, Flip;
    if i < 8 * |m| {
      if !ValidMessage(Flip(Flip(m, j), i)) { FirstPairSound(m, j, i + 1); }
    } else if j + 2 < 8 * |m| {
      FirstPairSound(m, j + 1, j + 2);
    }
  }

  lemma {:induction false} FirstPairComplete(m: seq<Byte>, j: nat, i: nat, a: nat, b: nat)
    requires IsMessage(m) && j < i <= 8 * |m|
    requires a < b < 8 * |m| && ValidMessage(Flip(Flip(m, a), b)) && (j < a || (j == a && i <= b))
    ensures FirstPair(m, j, i).Pair?
    decreases 8 * |m| - j, 8 * |m| - i
  {
    hide ValidMessage, Flip;
    if i < 8 * |m| {
      if !ValidMessage(Flip(Flip(m, j), i)) { FirstPairComplete(m, j, i + 1, a, b); }
    } else {
      FirstPairComplete(m, j + 1, j + 2, a, b);
    }
  }

  method FixTwoBitsErrors(msg: array<Byte>, bits: nat) returns (r: Pair)
    requires bits == 56 || bits == 112
    requires bits / 8 <= msg.Length
    modifies msg
    ensures r == FirstPair(old(msg[..bits / 8]), 0, 1)
    ensures msg[..bits / 8] == if r == NoPair then old(msg[..bits / 8])
                               else Flip(Flip(old(msg[..bits / 8]), r.first), r.second)
    ensures msg[bits / 8..] == old(msg[bits / 8..])
  {
    hide ValidMessage, Flip, Toggle;
    var n := bits / 8;
    ghost var m := msg[..n];
    var aux := new Byte[14];
    var j := 0;
    while j + 1 < bits
      invariant j < bits
      invariant msg[..] == old(msg[..])
      invariant FirstPair(m, 0, 1) == if j + 1 < bits then FirstPair(m, j, j + 1) else NoPair
    {
      for i := j + 1 to bits
        invariant msg[..] == old(msg[..])
        invariant FirstPair(m, 0, 1) == FirstPair(m, j, i)
      {
        Copy(msg, aux, n);
        FlipInPlace(aux, n, j);
        FlipInPlace(aux, n, i);
        var ok := Matches(aux, bits);
        if ok {
          Copy(aux, msg, n);
          return Pair(j, i);
        }
      }
      j := j + 1;
    }
    r := NoPair;
  }
}
