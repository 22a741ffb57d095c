/**
 * Errors close together: a valid message is a multiple of the generator, so two of them never differ
 * within 24 consecutive bits only; and what that says of the two-bit fixer of main/mode-s.c.
 */
module Bursts {
  import Basics
  import opened Parity

  // ---------------------------------------------------------------- the parity field's bits

  function Doubled(r: bv32, n: nat): bv32 {
    if n == 0 then r else Double(Doubled(r, n - 1))
  }

  lemma {:induction false} BitDoubled(r: bv32, n: nat, i: nat)
    ensures Bit24(r, n + i) == Bit24(Doubled(r, n), i)
    decreases n
  {
    if n > 0 {
      BitDoubled(r, n - 1, i + 1);
      hide Double, Top;
    }
  }

  lemma Shifts(r: bv32)
    ensures Double(r) == r << 1 && Double(r << 1) == r << 2 && Double(r << 2) == r << 3 && Double(r << 3) == r << 4
    ensures Double(r << 4) == r << 5 && Double(r << 5) == r << 6 && Double(r << 6) == r << 7 && Double(r << 7) == r << 8
  {
  }

  lemma DoubledIs(r: bv32)
    ensures Doubled(r, 0) == r && Doubled(r, 1) == r << 1 && Doubled(r, 2) == r << 2 && Doubled(r, 3) == r << 3
    ensures Doubled(r, 4) == r << 4 && Doubled(r, 5) == r << 5 && Doubled(r, 6) == r << 6 && Doubled(r, 7) == r << 7
    ensures Doubled(r, 8) == r << 8
  {
    Shifts(r);
    hide Double;
    assert Doubled(r, 1) == r << 1;
    assert Doubled(r, 2) == r << 2;
    assert Doubled(r, 3) == r << 3;
    assert Doubled(r, 4) == r << 4;
    assert Doubled(r, 5) == r << 5;
    assert Doubled(r, 6) == r << 6;
    assert Doubled(r, 7) == r << 7;
  }

  lemma TopBits(r: bv32, a: Byte)
    requires (r >> 16) & 0xFF == a as bv32
    ensures Top(r) == Test(a, 0) && Top(r << 1) == Test(a, 1) && Top(r << 2) == Test(a, 2) && Top(r << 3) == Test(a, 3)
    ensures Top(r << 4) == Test(a, 4) && Top(r << 5) == Test(a, 5) && Top(r << 6) == Test(a, 6) && Top(r << 7) == Test(a, 7)
  {
  }

  /** The byte at the top of 24 bits, and the next one moved there. */
  predicate Leads(r: bv32, a: Byte) {
    (r >> 16) & 0xFF == a as bv32
  }

  function Moved(r: bv32): bv32 {
    r << 8
  }

  lemma TopByte(r: bv32, a: Byte, i: nat)
    requires i < 8 && Leads(r, a)
    ensures Bit24(r, i) == Test(a, i)
  {
    TopBits(r, a);
    DoubledIs(r);
    BitDoubled(r, i, 0);
    assert Bit24(Doubled(r, i), 0) == Top(Doubled(r, i));
    hide Top, Double, Bit24, Test, Doubled;
    assert i == 0 || i == 1 || i == 2 || i == 3 || i == 4 || i == 5 || i == 6 || i == 7;
  }

  lemma EightMore(r: bv32, i: nat)
    ensures Bit24(r, i + 8) == Bit24(Moved(r), i)
  {
    DoubledIs(r);
    BitDoubled(r, 8, i);
  }

  lemma WordBytes(a: Byte, b: Byte, c: Byte)
    ensures var w := Word(a, b, c); Leads(w, a) && Leads(Moved(w), b) && Leads(Moved(Moved(w)), c)
  {
  }

  lemma WordBit(a: Byte, b: Byte, c: Byte, k: nat)
    requires k < 24
    ensures Bit24(Word(a, b, c), k) == Test(if k < 8 then a else if k < 16 then b else c, k % 8)
  {
    WordBytes(a, b, c);
    var w := Word(a, b, c);
    hide Word, Bit24, Test, Leads, Moved;
    if k < 8 {
      TopByte(w, a, k);
    } else if k < 16 {
      EightMore(w, k - 8);
      TopByte(Moved(w), b, k - 8);
    } else {
      EightMore(w, k - 8);
      EightMore(Moved(w), k - 16);
      TopByte(Moved(Moved(w)), c, k - 16);
    }
  }

  lemma FieldBits(m: seq<Byte>, k: nat)
    requires IsMessage(m) && k < 24
    ensures Bits(m)[8 * |m| - 24 + k] == Bit24(Field(m), k)
  {
    hide Bits, Bit24, Test, Word;
    var n := |m|;
    BitsAt(m, 8 * n - 24 + k);
    WordBit(m[n - 3], m[n - 2], m[n - 1], k);
  }

  // ---------------------------------------------------------------- multiples of the generator

  /** The bits of a valid message, parity field and all, are a multiple of the generator. */
  lemma ValidIsMultiple(m: seq<Byte>) returns (q: Poly)
    requires IsMessage(m) && ValidMessage(m)
    ensures |q| == 8 * |m| - 24 && Bits(m) == TimesGenerator(q)
  {
    hide Bits, Horner, Bit24, TimesGenerator, Divides, Checksum, Field;
    var n := 8 * |m| - 24;
    ChecksumIsHorner(m);
    q := HornerDivides(Bits(m), n);
    DividesIs(Bits(m)[..n], q, Bits24(Checksum(m)));
    var left, right := Bits(m)[..n] + Zeros(24), Xor(TimesGenerator(q), Zeros(n) + Bits24(Checksum(m)));
    forall k | 0 <= k < n + 24 ensures Bits(m)[k] == TimesGenerator(q)[k] {
      assert left[k] == right[k];
      if n <= k { FieldBits(m, k - n); }
    }
  }

  lemma LastTerm()
    ensures Generator()[24]
  {
    assert Leads(Moved(Moved(0xFFF409)), 0x09) && Test(0x09, 7);
    hide Leads, Moved, Bit24, Test;
    TopByte(Moved(Moved(0xFFF409)), 0x09, 7);
    EightMore(Moved(0xFFF409), 7);
    EightMore(0xFFF409, 15);
  }

  /** Two multiples that agree but for 24 consecutive coefficients are one. */
  lemma {:induction false} MultiplesApart(p: Poly, q: Poly, s: nat)
    requires |p| == |q|
    requires forall k :: 0 <= k < |p| + 24 && !(s <= k < s + 24) ==> TimesGenerator(p)[k] == TimesGenerator(q)[k]
    ensures p == q
  {
    var n := |p| - 1;
    if |p| <= s {
      assert TimesGenerator(p)[..|p|] == TimesGenerator(q)[..|q|];
      QuotientUnique(p, q);
    } else {
      LastTerm();
      hide Generator;
      assert TimesGenerator(p)[n + 24] == p[n] && TimesGenerator(q)[n + 24] == q[n];
      forall k | 0 <= k < n + 24 && !(s <= k < s + 24) ensures TimesGenerator(p[..n])[k] == TimesGenerator(q[..n])[k] {
        assert TimesGenerator(p)[k] == TimesGenerator(q)[k];
      }
      MultiplesApart(p[..n], q[..n], s);
      assert p == p[..n] + [p[n]] && q == q[..n] + [q[n]];
    }
  }

  // ---------------------------------------------------------------- bursts

  /** Equal but for 24 consecutive bits. */
  predicate AgreeOutside(m: seq<Byte>, w: seq<Byte>, s: nat) {
    |m| == |w| && forall k :: 0 <= k < 8 * |m| && !(s <= k < s + 24) ==> Bits(m)[k] == Bits(w)[k]
  }

  /** However many bits within any 24 consecutive ones are wrong, a valid message no longer looks valid. */
  lemma BurstDetected(m: seq<Byte>, w: seq<Byte>, s: nat)
    requires IsMessage(m) && ValidMessage(m) && AgreeOutside(m, w, s) && m != w
    ensures !ValidMessage(w)
  {
    hide ValidMessage, TimesGenerator, Bits;
    if ValidMessage(w) {
      var p := ValidIsMultiple(m);
      var q := ValidIsMultiple(w);
      MultiplesApart(p, q, s);
      SameBits(m, w);
    }
  }

  // ---------------------------------------------------------------- the pair the fixer finds

  lemma FourFlips(m: seq<Byte>, j: nat, k: nat, a: nat, b: nat, x: nat)
    requires j < 8 * |m| && k < 8 * |m| && a < 8 * |m| && b < 8 * |m| && x < 8 * |m|
    ensures Bits(Flip(Flip(Flip(Flip(m, j), k), a), b))[x] == ((((Bits(m)[x] != (x == j)) != (x == k)) != (x == a)) != (x == b))
  {
    hide Bits, Flip;
    FlipBit(m, j, x);
    FlipBit(Flip(m, j), k, x);
    FlipBit(Flip(Flip(m, j), k), a, x);
    FlipBit(Flip(Flip(Flip(m, j), k), a), b, x);
  }

  /** After two errors the fixer always finds a pair that makes the message valid, and it is the pair in
      error unless the two pairs together span more than 24 bits. */
  lemma PairFoundIsThePair(m: seq<Byte>, j: nat, k: nat)
    requires IsMessage(m) && ValidMessage(m) && j < k < 8 * |m|
    ensures var r := FirstPair(Flip(Flip(m, j), k), 0, 1);
            && r.Pair? && (r == Pair(j, k) || Basics.Greatest(k, r.second) - Basics.Least(j, r.first) >= 24)
  {
    hide ValidMessage, Flip, Bits, FirstPair;
    var w := Flip(Flip(m, j), k);
    Unflip(m, j, k);
    FirstPairComplete(w, 0, 1, j, k);
    FirstPairSound(w, 0, 1);
    var a, b := FirstPair(w, 0, 1).first, FirstPair(w, 0, 1).second;
    var v, s := Flip(Flip(w, a), b), Basics.Least(j, a);
    if Basics.Greatest(k, b) - s < 24 {
      forall x | 0 <= x < 8 * |m| && !(s <= x < s + 24) ensures Bits(m)[x] == Bits(v)[x] { FourFlips(m, j, k, a, b, x); }
      if v != m { BurstDetected(m, v, s); }
      FourFlips(m, j, k, a, b, j);
      FourFlips(m, j, k, a, b, k);
    }
  }

  lemma Unflip(m: seq<Byte>, j: nat, k: nat)
    requires j < 8 * |m| && k < 8 * |m|
    ensures Flip(Flip(Flip(Flip(m, j), k), j), k) == m
  {
    hide Bits, Flip;
    var w := Flip(Flip(Flip(Flip(m, j), k), j), k);
    forall x | 0 <= x < 8 * |m| ensures Bits(w)[x] == Bits(m)[x] { FourFlips(m, j, k, j, k, x); }
    assert Bits(w) == Bits(m);
    SameBits(w, m);
  }
}
