/**
 * What mode_s_decode of main/mode-s.c makes of damaged frames: one or two flipped bits of a frame with its
 * own parity, from the received bytes to the message, address and error mark reported.
 */
module Repairs {
  import Basics
  import opened Parity
  import opened ModeS
  import opened Bursts

  /** A frame as its sender made it: a format with its own parity, and that parity clean. */
  predicate Sent(m: Frame) {
    (Format(m) == 11 || Format(m) == 17 || Format(m) == 18) && ValidMessage(Body(m, Format(m)))
  }

  /** The bits of a frame. */
  function Length(m: Frame): nat {
    if Format(m) == 11 then 56 else 112
  }

  /** The frame reported, under its own address, as accepted with the given mark. */
  predicate Reports(o: Outcome, m: Frame, errorbit: int) {
    && o.crcok && o.msg == m && o.t == Format(m) && o.iid == 0 && o.errorbit == errorbit
    && o.address == Word(m[1], m[2], m[3])
  }

  // ---------------------------------------------------------------- flipped frames

  lemma {:induction false} FlipBody(m: Frame, t: nat, k: nat)
    requires k < MsgBits(t)
    ensures Body(Flip(m, k), t) == Flip(Body(m, t), k) && Repaired(Flip(m, k), t, Body(m, t)) == m
  {
    hide Toggle;
  }

  lemma FormatBits(b: Byte, i: nat)
    requires i < 8
    ensures 5 <= i ==> FormatOf(Toggle(b, i)) == FormatOf(b)
    ensures i < 5 && FormatOf(b) == 17 ==>
              NearSquitter(FormatOf(Toggle(b, i))) && AsSquitter(Toggle(b, i)) == b && PatchedBit(Toggle(b, i)) == i
  {
  }

  lemma FormatKept(m: Frame, k: nat)
    requires 5 <= k < 112
    ensures Format(Flip(m, k)) == Format(m)
  {
    hide Toggle, FormatOf;
    if k < 8 { FormatBits(m[0], k); }
  }

  lemma BodyLength(m: Frame)
    requires Sent(m)
    ensures 8 * |Body(m, Format(m))| == Length(m)
  {
    hide FormatOf, ValidMessage;
  }

  /** A frame of a format with its own parity is not patched. */
  lemma NotPatched(cfg: Config, m: Frame)
    requires Format(m) == 11 || Format(m) == 17 || Format(m) == 18
    ensures Patch(cfg, m) == Work(m, Format(m), -1)
  {
    hide ValidMessage, AsSquitter, PatchedBit, Format;
  }

  // ---------------------------------------------------------------- clean and with one bit wrong

  /** A clean frame is accepted untouched. */
  lemma CleanIsReported(cfg: Config, cache: Cache, m: Frame, now: nat)
    requires Sent(m)
    ensures Reports(Decision(cfg, cache, m, now), m, -1)
    ensures Whitelists(Decision(cfg, cache, m, now)) <==> Format(m) != 18
  {
    hide ValidMessage, Syndrome, Format, Seen, IsCode, Code, Repair;
    NotPatched(cfg, m);
    SyndromeZero(Body(m, Format(m)));
  }

  /** A frame the check refuses, and whose residue is not an interrogator code, goes to the repairs. */
  lemma GoesToRepair(cfg: Config, cache: Cache, w: Frame, now: nat)
    requires cfg.fixErrors && (Format(w) == 11 || Format(w) == 17 || Format(w) == 18)
    requires !ValidMessage(Body(w, Format(w))) && (Format(w) == 11 ==> !IsCode(Syndrome(Body(w, 11))))
    ensures Decision(cfg, cache, w, now) == Repair(cfg, Outcome(w, Format(w), false, -1, 0, Address(w)))
  {
    hide ValidMessage, Syndrome, Format, Seen, IsCode, Code, Repair;
    NotPatched(cfg, w);
    SyndromeZero(Body(w, Format(w)));
  }

  /** With the repairs off such a frame is refused as it is. */
  lemma NotRepaired(cfg: Config, cache: Cache, w: Frame, now: nat)
    requires !cfg.fixErrors && (Format(w) == 11 || Format(w) == 17 || Format(w) == 18)
    requires !ValidMessage(Body(w, Format(w))) && (Format(w) == 11 ==> !IsCode(Syndrome(Body(w, 11))))
    ensures var o := Decision(cfg, cache, w, now); !o.crcok && o.msg == w && NextCache(cfg, cache, w, now) == cache
  {
    hide ValidMessage, Syndrome, Format, Seen, IsCode, Code, Repair;
    NotPatched(cfg, w);
    SyndromeZero(Body(w, Format(w)));
  }

  /** One bit wrong past the format: the message is put right and reported as it was sent, with the bit. */
  lemma OneBitPastFormat(cfg: Config, cache: Cache, m: Frame, k: nat, now: nat)
    requires Sent(m) && cfg.fixErrors && 5 <= k < Length(m)
    requires Format(m) == 11 ==> !IsCode(Syndrome(Body(Flip(m, k), 11)))
    ensures Reports(Decision(cfg, cache, Flip(m, k), now), m, k)
  {
    hide ValidMessage, Syndrome, Format, IsCode, Flip, Repaired, Body, FirstFix, Decision;
    var t := Format(m);
    BodyLength(m);
    FormatKept(m, k);
    FlipBody(m, t, k);
    SingleErrorCorrected(Body(m, t), k);
    FlipTwice(Body(m, t), k);
    GoesToRepair(cfg, cache, Flip(m, k), now);
  }

  /** One format bit of a DF17 frame wrong: the format patch puts it right. */
  lemma OneFormatBit(cfg: Config, cache: Cache, m: Frame, k: nat, now: nat)
    requires Sent(m) && Format(m) == 17 && cfg.fixErrors && k < 5
    ensures Reports(Decision(cfg, cache, Flip(m, k), now), m, k)
  {
    hide ValidMessage, Syndrome, FormatOf, NearSquitter, AsSquitter, PatchedBit, Toggle, Seen, IsCode, Code, Repair;
    FormatBits(m[0], k);
    var w := Flip(m, k);
    assert w[0 := m[0]] == m;
    assert Body(m, 17) == m;
    assert Patch(cfg, w) == Work(m, 17, k);
    SyndromeZero(m);
  }

  /** Of a DF11 frame, exactly the last seven bits leave a residue that is an interrogator code. */
  lemma CodeBits(m: Frame, k: nat)
    requires Sent(m) && Format(m) == 11 && k < 56
    ensures IsCode(Syndrome(Body(Flip(m, k), 11))) <==> 49 <= k
  {
    hide ValidMessage, Syndrome, Flip, Body, Weight, Add, IsCode;
    BodyLength(m);
    FlipBody(m, 11, k);
    SyndromeZero(Body(m, 11));
    SyndromeFlip(Body(m, 11), k);
    AddZero(Weight(56 + k));
    CodeWeights(56 + k);
  }

  predicate NoCodes(i: nat, n: nat)
    requires i < 14 && n <= 8
  {
    forall k :: 0 <= k < n ==> !IsCode(WeightRow(i)[k])
  }

  lemma Rows7() ensures NoCodes(7, 8) && NoCodes(8, 8) && NoCodes(9, 8) {}
  lemma Rows10() ensures NoCodes(10, 8) && NoCodes(11, 8) && NoCodes(12, 8) {}
  lemma Row13() ensures NoCodes(13, 1) && forall k :: 1 <= k < 8 ==> IsCode(WeightRow(13)[k]) {}

  lemma CodeWeights(j: nat)
    requires 56 <= j < 112
    ensures IsCode(Weight(j)) <==> 105 <= j
  {
    hide IsCode, WeightRow;
    Rows7();
    Rows10();
    Row13();
    var i := j / 8;
    assert i == 7 || i == 8 || i == 9 || i == 10 || i == 11 || i == 12 || i == 13;
    assert Weight(j) == WeightRow(i)[j % 8];
  }

  /** Any one bit of a DF17 frame wrong, any bit past the format of a DF18 frame, any such bit but the last
      seven of a DF11 frame: the frame is accepted and reported as sent, under the address it was sent
      with, marked with the bit, and kept out of the whitelist. */
  lemma OneBitIsRepaired(cfg: Config, cache: Cache, m: Frame, k: nat, now: nat)
    requires Sent(m) && cfg.fixErrors && k < Length(m)
    requires match Format(m) case 17 => true case 18 => 5 <= k case _ => 5 <= k < 49
    ensures Reports(Decision(cfg, cache, Flip(m, k), now), m, k)
    ensures NextCache(cfg, cache, Flip(m, k), now) == cache
  {
    hide Format, ValidMessage, Decision, Syndrome, IsCode, Flip;
    if k < 5 {
      OneFormatBit(cfg, cache, m, k, now);
    } else {
      if Format(m) == 11 { CodeBits(m, k); }
      OneBitPastFormat(cfg, cache, m, k, now);
    }
  }

  /** One of the last seven bits of a DF11 frame wrong reads as an interrogator code: the frame is accepted
      exactly when its address is in the cache, with the error left in it. */
  lemma LowBitReadsAsCode(cfg: Config, cache: Cache, m: Frame, k: nat, now: nat)
    requires Sent(m) && Format(m) == 11 && 49 <= k < 56
    ensures var o := Decision(cfg, cache, Flip(m, k), now);
            o.msg == Flip(m, k) && (o.crcok <==> Seen(cache, Word(m[1], m[2], m[3]), now)) && (o.crcok ==> o.iid != 0)
  {
    hide ValidMessage, Syndrome, FormatOf, Seen, IsCode, Code, Repair, Body;
    var w := Flip(m, k);
    FormatKept(m, k);
    CodeBits(m, k);
    NotPatched(cfg, w);
    FlipBody(m, 11, k);
    SingleErrorDetected(Body(m, 11), k);
    SyndromeZero(Body(w, 11));
    SyndromeSmall(Body(w, 11));
    CodeNotZero(Syndrome(Body(w, 11)));
  }

  // ---------------------------------------------------------------- two bits wrong

  lemma FlipBodyTwice(m: Frame, a: nat, b: nat)
    requires Format(m) == 17 && a < 112 && b < 112
    ensures Body(m, 17) == m && Repaired(m, 17, Flip(Flip(m, a), b)) == Flip(Flip(m, a), b)
  {
  }

  lemma NoSingleFix(m: Frame, j: nat, k: nat)
    requires ValidMessage(m) && j < k < 112
    ensures FirstFix(Flip(Flip(m, j), k), 0) == -1 && !ValidMessage(Flip(Flip(m, j), k))
  {
    hide ValidMessage, Flip;
    DoubleErrorDetected(m, j, k);
    var w := Flip(Flip(m, j), k);
    FirstFixSound(w, 0);
    var i := FirstFix(w, 0);
    if i != -1 {
      assert FlipAll(m, []) == m;
      assert FlipAll(m, [j]) == Flip(m, j) by { assert [j][..0] == []; }
      assert FlipAll(m, [j, k]) == w by { assert [j, k][..1] == [j]; }
      assert FlipAll(m, [j, k, i]) == Flip(w, i) by { assert [j, k, i][..2] == [j, k]; }
      OddErrorsDetected(m, [j, k, i]);
    }
  }

  /** Two bits wrong past the format of a DF17 frame. The aggressive decoder reports a valid message under
      that message's own address, marked with the two bits it flipped, and it is the message sent unless
      the flipped and the wrong bits span more than 24; any other refuses the frame as it is. */
  lemma TwoBitsRepaired(cfg: Config, cache: Cache, m: Frame, j: nat, k: nat, now: nat)
    requires Sent(m) && Format(m) == 17 && cfg.fixErrors && 5 <= j < k < 112
    ensures var o, w := Decision(cfg, cache, Flip(Flip(m, j), k), now), Flip(Flip(m, j), k);
            && NextCache(cfg, cache, w, now) == cache
            && (!cfg.aggressive ==> !o.crcok && o.msg == w && o.errorbit == -1)
            && (cfg.aggressive ==>
                  exists a, b :: 0 <= a < b < 112 && o.msg == Flip(Flip(w, a), b) && ValidMessage(o.msg)
                    && o.crcok && o.errorbit == a + 256 * b && o.address == Word(o.msg[1], o.msg[2], o.msg[3])
                    && (o.msg == m || Basics.Greatest(k, b) - Basics.Least(j, a) >= 24))
  {
    hide ValidMessage, Syndrome, FormatOf, IsCode, Flip, FirstFix, FirstPair, Decision, Repaired;
    var w := Flip(Flip(m, j), k);
    FormatKept(m, j);
    FormatKept(Flip(m, j), k);
    assert Body(m, 17) == m && Body(w, 17) == w;
    NoSingleFix(m, j, k);
    GoesToRepair(cfg, cache, w, now);
    if cfg.aggressive {
      PairFoundIsThePair(m, j, k);
      FirstPairSound(w, 0, 1);
      var r := FirstPair(w, 0, 1);
      FlipBodyTwice(w, r.first, r.second);
      Unflip(m, j, k);
      var o := Decision(cfg, cache, w, now);
      assert o.msg == Flip(Flip(w, r.first), r.second) && o.errorbit == r.first + 256 * r.second;
      assert o.crcok;
      assert o.address == Address(o.msg);
      assert ValidMessage(o.msg);
      assert o.msg == m || Basics.Greatest(k, r.second) - Basics.Least(j, r.first) >= 24;
    }
  }

  // ---------------------------------------------------------------- whatever was received

  /** Every frame accepted under its own parity is reported under the address it carries as reported, and
      is valid as reported unless its residue was an interrogator's code. */
  lemma ReportedAsItIs(cfg: Config, cache: Cache, m: Frame, now: nat)
    ensures var o := Decision(cfg, cache, m, now);
            HasOwnParity(o.t) ==>
              && o.address == Word(o.msg[1], o.msg[2], o.msg[3])
              && (o.crcok && o.iid == 0 ==> ValidMessage(Body(o.msg, o.t)))
  {
    hide ValidMessage, Syndrome, Format, IsCode, Code, Seen, Repair, Patch, Body, Word;
    var w := Patch(cfg, m);
    var body := Body(w.msg, w.t);
    SyndromeZero(body);
    if Syndrome(body) != 0 && w.t == 11 && IsCode(Syndrome(body)) {
      SyndromeSmall(body);
      CodeNotZero(Syndrome(body));
    }
    RepairIsValid(cfg, Outcome(w.msg, w.t, false, w.errorbit, 0, Address(w.msg)));
  }

  lemma RepairIsValid(cfg: Config, plain: Outcome)
    requires plain.address == Address(plain.msg) && !plain.crcok
    ensures var o := Repair(cfg, plain);
            o.t == plain.t && o.iid == plain.iid && o.address == Address(o.msg) && (o.crcok ==> ValidMessage(Body(o.msg, o.t)))
  {
    hide ValidMessage, FirstFix, FirstPair, Flip;
    var body := Body(plain.msg, plain.t);
    FirstFixSound(body, 0);
    FirstPairSound(body, 0, 1);
  }
}
