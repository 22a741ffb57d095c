/**
 * What a transmitted squitter looks like in the samples main/mode-s.c scans: four preamble pulses, and
 * two samples a bit, the louder one first for a one. Such a squitter is sliced as it was sent and so
 * delivered; and one that is blurred, each sample leaking into the next, is delivered by the retry.
 */
module Signal {
  import opened Parity
  import opened ModeS
  import opened Scanner

  /** Twice this on average passes the noise filter. */
  const GAP: nat := 1275

  predicate Quiet(x: Sample, level: nat) {
    3 * x as int + 3 <= 2 * level
  }

  /** Pulses at the four places, every other sample that matters below two thirds of the weakest. */
  predicate Pulses(mag: seq<Sample>, p: nat, level: nat)
    requires p + FULL <= |mag|
  {
    && mag[p] >= level && mag[p + 2] >= level && mag[p + 7] >= level && mag[p + 9] >= level
    && Quiet(mag[p + 1], level) && Quiet(mag[p + 3], level) && Quiet(mag[p + 4], level) && Quiet(mag[p + 5], level)
    && Quiet(mag[p + 6], level) && Quiet(mag[p + 8], level) && Quiet(mag[p + 11], level) && Quiet(mag[p + 12], level)
    && Quiet(mag[p + 13], level) && Quiet(mag[p + 14], level)
  }

  /** Two samples show bit k of a message: their order does, or, too near to tell by, they stand for the
      bit before. */
  predicate Shows(first: int, second: int, m: seq<Byte>, k: nat)
    requires k < 8 * |m|
  {
    if k > 0 && -256 < first - second < 256 then Bit(m, k) == Bit(m, k - 1)
    else first != second && (first > second <==> Bit(m, k))
  }

  predicate Carries(s: Payload, m: seq<Byte>) {
    |m| <= 14 && forall k :: 0 <= k < 8 * |m| ==> Shows(s[2 * k], s[2 * k + 1], m, k)
  }

  /** The samples of the first n bits are as far apart, on average, as the noise filter wants. */
  predicate LoudOver(s: Payload, n: nat)
    requires n <= LONG_BITS
  {
    Contrast(s, n) >= GAP * n
  }

  /** A clean squitter, as many bytes as its format says. */
  predicate Squitter(m: seq<Byte>) {
    IsMessage(m) && ValidMessage(m) && FormatOf(m[0]) == if |m| == 7 then 11 else 17
  }

  predicate Transmitted(mag: seq<Sample>, p: nat, m: seq<Byte>, level: nat)
    requires p + FULL <= |mag|
  {
    && Squitter(m) && Pulses(mag, p, level)
    && Carries(PayloadAt(mag, p), m) && LoudOver(PayloadAt(mag, p), 8 * |m|)
  }

  // ---------------------------------------------------------------- sliced as sent

  lemma PulsesPass(mag: seq<Sample>, p: nat, level: nat)
    requires p + FULL <= |mag| && Pulses(mag, p, level)
    ensures Preamble(mag, p)
  {
  }

  lemma {:induction false} SlicedAsSent(s: Payload, m: seq<Byte>, k: nat)
    requires Carries(s, m) && k < 8 * |m|
    ensures Slice(s, k) == if Bit(m, k) then 1 else 0
  {
    hide Bit;
    assert Shows(s[2 * k], s[2 * k + 1], m, k);
    if k > 0 { SlicedAsSent(s, m, k - 1); }
  }

  lemma NoErrors(s: Payload)
    ensures Errors(s, LONG_BITS) == 0 <==> s[0] != s[1]
  {
    hide Errors;
    ErrorsCount(s, LONG_BITS);
  }

  lemma PackedBitAsSent(s: Payload, m: seq<Byte>, i: nat, k: nat)
    requires Carries(s, m) && i < |m| <= 14 && k < 8 && Errors(s, LONG_BITS) == 0
    ensures Test(Pack(s)[i], k) == Test(m[i], k)
  {
    hide Pack, Slice, Errors, Test, Carries;
    CleanSlicing(s, 8 * i + k);
    SlicedAsSent(s, m, 8 * i + k);
    assert (8 * i + k) / 8 == i && (8 * i + k) % 8 == k;
  }

  lemma PackedAsSent(s: Payload, m: seq<Byte>)
    requires Carries(s, m) && m != []
    ensures s[0] != s[1] && Pack(s)[..|m|] == m
  {
    assert |m| <= 14 && Shows(s[2 * 0], s[2 * 0 + 1], m, 0);
    hide Pack, Errors, Test, Carries, Shows;
    NoErrors(s);
    forall i | 0 <= i < |m| ensures Pack(s)[i] == m[i] {
      forall k | 0 <= k < 8 ensures Test(Pack(s)[i], k) == Test(m[i], k) { PackedBitAsSent(s, m, i, k); }
      SameByte(Pack(s)[i], m[i]);
    }
  }

  /** These are all: an attempt packs a message without error exactly when its samples show it. */
  lemma PackedExactly(s: Payload, m: seq<Byte>)
    requires 0 < |m| <= 14
    ensures Errors(s, LONG_BITS) == 0 && Pack(s)[..|m|] == m <==> Carries(s, m)
  {
    hide Pack, Errors;
    NoErrors(s);
    if Carries(s, m) { PackedAsSent(s, m); }
    if Errors(s, LONG_BITS) == 0 && Pack(s)[..|m|] == m {
      forall k | 0 <= k < 8 * |m| ensures Shows(s[2 * k], s[2 * k + 1], m, k) {
        PackedBit(s, m, k);
        if k > 0 { PackedBit(s, m, k - 1); }
        hide Bit;
      }
    }
  }

  lemma PackedBit(s: Payload, m: seq<Byte>, k: nat)
    requires k < 8 * |m| && |m| <= 14 && Errors(s, LONG_BITS) == 0 && Pack(s)[..|m|] == m
    ensures Slice(s, k) == if Bit(m, k) then 1 else 0
  {
    hide Pack, Slice, Errors, Test;
    CleanSlicing(s, k);
    assert Pack(s)[k / 8] == m[k / 8];
  }

  lemma LoudEnough(s: Payload, frame: Frame)
    requires LoudOver(s, MsgBits(Format(frame)))
    ensures Delta(s, frame) >= 2550
  {
    hide Contrast, Format;
  }

  /** A transmitted squitter is one the scanner slices, as it was sent. */
  lemma TransmittedIsSliced(e: Env, p: nat, m: seq<Byte>, level: nat)
    requires p < e.Limit() && Transmitted(e.mag, p, m, level)
    ensures SquitterAt(e, p) && Body(FrameAt(e, p, false), FormatOf(m[0])) == m
  {
    hide Pulses, Carries, Preamble, Pack, Errors, LoudOver, ValidMessage, FormatOf, Delta;
    var s := PayloadAt(e.mag, p);
    PulsesPass(e.mag, p, level);
    PackedAsSent(s, m);
    NoErrors(s);
    assert Pack(s)[0] == m[0];
    LoudEnough(s, Pack(s));
  }

  /** It is delivered from its own samples, bit for bit, unless an accepted frame before it covers its
      start. */
  lemma TransmittedIsDelivered(e: Env, cache: Cache, p: nat, m: seq<Byte>, level: nat)
    requires p < e.Limit() && Transmitted(e.mag, p, m, level)
    ensures exists f :: f in Scan(e, Start(cache)).found && f.outcome.crcok && f.start <= p <= End(f)
                        && f.timestamp == (12 * e.base + 6 * f.start) % 0x1_0000_0000_0000_0000
                        && (f.start == p ==> !f.corrected && Body(f.outcome.msg, FormatOf(m[0])) == m)
  {
    hide Scan, Transmitted, SquitterAt, FrameAt, Body, End, Delta;
    TransmittedIsSliced(e, p, m, level);
    NoSquitterMissed(e, Start(cache), p);
    ScanOrdered(e, Start(cache));
  }

  // ---------------------------------------------------------------- blurred

  /** A sample beside a pulse is over a third of it. */
  predicate Leaks(mag: seq<Sample>, p: nat)
    requires 0 < p && p + FULL <= |mag|
  {
    || 3 * mag[p + 3] as int > mag[p + 2] || 3 * mag[p + 10] as int > mag[p + 9]
    || 3 * mag[p + 6] as int > mag[p + 7] || 3 * mag[p - 1] as int > mag[p + 1]
  }

  /** Two samples of a blurred bit. After a one the first may be short by less than a quarter for another
      one, and must leave 256 even when raised so for a zero; after a zero it may be over by less than a
      fifth of itself for another zero, and must leave 256 even when lowered so for a one. Nothing is
      so loud that raising it would leave sixteen bits. */
  predicate BlurredShows(first: int, second: int, bit: bool, previous: bool) {
    if previous then
      5 * first < 4 * 65536 && if bit then 5 * first >= 4 * (second + 1) else 5 * first < 4 * (second - 255)
    else
      if bit then 4 * first >= 5 * (second + 256) else 4 * first < 5 * (second + 1)
  }

  predicate CarriesBlurred(s: Payload, m: seq<Byte>) {
    && 0 < |m| <= 14 && s[0] != s[1] && (s[0] > s[1] <==> Bit(m, 0))
    && forall k :: 0 < k < 8 * |m| ==> BlurredShows(s[2 * k], s[2 * k + 1], Bit(m, k), Bit(m, k - 1))
  }

  lemma {:induction false} PhasedAsSent(s: Payload, m: seq<Byte>, k: nat)
    requires CarriesBlurred(s, m) && k < 8 * |m|
    ensures Phased(s, k) > s[2 * k + 1] <==> Bit(m, k)
    ensures Shows(Phased(s, k), s[2 * k + 1], m, k)
  {
    hide Bit;
    if k > 0 {
      PhasedAsSent(s, m, k - 1);
      assert BlurredShows(s[2 * k], s[2 * k + 1], Bit(m, k), Bit(m, k - 1));
    }
  }

  /** Phase correction makes of a blurred message one that is shown. */
  lemma CorrectedCarries(s: Payload, m: seq<Byte>)
    requires CarriesBlurred(s, m)
    ensures Carries(Corrected(s), m)
  {
    hide Phased, CarriesBlurred, Shows;
    assert |m| <= 14 by { BlurredLength(s, m); }
    forall k | 0 <= k < 8 * |m| ensures Shows(Corrected(s)[2 * k], Corrected(s)[2 * k + 1], m, k) { PhasedAsSent(s, m, k); }
  }

  lemma BlurredLength(s: Payload, m: seq<Byte>)
    requires CarriesBlurred(s, m)
    ensures 0 < |m| <= 14
  {
  }

  /** The retry at offset p slices a clean squitter, and the first attempt there is never accepted. */
  predicate RetryAt(e: Env, p: nat)
    requires p < e.Limit()
  {
    && Preamble(e.mag, p) && Loud(e, p, false)
    && Loud(e, p, true) && FewErrors(e, p, true) && CleanSquitter(FrameAt(e, p, true))
  }

  ghost predicate Refused(e: Env, p: nat)
    requires p < e.Limit()
  {
    FewErrors(e, p, false) ==> forall cache: Cache, now: nat :: !Decision(e.cfg, cache, FrameAt(e, p, false), now).crcok
  }

  /** Every such squitter is delivered by the retry, unless it starts inside an accepted frame. */
  lemma {:induction false} NoRetryMissed(e: Env, s: State, p: nat)
    requires p < e.Limit() && RetryAt(e, p) && Refused(e, p) && (s.j < p || (s.j == p && !s.corrected))
    ensures exists f :: f in Scan(e, s).found && f.outcome.crcok && f.start <= p <= End(f)
                        && (f.start == p ==> f.corrected && f.outcome.msg == FrameAt(e, p, true))
    decreases e.Limit() - s.j, if s.corrected then 0 else 1
  {
    hide Loud, FewErrors, FrameAt, Preamble, NextCache, CleanSquitter, Delta, Decision;
    var t := Step(e, s);
    StepAdvances(e, s);
    if s.j == p {
      assert t.j == p && t.corrected;
      StepAdvances(e, t);
      RetryDelivers(e, t);
      ScanKeeps(e, Step(e, t), Deliver(e, t));
    } else if t.j > p {
      assert Deliver(e, s) in t.found;
      ScanKeeps(e, t, Deliver(e, s));
    } else {
      assert t.j == p ==> !t.corrected;
      NoRetryMissed(e, t, p);
    }
  }

  lemma RetryDelivers(e: Env, t: State)
    requires t.j < e.Limit() && RetryAt(e, t.j) && t.corrected
    ensures var f := Deliver(e, t);
            f in Step(e, t).found && f.outcome.crcok && f.start == t.j && f.corrected && f.outcome.msg == FrameAt(e, t.j, true)
  {
    hide Loud, FewErrors, FrameAt, Preamble, NextCache, CleanSquitter, Delta, Decision;
    CleanAccepted(e.cfg, t.cache, FrameAt(e, t.j, true), e.clock(t.decodes));
    CleanUntouched(e.cfg, t.cache, FrameAt(e, t.j, true), e.clock(t.decodes));
  }

  /** A squitter received out of phase, past the buffer's first sample, loud enough whichever length the
      first attempt takes it for, and not accepted by that: the retry delivers it, bit for bit, unless an
      accepted frame before it covers its start. */
  lemma BlurredIsDelivered(e: Env, cache: Cache, p: nat, m: seq<Byte>, level: nat)
    requires 0 < p < e.Limit() && Squitter(m) && Pulses(e.mag, p, level) && Leaks(e.mag, p) && Refused(e, p)
    requires var s := PayloadAt(e.mag, p); CarriesBlurred(s, m) && LoudOver(s, 56) && LoudOver(s, 112)
    ensures exists f :: f in Scan(e, Start(cache)).found && f.outcome.crcok && f.start <= p <= End(f)
                        && (f.start == p ==> f.corrected && Body(f.outcome.msg, FormatOf(m[0])) == m)
  {
    hide Scan, FrameAt, Body, End, Pulses, CarriesBlurred, LoudOver, Refused, Leaks, Squitter, Preamble, Loud, FewErrors;
    BlurredIsRetried(e, p, m, level);
    NoRetryMissed(e, Start(cache), p);
  }

  lemma BlurredIsRetried(e: Env, p: nat, m: seq<Byte>, level: nat)
    requires 0 < p < e.Limit() && Squitter(m) && Pulses(e.mag, p, level) && Leaks(e.mag, p)
    requires var s := PayloadAt(e.mag, p); CarriesBlurred(s, m) && LoudOver(s, 56) && LoudOver(s, 112)
    ensures RetryAt(e, p) && Body(FrameAt(e, p, true), FormatOf(m[0])) == m
  {
    hide Pulses, CarriesBlurred, Carries, Preamble, Pack, Errors, LoudOver, ValidMessage, FormatOf, Delta, Corrected;
    var s := PayloadAt(e.mag, p);
    assert OutOfPhase(e.mag, p);
    PulsesPass(e.mag, p, level);
    CorrectedCarries(s, m);
    PackedAsSent(Corrected(s), m);
    NoErrors(Corrected(s));
    assert Pack(Corrected(s))[0] == m[0];
    LoudEnough(s, Pack(s));
    LoudEnough(s, Pack(Corrected(s)));
  }

  /** Too loud a bit is not raised but wrapped: after a one, a sample of 52429 or more loses 65536, and a
      one that no noise could hide is taken for a zero. */
  lemma LoudOneWraps(s: Payload)
    requires s[0] > s[1] && 52429 <= s[2] < 60000 && 10000 <= s[3] < 40000
    ensures Slice(s, 1) == 1 && Slice(Corrected(s), 1) == 0
  {
    assert Phased(s, 1) == s[2] as int * 5 / 4 - 65536;
    assert Corrected(s)[2] == Phased(s, 1) && Corrected(s)[3] == s[3];
  }

  // ---------------------------------------------------------------- a squitter on its own

  predicate PulseAt(k: nat) {
    k == 0 || k == 2 || k == 7 || k == 9
  }

  /** The samples of a squitter on its own, in silence. */
  function Modulate(m: seq<Byte>, high: Sample): (mag: seq<Sample>)
    requires IsMessage(m)
    ensures |mag| == FULL + 1
  {
    seq(FULL + 1, k requires 0 <= k < FULL + 1 =>
      if k < PREAMBLE then (if PulseAt(k) then high else 0)
      else if k < PREAMBLE + 16 * |m| && Bit(m, (k - PREAMBLE) / 2) == (k % 2 == 0) then high else 0)
  }

  lemma ModulatedBit(m: seq<Byte>, high: Sample, k: nat)
    requires IsMessage(m) && k < 8 * |m|
    ensures var s := PayloadAt(Modulate(m, high), 0);
            s[2 * k] == (if Bit(m, k) then high else 0) && s[2 * k + 1] == if Bit(m, k) then 0 else high
  {
    hide Bit;
    var mag := Modulate(m, high);
    assert PayloadAt(mag, 0)[2 * k] == mag[PREAMBLE + 2 * k] && PayloadAt(mag, 0)[2 * k + 1] == mag[PREAMBLE + 2 * k + 1];
  }

  lemma {:induction false} ModulatedContrast(m: seq<Byte>, high: Sample, n: nat)
    requires IsMessage(m) && n <= 8 * |m|
    ensures Contrast(PayloadAt(Modulate(m, high), 0), n) == high * n
  {
    hide Bit, Modulate, PayloadAt, Contrast, Distance;
    var s := PayloadAt(Modulate(m, high), 0);
    if n == 0 {
      NoContrast(s);
    } else {
      ModulatedContrast(m, high, n - 1);
      ModulatedBit(m, high, n - 1);
      ContrastNext(s, n - 1, high);
      assert high * n == high * (n - 1) + high;
    }
  }

  lemma NoContrast(s: Payload)
    ensures Contrast(s, 0) == 0
  {
  }

  lemma ContrastNext(s: Payload, n: nat, high: Sample)
    requires n < LONG_BITS
    requires (s[2 * n] == high && s[2 * n + 1] == 0) || (s[2 * n] == 0 && s[2 * n + 1] == high)
    ensures Contrast(s, n + 1) == Contrast(s, n) + high
  {
  }

  lemma ModulateTransmits(m: seq<Byte>, high: Sample)
    requires Squitter(m) && GAP <= high
    ensures Transmitted(Modulate(m, high), 0, m, high)
  {
    hide ValidMessage, FormatOf, Bit, Contrast;
    ModulatedContrast(m, high, 8 * |m|);
    forall k | 0 <= k < 8 * |m|
      ensures var s := PayloadAt(Modulate(m, high), 0); Shows(s[2 * k], s[2 * k + 1], m, k)
    {
      ModulatedBit(m, high, k);
    }
  }

  /** Modulated and scanned, every clean squitter comes out as it went in, stamped with the buffer's time
      and with its level, twice the pulses' height in 256ths, at most 255. */
  lemma RoundTrip(m: seq<Byte>, high: Sample, e: Env, cache: Cache)
    requires Squitter(m) && GAP <= high && e.mag == Modulate(m, high)
    ensures exists f :: f in Scan(e, Start(cache)).found && f.outcome.crcok && f.start == 0 && !f.corrected
                        && Body(f.outcome.msg, FormatOf(m[0])) == m
                        && f.timestamp == 12 * e.base % 0x1_0000_0000_0000_0000
                        && f.signal == if 2 * high as int > 0xFF00 then 255 else 2 * high / 256
  {
    hide Scan, Transmitted, Squitter, Body, End, Modulate, SquitterAt, FrameAt, Delta;
    ModulateTransmits(m, high);
    TransmittedIsSliced(e, 0, m, high);
    NoSquitterMissed(e, Start(cache), 0);
    ScanOrdered(e, Start(cache));
    ModulatedDelta(m, high, FrameAt(e, 0, false));
  }

  lemma ModulatedDelta(m: seq<Byte>, high: Sample, frame: Frame)
    requires Squitter(m) && Body(frame, FormatOf(m[0])) == m
    ensures Delta(PayloadAt(Modulate(m, high), 0), frame) == 2 * high
  {
    hide ValidMessage, FormatOf, Modulate, PayloadAt, Contrast;
    assert frame[0] == m[0];
    if |m| == 7 { ModulatedContrast(m, high, 56); } else { ModulatedContrast(m, high, 112); }
  }
}
