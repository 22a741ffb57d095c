/**
 * The sample scanner mode_s_detect of main/mode-s.c: preamble test, bit slicing, the noise filter,
 * the retry with phase correction written into the sample buffer and undone, and the skip past an
 * accepted frame.
 */
module Scanner {
  import opened Parity
  import opened ModeS

  type Sample = x: int | 0 <= x < 65536

  /** Samples before the data, samples of a full attempt, and data bits. */
  const PREAMBLE: nat := 16
  const FULL: nat := 240
  const LONG_BITS: nat := 112

  // ---------------------------------------------------------------- one attempt, on values

  predicate Preamble(m: seq<Sample>, j: nat)
    requires j + FULL <= |m|
  {
    && m[j] > m[j + 1] && m[j + 1] < m[j + 2] && m[j + 2] > m[j + 3] && m[j + 3] < m[j]
    && m[j + 4] < m[j] && m[j + 5] < m[j] && m[j + 6] < m[j]
    && m[j + 7] > m[j + 8] && m[j + 8] < m[j + 9] && m[j + 9] > m[j + 6]
    && var high := (m[j] as int + m[j + 2] as int + m[j + 7] as int + m[j + 9] as int) / 6;
      && m[j + 4] < high && m[j + 5] < high
      && m[j + 11] < high && m[j + 12] < high && m[j + 13] < high && m[j + 14] < high
  }

  /** Reads one sample before the offset, so it is asked only after the first. */
  predicate OutOfPhase(m: seq<Sample>, j: nat)
    requires 0 < j && j + FULL <= |m|
  {
    m[j + 3] > m[j + 2] / 3 || m[j + 10] > m[j + 9] / 3 || m[j + 6] > m[j + 7] / 3 || m[j - 1] > m[j + 1] / 3
  }

  /** The data samples of an attempt, two a bit. */
  type Payload = s: seq<Sample> | |s| == 224 witness seq(224, _ => 0)

  function PayloadAt(m: seq<Sample>, j: nat): Payload
    requires j + FULL <= |m|
  {
    m[j + PREAMBLE..j + FULL]
  }

  /** Five quarters in sixteen bits, or four fifths. */
  function Nudge(up: bool, x: Sample): Sample {
    if up then x * 5 / 4 % 65536 else x * 4 / 5
  }

  /** The first sample of bit i after phase correction. */
  function Phased(s: Payload, i: nat): Sample
    requires i < LONG_BITS
  {
    if i == 0 then s[0] else Nudge(Phased(s, i - 1) > s[2 * i - 1], s[2 * i])
  }

  function Corrected(s: Payload): Payload {
    seq(224, k requires 0 <= k < 224 => if k % 2 == 0 then Phased(s, k / 2) else s[k])
  }

  function Distance(a: int, b: int): nat {
    if a < b then b - a else a - b
  }

  /** Too little contrast to decide a bit on its own: it repeats the one before. */
  predicate Repeats(low: Sample, high: Sample, i: nat) {
    i > 0 && Distance(low, high) < 256
  }

  predicate Undecided(low: Sample, high: Sample, i: nat) {
    !Repeats(low, high, i) && low == high
  }

  function SliceBit(low: Sample, high: Sample, i: nat, previous: Byte): Byte {
    if Repeats(low, high, i) then previous
    else if low == high then 2
    else if low > high then 1 else 0
  }

  /** The sliced value of bit i: 0, 1, or 2 for an undecidable first bit. */
  function Slice(s: Payload, i: nat): (b: Byte)
    requires i < LONG_BITS
  {
    SliceBit(s[2 * i], s[2 * i + 1], i, if i == 0 then 0 else Slice(s, i - 1))
  }

  /** Undecidable bits among the first n, as counted for the short part of a message. */
  function Errors(s: Payload, n: nat): nat
    requires n <= LONG_BITS
  {
    if n == 0 then 0
    else Errors(s, n - 1) + if Undecided(s[2 * n - 2], s[2 * n - 1], n - 1) && n - 1 < 56 then 1 else 0
  }

  function PackByte(b0: Byte, b1: Byte, b2: Byte, b3: Byte, b4: Byte, b5: Byte, b6: Byte, b7: Byte): Byte {
    (b0 << 7) | (b1 << 6) | (b2 << 5) | (b3 << 4) | (b4 << 3) | (b5 << 2) | (b6 << 1) | b7
  }

  function PackAt(s: Payload, i: nat): Byte
    requires i < 14
  {
    PackByte(Slice(s, 8 * i), Slice(s, 8 * i + 1), Slice(s, 8 * i + 2), Slice(s, 8 * i + 3),
             Slice(s, 8 * i + 4), Slice(s, 8 * i + 5), Slice(s, 8 * i + 6), Slice(s, 8 * i + 7))
  }

  function Pack(s: Payload): Frame {
    seq(14, i requires 0 <= i < 14 => PackAt(s, i))
  }

  /** The contrast of the first n bits. */
  function Contrast(s: Payload, n: nat): nat
    requires n <= LONG_BITS
  {
    if n == 0 then 0 else Contrast(s, n - 1) + Distance(s[2 * n - 2], s[2 * n - 1])
  }

  /** The average contrast over the length the format announces; under 2550 is noise. */
  function Delta(s: Payload, frame: Frame): nat {
    var bits := MsgBits(Format(frame));
    Contrast(s, bits) / (bits / 2)
  }

  // ---------------------------------------------------------------- the scan, on values

  /** One delivery to the callback. */
  datatype Found = Found(start: nat, corrected: bool, outcome: Outcome, timestamp: nat, signal: nat)

  datatype Env = Env(cfg: Config, checkCrc: bool, mag: seq<Sample>, base: nat, clock: nat -> nat)
  {
    /** Offsets from here on are not tried. */
    function Limit(): int { |mag| - FULL }
  }

  datatype State = State(j: nat, corrected: bool, cache: Cache, decodes: nat, found: seq<Found>,
                         good: nat, bad: nat, fixed: nat)

  /** The samples an attempt slices. */
  function Samples(e: Env, j: nat, corrected: bool): Payload
    requires j < e.Limit()
  {
    var s := PayloadAt(e.mag, j);
    if corrected && j > 0 && OutOfPhase(e.mag, j) then Corrected(s) else s
  }

  function FrameAt(e: Env, j: nat, corrected: bool): Frame
    requires j < e.Limit()
  {
    Pack(Samples(e, j, corrected))
  }

  predicate Loud(e: Env, j: nat, corrected: bool)
    requires j < e.Limit()
  {
    Delta(PayloadAt(e.mag, j), FrameAt(e, j, corrected)) >= 2550
  }

  predicate FewErrors(e: Env, j: nat, corrected: bool)
    requires j < e.Limit()
  {
    var errors := Errors(Samples(e, j, corrected), LONG_BITS);
    errors == 0 || (e.cfg.aggressive && errors < 3)
  }

  /** The samples a delivered frame spans. */
  function End(f: Found): nat {
    f.start + (8 + MsgBits(f.outcome.t)) * 2
  }

  function Deliver(e: Env, s: State): Found
    requires s.j < e.Limit()
  {
    var frame := FrameAt(e, s.j, s.corrected);
    var delta := Delta(PayloadAt(e.mag, s.j), frame);
    Found(s.j, s.corrected, Decision(e.cfg, s.cache, frame, e.clock(s.decodes)),
          (e.base * 12 + s.j * 6) % 0x1_0000_0000_0000_0000, if delta > 0xFF00 then 255 else delta / 256)
  }

  /** An attempt that reaches the decoder. */
  function Decoded(e: Env, s: State): State
    requires s.j < e.Limit()
  {
    var f := Deliver(e, s);
    var t := s.(cache := NextCache(e.cfg, s.cache, FrameAt(e, s.j, s.corrected), e.clock(s.decodes)),
                decodes := s.decodes + 1,
                found := if !e.checkCrc || f.outcome.crcok then s.found + [f] else s.found);
    if f.outcome.crcok then
      t.(j := End(f) + 1, corrected := false, good := s.good + 1,
         fixed := if f.outcome.errorbit != -1 then s.fixed + 1 else s.fixed)
    else if s.corrected then t.(j := s.j + 1, corrected := false, bad := s.bad + 1)
    else t.(corrected := true)
  }

  /** One pass of the loop body, with the index step that follows it. */
  function Step(e: Env, s: State): State
    requires s.j < e.Limit()
  {
    if !s.corrected && !Preamble(e.mag, s.j) then s.(j := s.j + 1)
    else if !Loud(e, s.j, s.corrected) then s.(j := s.j + 1, corrected := false)
    else if FewErrors(e, s.j, s.corrected) then Decoded(e, s)
    else if s.corrected then s.(j := s.j + 1, corrected := false)
    else s.(corrected := true)
  }

  /** Each step moves to a later offset, or to the one retry of the same offset. */
  lemma StepAdvances(e: Env, s: State)
    requires s.j < e.Limit()
    ensures var t := Step(e, s); s.j < t.j || (s.j == t.j && !s.corrected && t.corrected)
  {
    hide Loud, FewErrors, Decision, Delta, FrameAt, Preamble, NextCache;
  }

  function Scan(e: Env, s: State): State
    decreases e.Limit() - s.j, if s.corrected then 0 else 1
  {
    if s.j >= e.Limit() then s
    else
      StepAdvances(e, s);
      Scan(e, Step(e, s))
  }

  /** How often a scan slices the samples at offset p. */
  function Attempts(e: Env, s: State, p: nat): nat
    decreases e.Limit() - s.j, if s.corrected then 0 else 1
  {
    if s.j >= e.Limit() then 0
    else
      StepAdvances(e, s);
      Attempts(e, Step(e, s), p) + if s.j == p && (s.corrected || Preamble(e.mag, s.j)) then 1 else 0
  }

  /** No offset is tried more than twice: once as received and once phase-corrected. */
  lemma {:induction false} AtMostTwice(e: Env, s: State, p: nat)
    ensures Attempts(e, s, p) <= if s.j > p then 0 else if s.j == p && s.corrected then 1 else 2
    decreases e.Limit() - s.j, if s.corrected then 0 else 1
  {
    hide Step, Preamble;
    if s.j < e.Limit() {
      StepAdvances(e, s);
      AtMostTwice(e, Step(e, s), p);
    }
  }

  // ---------------------------------------------------------------- slicing

  /** Only the first bit can be undecidable, and then it is counted. */
  lemma {:induction false} ErrorsCount(s: Payload, n: nat)
    requires n <= LONG_BITS
    ensures Errors(s, n) == if n > 0 && s[0] == s[1] then 1 else 0
  {
    if n > 1 { ErrorsCount(s, n - 1); }
  }

  lemma {:induction false} SliceDecided(s: Payload, i: nat)
    requires i < LONG_BITS && s[0] != s[1]
    ensures Slice(s, i) == 0 || Slice(s, i) == 1
  {
    if i > 0 { SliceDecided(s, i - 1); }
  }

  predicate IsBit(b: Byte) {
    b == 0 || b == 1
  }

  lemma PackByteHigh(b0: Byte, b1: Byte, b2: Byte, b3: Byte, b4: Byte, b5: Byte, b6: Byte, b7: Byte)
    requires IsBit(b0) && IsBit(b1) && IsBit(b2) && IsBit(b3) && IsBit(b4) && IsBit(b5) && IsBit(b6) && IsBit(b7)
    ensures var x := PackByte(b0, b1, b2, b3, b4, b5, b6, b7);
      Test(x, 0) == (b0 == 1) && Test(x, 1) == (b1 == 1) && Test(x, 2) == (b2 == 1) && Test(x, 3) == (b3 == 1)
  {
  }

  lemma PackByteLow(b0: Byte, b1: Byte, b2: Byte, b3: Byte, b4: Byte, b5: Byte, b6: Byte, b7: Byte)
    requires IsBit(b0) && IsBit(b1) && IsBit(b2) && IsBit(b3) && IsBit(b4) && IsBit(b5) && IsBit(b6) && IsBit(b7)
    ensures var x := PackByte(b0, b1, b2, b3, b4, b5, b6, b7);
      Test(x, 4) == (b4 == 1) && Test(x, 5) == (b5 == 1) && Test(x, 6) == (b6 == 1) && Test(x, 7) == (b7 == 1)
  {
  }

  lemma PackAtBit(s: Payload, i: nat, j: nat)
    requires i < 14 && j < 8
    requires forall b :: 8 * i <= b < 8 * i + 8 ==> IsBit(Slice(s, b))
    ensures Test(PackAt(s, i), j) == (Slice(s, 8 * i + j) == 1)
  {
    hide PackByte, Test, Slice, IsBit;
    if j < 4 {
      PackByteHigh(Slice(s, 8 * i), Slice(s, 8 * i + 1), Slice(s, 8 * i + 2), Slice(s, 8 * i + 3),
                   Slice(s, 8 * i + 4), Slice(s, 8 * i + 5), Slice(s, 8 * i + 6), Slice(s, 8 * i + 7));
    } else {
      PackByteLow(Slice(s, 8 * i), Slice(s, 8 * i + 1), Slice(s, 8 * i + 2), Slice(s, 8 * i + 3),
                  Slice(s, 8 * i + 4), Slice(s, 8 * i + 5), Slice(s, 8 * i + 6), Slice(s, 8 * i + 7));
    }
  }

  /** With no error counted, every sliced bit is 0 or 1 and the packed frame carries exactly those bits. */
  lemma CleanSlicing(s: Payload, k: nat)
    requires Errors(s, LONG_BITS) == 0 && k < LONG_BITS
    ensures Slice(s, k) == 0 || Slice(s, k) == 1
    ensures Bit(Pack(s), k) == (Slice(s, k) == 1)
  {
    hide PackAt, Test, Errors, Slice;
    ErrorsCount(s, LONG_BITS);
    SliceDecided(s, k);
    var i := k / 8;
    forall b | 8 * i <= b < 8 * i + 8 ensures IsBit(Slice(s, b)) { SliceDecided(s, b); }
    PackAtBit(s, i, k % 8);
  }

  // ---------------------------------------------------------------- order and disjointness

  /** f was delivered before g: an earlier attempt, and if f was accepted g starts past its samples. */
  predicate Before(f: Found, g: Found) {
    && (f.start < g.start || (f.start == g.start && !f.corrected && g.corrected))
    && (f.outcome.crcok ==> End(f) < g.start)
  }

  predicate Behind(f: Found, s: State) {
    && (f.start < s.j || (f.start == s.j && !f.corrected && s.corrected))
    && (f.outcome.crcok ==> End(f) < s.j)
  }

  ghost predicate Ordered(e: Env, s: State) {
    && (forall a, b :: 0 <= a < b < |s.found| ==> Before(s.found[a], s.found[b]))
    && (forall a :: 0 <= a < |s.found| ==> Behind(s.found[a], s) && Stamped(e, s.found[a]))
  }

  predicate Stamped(e: Env, f: Found) {
    && f.start < e.Limit() && f.timestamp == (e.base * 12 + f.start * 6) % 0x1_0000_0000_0000_0000
    && (e.checkCrc ==> f.outcome.crcok)
  }

  lemma StepOrdered(e: Env, s: State)
    requires s.j < e.Limit() && Ordered(e, s)
    ensures Ordered(e, Step(e, s))
  {
    hide Loud, FewErrors, FrameAt, Preamble, NextCache, Delta, Decision;
    var t := Step(e, s);
    assert t.found == s.found || t.found == s.found + [Deliver(e, s)];
  }

  lemma {:induction false} ScanOrdered(e: Env, s: State)
    requires Ordered(e, s)
    ensures Ordered(e, Scan(e, s))
    decreases e.Limit() - s.j, if s.corrected then 0 else 1
  {
    hide Step, Ordered;
    if s.j < e.Limit() {
      StepOrdered(e, s);
      StepAdvances(e, s);
      ScanOrdered(e, Step(e, s));
    }
  }

  /** A whole scan from the start of a buffer. */
  function Start(cache: Cache): State {
    State(0, false, cache, 0, [], 0, 0, 0)
  }

  /** Accepted frames occupy disjoint sample ranges, in order, and with the CRC check on every delivery is
      accepted and the timestamps strictly increase (while the 64-bit tick count does not wrap). */
  lemma DeliveriesDisjoint(e: Env, cache: Cache, a: nat, b: nat)
    requires a < b < |Scan(e, Start(cache)).found|
    ensures var f, g := Scan(e, Start(cache)).found[a], Scan(e, Start(cache)).found[b];
      && (f.start < g.start || (f.start == g.start && !f.corrected && g.corrected))
      && (f.outcome.crcok ==> End(f) < g.start)
      && (e.checkCrc ==> f.outcome.crcok && g.outcome.crcok)
      && (e.checkCrc && e.base * 12 + |e.mag| * 6 < 0x1_0000_0000_0000_0000 ==> f.timestamp < g.timestamp)
  {
    hide Scan;
    ScanOrdered(e, Start(cache));
  }

  // ---------------------------------------------------------------- where frames are found

  ghost predicate Heralded(e: Env, s: State) {
    && (s.corrected && s.j < e.Limit() ==> Preamble(e.mag, s.j))
    && forall a :: 0 <= a < |s.found| ==>
         var p := s.found[a].start;
         p < e.Limit() && Preamble(e.mag, p) && Loud(e, p, s.found[a].corrected)
  }

  lemma StepHeralded(e: Env, s: State)
    requires s.j < e.Limit() && Heralded(e, s)
    ensures Heralded(e, Step(e, s))
  {
    hide Loud, FewErrors, FrameAt, Preamble, NextCache, Delta, Decision;
    var t := Step(e, s);
    assert t.found == s.found || t.found == s.found + [Deliver(e, s)];
  }

  lemma {:induction false} ScanHeralded(e: Env, s: State)
    requires Heralded(e, s)
    ensures Heralded(e, Scan(e, s))
    decreases e.Limit() - s.j, if s.corrected then 0 else 1
  {
    hide Step, Heralded;
    if s.j < e.Limit() {
      StepHeralded(e, s);
      StepAdvances(e, s);
      ScanHeralded(e, Step(e, s));
    }
  }

  /** Four pulses stand out from the samples beside them, and the quiet places before the data are below
      two thirds of the pulses' mean. */
  ghost predicate StandsOut(m: seq<Sample>, p: nat)
    requires p + FULL <= |m|
  {
    && m[p] > m[p + 1] && m[p + 2] > m[p + 1] && m[p + 2] > m[p + 3] && m[p + 7] > m[p + 8] && m[p + 9] > m[p + 8]
    && m[p + 9] > m[p + 6] && (forall k :: p + 3 <= k < p + 7 ==> m[k] < m[p])
    && forall k :: p + 4 <= k < p + 6 || p + 11 <= k < p + 15 ==>
         6 * m[k] as int < m[p] as int + m[p + 2] as int + m[p + 7] as int + m[p + 9] as int
  }

  lemma PreambleStandsOut(m: seq<Sample>, p: nat)
    requires p + FULL <= |m| && Preamble(m, p)
    ensures StandsOut(m, p)
  {
  }

  /** Every delivery begins with such pulses, and its bits' samples are 1275 apart on average over one of
      the two lengths. */
  lemma DeliveriesHavePulses(e: Env, cache: Cache, a: nat)
    requires a < |Scan(e, Start(cache)).found|
    ensures var p := Scan(e, Start(cache)).found[a].start;
            && p < e.Limit() && StandsOut(e.mag, p)
            && (Contrast(PayloadAt(e.mag, p), 56) >= 1275 * 56 || Contrast(PayloadAt(e.mag, p), 112) >= 1275 * 112)
  {
    hide Scan, StandsOut, Preamble, Loud, Contrast, PayloadAt;
    ScanHeralded(e, Start(cache));
    var f := Scan(e, Start(cache)).found[a];
    PreambleStandsOut(e.mag, f.start);
    LoudIsContrast(e, f.start, f.corrected);
  }

  lemma LoudIsContrast(e: Env, p: nat, corrected: bool)
    requires p < e.Limit() && Loud(e, p, corrected)
    ensures var s := PayloadAt(e.mag, p); Contrast(s, 56) >= 1275 * 56 || Contrast(s, 112) >= 1275 * 112
  {
    hide Contrast, FrameAt, Format;
  }

  // ---------------------------------------------------------------- the statistics

  /** Accepted deliveries, those of them with corrected bits, and refused ones of a retry. */
  datatype Tally = Tally(good: nat, fixed: nat, bad: nat)

  function Count(found: seq<Found>): Tally {
    if found == [] then Tally(0, 0, 0)
    else
      var c, f := Count(found[..|found| - 1]), found[|found| - 1];
      if f.outcome.crcok then Tally(c.good + 1, if f.outcome.errorbit != -1 then c.fixed + 1 else c.fixed, c.bad)
      else if f.corrected then c.(bad := c.bad + 1) else c
  }

  predicate Counted(e: Env, s: State) {
    var c := Count(s.found);
    s.good == c.good && s.fixed == c.fixed && (!e.checkCrc ==> s.bad == c.bad)
  }

  lemma StepCounted(e: Env, s: State)
    requires s.j < e.Limit() && Counted(e, s)
    ensures Counted(e, Step(e, s))
  {
    hide Loud, FewErrors, FrameAt, Preamble, NextCache, Delta, Decision;
    var t := Step(e, s);
    assert t.found == s.found || t.found == s.found + [Deliver(e, s)];
    assert (s.found + [Deliver(e, s)])[..|s.found|] == s.found;
  }

  /** The statistics are the numbers of deliveries; of refused retries, when refused frames are delivered. */
  lemma {:induction false} ScanCounted(e: Env, s: State)
    requires Counted(e, s)
    ensures Counted(e, Scan(e, s))
    decreases e.Limit() - s.j, if s.corrected then 0 else 1
  {
    hide Step, Counted;
    if s.j < e.Limit() {
      StepCounted(e, s);
      StepAdvances(e, s);
      ScanCounted(e, Step(e, s));
    }
  }

  // ---------------------------------------------------------------- nothing is missed

  lemma {:induction false} ScanKeeps(e: Env, s: State, f: Found)
    requires f in s.found
    ensures f in Scan(e, s).found
    decreases e.Limit() - s.j, if s.corrected then 0 else 1
  {
    hide Loud, FewErrors, FrameAt, Preamble, NextCache, Deliver, End;
    if s.j < e.Limit() {
      StepAdvances(e, s);
      ScanKeeps(e, Step(e, s), f);
    }
  }

  /** The first attempt at offset p slices a clean squitter. */
  predicate SquitterAt(e: Env, p: nat)
    requires p < e.Limit()
  {
    Preamble(e.mag, p) && Loud(e, p, false) && FewErrors(e, p, false) && CleanSquitter(FrameAt(e, p, false))
  }

  lemma CleanAccepted(cfg: Config, cache: Cache, m: Frame, now: nat)
    requires CleanSquitter(m)
    ensures Decision(cfg, cache, m, now).crcok
  {
    hide CheckParity, Decision;
    WhitelistsCleanSquitters(cfg, cache, m, now);
  }

  /** Every squitter in the buffer is delivered, unless it starts inside an accepted frame. */
  lemma {:induction false} NoSquitterMissed(e: Env, s: State, p: nat)
    requires p < e.Limit() && SquitterAt(e, p) && (s.j < p || (s.j == p && !s.corrected))
    ensures exists f :: f in Scan(e, s).found && f.outcome.crcok && f.start <= p <= End(f)
                        && (f.start == p ==>
                              && !f.corrected && f.outcome.msg == FrameAt(e, p, false)
                              && var d := Delta(PayloadAt(e.mag, p), FrameAt(e, p, false));
                                 f.signal == if d > 0xFF00 then 255 else d / 256)
    decreases e.Limit() - s.j, if s.corrected then 0 else 1
  {
    hide Loud, FewErrors, FrameAt, Preamble, NextCache, CleanSquitter, Delta;
    var t := Step(e, s);
    StepAdvances(e, s);
    if s.j == p {
      CleanAccepted(e.cfg, s.cache, FrameAt(e, p, false), e.clock(s.decodes));
      CleanUntouched(e.cfg, s.cache, FrameAt(e, p, false), e.clock(s.decodes));
      assert Deliver(e, s) in t.found;
      ScanKeeps(e, t, Deliver(e, s));
    } else if t.j > p {
      assert Deliver(e, s) in t.found;
      ScanKeeps(e, t, Deliver(e, s));
    } else {
      assert t.j == p ==> !t.corrected;
      NoSquitterMissed(e, t, p);
    }
  }

  lemma CleanUntouched(cfg: Config, cache: Cache, m: Frame, now: nat)
    requires CleanSquitter(m)
    ensures Decision(cfg, cache, m, now).msg == m
  {
    hide ValidMessage, Syndrome;
    PatchMarksErrors(cfg, m);
    SyndromeZero(Body(m, Format(m)));
  }

  // ---------------------------------------------------------------- the loop, in place

  method ApplyPhaseCorrection(mag: array<Sample>, j: nat)
    requires j + FULL <= mag.Length
    modifies mag
    ensures mag[j + PREAMBLE..j + FULL] == Corrected(old(mag[j + PREAMBLE..j + FULL]))
    ensures mag[..j + PREAMBLE] == old(mag[..j + PREAMBLE]) && mag[j + FULL..] == old(mag[j + FULL..])
  {
    hide Nudge, Corrected;
    var at := j + PREAMBLE;
    ghost var s: Payload := mag[at..at + 224];
    ghost var c := Corrected(s);
    CorrectedNext(s, 0);
    for i := 0 to LONG_BITS - 1
      invariant forall k :: at <= k < at + 224 ==> mag[k] == if k <= at + 2 * i then c[k - at] else s[k - at]
      invariant forall k :: 0 <= k < mag.Length && !(at <= k < at + 224) ==> mag[k] == old(mag[k])
    {
      CorrectedNext(s, i);
      mag[at + 2 * i + 2] := Nudge(mag[at + 2 * i] > mag[at + 2 * i + 1], mag[at + 2 * i + 2]);
    }
    CorrectedNext(s, 110);
  }

  lemma CorrectedNext(s: Payload, i: nat)
    requires i < LONG_BITS - 1
    ensures var c := Corrected(s);
      c[0] == s[0] && c[2 * i + 1] == s[2 * i + 1] && c[223] == s[223]
      && c[2 * i + 2] == Nudge(c[2 * i] > s[2 * i + 1], s[2 * i + 2])
  {
    hide Nudge;
  }

  lemma NoErrors(s: Payload)
    ensures Errors(s, 0) == 0
  {
  }

  lemma SliceNext(s: Payload, i: nat)
    requires i < LONG_BITS
    ensures Slice(s, i) == SliceBit(s[2 * i], s[2 * i + 1], i, if i == 0 then 0 else Slice(s, i - 1))
    ensures Errors(s, i + 1) == Errors(s, i) + if Undecided(s[2 * i], s[2 * i + 1], i) && i < 56 then 1 else 0
  {
    hide SliceBit, Undecided;
  }

  method SliceBits(mag: array<Sample>, j: nat, bits: array<Byte>) returns (errors: nat)
    requires j + FULL <= mag.Length && bits.Length == LONG_BITS
    modifies bits
    ensures var s: Payload := mag[j + PREAMBLE..j + FULL];
      errors == Errors(s, LONG_BITS) && forall i :: 0 <= i < LONG_BITS ==> bits[i] == Slice(s, i)
  {
    hide SliceBit, Undecided, Slice, Errors;
    var at := j + PREAMBLE;
    ghost var s: Payload := mag[at..at + 224];
    errors := 0;
    NoErrors(s);
    for i := 0 to LONG_BITS
      invariant errors == Errors(s, i)
      invariant forall k :: 0 <= k < i ==> bits[k] == Slice(s, k)
    {
      var low, high := mag[at + 2 * i], mag[at + 2 * i + 1];
      assert low == s[2 * i] && high == s[2 * i + 1];
      SliceNext(s, i);
      bits[i] := SliceBit(low, high, i, if i == 0 then 0 else bits[i - 1]);
      if Undecided(low, high, i) && i < 56 { errors := errors + 1; }
    }
  }

  method PackBits(bits: array<Byte>, msg: array<Byte>, ghost s: Payload)
    requires bits.Length == LONG_BITS && msg.Length == 14 && bits != msg
    requires forall i :: 0 <= i < LONG_BITS ==> bits[i] == Slice(s, i)
    modifies msg
    ensures msg[..] == Pack(s)
  {
    hide PackByte, Slice;
    for i := 0 to 14
      invariant forall k :: 0 <= k < i ==> msg[k] == PackAt(s, k)
    {
      msg[i] := PackByte(bits[8 * i], bits[8 * i + 1], bits[8 * i + 2], bits[8 * i + 3],
                         bits[8 * i + 4], bits[8 * i + 5], bits[8 * i + 6], bits[8 * i + 7]);
    }
  }

  method AverageContrast(mag: array<Sample>, j: nat, frame: Frame) returns (delta: nat)
    requires j + FULL <= mag.Length
    ensures delta == Delta(mag[j + PREAMBLE..j + FULL], frame)
  {
    hide Format;
    var at, n := j + PREAMBLE, MsgBits(Format(frame));
    ghost var s: Payload := mag[at..at + 224];
    delta := 0;
    for i := 0 to n
      invariant delta == Contrast(s, i)
    {
      delta := delta + Distance(mag[at + 2 * i], mag[at + 2 * i + 1]);
    }
    delta := delta / (n / 2);
  }

  method PutBack(mag: array<Sample>, at: nat, aux: seq<Sample>)
    requires at + |aux| <= mag.Length
    modifies mag
    ensures mag[at..at + |aux|] == aux
    ensures mag[..at] == old(mag[..at]) && mag[at + |aux|..] == old(mag[at + |aux|..])
  {
    for i := 0 to |aux|
      invariant mag[..at] == old(mag[..at]) && mag[at + |aux|..] == old(mag[at + |aux|..])
      invariant mag[at..at + i] == aux[..i]
    {
      mag[at + i] := aux[i];
    }
  }

  /** Slices one attempt, phase-correcting the samples in the buffer first when asked and putting them back after. */
  method SliceAttempt(mag: array<Sample>, j: nat, corrected: bool, ghost e: Env)
    returns (msg: array<Byte>, errors: nat)
    requires mag[..] == e.mag && j < e.Limit()
    modifies mag
    ensures mag[..] == old(mag[..])
    ensures fresh(msg) && msg.Length == 14 && msg[..] == FrameAt(e, j, corrected)
    ensures errors == Errors(Samples(e, j, corrected), LONG_BITS)
  {
    hide OutOfPhase, Corrected, Pack, Errors, Slice;
    var aux: seq<Sample> := [];
    if corrected {
      aux := mag[j + PREAMBLE..j + FULL];
      if j > 0 && OutOfPhase(mag[..], j) {
        ApplyPhaseCorrection(mag, j);
      }
    }
    assert mag[j + PREAMBLE..j + FULL] == Samples(e, j, corrected);
    var bits := new Byte[LONG_BITS];
    errors := SliceBits(mag, j, bits);
    if corrected {
      PutBack(mag, j + PREAMBLE, aux);
      assert mag[..] == mag[..j + PREAMBLE] + mag[j + PREAMBLE..j + FULL] + mag[j + FULL..];
      assert e.mag == e.mag[..j + PREAMBLE] + e.mag[j + PREAMBLE..j + FULL] + e.mag[j + FULL..];
    }
    msg := new Byte[14];
    PackBits(bits, msg, Samples(e, j, corrected));
  }

  /** The sliced frame, its error count, and the contrast of the restored samples. */
  method MeasureAttempt(mag: array<Sample>, j: nat, corrected: bool, ghost e: Env)
    returns (msg: array<Byte>, errors: nat, delta: nat)
    requires mag[..] == e.mag && j < e.Limit()
    modifies mag
    ensures mag[..] == old(mag[..])
    ensures fresh(msg) && msg.Length == 14 && msg[..] == FrameAt(e, j, corrected)
    ensures delta == Delta(PayloadAt(e.mag, j), FrameAt(e, j, corrected))
    ensures (delta >= 10 * 255) == Loud(e, j, corrected)
    ensures (errors == 0 || (e.cfg.aggressive && errors < 3)) == FewErrors(e, j, corrected)
  {
    hide Errors, Samples, FrameAt;
    msg, errors := SliceAttempt(mag, j, corrected, e);
    delta := AverageContrast(mag, j, msg[..]);
  }

  /** Hands a frame to the decoder and the outcome to the callback, and keeps the statistics. */
  method DecodeAndDeliver(self: Decoder, checkCrc: bool, msg: array<Byte>, j: nat, corrected: bool, base: nat, delta: nat,
                          now: nat, ghost e: Env, ghost s: State)
    returns (o: Outcome, delivery: seq<Found>)
    requires self.Valid() && msg.Length == 14 && s.j < e.Limit()
    requires self.Settings() == e.cfg && self.View() == s.cache && checkCrc == e.checkCrc && now == e.clock(s.decodes)
    requires msg[..] == FrameAt(e, s.j, s.corrected)
    requires j == s.j && corrected == s.corrected && base == e.base
    requires delta == Delta(PayloadAt(e.mag, j), msg[..])
    modifies self.icaoCache
    ensures o == Deliver(e, s).outcome && Decoded(e, s).found == s.found + delivery
    ensures self.View() == Decoded(e, s).cache
  {
    hide Decision, NextCache, FrameAt, Delta, PayloadAt;
    var f0 := Found(j, corrected, BlankOutcome(msg[..]), (base * 12 + j * 6) % 0x1_0000_0000_0000_0000,
                    if delta > 0xFF00 then 255 else delta / 256);
    assert msg[..14] == msg[..];
    o := self.Decode(msg, now);
    delivery := if !checkCrc || o.crcok then [f0.(outcome := o)] else [];
    assert s.found + [] == s.found;
  }

  lemma DecodedMoves(e: Env, s: State)
    requires s.j < e.Limit()
    ensures var o, t := Deliver(e, s).outcome, Decoded(e, s);
      && t.decodes == s.decodes + 1
      && t.j == (if o.crcok then s.j + (8 + MsgBits(o.t)) * 2 + 1 else if s.corrected then s.j + 1 else s.j)
      && t.corrected == (!o.crcok && !s.corrected)
      && t.good == (if o.crcok then s.good + 1 else s.good)
      && t.bad == (if !o.crcok && s.corrected then s.bad + 1 else s.bad)
      && t.fixed == (if o.crcok && o.errorbit != -1 then s.fixed + 1 else s.fixed)
  {
    hide Decision, NextCache, FrameAt, Delta;
  }

  /** The scan loop. The sample index is an unsigned 32-bit word: stepping back from offset 0 for a retry
      wraps, and the loop's own increment wraps it to 0 again. */
  method Detect(self: Decoder, checkCrc: bool, mag: array<Sample>, base: nat, clock: nat -> nat)
    returns (found: seq<Found>, good: nat, bad: nat, fixed: nat)
    requires self.Valid() && FULL <= mag.Length < 0x1_0000_0000
    modifies mag, self.icaoCache
    ensures mag[..] == old(mag[..])
    ensures var t := Scan(Env(old(self.Settings()), checkCrc, old(mag[..]), base, clock), Start(old(self.View())));
      found == t.found && good == t.good && bad == t.bad && fixed == t.fixed && self.View() == t.cache
  {
    hide Scan, Decision, NextCache, Preamble, FrameAt, Samples, Errors, Delta, Decoded, Loud, FewErrors, OutOfPhase,
         Deliver, PayloadAt;
    ghost var e := Env(self.Settings(), checkCrc, mag[..], base, clock);
    ghost var start := Start(self.View());
    var j, corrected, decodes := 0, false, 0;
    found, good, bad, fixed := [], 0, 0, 0;
    while j < mag.Length - FULL
      invariant mag[..] == e.mag && self.Settings() == e.cfg
      invariant Scan(e, State(j, corrected, self.View(), decodes, found, good, bad, fixed)) == Scan(e, start)
      decreases mag.Length - j, if corrected then 0 else 1
    {
      ghost var s := State(j, corrected, self.View(), decodes, found, good, bad, fixed);
      ScanNext(e, s);
      StepAdvances(e, s);
      if corrected || Preamble(mag[..], j) {
        var msg, errors, delta := MeasureAttempt(mag, j, corrected, e);
        if delta < 10 * 255 {
          corrected := false;
        } else {
          var accepted := false;
          if errors == 0 || (self.aggressive && errors < 3) {
            DecodedMoves(e, s);
            var o, delivery := DecodeAndDeliver(self, checkCrc, msg, j, corrected, base, delta, clock(decodes), e, s);
            decodes := decodes + 1;
            found := found + delivery;
            if o.crcok {
              j := j + (8 + MsgBits(o.t)) * 2;
              accepted := true;
              good := good + 1;
              if o.errorbit != -1 { fixed := fixed + 1; }
            } else if corrected {
              bad := bad + 1;
            }
          }
          if !accepted && !corrected {
            j := if j == 0 then 0xFFFF_FFFF else j - 1;
            corrected := true;
          } else {
            corrected := false;
          }
        }
      }
      j := (j + 1) % 0x1_0000_0000;
      assert Step(e, s) == State(j, corrected, self.View(), decodes, found, good, bad, fixed);
    }
    ScanDone(e, State(j, corrected, self.View(), decodes, found, good, bad, fixed));
  }

  /** The cleared message structure a decode starts from. */
  function BlankOutcome(m: Frame): Outcome {
    Outcome(m, 0, false, -1, 0, 0)
  }

  lemma ScanNext(e: Env, s: State)
    requires s.j < e.Limit()
    ensures Scan(e, s) == Scan(e, Step(e, s))
  {
    hide Step;
  }

  lemma ScanDone(e: Env, s: State)
    requires e.Limit() <= s.j
    ensures Scan(e, s) == s
  {
  }
}
