/**
 * The Beast framing of main/feed_beast.c as a code: what the feed writes, what a reader built on the
 * promise at the top of that file recovers, and what becomes of a stream cut by a short write.
 */
module Beast {
  import opened Arithmetic
  import opened Basics

  const ESC: Byte := 0x1A
  const SHORT_TYPE: Byte := 0x32
  const LONG_TYPE: Byte := 0x33
  const LINE_MAX: nat := 44
  const STAMPS: nat := 0x1_0000_0000_0000

  datatype Frame = Frame(stamp: nat, signal: Byte, data: seq<Byte>)

  predicate Framed(f: Frame) {
    f.stamp < STAMPS && (|f.data| == 7 || |f.data| == 14)
  }

  predicate AllFramed(fs: seq<Frame>) {
    forall i :: 0 <= i < |fs| ==> Framed(fs[i])
  }

  // ---------------------------------------------------------------- writing

  function Power(n: nat): (p: nat)
    ensures p > 0
  {
    if n == 0 then 1 else 256 * Power(n - 1)
  }

  /** The low n bytes of a number, most significant first. */
  function BigEndian(t: nat, n: nat): (b: seq<Byte>)
    ensures |b| == n
  {
    if n == 0 then [] else BigEndian(t / 256, n - 1) + [t % 256]
  }

  function StampBytes(t: nat): (b: seq<Byte>)
    ensures |b| == 6
  {
    BigEndian(t, 6)
  }

  function Clamp(level: int): Byte {
    if level < 0 then 0 else if level > 255 then 255 else level
  }

  function TypeOf(size: nat): Byte {
    if size == 14 then LONG_TYPE else SHORT_TYPE
  }

  /** Every ESC doubled. */
  function Stuff(raw: seq<Byte>): seq<Byte> {
    if raw == [] then [] else (if raw[0] == ESC then [ESC, ESC] else [raw[0]]) + Stuff(raw[1..])
  }

  function Raw(stamp: nat, signal: Byte, data: seq<Byte>): seq<Byte> {
    StampBytes(stamp) + [signal] + data
  }

  /** What the feed puts on the wire for one message. */
  function Encode(t: nat, level: int, data: seq<Byte>): seq<Byte> {
    [ESC, TypeOf(|data|)] + Stuff(Raw(t, Clamp(level), data))
  }

  function Line(f: Frame): seq<Byte> {
    [ESC, TypeOf(|f.data|)] + Stuff(Raw(f.stamp, f.signal, f.data))
  }

  function Stream(fs: seq<Frame>): seq<Byte> {
    if fs == [] then [] else Line(fs[0]) + Stream(fs[1..])
  }

  // ---------------------------------------------------------------- reading

  datatype Body = Full(raw: seq<Byte>, rest: seq<Byte>) | Broken(rest: seq<Byte>) | Short

  /** n bytes with doubled ESCs undone. A lone ESC breaks the frame off there; the input may also end. */
  function Unstuff(s: seq<Byte>, n: nat): (b: Body)
    ensures b.Full? ==> |b.raw| == n && |b.rest| <= |s|
    ensures b.Broken? ==> |b.rest| <= |s|
  {
    if n == 0 then Full([], s)
    else if s == [] || s == [ESC] then Short
    else if s[0] != ESC then Prepend(s[0], Unstuff(s[1..], n - 1))
    else if s[1] == ESC then Prepend(ESC, Unstuff(s[2..], n - 1))
    else Broken(s)
  }

  function Prepend(b: Byte, body: Body): Body {
    if body.Full? then Full([b] + body.raw, body.rest) else body
  }

  function Value(b: seq<Byte>): nat {
    if b == [] then 0 else 256 * Value(b[..|b| - 1]) + b[|b| - 1]
  }

  function Decode(raw: seq<Byte>): Frame
    requires |raw| >= 7
  {
    Frame(Value(raw[..6]), raw[6], raw[7..])
  }

  /** A frame starts at a lone ESC before a type byte; anything else between frames is passed over. */
  function Parse(s: seq<Byte>): seq<Frame>
    decreases |s|
  {
    if |s| < 2 then []
    else if s[0] != ESC then Parse(s[1..])
    else if s[1] == ESC then Parse(s[2..])
    else if s[1] != SHORT_TYPE && s[1] != LONG_TYPE then Parse(s[1..])
    else
      match Unstuff(s[2..], if s[1] == LONG_TYPE then 21 else 14)
      case Full(raw, rest) => [Decode(raw)] + Parse(rest)
      case Broken(rest) => Parse(rest)
      case Short => []
  }

  // ---------------------------------------------------------------- one frame

  /** Splitting off the low byte of a remainder. */
  lemma LowByte(t: nat, p: nat)
    requires 0 < p
    ensures t % (256 * p) == 256 * (t / 256 % p) + t % 256
  {
    var q := t / 256;
    assert t == (256 * p) * (q / p) + (256 * (q % p) + t % 256) by {
      assert q == p * (q / p) + q % p;
      assert 256 * (p * (q / p)) == (256 * p) * (q / p);
    }
    ModUnique(t, 256 * p, q / p, 256 * (q % p) + t % 256);
  }

  lemma {:induction false} BigEndianValue(t: nat, n: nat)
    ensures Value(BigEndian(t, n)) == t % Power(n)
    ensures BigEndian(t % Power(n), n) == BigEndian(t, n)
  {
    if n > 0 {
      var b, r := BigEndian(t, n), t % Power(n);
      assert b[..n - 1] == BigEndian(t / 256, n - 1) && b[n - 1] == t % 256;
      BigEndianValue(t / 256, n - 1);
      LowByte(t, Power(n - 1));
      assert r / 256 == t / 256 % Power(n - 1) && r % 256 == t % 256;
    }
  }

  lemma StampValue(t: nat)
    ensures Value(StampBytes(t)) == t % STAMPS
    ensures StampBytes(t % STAMPS) == StampBytes(t)
  {
    assert Power(6) == STAMPS by { assert Power(2) == 0x1_0000 && Power(4) == 0x1_0000_0000; }
    BigEndianValue(t, 6);
  }

  /** The wire bytes depend on the timestamp modulo 2^48 and on the clamped level only. */
  lemma EncodeIsLine(t: nat, level: int, data: seq<Byte>)
    ensures Encode(t, level, data) == Line(Frame(t % STAMPS, Clamp(level), data))
  {
    StampValue(t);
  }

  lemma DecodeRaw(f: Frame)
    requires Framed(f)
    ensures Decode(Raw(f.stamp, f.signal, f.data)) == f
  {
    StampValue(f.stamp);
    assert Raw(f.stamp, f.signal, f.data)[..6] == StampBytes(f.stamp);
    assert Raw(f.stamp, f.signal, f.data)[7..] == f.data;
  }

  lemma {:induction false} StuffLength(raw: seq<Byte>)
    ensures |raw| <= |Stuff(raw)| <= 2 * |raw|
  {
    if raw != [] { StuffLength(raw[1..]); }
  }

  /** No line outgrows its slot, and some line fills it. */
  lemma LineFits(f: Frame)
    requires Framed(f)
    ensures 2 < |Line(f)| <= LINE_MAX
  {
    StuffLength(Raw(f.stamp, f.signal, f.data));
  }

  lemma {:induction false} StuffJoin(a: seq<Byte>, b: seq<Byte>)
    ensures Stuff(a + b) == Stuff(a) + Stuff(b)
  {
    if a == [] {
      assert a + b == b;
    } else {
      assert (a + b)[1..] == a[1..] + b;
      StuffJoin(a[1..], b);
    }
  }

  /** What a body reader makes of more bytes once it has taken some whole ones. */
  function Resume(a: seq<Byte>, body: Body): Body {
    if body.Full? then Full(a + body.raw, body.rest) else body
  }

  lemma UnstuffByte(b: Byte, t: seq<Byte>, n: nat)
    requires b != ESC && n > 0
    ensures Unstuff([b] + t, n) == Prepend(b, Unstuff(t, n - 1))
  {
    assert ([b] + t)[0] == b && ([b] + t)[1..] == t;
  }

  lemma UnstuffPair(t: seq<Byte>, n: nat)
    requires n > 0
    ensures Unstuff([ESC, ESC] + t, n) == Prepend(ESC, Unstuff(t, n - 1))
  {
    assert ([ESC, ESC] + t)[2..] == t;
  }

  lemma ResumeOne(a: seq<Byte>, body: Body)
    requires a != []
    ensures Prepend(a[0], Resume(a[1..], body)) == Resume(a, body)
  {
    if body.Full? { assert [a[0]] + (a[1..] + body.raw) == a + body.raw; }
  }

  /** The first byte of stuffed bytes, as one byte or a pair. */
  lemma StuffFirst(a: seq<Byte>, t: seq<Byte>)
    requires a != []
    ensures Stuff(a) + t == (if a[0] == ESC then [ESC, ESC] else [a[0]]) + (Stuff(a[1..]) + t)
  {
  }

  lemma {:induction false} UnstuffAfter(a: seq<Byte>, t: seq<Byte>, n: nat)
    requires |a| <= n
    ensures Unstuff(Stuff(a) + t, n) == Resume(a, Unstuff(t, n - |a|))
  {
    hide Unstuff, Prepend;
    if a == [] {
      assert Stuff(a) + t == t;
      if Unstuff(t, n).Full? { assert a + Unstuff(t, n).raw == Unstuff(t, n).raw; }
    } else {
      var next := Stuff(a[1..]) + t;
      StuffFirst(a, t);
      if a[0] == ESC { UnstuffPair(next, n); } else { UnstuffByte(a[0], next, n); }
      UnstuffAfter(a[1..], t, n - 1);
      ResumeOne(a, Unstuff(t, n - |a|));
    }
  }

  /** Undoing the stuffing of a whole body leaves what follows. */
  lemma UnstuffWhole(raw: seq<Byte>, t: seq<Byte>)
    ensures Unstuff(Stuff(raw) + t, |raw|) == Full(raw, t)
  {
    UnstuffAfter(raw, t, |raw|);
    assert raw + [] == raw;
  }

  lemma ParseLine(f: Frame, t: seq<Byte>)
    requires Framed(f)
    ensures Parse(Line(f) + t) == [f] + Parse(t)
  {
    var raw := Raw(f.stamp, f.signal, f.data);
    var s := Line(f) + t;
    assert s[2..] == Stuff(raw) + t;
    UnstuffWhole(raw, t);
    DecodeRaw(f);
  }

  /** Reading back a stream gives the frames that were written, whatever bytes follow. */
  lemma {:induction false} ParseStream(fs: seq<Frame>, t: seq<Byte>)
    requires AllFramed(fs)
    ensures Parse(Stream(fs) + t) == fs + Parse(t)
  {
    if fs == [] {
      assert Stream(fs) + t == t;
    } else {
      assert Stream(fs) + t == Line(fs[0]) + (Stream(fs[1..]) + t);
      ParseLine(fs[0], Stream(fs[1..]) + t);
      ParseStream(fs[1..], t);
    }
  }

  lemma RoundTrip(fs: seq<Frame>)
    requires AllFramed(fs)
    ensures Parse(Stream(fs)) == fs
  {
    ParseStream(fs, []);
    assert Stream(fs) + [] == Stream(fs);
  }

  /** Two runs of frames with the same bytes are the same run. */
  lemma UniquelyDecodable(fs: seq<Frame>, gs: seq<Frame>)
    requires AllFramed(fs) && AllFramed(gs) && Stream(fs) == Stream(gs)
    ensures fs == gs
  {
    RoundTrip(fs);
    RoundTrip(gs);
  }

  // ---------------------------------------------------------------- a short write

  /** The bytes end in an ESC that is not the second of a pair. */
  predicate EndsHalf(s: seq<Byte>)
    decreases |s|
  {
    s != [] && s[|s| - 1] == ESC && !EndsHalf(s[..|s| - 1])
  }

  lemma EndsHalfAfter(a: seq<Byte>, b: Byte)
    ensures EndsHalf(a + [b]) <==> b == ESC && !EndsHalf(a)
  {
    assert (a + [b])[..|a|] == a;
  }

  lemma {:induction false} StuffNotHalf(a: seq<Byte>, raw: seq<Byte>)
    requires !EndsHalf(a)
    ensures !EndsHalf(a + Stuff(raw))
    decreases |raw|
  {
    hide EndsHalf;
    if raw == [] {
      assert a + Stuff(raw) == a;
    } else {
      var first := if raw[0] == ESC then [ESC, ESC] else [raw[0]];
      assert Stuff(raw) == first + Stuff(raw[1..]);
      hide Stuff;
      EndsHalfAfter(a, raw[0]);
      if raw[0] == ESC {
        EndsHalfAfter(a + [ESC], ESC);
        assert a + [ESC] + [ESC] == a + first;
      }
      StuffNotHalf(a + first, raw[1..]);
      assert a + (first + Stuff(raw[1..])) == a + first + Stuff(raw[1..]);
    }
  }

  /** A proper prefix of a stuffed body is some whole bytes stuffed, and perhaps half a pair. */
  lemma {:induction false} CutShape(raw: seq<Byte>, c: nat) returns (k: nat, half: bool)
    requires c < |Stuff(raw)|
    ensures k < |raw|
    ensures Stuff(raw)[..c] == Stuff(raw[..k]) + if half then [ESC] else []
    decreases |raw|
  {
    if c == 0 {
      k, half := 0, false;
    } else if raw[0] == ESC && c == 1 {
      k, half := 0, true;
    } else {
      var step := if raw[0] == ESC then 2 else 1;
      assert Stuff(raw)[step..] == Stuff(raw[1..]);
      k, half := CutShape(raw[1..], c - step);
      k := k + 1;
      assert raw[..k][1..] == raw[1..][..k - 1];
      assert Stuff(raw)[..c] == Stuff(raw)[..step] + Stuff(raw[1..])[..c - step];
    }
  }

  lemma PassByte(b: Byte, t: seq<Byte>)
    requires b != ESC
    ensures Parse([b] + t) == Parse(t)
  {
    assert ([b] + t)[1..] == t;
  }

  lemma PassPair(t: seq<Byte>)
    ensures Parse([ESC, ESC] + t) == Parse(t)
  {
    assert ([ESC, ESC] + t)[2..] == t;
  }

  /** Between frames, stuffed bytes are passed over. */
  lemma {:induction false} PassOver(raw: seq<Byte>, t: seq<Byte>)
    ensures Parse(Stuff(raw) + t) == Parse(t)
    decreases |raw|
  {
    hide Parse;
    if raw == [] {
      assert Stuff(raw) + t == t;
    } else {
      var next := Stuff(raw[1..]) + t;
      StuffFirst(raw, t);
      if raw[0] == ESC { PassPair(next); } else { PassByte(raw[0], next); }
      PassOver(raw[1..], t);
    }
  }

  /** Nothing, or a frame start. */
  predicate StartsFrame(t: seq<Byte>) {
    t == [] || (|t| >= 2 && t[0] == ESC && (t[1] == SHORT_TYPE || t[1] == LONG_TYPE))
  }

  /** A body that wants more when a frame starts is dropped. */
  lemma Interrupted(a: seq<Byte>, t: seq<Byte>, n: nat)
    requires StartsFrame(t) && |a| < n
    ensures Unstuff(Stuff(a) + t, n) == if t == [] then Short else Broken(t)
  {
    UnstuffAfter(a, t, n);
  }

  /** A cut after the marker and type: the frame's head, some whole bytes, and perhaps half a pair. */
  lemma CutLine(f: Frame, c: nat) returns (k: nat, half: bool)
    requires Framed(f) && 2 <= c < |Line(f)|
    ensures k < |RawOf(f)|
    ensures Line(f)[..c] == [ESC, TypeOf(|f.data|)] + Stuff(RawOf(f)[..k]) + if half then [ESC] else []
    ensures half == EndsHalf(Line(f)[..c])
  {
    var head := [ESC, TypeOf(|f.data|)];
    k, half := CutShape(RawOf(f), c - 2);
    assert Line(f)[..c] == head + Stuff(RawOf(f))[..c - 2];
    EndsHalfAfter([ESC], TypeOf(|f.data|));
    assert [ESC] + [TypeOf(|f.data|)] == head;
    StuffNotHalf(head, RawOf(f)[..k]);
    if half { EndsHalfAfter(head + Stuff(RawOf(f)[..k]), ESC); }
    assert Line(f)[..c] == head + Stuff(RawOf(f)[..k]) + if half then [ESC] else [];
    assert head + Stuff(RawOf(f)[..k]) + [] == head + Stuff(RawOf(f)[..k]);
  }

  lemma MarkerIsHalf(f: Frame)
    ensures Line(f)[..1] == [ESC] && EndsHalf(Line(f)[..1])
  {
    hide Stuff, Raw, EndsHalf;
    NothingNotHalf();
    EndsHalfAfter([], ESC);
    assert [] + [ESC] == [ESC] == Line(f)[..1];
  }

  lemma NothingNotHalf()
    ensures !EndsHalf([])
  {
  }

  /** A frame cut cleanly vanishes, and nothing else does. */
  lemma CleanCut(f: Frame, c: nat, t: seq<Byte>)
    requires Framed(f) && c < |Line(f)| && StartsFrame(t) && !EndsHalf(Line(f)[..c])
    ensures Parse(Line(f)[..c] + t) == Parse(t)
  {
    MarkerIsHalf(f);
    if c == 0 {
      assert Line(f)[..c] + t == t;
    } else {
      var k, half := CutLine(f, c);
      var s := Line(f)[..c] + t;
      assert s[2..] == Stuff(RawOf(f)[..k]) + t;
      Interrupted(RawOf(f)[..k], t, |RawOf(f)|);
    }
  }

  /** Half a pair, then a frame: the frame's marker completes the pair and its type and body read as data. */
  lemma HalfThenLine(g: Frame, t: seq<Byte>)
    ensures [ESC] + (Line(g) + t) == Stuff([ESC, TypeOf(|g.data|)] + RawOf(g)) + t
  {
    var ty := [TypeOf(|g.data|)];
    assert Stuff([ESC] + (ty + RawOf(g))) == [ESC, ESC] + Stuff(ty + RawOf(g)) by {
      assert ([ESC] + (ty + RawOf(g)))[1..] == ty + RawOf(g);
    }
    assert Stuff(ty + RawOf(g)) == ty + Stuff(RawOf(g)) by { assert (ty + RawOf(g))[1..] == RawOf(g); }
    assert [ESC] + (ty + RawOf(g)) == [ESC, TypeOf(|g.data|)] + RawOf(g);
  }

  /** At most one frame, read from bytes of which one is ESC. */
  ghost predicate Junk(junk: seq<Frame>) {
    junk == [] || exists raw: seq<Byte> :: |raw| >= 7 && ESC in raw && junk == [Decode(raw)]
  }

  /** A body wanting m more bytes, given a stuffed run of bytes and then a frame start or nothing. */
  lemma RunOn(taken: seq<Byte>, a: seq<Byte>, t: seq<Byte>, n: nat) returns (full: bool)
    requires StartsFrame(t) && |taken| < n
    ensures var m, body := n - |taken|, Unstuff(Stuff(taken) + (Stuff(a) + t), n);
            full == (m <= |a|) &&
            if full then body == Full(taken + a[..m], Stuff(a[m..]) + t)
            else body == if t == [] then Short else Broken(t)
  {
    hide Unstuff;
    var m := n - |taken|;
    full := m <= |a|;
    UnstuffAfter(taken, Stuff(a) + t, n);
    if full {
      StuffJoin(a[..m], a[m..]);
      assert a[..m] + a[m..] == a;
      assert Stuff(a) + t == Stuff(a[..m]) + (Stuff(a[m..]) + t);
      UnstuffWhole(a[..m], Stuff(a[m..]) + t);
    } else {
      Interrupted(a, t, m);
    }
  }

  /** A frame cut inside a pair takes the next one with it, perhaps leaving one false frame. */
  lemma HalfCut(f: Frame, c: nat, g: Frame, t: seq<Byte>) returns (junk: seq<Frame>)
    requires Framed(f) && c < |Line(f)| && StartsFrame(t) && EndsHalf(Line(f)[..c])
    ensures Junk(junk) && Parse(Line(f)[..c] + (Line(g) + t)) == junk + Parse(t)
  {
    hide Stuff, Unstuff, EndsHalf, Parse;
    var a := [ESC, TypeOf(|g.data|)] + RawOf(g);
    HalfThenLine(g, t);
    junk := [];
    MarkerIsHalf(f);
    if c == 1 {
      PassOver(a, t);
    } else if c >= 2 {
      var k, half := CutLine(f, c);
      var taken, ty := RawOf(f)[..k], TypeOf(|f.data|);
      hide Line;
      assert Line(f)[..c] + (Line(g) + t) == [ESC, ty] + (Stuff(taken) + ([ESC] + (Line(g) + t)));
      junk := HeadThenRun(ty, taken, a, t, |RawOf(f)|);
    } else {
      NothingNotHalf();
    }
  }

  /** A frame's head and some of its body, run on into stuffed bytes that begin with an ESC. */
  lemma HeadThenRun(ty: Byte, taken: seq<Byte>, a: seq<Byte>, t: seq<Byte>, n: nat) returns (junk: seq<Frame>)
    requires (ty == SHORT_TYPE && n == 14) || (ty == LONG_TYPE && n == 21)
    requires StartsFrame(t) && |taken| < n && a != [] && a[0] == ESC
    ensures Junk(junk) && Parse([ESC, ty] + (Stuff(taken) + (Stuff(a) + t))) == junk + Parse(t)
  {
    hide Stuff, Unstuff;
    var s := [ESC, ty] + (Stuff(taken) + (Stuff(a) + t));
    assert s[2..] == Stuff(taken) + (Stuff(a) + t);
    var full := RunOn(taken, a, t, n);
    junk := [];
    if full {
      var m := n - |taken|;
      assert (taken + a[..m])[|taken|] == ESC;
      junk := [Decode(taken + a[..m])];
      PassOver(a[m..], t);
    }
  }

  function RawOf(f: Frame): seq<Byte> {
    Raw(f.stamp, f.signal, f.data)
  }

  /** Frames sent whole before and after a cut frame: all of them arrive, and nothing else, if the cut
      falls between bytes of the frame; if it halves a pair or leaves only the marker, the first frame
      after it is lost and at most one false frame appears in its place. */
  lemma ShortWrite(fs: seq<Frame>, f: Frame, c: nat, gs: seq<Frame>) returns (junk: seq<Frame>)
    requires AllFramed(fs) && Framed(f) && AllFramed(gs) && c < |Line(f)|
    ensures var got := Parse(Stream(fs) + (Line(f)[..c] + Stream(gs)));
            && (!EndsHalf(Line(f)[..c]) ==> got == fs + gs)
            && (EndsHalf(Line(f)[..c]) && gs != [] ==> Junk(junk) && got == fs + (junk + gs[1..]))
  {
    junk := [];
    ParseStream(fs, Line(f)[..c] + Stream(gs));
    if !EndsHalf(Line(f)[..c]) {
      CleanCut(f, c, Stream(gs));
      RoundTrip(gs);
    } else if gs != [] {
      junk := HalfCut(f, c, gs[0], Stream(gs[1..]));
      RoundTrip(gs[1..]);
    }
  }

  function Silence(): Frame {
    Frame(0, 0, [0, 0, 0, 0, 0, 0, 0])
  }

  lemma {:induction false} ZeroValue(b: seq<Byte>)
    requires Value(b) == 0
    ensures ESC !in b
  {
    if b != [] { ZeroValue(b[..|b| - 1]); }
  }

  lemma DecodesToSilence(raw: seq<Byte>)
    requires |raw| >= 7
    ensures Decode(raw) == Silence() ==> ESC !in raw
  {
    if Decode(raw) == Silence() {
      ZeroValue(raw[..6]);
      assert raw == raw[..6] + [raw[6]] + raw[7..];
    }
  }

  lemma JunkIsNotSilence(junk: seq<Frame>)
    requires Junk(junk)
    ensures junk != [Silence()]
  {
    if junk != [] {
      var raw: seq<Byte> :| |raw| >= 7 && ESC in raw && junk == [Decode(raw)];
      DecodesToSilence(raw);
    }
  }

  /** The reader picks up the very next frame after a short write, whatever it is, exactly when the
      bytes sent of the cut frame do not end in an unpaired ESC. */
  lemma ResyncExactly(f: Frame, c: nat)
    requires Framed(f) && c < |Line(f)|
    ensures !EndsHalf(Line(f)[..c])
       <==> forall gs :: AllFramed(gs) ==> Parse(Line(f)[..c] + Stream(gs)) == gs
  {
    if !EndsHalf(Line(f)[..c]) {
      forall gs | AllFramed(gs)
        ensures Parse(Line(f)[..c] + Stream(gs)) == gs
      {
        CleanCut(f, c, Stream(gs));
        RoundTrip(gs);
      }
    } else {
      var gs := [Silence()];
      var junk := ShortWrite([], f, c, gs);
      JunkIsNotSilence(junk);
      assert [] + (Line(f)[..c] + Stream(gs)) == Line(f)[..c] + Stream(gs);
      assert [] + (junk + gs[1..]) == junk;
      assert AllFramed(gs) && Parse(Line(f)[..c] + Stream(gs)) != gs;
    }
  }

  // ---------------------------------------------------------------- on the wire

  /** What one message is on the wire, in bytes: the marker, '2' or '3', and all of stamp, level and data as
      they are when none of it is 0x1A. */
  lemma WireBytes(t: nat, level: int, data: seq<Byte>)
    requires |data| == 7 || |data| == 14
    requires ESC !in Raw(t, Clamp(level), data)
    ensures Encode(t, level, data) ==
              [0x1A, if |data| == 14 then '3' as int else '2' as int]
              + [t / 0x100_0000_0000 % 256, t / 0x1_0000_0000 % 256, t / 0x100_0000 % 256,
                 t / 0x1_0000 % 256, t / 0x100 % 256, t % 256]
              + [if level < 0 then 0 else if level > 255 then 255 else level] + data
  {
    Unstuffed(Raw(t, Clamp(level), data));
    SixBytes(t);
    hide Stuff, BigEndian;
  }

  lemma {:induction false} Unstuffed(raw: seq<Byte>)
    requires ESC !in raw
    ensures Stuff(raw) == raw
  {
    if raw != [] { Unstuffed(raw[1..]); }
  }

  lemma SixBytes(t: nat)
    ensures BigEndian(t, 6) == [t / 0x100_0000_0000 % 256, t / 0x1_0000_0000 % 256, t / 0x100_0000 % 256,
                                t / 0x1_0000 % 256, t / 0x100 % 256, t % 256]
  {
    assert BigEndian(t / 0x100_0000_0000, 1) == [t / 0x100_0000_0000 % 256];
    assert BigEndian(t / 0x1_0000_0000, 2) == [t / 0x100_0000_0000 % 256, t / 0x1_0000_0000 % 256];
    assert BigEndian(t / 0x100_0000, 3) == [t / 0x100_0000_0000 % 256, t / 0x1_0000_0000 % 256, t / 0x100_0000 % 256];
    assert BigEndian(t / 0x1_0000, 4) == BigEndian(t / 0x100_0000, 3) + [t / 0x1_0000 % 256];
    assert BigEndian(t / 0x100, 5) == BigEndian(t / 0x1_0000, 4) + [t / 0x100 % 256];
  }
}
