/**
 * The Beast feed of main/feed_beast.c in place: a line written through a moving pointer, a ring of
 * 128 lines pushed by the receiver's task, and the batch its own task drains them into.
 */
module Feed {
  import opened Basics
  import opened Beast
  import opened Slots
  import opened Spsc

  const RING_SLOTS: nat := 128
  const BATCH_MAX: nat := 2048

  /** A right shift by whole bytes. */
  function Shift(t: nat, bytes: nat): nat {
    if bytes == 0 then t else Shift(t, bytes - 1) / 256
  }

  lemma StampStep(t: nat, i: nat, n: nat)
    ensures BigEndian(Shift(t, i), n + 1) == BigEndian(Shift(t, i + 1), n) + [Shift(t, i) % 256]
  {
  }

  lemma WholeStamp(t: nat)
    ensures BigEndian(Shift(t, 6), 0) == [] && BigEndian(Shift(t, 0), 6) == StampBytes(t)
  {
  }

  /** The timestamp's bytes, most significant first, by shifts of 40 down to 0 bits. */
  method LayStamp(raw: array<Byte>, t: nat)
    requires raw.Length >= 6
    modifies raw
    ensures raw[..6] == StampBytes(t)
  {
    WholeStamp(t);
    hide Shift, BigEndian, StampBytes;
    var n := 0;
    var i: int := 5;
    while i >= 0
      invariant -1 <= i <= 5 && n == 5 - i
      invariant raw[..n] == BigEndian(Shift(t, i + 1), n)
    {
      StampStep(t, i, n);
      raw[n] := Shift(t, i) % 256;
      assert raw[..n + 1] == raw[..n] + [raw[n]];
      n := n + 1;
      i := i - 1;
    }
  }

  /** Timestamp, signal and message, before any byte is doubled. */
  method Lay(t: nat, level: int, msg: seq<Byte>) returns (raw: array<Byte>)
    ensures fresh(raw) && raw[..] == Raw(t, Clamp(level), msg)
  {
    raw := new Byte[7 + |msg|];
    LayStamp(raw, t);
    raw[6] := Clamp(level);
    forall k | 0 <= k < |msg| { raw[7 + k] := msg[k]; }
    hide BigEndian, Clamp;
    assert raw[..] == raw[..6] + [raw[6]] + raw[7..];
  }

  lemma StuffNext(raw: seq<Byte>, i: nat)
    requires i < |raw|
    ensures Stuff(raw[..i + 1]) == Stuff(raw[..i]) + if raw[i] == ESC then [ESC, ESC] else [raw[i]]
  {
    assert raw[..i + 1] == raw[..i] + [raw[i]];
    StuffJoin(raw[..i], [raw[i]]);
    StuffFirst([raw[i]], []);
    assert Stuff([raw[i]]) == Stuff([raw[i]]) + [];
  }

  /** One byte at the moving pointer, doubled if it is an ESC. */
  method WriteByte(line: array<Byte>, at: nat, b: Byte) returns (len: nat)
    requires at + 2 <= line.Length
    modifies line
    ensures at < len <= at + 2
    ensures line[..len] == old(line[..at]) + if b == ESC then [ESC, ESC] else [b]
  {
    line[at] := b;
    len := at + 1;
    if b == ESC {
      line[len] := ESC;
      len := len + 1;
    }
  }

  /** Marker, type, then every raw byte with each ESC doubled. */
  method Format(line: array<Byte>, t: nat, level: int, msg: seq<Byte>) returns (len: nat)
    requires line.Length == LINE_MAX && (|msg| == 7 || |msg| == 14)
    modifies line
    ensures len <= LINE_MAX && line[..len] == Encode(t, level, msg)
  {
    hide Stuff, Clamp;
    var bytes := Lay(t, level, msg);
    ghost var raw := bytes[..];
    line[0] := ESC;
    line[1] := TypeOf(|msg|);
    len := 2;
    ghost var head := line[..2];
    NoStuff(raw[..0]);
    for i := 0 to bytes.Length
      invariant bytes[..] == raw
      invariant 2 <= len <= 2 + 2 * i && line[..len] == head + Stuff(raw[..i])
    {
      StuffNext(raw, i);
      len := WriteByte(line, len, bytes[i]);
    }
    assert raw[..bytes.Length] == raw;
  }

  lemma NoStuff(raw: seq<Byte>)
    requires raw == []
    ensures Stuff(raw) == []
  {
  }

  /** The lines of some frames. */
  function Lines(fs: seq<Frame>): (ls: seq<seq<Byte>>)
    ensures |ls| == |fs| && forall i :: 0 <= i < |fs| ==> ls[i] == Line(fs[i])
  {
    seq(|fs|, i requires 0 <= i < |fs| => Line(fs[i]))
  }

  ghost predicate Sized(lines: seq<seq<Byte>>) {
    forall i :: 0 <= i < |lines| ==> |lines[i]| <= LINE_MAX
  }

  class Feed {
    const slots: array<seq<Byte>>
    var head: nat
    var tail: nat
    var drop: nat
    var clients: nat

    ghost predicate Valid()
      reads this, slots
    {
      && slots.Length == RING_SLOTS && head < WORD && tail < WORD
      && Wrap(head - tail) <= RING_SLOTS && Sized(Contents())
    }

    /** The lines waiting for the feed task. */
    ghost function Contents(): seq<seq<Byte>>
      requires slots.Length > 0
      reads this, slots
    {
      Around(slots[..], tail, Wrap(head - tail))
    }

    constructor ()
      ensures Valid() && Contents() == [] && drop == 0 && clients == 0
      ensures fresh(slots)
    {
      slots := new seq<Byte>[RING_SLOTS];
      head, tail, drop, clients := 0, 0, 0, 0;
    }

    /** With a client connected, a 56- or 112-bit message becomes one more line, or a drop when 128 wait. */
    method Push(msg: seq<Byte>, msgbits: int, t: nat, level: int)
      requires Valid()
      requires msgbits / 8 == 7 || msgbits / 8 == 14 ==> |msg| >= msgbits / 8
      modifies this`head, this`drop, slots
      ensures Valid()
      ensures var framed := old(clients) > 0 && (msgbits / 8 == 7 || msgbits / 8 == 14);
              var full := |old(Contents())| == RING_SLOTS;
              && drop == old(drop) + (if framed && full then 1 else 0)
              && Contents() == old(Contents()) + if framed && !full then [Encode(t, level, msg[..msgbits / 8])] else []
    {
      hide Wrap, Slot, Offset, Encode, BigEndian;
      assert old(Contents()) + [] == old(Contents());
      if clients == 0 { return; }
      var nbytes := msgbits / 8;
      if nbytes != 14 && nbytes != 7 { return; }
      if Wrap(head - tail) >= RING_SLOTS {
        drop := drop + 1;
        return;
      }
      var line := new Byte[LINE_MAX];
      var len := Format(line, t, level, msg[..nbytes]);
      ghost var was := slots[..];
      slots[head % RING_SLOTS] := line[..len];
      forall x | 0 <= x < RING_SLOTS
        ensures slots[x] == if Offset(x, head, RING_SLOTS) < 1 then [line[..len]][Offset(x, head, RING_SLOTS)] else was[x]
      {
        OffsetZero(x, head);
      }
      PushedCounters(head, tail, 1, RING_SLOTS);
      PushedContents(was, slots[..], head, tail, [line[..len]]);
      head := Wrap(head + 1);
    }

    /** A batch is the oldest lines end to end, as many as are there and sure to fit. */
    method Drain(batch: array<Byte>) returns (n: nat, lines: nat)
      requires Valid() && batch.Length == BATCH_MAX
      modifies this`tail, batch
      ensures Valid() && n <= BATCH_MAX && lines <= |old(Contents())|
      ensures batch[..n] == Joined(old(Contents())[..lines]) && Contents() == old(Contents())[lines..]
      ensures lines == |old(Contents())| || n + LINE_MAX > BATCH_MAX
    {
      hide Wrap, Slot;
      ghost var q := Contents();
      n, lines := 0, 0;
      var t: nat, h: nat := tail, head;
      while t != h && n + LINE_MAX <= BATCH_MAX
        invariant t < WORD && lines <= |q| && Wrap(h - t) == |q| - lines
        invariant Around(slots[..], t, Wrap(h - t)) == q[lines..]
        invariant n <= BATCH_MAX && batch[..n] == Joined(q[..lines])
        decreases |q| - lines
      {
        var l := slots[t % RING_SLOTS];
        Advance(slots[..], h, t, q, lines);
        forall k | 0 <= k < |l| { batch[n + k] := l[k]; }
        assert q[..lines] + [l] == q[..lines + 1];
        JoinedOne(q[..lines], l);
        assert batch[..n + |l|] == Joined(q[..lines]) + l;
        n, lines, t := n + |l|, lines + 1, Wrap(t + 1);
      }
      Emptied(h, t);
      tail := t;
    }
  }

  lemma OffsetZero(x: nat, head: nat)
    requires x < RING_SLOTS
    ensures Offset(x, head, RING_SLOTS) < 1 <==> x == head % RING_SLOTS
  {
  }

  lemma NotEmpty(h: nat, t: nat)
    requires h < WORD && t < WORD && h != t
    ensures Wrap(h - t) > 0
  {
  }

  lemma Emptied(h: nat, t: nat)
    requires h < WORD && t < WORD
    ensures h == t ==> Wrap(h - t) == 0
  {
  }

  /** The counter's slot holds the first line left, and the rest are left after it. */
  lemma Advance<T>(slots: seq<T>, h: nat, t: nat, q: seq<T>, lines: nat)
    requires Capacity(|slots|) && h < WORD && t < WORD && h != t
    requires lines <= |q| && Around(slots, t, Wrap(h - t)) == q[lines..]
    ensures lines < |q| && q[lines] == slots[t % |slots|]
    ensures Wrap(t + 1) < WORD && Wrap(h - Wrap(t + 1)) == |q| - (lines + 1)
    ensures Around(slots, Wrap(t + 1), Wrap(h - Wrap(t + 1))) == q[lines + 1..]
  {
    NotEmpty(h, t);
    FirstWaiting(slots, t, Wrap(h - t));
    ReadCounters(h, t, 1);
    ReadContents(slots, t, Wrap(h - t), 1);
    hide Wrap, Slot;
    assert q[lines..][1..] == q[lines + 1..];
  }

  lemma FirstWaiting<T>(slots: seq<T>, t: nat, n: nat)
    requires |slots| > 0 && n > 0
    ensures Around(slots, t, n)[0] == slots[t % |slots|]
  {
  }

  lemma {:induction false} LinesJoined(fs: seq<Frame>)
    ensures Joined(Lines(fs)) == Stream(fs)
  {
    if fs != [] {
      assert Lines(fs)[1..] == Lines(fs[1..]);
      LinesJoined(fs[1..]);
    }
  }

  /** A drained batch reads back as the frames that were pushed, in order, each exactly once. */
  lemma BatchParses(fs: seq<Frame>, lines: nat, batch: seq<Byte>)
    requires AllFramed(fs) && lines <= |fs| && batch == Joined(Lines(fs)[..lines])
    ensures Parse(batch) == fs[..lines]
  {
    assert Lines(fs)[..lines] == Lines(fs[..lines]);
    LinesJoined(fs[..lines]);
    RoundTrip(fs[..lines]);
  }
}
