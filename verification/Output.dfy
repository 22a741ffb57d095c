/**
 * Text on its way to a terminal: the frame assembler of main/screen.c, which fills a buffer and hands
 * it on in runs, and the session stream of main/net_ssh.c, which is written to in pieces and queued.
 * Both turn line feeds into CR LF.
 */
module Output {
  import opened Arithmetic
  import opened Basics
  import opened Slots

  const LF: Byte := 10
  const CR: Byte := 13

  // ---------------------------------------------------------------- the frame

  const FB_SIZE: nat := 4096

  /** Every line feed becomes CR LF. */
  function Crlf(s: seq<Byte>): seq<Byte> {
    if s == [] then [] else Crlf(s[..|s| - 1]) + if s[|s| - 1] == LF then [CR, LF] else [s[|s| - 1]]
  }

  lemma {:induction false} CrlfJoin(a: seq<Byte>, b: seq<Byte>)
    ensures Crlf(a + b) == Crlf(a) + Crlf(b)
  {
    if b == [] {
      assert a + b == a;
    } else {
      assert (a + b)[..|a + b| - 1] == a + b[..|b| - 1];
      CrlfJoin(a, b[..|b| - 1]);
    }
  }

  lemma {:induction false} CrlfPlain(s: seq<Byte>)
    requires LF !in s
    ensures Crlf(s) == s
  {
    if s != [] { CrlfPlain(s[..|s| - 1]); }
  }

  /** A run without a line feed, and the line feed after it. */
  lemma CrlfRun(run: seq<Byte>, rest: seq<Byte>)
    requires LF !in run
    ensures Crlf(run + [LF] + rest) == run + [CR, LF] + Crlf(rest)
  {
    CrlfJoin(run + [LF], rest);
    assert (run + [LF])[..|run|] == run;
    CrlfPlain(run);
  }

  lemma LastRun(sent: seq<Byte>, run: seq<Byte>)
    requires LF !in run
    ensures sent + run + Crlf([]) == sent + Crlf(run)
  {
    CrlfPlain(run);
  }

  lemma MiddleRun(sent: seq<Byte>, run: seq<Byte>, rest: seq<Byte>)
    requires LF !in run
    ensures sent + run + [CR, LF] + Crlf(rest) == sent + Crlf(run + [LF] + rest)
  {
    CrlfRun(run, rest);
  }

  /** A repeated byte. */
  function Repeat(c: Byte, n: int): (s: seq<Byte>)
    ensures |s| == if n > 0 then n else 0
  {
    seq(if n > 0 then n else 0, _ => c)
  }

  function Cut(s: seq<Byte>, n: nat): seq<Byte> {
    if |s| > n then s[..n] else s
  }

  /** The frame buffer, and what a sink attached throughout has been handed. */
  class Frame {
    const fb: array<Byte>
    var len: nat
    var sent: seq<Byte>
    ghost var text: seq<Byte>

    /** What was sent and what still waits make up the expansion of all that was written. */
    ghost predicate Valid()
      reads this, fb
    {
      fb.Length == FB_SIZE && len <= FB_SIZE && sent + Crlf(fb[..len]) == Crlf(text)
    }

    constructor ()
      ensures Valid() && text == [] && sent == [] && fresh(fb)
    {
      fb := new Byte[FB_SIZE];
      len, sent, text := 0, [], [];
    }

    method Out(run: seq<Byte>)
      modifies this`sent
      ensures sent == old(sent) + run
    {
      sent := sent + run;
    }

    /** The first line feed of a stretch of the buffer, or its end. */
    method FindLf(p: nat, end: nat) returns (nl: nat)
      requires p <= end <= fb.Length
      ensures p <= nl <= end && LF !in fb[p..nl] && (nl < end ==> fb[nl] == LF)
    {
      nl := p;
      while nl < end && fb[nl] != LF
        invariant p <= nl <= end && LF !in fb[p..nl]
      {
        assert fb[p..nl + 1] == fb[p..nl] + [fb[nl]];
        nl := nl + 1;
      }
    }

    /** One run and the line feed after it, if there is one. */
    method FlushRun(p: nat, end: nat) returns (next: nat)
      requires p < end <= fb.Length
      modifies this`sent
      ensures p < next <= end
      ensures sent + Crlf(fb[next..end]) == old(sent) + Crlf(fb[p..end])
    {
      hide Crlf;
      var nl := FindLf(p, end);
      ghost var run := fb[p..nl];
      if nl > p { Out(fb[p..nl]); }
      assert old(sent) + [] == old(sent);
      assert sent == old(sent) + run;
      if nl == end {
        assert fb[end..end] == [];
        LastRun(old(sent), run);
        return end;
      }
      Out([CR, LF]);
      assert fb[p..end] == run + [LF] + fb[nl + 1..end];
      MiddleRun(old(sent), run, fb[nl + 1..end]);
      return nl + 1;
    }

    /** The whole buffer leaves, in runs between line feeds. */
    method Flush()
      requires Valid()
      modifies this`len, this`sent
      ensures Valid() && len == 0 && sent == Crlf(text)
    {
      var p: nat, end := 0, len;
      assert fb[0..end] == fb[..end] && fb[..0] == [] == fb[end..end];
      while p < end
        invariant p <= end <= FB_SIZE && len == end
        invariant sent + Crlf(fb[p..end]) == Crlf(text)
      {
        p := FlushRun(p, end);
      }
      assert sent + Crlf([]) == sent;
      len := 0;
    }

    /** Room for so many bytes, flushing if there is not. */
    method Room(need: int)
      requires Valid()
      modifies this`len, this`sent
      ensures Valid() && (len == 0 || (len == old(len) && len + need <= FB_SIZE))
    {
      if len + need > FB_SIZE { Flush(); }
    }

    /** Bytes known to fit, copied to the end. */
    method Append(s: seq<Byte>)
      requires Valid() && len + |s| <= FB_SIZE
      modifies this`len, this`text, fb
      ensures Valid() && text == old(text) + s && len == old(len) + |s|
    {
      ghost var was := fb[..len];
      forall k | 0 <= k < |s| { fb[len + k] := s[k]; }
      assert fb[..len + |s|] == was + s;
      CrlfJoin(was, s);
      CrlfJoin(text, s);
      text := text + s;
      len := len + |s|;
      assert sent + (Crlf(was) + Crlf(s)) == (sent + Crlf(was)) + Crlf(s);
    }

    /** A string is written whole, up to the size of the buffer. */
    method Puts(s: seq<Byte>)
      requires Valid()
      modifies this, fb
      ensures Valid() && text == old(text) + Cut(s, FB_SIZE)
    {
      Room(|s|);
      Append(Cut(s, FB_SIZE));
    }

    method Putc(c: Byte)
      requires Valid()
      modifies this, fb
      ensures Valid() && text == old(text) + [c]
    {
      Room(1);
      Append([c]);
    }

    /** A repeated byte, in as many buffers as it takes. */
    method Rep(c: Byte, n: int)
      requires Valid()
      modifies this, fb
      ensures Valid() && text == old(text) + Repeat(c, n)
    {
      var left := n;
      assert old(text) + [] == old(text);
      while left > 0
        invariant Valid() && left <= n && (n > 0 ==> 0 <= left) && (n <= 0 ==> left == n)
        invariant text == old(text) + Repeat(c, n - left)
      {
        Room(1);
        var chunk := FB_SIZE - len;
        if chunk > left { chunk := left; }
        Append(Repeat(c, chunk));
        assert Repeat(c, n - left) + Repeat(c, chunk) == Repeat(c, n - left + chunk);
        left := left - chunk;
      }
    }

    /** Formatted text: room is made for 512 bytes, and what does not fit before the buffer's end, with
        a terminator behind it, is cut. */
    method Printf(s: seq<Byte>)
      requires Valid()
      modifies this, fb
      ensures Valid() && exists kept: nat :: kept <= |s| && text == old(text) + s[..kept]
                                             && (kept < |s| ==> kept >= 511)
    {
      Room(512);
      var room := FB_SIZE - len;
      var kept := if |s| < room then |s| else room - 1;
      Append(s[..kept]);
    }
  }

  /** What a screen's draw function may call. */
  datatype Call = Puts(s: seq<Byte>) | Putc(c: Byte) | Rep(ch: Byte, n: int) | Printf(t: seq<Byte>)

  function TextOf(call: Call): seq<Byte> {
    match call
    case Puts(s) => s
    case Putc(c) => [c]
    case Rep(c, n) => Repeat(c, n)
    case Printf(t) => t
  }

  /** The text fits its call: a buffer's worth for a string, half a kilobyte for a formatted one. */
  predicate Fits(call: Call) {
    (call.Puts? ==> |call.s| <= FB_SIZE) && (call.Printf? ==> |call.t| <= 511)
  }

  function Drawn(calls: seq<Call>): seq<Byte> {
    if calls == [] then [] else Drawn(calls[..|calls| - 1]) + TextOf(calls[|calls| - 1])
  }

  method Perform(frame: Frame, call: Call)
    requires frame.Valid() && Fits(call)
    modifies frame, frame.fb
    ensures frame.Valid() && frame.text == old(frame.text) + TextOf(call)
  {
    match call {
      case Puts(s) => frame.Puts(s);
      case Putc(c) => frame.Putc(c);
      case Rep(c, n) => frame.Rep(c, n);
      case Printf(t) =>
        frame.Printf(t);
        assert t[..|t|] == t;
    }
  }

  /** A frame of any calls, flushed at its end, reaches the sink as the expansion of the whole text,
      wherever the buffer filled up in between. */
  method Paint(frame: Frame, calls: seq<Call>)
    requires frame.Valid() && forall k :: 0 <= k < |calls| ==> Fits(calls[k])
    modifies frame, frame.fb
    ensures frame.Valid() && frame.len == 0 && frame.sent == Crlf(old(frame.text) + Drawn(calls))
  {
    hide Crlf, Fits, TextOf, Frame.Valid;
    assert calls[..0] == [] && frame.text + [] == frame.text;
    for i := 0 to |calls|
      invariant frame.Valid() && frame.text == old(frame.text) + Drawn(calls[..i])
    {
      Perform(frame, calls[i]);
      assert calls[..i + 1][..i] == calls[..i];
    }
    assert calls[..|calls|] == calls;
    frame.Flush();
  }

  // ---------------------------------------------------------------- the session

  const RING_SIZE: nat := 16384

  /** The byte before a piece's end, or before the piece. */
  function Last(prev: Byte, s: seq<Byte>): Byte {
    if s == [] then prev else s[|s| - 1]
  }

  /** Every line feed not already behind a carriage return becomes CR LF. */
  function Expand(prev: Byte, s: seq<Byte>): seq<Byte> {
    if s == [] then []
    else
      var m := |s| - 1;
      Expand(prev, s[..m]) + if s[m] == LF && Last(prev, s[..m]) != CR then [CR, LF] else [s[m]]
  }

  /** However a stream is cut into writes, each told the last byte of the one before, the same bytes
      come out. */
  lemma {:induction false} ExpandJoin(prev: Byte, a: seq<Byte>, b: seq<Byte>)
    ensures Expand(prev, a + b) == Expand(prev, a) + Expand(Last(prev, a), b)
    ensures Last(prev, a + b) == Last(Last(prev, a), b)
  {
    if b == [] {
      assert a + b == a;
    } else {
      var m := |b| - 1;
      assert (a + b)[..|a + b| - 1] == a + b[..m];
      ExpandJoin(prev, a, b[..m]);
    }
  }

  /** Byte k comes right after a carriage return. */
  predicate AfterReturn(prev: Byte, s: seq<Byte>, k: nat)
    requires k < |s|
  {
    (if k == 0 then prev else s[k - 1]) == CR
  }

  /** No line feed stands without a carriage return before it. */
  predicate Proper(prev: Byte, s: seq<Byte>) {
    forall k :: 0 <= k < |s| && s[k] == LF ==> AfterReturn(prev, s, k)
  }

  /** A stream without its carriage returns. */
  function Bare(s: seq<Byte>): seq<Byte> {
    if s == [] then [] else Bare(s[..|s| - 1]) + if s[|s| - 1] == CR then [] else [s[|s| - 1]]
  }

  /** How many line feeds lack one. */
  function Lacking(prev: Byte, s: seq<Byte>): nat {
    if s == [] then 0
    else Lacking(prev, s[..|s| - 1]) + if s[|s| - 1] == LF && !AfterReturn(prev, s, |s| - 1) then 1 else 0
  }

  lemma BareOne(s: seq<Byte>, b: Byte)
    ensures Bare(s + [b]) == Bare(s) + if b == CR then [] else [b]
  {
    assert (s + [b])[..|s|] == s;
  }

  lemma ProperOne(prev: Byte, s: seq<Byte>, b: Byte)
    ensures Proper(prev, s + [b]) <==> Proper(prev, s) && (b == LF ==> Last(prev, s) == CR)
    ensures Last(prev, s + [b]) == b
  {
    var t := s + [b];
    assert AfterReturn(prev, t, |s|) == (Last(prev, s) == CR);
    assert forall k :: 0 <= k < |s| ==> t[k] == s[k] && AfterReturn(prev, t, k) == AfterReturn(prev, s, k);
    hide AfterReturn;
  }

  lemma LackingOne(prev: Byte, s: seq<Byte>, b: Byte)
    ensures Lacking(prev, s + [b]) == Lacking(prev, s) + if b == LF && Last(prev, s) != CR then 1 else 0
    ensures Expand(prev, s + [b]) == Expand(prev, s) + if b == LF && Last(prev, s) != CR then [CR, LF] else [b]
  {
    assert (s + [b])[..|s|] == s;
    assert AfterReturn(prev, s + [b], |s|) == (Last(prev, s) == CR);
    hide AfterReturn;
  }

  /** What an expansion e of s keeps and adds. */
  predicate Expands(prev: Byte, s: seq<Byte>, e: seq<Byte>) {
    && Proper(prev, e) && Bare(e) == Bare(s) && |e| == |s| + Lacking(prev, s) && Last(prev, e) == Last(prev, s)
    && (Proper(prev, s) ==> e == s)
  }

  lemma ExpandsOne(prev: Byte, s: seq<Byte>, e: seq<Byte>, b: Byte)
    requires Expands(prev, s, e)
    ensures Expands(prev, s + [b], e + if b == LF && Last(prev, s) != CR then [CR, LF] else [b])
  {
    hide Proper, Bare, Lacking, Last;
    BareOne(s, b);
    ProperOne(prev, s, b);
    LackingOne(prev, s, b);
    if b == LF && Last(prev, s) != CR {
      BareOne(e, CR);
      ProperOne(prev, e, CR);
      BareOne(e + [CR], LF);
      ProperOne(prev, e + [CR], LF);
      assert e + [CR] + [LF] == e + [CR, LF];
      assert Bare(e) + [] + [LF] == Bare(s) + [LF];
    } else {
      BareOne(e, b);
      ProperOne(prev, e, b);
    }
  }

  /** What expansion means: every line feed gets its carriage return, nothing else is added or lost, and no
      more is added than was lacking, so that proper text is left as it is. */
  lemma {:induction false} ExpandMeans(prev: Byte, s: seq<Byte>)
    ensures var e := Expand(prev, s);
            && Proper(prev, e) && Bare(e) == Bare(s) && |e| == |s| + Lacking(prev, s)
            && (Proper(prev, s) ==> e == s)
    ensures Expands(prev, s, Expand(prev, s))
  {
    if s != [] {
      var t, b := s[..|s| - 1], s[|s| - 1];
      ExpandMeans(prev, t);
      assert s == t + [b];
      ExpandsOne(prev, t, Expand(prev, t), b);
      LackingOne(prev, t, b);
      hide Proper, Bare, Lacking, Expand, Last;
    }
  }

  /** The writes of a whole session. */
  function ExpandAll(prev: Byte, writes: seq<seq<Byte>>): seq<Byte>
    decreases |writes|
  {
    if writes == [] then [] else Expand(prev, writes[0]) + ExpandAll(Last(prev, writes[0]), writes[1..])
  }

  lemma {:induction false} SplitsDoNotMatter(prev: Byte, writes: seq<seq<Byte>>)
    ensures ExpandAll(prev, writes) == Expand(prev, Joined(writes))
    decreases |writes|
  {
    if writes != [] {
      SplitsDoNotMatter(Last(prev, writes[0]), writes[1..]);
      ExpandJoin(prev, writes[0], Joined(writes[1..]));
    }
  }

  /** A write cut up as it is pushed: the pieces so far and the bytes of the line that still wait. */
  datatype Parts = Parts(pieces: seq<seq<Byte>>, waiting: seq<Byte>)

  /** A line feed that needs a carriage return ends its line: what waits is pushed, then the line end. */
  function CutUp(prev: Byte, s: seq<Byte>): Parts {
    if s == [] then Parts([], [])
    else
      var m := |s| - 1;
      var c := CutUp(prev, s[..m]);
      if s[m] == LF && Last(prev, s[..m]) != CR
      then Parts((if c.waiting == [] then c.pieces else c.pieces + [c.waiting]) + [[CR, LF]], [])
      else Parts(c.pieces, c.waiting + [s[m]])
  }

  /** All the pieces of a write, in the order they are pushed. */
  function PiecesOf(prev: Byte, s: seq<Byte>): seq<seq<Byte>> {
    var c := CutUp(prev, s);
    if c.waiting == [] then c.pieces else c.pieces + [c.waiting]
  }

  lemma {:induction false} CutIsExpansion(prev: Byte, s: seq<Byte>)
    ensures var c := CutUp(prev, s); Joined(c.pieces) + c.waiting == Expand(prev, s)
  {
    if s != [] {
      var m := |s| - 1;
      var c := CutUp(prev, s[..m]);
      CutIsExpansion(prev, s[..m]);
      JoinedOne(c.pieces, c.waiting);
      if s[m] == LF && Last(prev, s[..m]) != CR {
        var line := if c.waiting == [] then c.pieces else c.pieces + [c.waiting];
        JoinedOne(line, [CR, LF]);
        assert Joined(line) == Expand(prev, s[..m]);
      } else {
        assert Joined(c.pieces) + (c.waiting + [s[m]]) == Expand(prev, s[..m]) + [s[m]];
      }
    }
  }

  /** The pieces of a write, end to end, are its expansion. */
  lemma PiecesAreExpansion(prev: Byte, s: seq<Byte>)
    ensures Joined(PiecesOf(prev, s)) == Expand(prev, s)
  {
    CutIsExpansion(prev, s);
    JoinedOne(CutUp(prev, s).pieces, CutUp(prev, s).waiting);
  }

  /** How many bytes of a piece a queue takes: as many as it has room for, none while its mutex is taken. */
  function Room(q: seq<Byte>, piece: seq<Byte>, free: bool): (n: nat)
    requires |q| < RING_SIZE
    ensures n <= |piece| && |q| + n < RING_SIZE
  {
    if free then Least(|piece|, RING_SIZE - 1 - |q|) else 0
  }

  /** The queue after pushing pieces: of each, a prefix. */
  function Queued(q: seq<Byte>, pieces: seq<seq<Byte>>, free: nat -> bool): (r: seq<Byte>)
    requires |q| < RING_SIZE
    ensures |r| < RING_SIZE && q <= r
  {
    if pieces == [] then q
    else
      var m := |pieces| - 1;
      var p := Queued(q, pieces[..m], free);
      p + pieces[m][..Room(p, pieces[m], free(m))]
  }

  /** Nothing is lost while there is room and nobody holds the mutex. */
  lemma {:induction false} QueuedWhole(q: seq<Byte>, pieces: seq<seq<Byte>>, free: nat -> bool)
    requires |q| + |Joined(pieces)| < RING_SIZE && forall k: nat :: free(k)
    ensures Queued(q, pieces, free) == q + Joined(pieces)
  {
    if pieces != [] {
      var m := |pieces| - 1;
      assert pieces == pieces[..m] + [pieces[m]];
      JoinedOne(pieces[..m], pieces[m]);
      QueuedWhole(q, pieces[..m], free);
    }
  }

  /** As much of a stream as a queue holds. */
  function CutToRing(all: seq<Byte>): seq<Byte> {
    if |all| < RING_SIZE then all else all[..RING_SIZE - 1]
  }

  lemma CutMore(all: seq<Byte>, piece: seq<Byte>)
    ensures var p := CutToRing(all); CutToRing(all + piece) == p + piece[..Room(p, piece, true)]
  {
    assert piece[..|piece|] == piece && all[..|all|] == all;
    if |all| < RING_SIZE <= |all + piece| {
      assert (all + piece)[..RING_SIZE - 1] == all + piece[..RING_SIZE - 1 - |all|];
    } else if RING_SIZE <= |all| {
      assert (all + piece)[..RING_SIZE - 1] == all[..RING_SIZE - 1] + [];
    }
  }

  /** With the mutex free, the queue takes the pieces' bytes in order until it is full, and none after. */
  lemma {:induction false} QueuedUntilFull(q: seq<Byte>, pieces: seq<seq<Byte>>, free: nat -> bool)
    requires |q| < RING_SIZE && forall k: nat :: free(k)
    ensures var all := q + Joined(pieces);
            Queued(q, pieces, free) == if |all| < RING_SIZE then all else all[..RING_SIZE - 1]
  {
    if pieces == [] {
      assert q + [] == q;
    } else {
      var m := |pieces| - 1;
      assert pieces == pieces[..m] + [pieces[m]];
      JoinedOne(pieces[..m], pieces[m]);
      QueuedUntilFull(q, pieces[..m], free);
      QueuedNext(q, pieces[..m], pieces[m], free);
      CutMore(q + Joined(pieces[..m]), pieces[m]);
      assert q + Joined(pieces) == q + Joined(pieces[..m]) + pieces[m];
      hide Queued, Joined, Room;
    }
  }

  /** No more is queued than offered, and if as much, then all of it. */
  lemma {:induction false} QueuedAtMost(q: seq<Byte>, pieces: seq<seq<Byte>>, free: nat -> bool)
    requires |q| < RING_SIZE
    ensures |Queued(q, pieces, free)| <= |q| + |Joined(pieces)|
    ensures |Queued(q, pieces, free)| == |q| + |Joined(pieces)| ==> Queued(q, pieces, free) == q + Joined(pieces)
  {
    if pieces != [] {
      var m := |pieces| - 1;
      var p := Queued(q, pieces[..m], free);
      assert pieces == pieces[..m] + [pieces[m]];
      JoinedOne(pieces[..m], pieces[m]);
      QueuedAtMost(q, pieces[..m], free);
      assert pieces[m][..|pieces[m]|] == pieces[m];
    }
  }

  lemma QueuedNext(q: seq<Byte>, pieces: seq<seq<Byte>>, piece: seq<Byte>, free: nat -> bool)
    requires |q| < RING_SIZE
    ensures var p := Queued(q, pieces, free);
            Queued(q, pieces + [piece], free) == p + piece[..Room(p, piece, free(|pieces|))]
  {
    assert (pieces + [piece])[..|pieces|] == pieces;
  }

  /** Some bytes of a stream, in order: the k-th is at at[k]. */
  ghost predicate Picked(bytes: seq<Byte>, stream: seq<Byte>, at: seq<nat>) {
    && |at| == |bytes|
    && (forall k :: 0 <= k < |at| ==> at[k] < |stream| && bytes[k] == stream[at[k]])
    && (forall j, k :: 0 <= j < k < |at| ==> at[j] < at[k])
  }

  function Positions(from: nat, n: nat): (at: seq<nat>)
    ensures |at| == n && forall i :: 0 <= i < n ==> at[i] == from + i
  {
    seq(n, i requires 0 <= i => from + i)
  }

  /** A prefix of what is added to the stream may be added to what is picked. */
  lemma PickedMore(bytes: seq<Byte>, stream: seq<Byte>, at: seq<nat>, data: seq<Byte>, n: nat)
    requires Picked(bytes, stream, at) && n <= |data|
    ensures Picked(bytes + data[..n], stream + data, at + Positions(|stream|, n))
  {
  }

  lemma FreeSlot(head: nat, tail: nat, i: nat)
    requires head < RING_SIZE && tail < RING_SIZE
    ensures Slot(tail, (head - tail) % RING_SIZE, RING_SIZE) == head
    ensures i < (head - tail) % RING_SIZE ==> Slot(tail, i, RING_SIZE) != head
  {
    if i < (head - tail) % RING_SIZE { ModDistinct(tail + i, tail + (head - tail) % RING_SIZE, RING_SIZE); }
  }

  lemma GapMore(head: nat, tail: nat)
    requires head < RING_SIZE && tail < RING_SIZE && (head - tail) % RING_SIZE < RING_SIZE - 1
    ensures ((head + 1) % RING_SIZE - tail) % RING_SIZE == (head - tail) % RING_SIZE + 1
  {
  }

  lemma GapFewer(head: nat, tail: nat)
    requires head < RING_SIZE && tail < RING_SIZE && (head - tail) % RING_SIZE > 0
    ensures (head - (tail + 1) % RING_SIZE) % RING_SIZE == (head - tail) % RING_SIZE - 1
  {
  }

  lemma NextSlot(tail: nat, i: nat)
    requires tail < RING_SIZE
    ensures Slot(tail, 0, RING_SIZE) == tail
    ensures Slot((tail + 1) % RING_SIZE, i, RING_SIZE) == Slot(tail, i + 1, RING_SIZE)
  {
    ModOfMod(tail + 1, i, RING_SIZE, RING_SIZE);
  }

  lemma OneMore(was: seq<Byte>, head: nat, tail: nat, b: Byte)
    requires |was| == RING_SIZE && head < RING_SIZE && tail < RING_SIZE && (head - tail) % RING_SIZE < RING_SIZE - 1
    ensures ((head + 1) % RING_SIZE - tail) % RING_SIZE == (head - tail) % RING_SIZE + 1
    ensures Around(was[head := b], tail, (head - tail) % RING_SIZE + 1) == Around(was, tail, (head - tail) % RING_SIZE) + [b]
  {
    hide Slot;
    GapMore(head, tail);
    var n := (head - tail) % RING_SIZE;
    FreeSlot(head, tail, 0);
    forall i | 0 <= i <= n
      ensures Around(was[head := b], tail, n + 1)[i] == (Around(was, tail, n) + [b])[i]
    {
      if i < n { FreeSlot(head, tail, i); }
    }
  }

  lemma OneFewer(slots: seq<Byte>, head: nat, tail: nat)
    requires |slots| == RING_SIZE && head < RING_SIZE && tail < RING_SIZE && (head - tail) % RING_SIZE > 0
    ensures (head - (tail + 1) % RING_SIZE) % RING_SIZE == (head - tail) % RING_SIZE - 1
    ensures var q := Around(slots, tail, (head - tail) % RING_SIZE);
            q[0] == slots[tail] && Around(slots, (tail + 1) % RING_SIZE, (head - tail) % RING_SIZE - 1) == q[1..]
  {
    hide Slot;
    GapFewer(head, tail);
    NextSlot(tail, 0);
    var n := (head - tail) % RING_SIZE;
    var rest := Around(slots, (tail + 1) % RING_SIZE, n - 1);
    forall i | 0 <= i < n - 1
      ensures rest[i] == Around(slots, tail, n)[1..][i]
    {
      NextSlot(tail, i);
    }
  }

  /** The session's stream. For the record: all it was ever offered, what has been taken out, and where
      in the stream each byte ever queued stands. */
  class Session {
    const ring: array<Byte>
    var head: nat
    var tail: nat
    var dropped: nat
    var prev: Byte
    ghost var offered: seq<Byte>
    ghost var taken: seq<Byte>
    ghost var at: seq<nat>

    ghost predicate Indexed()
      reads this`head, this`tail
    {
      ring.Length == RING_SIZE && head < RING_SIZE && tail < RING_SIZE
    }

    function Used(): nat
      reads this`head, this`tail
    {
      (head - tail) % RING_SIZE
    }

    /** The bytes queued for the client. */
    ghost function Contents(): (q: seq<Byte>)
      requires Indexed()
      reads this`head, this`tail, ring
      ensures |q| == Used()
    {
      Around(ring[..], tail, Used())
    }

    /** What was taken and what is queued are bytes of the stream offered, in order, and the rest of it
        is counted as dropped. */
    ghost predicate Valid()
      reads this`head, this`tail, this`dropped, this`offered, this`taken, this`at, ring
    {
      && Indexed() && Picked(taken + Contents(), offered, at)
      && |taken| + |Contents()| + dropped == |offered|
    }

    constructor ()
      ensures Valid() && Contents() == [] && dropped == 0 && prev == 0 && offered == [] && taken == [] && fresh(ring)
    {
      ring := new Byte[RING_SIZE];
      head, tail, dropped, prev := 0, 0, 0, 0;
      offered, taken, at := [], [], [];
    }

    /** As much as there is room for, or nothing if the mutex is taken. */
    method RingPush(data: seq<Byte>, free: bool) returns (n: nat)
      requires Indexed()
      modifies this`head, ring
      ensures Indexed() && n == Room(old(Contents()), data, free)
      ensures Contents() == old(Contents()) + data[..n]
    {
      hide Around, Slot;
      assert old(Contents()) + data[..0] == old(Contents());
      if !free { return 0; }
      n := Least(|data|, RING_SIZE - 1 - Used());
      hide Session.Contents;
      for i := 0 to n
        invariant Indexed() && Used() == |old(Contents())| + i
        invariant Contents() == old(Contents()) + data[..i]
      {
        PushOne(data[i]);
        assert data[..i + 1] == data[..i] + [data[i]];
      }
    }

    method PushOne(b: Byte)
      requires Indexed() && Used() < RING_SIZE - 1
      modifies this`head, ring
      ensures Indexed() && Contents() == old(Contents()) + [b] && Used() == old(Used()) + 1
    {
      hide Around, Slot;
      OneMore(ring[..], head, tail, b);
      ghost var was := ring[..];
      ring[head] := b;
      assert ring[..] == was[head := b];
      head := (head + 1) % RING_SIZE;
    }

    /** A piece is offered; a prefix of it is queued, and what was not accepted is counted. */
    method LogPush(data: seq<Byte>, free: bool)
      requires Valid()
      modifies this`head, this`dropped, this`offered, this`at, ring
      ensures Valid() && offered == old(offered) + data
      ensures Contents() == old(Contents()) + data[..Room(old(Contents()), data, free)]
    {
      hide Picked, Session.Contents;
      var n := RingPush(data, free);
      PickedMore(taken + old(Contents()), offered, at, data, n);
      assert (taken + old(Contents())) + data[..n] == taken + Contents();
      dropped := dropped + (|data| - n);
      at := at + Positions(|offered|, n);
      offered := offered + data;
    }

    method PopOne() returns (b: Byte)
      requires Valid() && |Contents()| > 0
      modifies this`tail, this`taken
      ensures Valid() && old(Contents()) == [b] + Contents() && taken == old(taken) + [b]
    {
      hide Around, Slot, Picked;
      OneFewer(ring[..], head, tail);
      ghost var q := Contents();
      b := ring[tail];
      tail := (tail + 1) % RING_SIZE;
      assert q == [q[0]] + q[1..];
      assert taken + ([b] + Contents()) == (taken + [b]) + Contents();
      taken := taken + [b];
    }

    method RingPop(max: nat) returns (out: seq<Byte>)
      requires Valid()
      modifies this`tail, this`taken
      ensures Valid() && |out| == Least(max, |old(Contents())|)
      ensures out + Contents() == old(Contents()) && taken == old(taken) + out
    {
      hide Session.Contents, Picked;
      var n := Least(max, Used());
      out := [];
      assert taken + [] == taken;
      while |out| < n
        invariant Valid() && |out| <= n && |out| + |Contents()| == |old(Contents())|
        invariant out + Contents() == old(Contents()) && taken == old(taken) + out
      {
        var b := PopOne();
        assert out + ([b] + Contents()) == (out + [b]) + Contents();
        assert (old(taken) + out) + [b] == old(taken) + (out + [b]);
        out := out + [b];
      }
    }

    /** What has become of the first i bytes of a write: their pieces are queued as far as they were
        accepted, and those from start on still wait. */
    ghost predicate Pushed(was: seq<Byte>, before: seq<Byte>, from: Byte, data: seq<Byte>, start: nat, i: nat, turn: nat,
                           free: nat -> bool)
      requires Indexed() && start <= i <= |data| && |was| < RING_SIZE
      reads this`head, this`tail, this`offered, ring
    {
      var c := CutUp(from, data[..i]);
      && c.waiting == data[start..i] && turn == |c.pieces|
      && Contents() == Queued(was, c.pieces, free) && offered == before + Joined(c.pieces)
    }

    /** One byte of a write: it waits, or it is a line feed that ends its line. */
    method WriteByte(data: seq<Byte>, start: nat, i: nat, turn: nat, free: nat -> bool, ghost was: seq<Byte>,
                     ghost before: seq<Byte>)
      returns (next: nat, later: nat)
      requires Valid() && start <= i < |data| && |was| < RING_SIZE && Pushed(was, before, prev, data, start, i, turn, free)
      modifies this`head, this`dropped, this`offered, this`at, ring
      ensures Valid() && next <= i + 1 && Pushed(was, before, prev, data, next, i + 1, later, free)
    {
      hide Session.Contents, Picked, Queued, Joined, CutUp;
      CutNext(prev, data, i);
      if data[i] != LF || (if i > 0 then data[i - 1] else prev) == CR {
        assert data[start..i + 1] == data[start..i] + [data[i]];
        return start, turn;
      }
      ghost var c := CutUp(prev, data[..i]);
      later := turn;
      ghost var line := c.pieces;
      if i > start {
        LogPush(data[start..i], free(turn));
        QueuedNext(was, c.pieces, c.waiting, free);
        JoinedOne(c.pieces, c.waiting);
        assert before + Joined(c.pieces) + c.waiting == before + (Joined(c.pieces) + c.waiting);
        line := c.pieces + [c.waiting];
        later := turn + 1;
      }
      QueuedNext(was, line, [CR, LF], free);
      JoinedOne(line, [CR, LF]);
      assert before + Joined(line) + [CR, LF] == before + (Joined(line) + [CR, LF]);
      LogPush([CR, LF], free(later));
      assert data[i + 1..i + 1] == [];
      return i + 1, later + 1;
    }

    /** One write: the stream offered grows by its expansion after the byte written before it, and of
        each piece of that, in order, the queue takes the prefix there is room for. */
    method OutWrite(data: seq<Byte>, free: nat -> bool)
      requires Valid()
      modifies this`head, this`dropped, this`prev, this`offered, this`at, ring
      ensures Valid() && prev == Last(old(prev), data)
      ensures offered == old(offered) + Expand(old(prev), data)
      ensures Contents() == Queued(old(Contents()), PiecesOf(old(prev), data), free)
      ensures |Contents()| + dropped == |old(Contents())| + old(dropped) + |Expand(old(prev), data)|
      ensures old(dropped) <= dropped
      ensures dropped == old(dropped) ==> Contents() == old(Contents()) + Expand(old(prev), data)
    {
      hide Session.Contents, Picked, Queued, Joined, CutUp, Expand, PiecesOf;
      NoPieces(prev, Contents(), free);
      PiecesAreExpansion(prev, data);
      QueuedAtMost(Contents(), PiecesOf(prev, data), free);
      assert offered + [] == offered && Contents() + [] == Contents();
      if |data| == 0 { return; }
      ghost var was, before := Contents(), offered;
      var start: nat, turn: nat := 0, 0;
      assert data[..0] == [] && data[0..0] == [];
      for i := 0 to |data|
        invariant Valid() && start <= i && prev == old(prev)
        invariant Pushed(was, before, prev, data, start, i, turn, free)
      {
        start, turn := WriteByte(data, start, i, turn, free, was, before);
      }
      PushRest(data, start, turn, free, was, before);
      prev := data[|data| - 1];
    }

    /** What still waits at the end of a write is pushed too. */
    method PushRest(data: seq<Byte>, start: nat, turn: nat, free: nat -> bool, ghost was: seq<Byte>, ghost before: seq<Byte>)
      requires Valid() && start <= |data| && |was| < RING_SIZE
      requires Pushed(was, before, prev, data, start, |data|, turn, free)
      modifies this`head, this`dropped, this`offered, this`at, ring
      ensures Valid() && offered == before + Joined(PiecesOf(prev, data))
      ensures Contents() == Queued(was, PiecesOf(prev, data), free)
    {
      hide Session.Contents, Picked, Queued, Joined, CutUp;
      ghost var c := CutUp(prev, data);
      assert data[..|data|] == data && data[start..|data|] == data[start..];
      if start < |data| {
        QueuedNext(was, c.pieces, c.waiting, free);
        JoinedOne(c.pieces, c.waiting);
        assert before + Joined(c.pieces) + c.waiting == before + (Joined(c.pieces) + c.waiting);
        LogPush(data[start..], free(turn));
      }
    }
  }

  lemma NoPieces(prev: Byte, q: seq<Byte>, free: nat -> bool)
    requires |q| < RING_SIZE
    ensures CutUp(prev, []) == Parts([], []) && Queued(q, [], free) == q && Joined([]) == [] && Expand(prev, []) == []
  {
  }

  lemma CutNext(prev: Byte, data: seq<Byte>, i: nat)
    requires i < |data|
    ensures var c := CutUp(prev, data[..i]);
            CutUp(prev, data[..i + 1]) ==
              if data[i] == LF && (if i > 0 then data[i - 1] else prev) != CR
              then Parts((if c.waiting == [] then c.pieces else c.pieces + [c.waiting]) + [[CR, LF]], [])
              else Parts(c.pieces, c.waiting + [data[i]])
  {
    assert data[..i + 1][..i] == data[..i];
  }
}
