/**
 * The IQ ring of main/esp_libusb.c in place: one array, two free-running counters, and copies that
 * wrap by splitting in two. Each call is proved to be a call on a byte queue of the ring's capacity;
 * how the calls of the two tasks interleave is in module Spsc.
 */
module IqRing {
  import opened Basics
  import opened Slots
  import opened Spsc

  method CopyBytes(dst: array<Byte>, at: nat, src: array<Byte>, from: nat, n: nat)
    requires dst != src && at + n <= dst.Length && from + n <= src.Length
    modifies dst
    ensures forall x :: 0 <= x < dst.Length ==>
              dst[x] == if at <= x < at + n then src[x - at + from] else old(dst[x])
  {
    for k := 0 to n
      invariant forall x :: 0 <= x < dst.Length ==>
                  dst[x] == if at <= x < at + k then src[x - at + from] else old(dst[x])
    {
      dst[at + k] := src[from + k];
    }
  }

  class Ring {
    const data: array<Byte>
    var head: nat
    var tail: nat
    var dropped: nat

    ghost predicate Valid()
      reads this
    {
      Capacity(data.Length) && head < WORD && tail < WORD && Wrap(head - tail) <= data.Length
    }

    /** The bytes waiting to be read. */
    ghost function Contents(): seq<Byte>
      requires Valid()
      reads this, data
    {
      Around(data[..], tail, Wrap(head - tail))
    }

    constructor (data: array<Byte>)
      requires Capacity(data.Length)
      ensures Valid() && this.data == data && Contents() == [] && dropped == 0
    {
      this.data := data;
      head, tail, dropped := 0, 0, 0;
    }

    /** The store of a chunk known to fit, in one copy or in two. */
    method StoreAt(at: nat, buf: array<Byte>, len: nat)
      requires 0 < data.Length && len <= data.Length && len <= buf.Length && buf != data
      modifies data
      ensures forall x :: 0 <= x < data.Length ==>
                data[x] == if Offset(x, at, data.Length) < len then buf[Offset(x, at, data.Length)] else old(data[x])
    {
      var off := at % data.Length;
      var first := data.Length - off;
      if first >= len {
        CopyBytes(data, off, buf, 0, len);
      } else {
        CopyBytes(data, off, buf, 0, first);
        CopyBytes(data, 0, buf, first, len - first);
      }
    }

    /** The fetch of bytes known to be there, in one copy or in two. */
    method FetchAt(dst: array<Byte>, at: nat, from: nat, count: nat)
      requires 0 < data.Length && count <= data.Length && at + count <= dst.Length && dst != data
      modifies dst
      ensures forall x :: 0 <= x < dst.Length ==>
                dst[x] == if at <= x < at + count then Around(data[..], from, count)[x - at] else old(dst[x])
    {
      var off := from % data.Length;
      var first := data.Length - off;
      if first >= count {
        CopyBytes(dst, at, data, off, count);
      } else {
        CopyBytes(dst, at, data, off, first);
        CopyBytes(dst, at + first, data, 0, count - first);
      }
      hide Slot;
      forall x | at <= x < at + count
        ensures dst[x] == Around(data[..], from, count)[x - at]
      {
        OneTurn(from, x - at, data.Length);
      }
    }

    /** A chunk is taken whole, at the end of the queue, exactly when it fits; else it is counted. */
    method Push(buf: array<Byte>, len: nat)
      requires Valid() && len <= buf.Length && buf != data
      modifies this`head, this`dropped, data
      ensures Valid()
      ensures var fits := |old(Contents())| + len <= data.Length;
              && Contents() == (if fits then old(Contents()) + buf[..len] else old(Contents()))
              && dropped == (if fits then old(dropped) else old(dropped) + len)
    {
      var n := Wrap(head - tail);
      var space := Wrap(data.Length - n);
      SmallWrap(data.Length - n);
      hide Wrap, Slot, Offset;
      if len > space {
        dropped := dropped + len;
        return;
      }
      StoreAt(head, buf, len);
      PushedCounters(head, tail, len, data.Length);
      PushedContents(old(data[..]), data[..], head, tail, buf[..len]);
      head := Wrap(head + len);
    }

    /** Reading takes as much as is there and asked for, from the front of the queue. */
    method Read(dst: array<Byte>, at: nat, max: nat) returns (count: nat)
      requires Valid() && at + max <= dst.Length && dst != data
      modifies this`tail, dst
      ensures Valid()
      ensures count == Least(max, |old(Contents())|)
      ensures dst[at..at + count] == old(Contents())[..count] && Contents() == old(Contents())[count..]
      ensures forall x :: 0 <= x < dst.Length && !(at <= x < at + count) ==> dst[x] == old(dst[x])
    {
      var avail := Wrap(head - tail);
      if avail == 0 { return 0; }
      count := if max > avail then avail else max;
      hide Wrap, Slot;
      FetchAt(dst, at, tail, count);
      ReadCounters(head, tail, count);
      ReadContents(data[..], tail, avail, count);
      tail := Wrap(tail + count);
    }

    method Reset()
      requires Valid()
      modifies this`tail
      ensures Valid() && Contents() == []
    {
      tail := head;
    }

    method Avail() returns (n: nat)
      requires Valid()
      ensures n == |Contents()|
    {
      n := Wrap(head - tail);
    }
  }

  /** The chunks that arrive before the first n reads. */
  function Heard(arrive: nat -> seq<seq<Byte>>, n: nat): seq<seq<Byte>> {
    if n == 0 then [] else Heard(arrive, n - 1) + arrive(n - 1)
  }

  /** The chunks that were kept, end to end. */
  function Kept(chunks: seq<seq<Byte>>, keep: seq<bool>): seq<Byte>
    requires |chunks| == |keep|
  {
    if chunks == [] then []
    else
      var m := |chunks| - 1;
      Kept(chunks[..m], keep[..m]) + if keep[m] then chunks[m] else []
  }

  /** The bytes of the chunks that were not. */
  function Lost(chunks: seq<seq<Byte>>, keep: seq<bool>): nat
    requires |chunks| == |keep|
  {
    if chunks == [] then 0
    else
      var m := |chunks| - 1;
      Lost(chunks[..m], keep[..m]) + if keep[m] then 0 else |chunks[m]|
  }

  /** A chunk is refused only when what was there and what was kept before it leave no room in the ring. */
  ghost predicate NoneRefusedEarly(was: nat, room: nat, chunks: seq<seq<Byte>>, keep: seq<bool>)
    requires |chunks| == |keep|
  {
    forall k :: 0 <= k < |keep| && !keep[k] ==> was + |Kept(chunks[..k], keep[..k])| + |chunks[k]| > room
  }

  lemma OneMoreRefused(was: nat, room: nat, chunks: seq<seq<Byte>>, keep: seq<bool>, chunk: seq<Byte>, kept: bool)
    requires |chunks| == |keep| && NoneRefusedEarly(was, room, chunks, keep)
    requires kept || was + |Kept(chunks, keep)| + |chunk| > room
    ensures NoneRefusedEarly(was, room, chunks + [chunk], keep + [kept])
  {
    hide Kept;
    forall k | 0 <= k < |keep| + 1 && !(keep + [kept])[k]
      ensures was + |Kept((chunks + [chunk])[..k], (keep + [kept])[..k])| + |(chunks + [chunk])[k]| > room
    {
      assert (chunks + [chunk])[..k] == chunks[..k] && (keep + [kept])[..k] == keep[..k];
      if k == |keep| { assert chunks[..k] == chunks && keep[..k] == keep; }
    }
  }

  lemma OneMoreChunk(chunks: seq<seq<Byte>>, keep: seq<bool>, chunk: seq<Byte>, kept: bool)
    requires |chunks| == |keep|
    ensures Kept(chunks + [chunk], keep + [kept]) == Kept(chunks, keep) + if kept then chunk else []
    ensures Lost(chunks + [chunk], keep + [kept]) == Lost(chunks, keep) + if kept then 0 else |chunk|
  {
    assert (chunks + [chunk])[..|chunks|] == chunks && (keep + [kept])[..|keep|] == keep;
  }

  ghost predicate WholeChunks(chunks: seq<seq<Byte>>, isI: Byte -> bool) {
    forall k :: 0 <= k < |chunks| ==> Paired(chunks[k], isI)
  }

  /** Whole samples waiting, and whole samples arriving. */
  ghost predicate WholeSamples(waiting: seq<Byte>, arrive: nat -> seq<seq<Byte>>, isI: Byte -> bool) {
    Paired(waiting, isI) && forall t :: WholeChunks(arrive(t), isI)
  }

  /** One read of the loop: what is read moves from the ring to the buffer. */
  method TakeSome(ring: Ring, buffer: array<Byte>, got: nat, ghost isI: Byte -> bool) returns (r: nat)
    requires ring.Valid() && buffer != ring.data && got <= buffer.Length
    modifies ring`tail, buffer
    ensures ring.Valid() && r == Least(buffer.Length - got, |old(ring.Contents())|)
    ensures buffer[..got + r] + ring.Contents() == old(buffer[..got] + ring.Contents())
    ensures old(InStep(buffer, got, ring, isI)) ==> InStep(buffer, got + r, ring, isI)
  {
    hide Paired, Ring.Valid, Ring.Contents;
    ghost var had, waiting := buffer[..got], ring.Contents();
    r := ring.Read(buffer, got, buffer.Length - got);
    assert buffer[..got + r] == had + waiting[..r] by {
      assert buffer[..got + r] == buffer[..got] + buffer[got..got + r];
    }
    Moved(had, waiting, r);
    if Paired(had, isI) && Paired(waiting, isI) && buffer.Length % 2 == 0 {
      PairedLength(had, isI);
      PairedLength(waiting, isI);
      PairedSplit(had, waiting, r, isI);
    }
  }

  lemma Moved(had: seq<Byte>, waiting: seq<Byte>, r: nat)
    requires r <= |waiting|
    ensures (had + waiting[..r]) + waiting[r..] == had + waiting
  {
  }

  lemma PairedLength(b: seq<Byte>, isI: Byte -> bool)
    requires Paired(b, isI)
    ensures |b| % 2 == 0
  {
  }

  /** Whole samples in the buffer and in the ring. */
  ghost predicate InStep(buffer: array<Byte>, got: nat, ring: Ring, isI: Byte -> bool)
    requires ring.Valid() && got <= buffer.Length
    reads buffer, ring, ring.data
  {
    buffer.Length % 2 == 0 && Paired(buffer[..got], isI) && Paired(ring.Contents(), isI)
  }

  /** What the other task may do at any time: one chunk offered to the ring. */
  method Arrive(ring: Ring, chunk: seq<Byte>) returns (kept: bool)
    requires ring.Valid()
    modifies ring, ring.data
    ensures ring.Valid() && kept == (|old(ring.Contents())| + |chunk| <= ring.data.Length)
    ensures ring.Contents() == old(ring.Contents()) + if kept then chunk else []
    ensures ring.dropped == old(ring.dropped) + if kept then 0 else |chunk|
  {
    var buf := new Byte[|chunk|](i requires 0 <= i < |chunk| => chunk[i]);
    assert buf[..|chunk|] == chunk;
    hide Ring.Valid, Ring.Contents;
    var n := ring.Avail();
    kept := n + |chunk| <= ring.data.Length;
    ring.Push(buf, |chunk|);
    assert old(ring.Contents()) + [] == old(ring.Contents());
  }

  /** The account of a fill: what was there and what was kept since is in the buffer or still in the
      ring, in order, and the rest is counted as dropped; no chunk was refused that had room. */
  ghost predicate Accounted(buffer: array<Byte>, got: nat, ring: Ring, was: seq<Byte>, lost: nat,
                            chunks: seq<seq<Byte>>, keep: seq<bool>)
    requires ring.Valid() && got <= buffer.Length
    reads buffer, ring, ring.data
  {
    && |chunks| == |keep|
    && buffer[..got] + ring.Contents() == was + Kept(chunks, keep)
    && ring.dropped == lost + Lost(chunks, keep)
    && NoneRefusedEarly(|was|, ring.data.Length, chunks, keep)
  }

  /** Nothing the ring could keep: no byte at all, or more than it holds. */
  predicate Idle(chunks: seq<seq<Byte>>, room: nat) {
    forall k :: 0 <= k < |chunks| ==> chunks[k] == [] || |chunks[k]| > room
  }

  /** Within 201 reads from the t-th on, something arrives that the ring could keep. */
  ghost predicate Steady(arrive: nat -> seq<seq<Byte>>, room: nat, t: nat) {
    exists u :: t <= u < t + 201 && !Idle(arrive(u), room)
  }

  /** All chunks that arrive between two reads. */
  method ArriveAll(ring: Ring, more: seq<seq<Byte>>, buffer: array<Byte>, got: nat, ghost was: seq<Byte>, ghost lost: nat,
                   ghost chunks0: seq<seq<Byte>>, ghost keep0: seq<bool>, ghost isI: Byte -> bool)
    returns (ghost keep: seq<bool>)
    requires ring.Valid() && got <= buffer.Length && buffer != ring.data
    requires Accounted(buffer, got, ring, was, lost, chunks0, keep0)
    modifies ring, ring.data
    ensures ring.Valid() && Accounted(buffer, got, ring, was, lost, chunks0 + more, keep)
    ensures old(InStep(buffer, got, ring, isI)) && WholeChunks(more, isI) ==> InStep(buffer, got, ring, isI)
    ensures ring.Contents() == [] ==> Idle(more, ring.data.Length)
  {
    hide Paired, Ring.Valid, Ring.Contents, Kept, Lost, NoneRefusedEarly;
    keep := keep0;
    assert chunks0 + more[..0] == chunks0;
    for i := 0 to |more|
      invariant ring.Valid() && Accounted(buffer, got, ring, was, lost, chunks0 + more[..i], keep)
      invariant old(InStep(buffer, got, ring, isI)) && WholeChunks(more, isI) ==> InStep(buffer, got, ring, isI)
      invariant ring.Contents() == [] ==> Idle(more[..i], ring.data.Length)
    {
      ghost var waiting, chunks := ring.Contents(), chunks0 + more[..i];
      var kept := Arrive(ring, more[i]);
      ghost var piece := if kept then more[i] else [];
      OneMoreChunk(chunks, keep, more[i], kept);
      OneMoreRefused(|was|, ring.data.Length, chunks, keep, more[i], kept);
      assert chunks + [more[i]] == chunks0 + more[..i + 1];
      assert buffer[..got] + (waiting + piece) == (buffer[..got] + waiting) + piece;
      assert (was + Kept(chunks, keep)) + piece == was + (Kept(chunks, keep) + piece);
      if Paired(waiting, isI) && Paired(more[i], isI) {
        PairedAlternates([], isI);
        PairedJoin(waiting, piece, isI);
      }
      keep := keep + [kept];
    }
    assert more[..|more|] == more;
  }

  /** One turn of the loop: whatever arrives, then one read. */
  method OnePass(ring: Ring, buffer: array<Byte>, got: nat, arrive: nat -> seq<seq<Byte>>, tick: nat, ghost was: seq<Byte>,
                 ghost lost: nat, ghost keep0: seq<bool>, ghost isI: Byte -> bool)
    returns (r: nat, ghost keep: seq<bool>)
    requires ring.Valid() && got < buffer.Length && buffer != ring.data
    requires Accounted(buffer, got, ring, was, lost, Heard(arrive, tick), keep0)
    modifies ring, ring.data, buffer
    ensures ring.Valid() && got + r <= buffer.Length
    ensures Accounted(buffer, got + r, ring, was, lost, Heard(arrive, tick + 1), keep)
    ensures old(InStep(buffer, got, ring, isI)) && WholeChunks(arrive(tick), isI) ==> InStep(buffer, got + r, ring, isI)
    ensures r == 0 ==> Idle(arrive(tick), ring.data.Length)
  {
    hide Paired, Ring.Valid, Ring.Contents, Kept, Lost, WholeChunks, NoneRefusedEarly, InStep, Idle;
    keep := ArriveAll(ring, arrive(tick), buffer, got, was, lost, Heard(arrive, tick), keep0, isI);
    r := TakeSome(ring, buffer, got, isI);
  }

  /** The demodulator's wait for a full buffer: the ring's bytes in order, with whatever arrives before
      each of its reads, kept whole or counted as dropped. It comes back with less than a full buffer only
      after 201 reads in a row before which nothing arrived that the ring could keep, so with steady arrivals
      it is full; and it never reads more than 201 times for a byte. Chunks of whole samples leave every
      buffer, full or short, starting on an I byte, and the ring ready for the next one to. */
  method FillBuffer(ring: Ring, buffer: array<Byte>, arrive: nat -> seq<seq<Byte>>, ghost isI: Byte -> bool)
    returns (got: nat, passes: nat, ghost keep: seq<bool>)
    requires ring.Valid() && buffer != ring.data && buffer.Length % 2 == 0
    modifies ring, ring.data, buffer
    ensures ring.Valid() && got <= buffer.Length
    ensures got < buffer.Length ==> passes > 200 && forall t :: passes - 201 <= t < passes ==> Idle(arrive(t), ring.data.Length)
    ensures passes <= 201 * (got + 1)
    ensures (forall t :: Steady(arrive, ring.data.Length, t)) ==> got == buffer.Length
    ensures Accounted(buffer, got, ring, old(ring.Contents()), old(ring.dropped), Heard(arrive, passes), keep)
    ensures WholeSamples(old(ring.Contents()), arrive, isI) ==>
              Alternates(buffer[..got], isI) && Paired(ring.Contents(), isI)
  {
    hide Ring.Valid, Ring.Contents, Kept, Lost, WholeChunks, NoneRefusedEarly, Accounted, Paired, Alternates, InStep, Heard, Idle, Steady;
    var stalled := 0;
    got, passes, keep := 0, 0, [];
    ghost var was, lost := ring.Contents(), ring.dropped;
    ghost var whole := WholeSamples(was, arrive, isI);
    NothingYet(ring, buffer, arrive, isI);
    while got < buffer.Length
      invariant ring.Valid() && got <= buffer.Length && stalled <= 200 && stalled <= passes <= 201 * got + stalled
      invariant forall t :: passes - stalled <= t < passes ==> Idle(arrive(t), ring.data.Length)
      invariant Accounted(buffer, got, ring, was, lost, Heard(arrive, passes), keep)
      invariant whole ==> InStep(buffer, got, ring, isI)
      decreases buffer.Length - got, 200 - stalled
    {
      var r;
      r, keep := OnePass(ring, buffer, got, arrive, passes, was, lost, keep, isI);
      got, passes := got + r, passes + 1;
      if r > 0 { stalled := 0; continue; }
      stalled := stalled + 1;
      if stalled > 200 { break; }
    }
    if whole { StepsOnI(buffer, got, ring, isI); }
    if got < buffer.Length && forall t :: Steady(arrive, ring.data.Length, t) {
      SteadyIsNotIdle(arrive, ring.data.Length, passes);
      assert false;
    }
  }

  lemma SteadyIsNotIdle(arrive: nat -> seq<seq<Byte>>, room: nat, passes: nat)
    requires passes > 200 && Steady(arrive, room, passes - 201)
    ensures !forall t :: passes - 201 <= t < passes ==> Idle(arrive(t), room)
  {
    hide Idle;
  }

  lemma NothingYet(ring: Ring, buffer: array<Byte>, arrive: nat -> seq<seq<Byte>>, isI: Byte -> bool)
    requires ring.Valid() && buffer.Length % 2 == 0
    ensures Accounted(buffer, 0, ring, ring.Contents(), ring.dropped, Heard(arrive, 0), [])
    ensures Paired(ring.Contents(), isI) ==> InStep(buffer, 0, ring, isI)
  {
    hide Ring.Contents;
    PairedAlternates(buffer[..0], isI);
    assert ring.Contents() + [] == ring.Contents() && buffer[..0] + ring.Contents() == ring.Contents();
  }

  lemma StepsOnI(buffer: array<Byte>, got: nat, ring: Ring, isI: Byte -> bool)
    requires ring.Valid() && got <= buffer.Length && InStep(buffer, got, ring, isI)
    ensures Alternates(buffer[..got], isI) && Paired(ring.Contents(), isI)
  {
    hide Ring.Contents, Alternates;
  }

  lemma PairedAlternates(b: seq<Byte>, isI: Byte -> bool)
    ensures Paired(b, isI) ==> Alternates(b, isI)
    ensures b == [] ==> Paired(b, isI)
  {
  }

  lemma PairedSplit(had: seq<Byte>, waiting: seq<Byte>, r: nat, isI: Byte -> bool)
    requires Paired(had, isI) && Paired(waiting, isI) && r <= |waiting| && r % 2 == 0
    ensures Paired(had + waiting[..r], isI) && Paired(waiting[r..], isI)
  {
    PairedJoin(had, waiting[..r], isI);
    AlternatesAfter(waiting, r, isI);
  }

  lemma AlternatesAfter(waiting: seq<Byte>, r: nat, isI: Byte -> bool)
    requires Alternates(waiting, isI) && r <= |waiting| && r % 2 == 0
    ensures Alternates(waiting[r..], isI)
  {
    forall k | 0 <= k < |waiting| - r
      ensures isI(waiting[r..][k]) <==> k % 2 == 0
    {
      assert waiting[r..][k] == waiting[k + r];
    }
  }
}
