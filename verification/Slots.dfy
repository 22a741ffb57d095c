/**
 * The elements waiting in a ring, as a queue: what the slots between a tail and a head counter hold.
 */
module Slots {
  import opened Arithmetic
  import opened Spsc

  /** The slot k places on from a counter's. */
  function Slot(at: nat, k: nat, cap: nat): (x: nat)
    requires 0 < cap
    ensures x < cap
  {
    (at + k) % cap
  }

  /** How many places slot x is on from a counter's. */
  function Offset(x: nat, at: nat, cap: nat): (k: nat)
    requires x < cap
    ensures k < cap
  {
    var off := at % cap;
    if off <= x then x - off else x + cap - off
  }

  /** The n elements from a counter's slot on, going round the ring. */
  function Around<T>(slots: seq<T>, at: nat, n: nat): (q: seq<T>)
    requires |slots| > 0
    ensures |q| == n && forall i :: 0 <= i < n ==> q[i] == slots[Slot(at, i, |slots|)]
  {
    seq(n, i requires 0 <= i => slots[Slot(at, i, |slots|)])
  }

  /** Less than one turn on from a counter's slot. */
  lemma OneTurn(at: nat, k: nat, cap: nat)
    requires 0 < cap && k < cap
    ensures Slot(at, k, cap) == if at % cap + k < cap then at % cap + k else at % cap + k - cap
    ensures Offset(Slot(at, k, cap), at, cap) == k
  {
    ModUnique(at, cap, at / cap, at % cap);
    if at % cap + k < cap {
      ModUnique(at + k, cap, at / cap, at % cap + k);
    } else {
      ModUnique(at + k, cap, at / cap + 1, at % cap + k - cap);
    }
  }

  lemma SlotSum(at: nat, n: nat, i: nat, cap: nat)
    requires 0 < cap
    ensures Slot(at, n + i, cap) == Slot(at + n, i, cap)
    ensures Slot(at, i + cap, cap) == Slot(at, i, cap)
  {
    ModShift(at + i, cap, 1);
  }

  /** A counter wrapped to 32 bits picks the same slot. */
  lemma WrappedSlot(at: nat, i: nat, cap: nat)
    requires Capacity(cap)
    ensures Slot(Wrap(at), i, cap) == Slot(at, i, cap)
  {
    ModOfMod(at, i, WORD, cap);
  }

  lemma PushedCounters(head: nat, tail: nat, len: nat, cap: nat)
    requires Capacity(cap) && head < WORD && tail < WORD && Wrap(head - tail) + len <= cap
    ensures Wrap(head + len) < WORD && Wrap(Wrap(head + len) - tail) == Wrap(head - tail) + len
  {
    SmallWrap(Wrap(head - tail) + len);
    var back: int := tail;
    WrapAdd(head + len, -back);
    WrapAdd(head - tail, len);
    hide Capacity, Wrap;
  }

  lemma ReadCounters(head: nat, tail: nat, count: nat)
    requires head < WORD && tail < WORD && count <= Wrap(head - tail)
    ensures Wrap(tail + count) < WORD && Wrap(head - Wrap(tail + count)) == Wrap(head - tail) - count
  {
  }

  /** The head's slot is the tail's advanced by the number of elements waiting. */
  lemma HeadSlot(head: nat, tail: nat, i: nat, cap: nat)
    requires Capacity(cap) && head < WORD && tail < WORD
    ensures Slot(head, i, cap) == Slot(tail, Wrap(head - tail) + i, cap)
  {
    assert Wrap(tail + Wrap(head - tail)) == head;
    WrappedSlot(tail + Wrap(head - tail), i, cap);
    SlotSum(tail, Wrap(head - tail), i, cap);
    hide Wrap, Slot;
  }

  /** A waiting element lies beyond the room for a chunk that fits. */
  lemma WaitingApart(head: nat, tail: nat, i: nat, cap: nat)
    requires Capacity(cap) && head < WORD && tail < WORD && i < Wrap(head - tail) <= cap
    ensures Offset(Slot(tail, i, cap), head, cap) == cap - Wrap(head - tail) + i
  {
    var k := cap - Wrap(head - tail) + i;
    HeadSlot(head, tail, k, cap);
    SlotSum(tail, 0, i, cap);
    OneTurn(head, k, cap);
  }

  lemma PushedContents<T>(was: seq<T>, now: seq<T>, head: nat, tail: nat, chunk: seq<T>)
    requires |was| == |now| && Capacity(|was|) && head < WORD && tail < WORD && Wrap(head - tail) + |chunk| <= |was|
    requires forall x :: 0 <= x < |was| ==>
               now[x] == if Offset(x, head, |was|) < |chunk| then chunk[Offset(x, head, |was|)] else was[x]
    ensures Around(now, tail, Wrap(head - tail) + |chunk|) == Around(was, tail, Wrap(head - tail)) + chunk
  {
    hide Wrap, Slot, Offset;
    var n := Wrap(head - tail);
    forall i | 0 <= i < n + |chunk|
      ensures now[Slot(tail, i, |was|)] == (Around(was, tail, n) + chunk)[i]
    {
      if i < n {
        WaitingApart(head, tail, i, |was|);
      } else {
        HeadSlot(head, tail, i - n, |was|);
        OneTurn(head, i - n, |was|);
      }
    }
  }

  lemma ReadContents<T>(slots: seq<T>, tail: nat, avail: nat, count: nat)
    requires Capacity(|slots|) && count <= avail
    ensures Around(slots, Wrap(tail + count), avail - count) == Around(slots, tail, avail)[count..]
  {
    hide Wrap, Slot;
    var rest := Around(slots, Wrap(tail + count), avail - count);
    forall i | 0 <= i < avail - count
      ensures rest[i] == Around(slots, tail, avail)[count..][i]
    {
      WrappedSlot(tail + count, i, |slots|);
      SlotSum(tail, count, i, |slots|);
    }
  }

  // ---------------------------------------------------------------- the interleaved machine is a queue

  /** The elements between the tail's slot and the head's. */
  function Held<T>(r: Ring<T>): seq<T>
    requires |r.slots| > 0
  {
    Around(r.slots, r.tail, Wrap(r.head - r.tail))
  }

  /** Whatever the two tasks are in the middle of, the slots between the counters hold the elements
      accepted and not freed. */
  lemma HeldIsWaiting<T>(s: State<T>)
    requires Inv(s)
    ensures Held(s.ring) == s.past.accepted[s.past.freed..]
  {
    WrapDiff(|s.past.accepted|, s.past.freed);
    forall i | 0 <= i < |s.past.accepted| - s.past.freed
      ensures Held(s.ring)[i] == s.past.accepted[s.past.freed..][i]
    {
      WrappedSlot(s.past.freed, i, |s.ring.slots|);
      assert Written(s)[s.past.freed + i] == s.past.accepted[s.past.freed + i];
    }
  }

  /** What a step does to the queue: publishing appends the whole chunk, releasing removes exactly what
      was copied, a reset skips to the head it saw, and every other step is invisible. */
  function QueueAfter<T>(s: State<T>, a: Action<T>): seq<T>
    requires Inv(s) && Enabled(s, a)
  {
    HeldIsWaiting(s);
    var q := Held(s.ring);
    match a
    case Publish => q + s.ring.producer.chunk
    case Release => q[|s.ring.consumer.copied|..]
    case Reset(view) => q[view - s.past.freed..]
    case _ => q
  }

  /** Each step of either task is a step of a queue. */
  lemma StepIsQueueStep<T>(s: State<T>, a: Action<T>)
    requires Inv(s) && Enabled(s, a)
    ensures Capacity(|Next(s, a).ring.slots|) && Held(Next(s, a).ring) == QueueAfter(s, a)
    ensures a.Release? ==> s.ring.consumer.copied <= Held(s.ring)
  {
    NextInv(s, a);
    HeldIsWaiting(s);
    HeldIsWaiting(Next(s, a));
    FetchedFront(s);
    hide Held, Wrap, Space, Around, Capacity, Inv;
    var p := s.past;
    match a
    case Publish => Tail(p.accepted, s.ring.producer.chunk, p.freed, 0);
    case Release => Tail(p.accepted, [], p.freed, |s.ring.consumer.copied|);
    case Reset(view) => Tail(p.accepted, [], p.freed, view - p.freed);
    case _ =>
  }

  /** What the consumer has fetched is at the front of the queue, and it has freed no more than it saw. */
  lemma FetchedFront<T>(s: State<T>)
    requires Inv(s)
    ensures Capacity(|s.ring.slots|) && s.past.freed <= |s.past.accepted| && (forall v :: v in s.past.heads ==> v <= |s.past.accepted|)
    ensures s.ring.consumer.Copying? ==> s.ring.consumer.copied <= s.past.accepted[s.past.freed..]
  {
    hide Capacity, Wrap;
  }

  lemma Tail<T>(a: seq<T>, b: seq<T>, i: nat, n: nat)
    requires i + n <= |a|
    ensures (a + b)[i..] == a[i..] + b && a[i + n..] == a[i..][n..]
  {
  }
}
