/**
 * The single-producer single-consumer rings of main/feed_beast.c, main/feed_avr.c and
 * main/esp_libusb.c as one protocol: free-running 32-bit counters, chunks stored element by
 * element and then published, a consumer that snapshots, copies and then releases, and each
 * side reading a possibly stale value of the other's counter. A feed offers one-line chunks to
 * 128 slots; the IQ stream offers byte chunks to a mebibyte.
 */
module Spsc {
  import opened Arithmetic

  /** Counters are 32-bit words. */
  const WORD: nat := 0x1_0000_0000

  function Wrap(n: int): nat {
    n % WORD
  }

  // ---------------------------------------------------------------- the machine

  datatype Producer<T> = Idle | Storing(chunk: seq<T>, done: nat)
  datatype Consumer<T> = Resting | Copying(limit: nat, copied: seq<T>)

  /** What the two tasks share and hold: slots, counters, the drop count, and where each task is. */
  datatype Ring<T> = Ring(slots: seq<T>, head: nat, tail: nat, dropped: nat,
                          producer: Producer<T>, consumer: Consumer<T>)

  /** What a run has done so far, counted without wrapping: the elements accepted and freed, every
      value the two counters have held, the latest each side has seen of the other's, the elements
      offered, those read, and the number a reset threw away. */
  datatype History<T> = History(accepted: seq<T>, freed: nat, heads: set<nat>, tails: set<nat>,
                                seenHead: nat, seenTail: nat, offered: nat, read: seq<T>, discarded: nat)

  datatype State<T> = State(ring: Ring<T>, past: History<T>)

  /** A ring size the 32-bit counters wrap around evenly. */
  predicate Capacity(cap: nat) {
    0 < cap < WORD && WORD % cap == 0
  }

  function Init<T>(slots: seq<T>): State<T> {
    State(Ring(slots, 0, 0, 0, Idle, Resting), History([], 0, {0}, {0}, 0, 0, 0, [], 0))
  }

  /** Free space as the producer computes it, in 32-bit arithmetic. */
  function Space(cap: nat, head: nat, tail: nat): nat {
    Wrap(cap - Wrap(head - tail))
  }

  datatype Action<T> =
    | Offer(chunk: seq<T>, view: nat)
    | Store
    | Publish
    | Snapshot(view: nat)
    | Fetch
    | Release
    | Reset(view: nat)

  /** A task may read any value the other side's counter has held, but never an older one than it
      read before: loads of one location are coherent. */
  predicate Enabled<T>(s: State<T>, a: Action<T>) {
    var r, p := s.ring, s.past;
    match a
    case Offer(chunk, view) => r.producer.Idle? && |r.slots| > 0 && view in p.tails && p.seenTail <= view
    case Store => r.producer.Storing? && |r.slots| > 0 && r.producer.done < |r.producer.chunk|
    case Publish => r.producer.Storing? && r.producer.done == |r.producer.chunk|
    case Snapshot(view) => r.consumer.Resting? && view in p.heads && p.seenHead <= view
    case Fetch => r.consumer.Copying? && |r.slots| > 0 && Wrap(r.tail + |r.consumer.copied|) != r.consumer.limit
    case Release => r.consumer.Copying?
    case Reset(view) => r.consumer.Resting? && view in p.heads && p.seenHead <= view && p.freed <= view
  }

  function Next<T>(s: State<T>, a: Action<T>): State<T>
    requires Enabled(s, a)
  {
    var r, p := s.ring, s.past;
    var cap := |r.slots|;
    match a
    case Offer(chunk, view) =>
      var q := p.(offered := p.offered + |chunk|, seenTail := view);
      if |chunk| > Space(cap, r.head, Wrap(view))
      then State(r.(dropped := r.dropped + |chunk|), q)
      else State(r.(producer := Storing(chunk, 0)), q)
    case Store =>
      var i := r.producer.done;
      State(r.(slots := r.slots[(r.head + i) % cap := r.producer.chunk[i]], producer := r.producer.(done := i + 1)), p)
    case Publish =>
      var accepted := p.accepted + r.producer.chunk;
      State(r.(head := Wrap(r.head + |r.producer.chunk|), producer := Idle),
            p.(accepted := accepted, heads := p.heads + {|accepted|}))
    case Snapshot(view) =>
      State(r.(consumer := Copying(Wrap(view), [])), p.(seenHead := view))
    case Fetch =>
      var c := r.consumer.copied;
      State(r.(consumer := r.consumer.(copied := c + [r.slots[(r.tail + |c|) % cap]])), p)
    case Release =>
      var n := |r.consumer.copied|;
      State(r.(tail := Wrap(r.tail + n), consumer := Resting),
            p.(freed := p.freed + n, tails := p.tails + {p.freed + n}, read := p.read + r.consumer.copied))
    case Reset(view) =>
      State(r.(tail := Wrap(view)),
            p.(freed := view, tails := p.tails + {view}, seenHead := view,
               discarded := p.discarded + (view - p.freed)))
  }

  // ---------------------------------------------------------------- what every step keeps

  /** All the producer has put into slots: the published elements and the stored part of its chunk. */
  function Written<T>(s: State<T>): seq<T> {
    s.past.accepted +
    match s.ring.producer
    case Idle => []
    case Storing(chunk, done) => if done <= |chunk| then chunk[..done] else chunk
  }

  /** Elements offered but neither dropped nor published yet. */
  function InFlight<T>(p: Producer<T>): nat {
    if p.Storing? then |p.chunk| else 0
  }

  ghost predicate Counted<T>(s: State<T>) {
    var r, p := s.ring, s.past;
    && Capacity(|r.slots|)
    && r.head == Wrap(|p.accepted|) && r.tail == Wrap(p.freed)
    && p.freed <= p.seenHead <= |p.accepted| && p.seenTail <= p.freed
    && (forall v :: v in p.heads ==> v <= |p.accepted|)
    && (forall v :: v in p.tails ==> v <= p.freed)
    && |p.accepted| + InFlight(r.producer) <= p.seenTail + |r.slots|
    && (r.producer.Storing? ==> r.producer.done <= |r.producer.chunk|)
    && p.offered == |p.accepted| + InFlight(r.producer) + r.dropped
    && p.freed == |p.read| + p.discarded
  }

  /** Every element not yet freed is still in its slot. */
  ghost predicate Intact<T>(s: State<T>)
    requires Counted(s)
  {
    forall i :: s.past.freed <= i < |Written(s)| ==> s.ring.slots[i % |s.ring.slots|] == Written(s)[i]
  }

  ghost predicate Faithful<T>(s: State<T>)
    requires Counted(s)
  {
    var c, p := s.ring.consumer, s.past;
    && (p.discarded == 0 ==> p.read == p.accepted[..p.freed])
    && (c.Copying? ==>
          && c.limit == Wrap(p.seenHead)
          && p.freed + |c.copied| <= p.seenHead
          && c.copied == p.accepted[p.freed..p.freed + |c.copied|])
  }

  ghost predicate Inv<T>(s: State<T>) {
    Counted(s) && Intact(s) && Faithful(s)
  }

  lemma WrapAdd(a: int, b: int)
    ensures Wrap(Wrap(a) + b) == Wrap(a + b)
  {
  }

  lemma WrapDiff(h: nat, t: nat)
    requires t <= h < t + WORD
    ensures Wrap(Wrap(h) - Wrap(t)) == h - t
  {
  }

  lemma WrapOnto(a: nat, b: nat)
    requires a <= b < a + WORD && Wrap(a) == Wrap(b)
    ensures a == b
  {
  }

  /** The 32-bit free space is the true one: at most the capacity, and counted from the tail seen. */
  lemma SpaceIsTrue<T>(s: State<T>, view: nat)
    requires Counted(s) && s.past.seenTail <= view <= s.past.freed
    ensures Space(|s.ring.slots|, s.ring.head, Wrap(view)) == |s.ring.slots| - (|s.past.accepted| - view)
  {
    WrapDiff(|s.past.accepted|, view);
    SmallWrap(|s.ring.slots| - (|s.past.accepted| - view));
    hide Wrap;
  }

  lemma SmallWrap(n: nat)
    requires n < WORD
    ensures Wrap(n) == n
  {
  }

  /** The slot a store is about to fill holds no element the consumer has yet to free. */
  lemma StoreHitsFreeSlot<T>(s: State<T>, i: nat)
    requires Inv(s) && Enabled(s, Store)
    requires s.past.freed <= i < |Written(s)|
    ensures (s.ring.head + s.ring.producer.done) % |s.ring.slots| == |Written(s)| % |s.ring.slots|
    ensures i % |s.ring.slots| != (s.ring.head + s.ring.producer.done) % |s.ring.slots|
  {
    SlotOf(s, |s.past.accepted|, s.ring.producer.done);
    ModDistinct(i, |Written(s)|, |s.ring.slots|);
  }

  /** A wrapped counter plus an offset picks the slot of the unwrapped sum. */
  lemma SlotOf<T>(s: State<T>, count: nat, i: nat)
    requires Capacity(|s.ring.slots|)
    ensures (Wrap(count) + i) % |s.ring.slots| == (count + i) % |s.ring.slots|
  {
    hide Next, Enabled, Written;
    ModOfMod(count, i, WORD, |s.ring.slots|);
  }

  lemma CopyIsInside<T>(s: State<T>)
    requires Inv(s) && Enabled(s, Fetch)
    ensures s.past.freed + |s.ring.consumer.copied| < s.past.seenHead
    ensures s.ring.slots[(s.ring.tail + |s.ring.consumer.copied|) % |s.ring.slots|]
         == s.past.accepted[s.past.freed + |s.ring.consumer.copied|]
  {
    hide Wrap;
    var n := s.past.freed + |s.ring.consumer.copied|;
    WrapAdd(s.past.freed, |s.ring.consumer.copied|);
    SlotOf(s, s.past.freed, |s.ring.consumer.copied|);
    assert Written(s)[n] == s.past.accepted[n];
  }

  lemma InitInv<T>(slots: seq<T>)
    requires Capacity(|slots|)
    ensures Inv(Init(slots))
  {
  }

  lemma StoreKeeps<T>(s: State<T>)
    requires Inv(s) && Enabled(s, Store)
    ensures Inv(Next(s, Store))
  {
    hide Wrap;
    var t, i := Next(s, Store), s.ring.producer.done;
    assert Written(t) == Written(s) + [s.ring.producer.chunk[i]];
    SlotOf(s, |s.past.accepted|, i);
    forall j | s.past.freed <= j < |Written(t)|
      ensures t.ring.slots[j % |t.ring.slots|] == Written(t)[j]
    {
      if j < |Written(s)| { StoreHitsFreeSlot(s, j); }
    }
  }

  lemma FetchKeeps<T>(s: State<T>)
    requires Inv(s) && Enabled(s, Fetch)
    ensures Inv(Next(s, Fetch))
  {
    CopyIsInside(s);
    var t := Next(s, Fetch);
    assert Written(t) == Written(s);
  }

  lemma PublishKeeps<T>(s: State<T>)
    requires Inv(s) && Enabled(s, Publish)
    ensures Inv(Next(s, Publish))
  {
    WrapAdd(|s.past.accepted|, |s.ring.producer.chunk|);
    hide Wrap;
    assert Written(Next(s, Publish)) == Written(s);
  }

  lemma ReleaseKeeps<T>(s: State<T>)
    requires Inv(s) && Enabled(s, Release)
    ensures Inv(Next(s, Release))
  {
    WrapAdd(s.past.freed, |s.ring.consumer.copied|);
    hide Wrap;
    assert Written(Next(s, Release)) == Written(s);
  }

  lemma NextInv<T>(s: State<T>, a: Action<T>)
    requires Inv(s) && Enabled(s, a)
    ensures Inv(Next(s, a))
  {
    hide Wrap, Space;
    match a
    case Offer(_, view) =>
      SpaceIsTrue(s, view);
      assert Written(Next(s, a)) == Written(s);
    case Store => StoreKeeps(s);
    case Publish => PublishKeeps(s);
    case Snapshot(_) => assert Written(Next(s, a)) == Written(s);
    case Fetch => FetchKeeps(s);
    case Release => ReleaseKeeps(s);
    case Reset(_) => assert Written(Next(s, a)) == Written(s);
  }

  // ---------------------------------------------------------------- whole runs

  ghost predicate Legal<T>(s: State<T>, run: seq<Action<T>>)
    decreases |run|
  {
    run == [] || (Enabled(s, run[0]) && Legal(Next(s, run[0]), run[1..]))
  }

  ghost function After<T>(s: State<T>, run: seq<Action<T>>): State<T>
    requires Legal(s, run)
    decreases |run|
  {
    if run == [] then s else After(Next(s, run[0]), run[1..])
  }

  lemma {:induction false} RunInv<T>(s: State<T>, run: seq<Action<T>>)
    requires Inv(s) && Legal(s, run)
    ensures Inv(After(s, run))
    decreases |run|
  {
    if run != [] {
      NextInv(s, run[0]);
      RunInv(Next(s, run[0]), run[1..]);
    }
  }

  /** Whatever the interleaving, the staleness of either view and the number of times the counters
      have wrapped: nothing is lost, invented or reordered, and every element offered is accounted for. */
  lemma RingIsAQueue<T>(slots: seq<T>, run: seq<Action<T>>)
    requires Capacity(|slots|) && Legal(Init(slots), run)
    ensures var s := After(Init(slots), run); var r, p := s.ring, s.past;
            && p.freed <= |p.accepted| <= p.freed + |slots|
            && |p.accepted| - p.freed == Wrap(r.head - r.tail)
            && |p.read| + p.discarded + Wrap(r.head - r.tail) == |p.accepted|
            && p.offered == |p.accepted| + InFlight(r.producer) + r.dropped
            && (p.discarded == 0 ==> p.read == p.accepted[..p.freed])
            && (r.consumer.Copying? ==> r.consumer.copied <= p.accepted[p.freed..])
  {
    InitInv(slots);
    RunInv(Init(slots), run);
    SizeFixed(Init(slots), run);
    var s := After(Init(slots), run);
    WrapDiff(|s.past.accepted|, s.past.freed);
    hide Wrap, After, Legal, Intact;
  }

  lemma {:induction false} SizeFixed<T>(s: State<T>, run: seq<Action<T>>)
    requires Legal(s, run)
    ensures |After(s, run).ring.slots| == |s.ring.slots|
    decreases |run|
  {
    if run != [] { SizeFixed(Next(s, run[0]), run[1..]); }
  }

  /** After any run no store touches an element the consumer may still read, and an offer is dropped
      exactly when it does not fit beside the elements not freed in the producer's view. */
  lemma ProducerIsCareful<T>(slots: seq<T>, run: seq<Action<T>>, a: Action<T>)
    requires Capacity(|slots|) && Legal(Init(slots), run) && Enabled(After(Init(slots), run), a)
    ensures var s := After(Init(slots), run); var t := Next(s, a);
            && (a.Store? ==> forall i :: s.past.freed <= i < |s.past.accepted| ==>
                  |t.ring.slots| == |s.ring.slots| == |slots| &&
                  t.ring.slots[i % |slots|] == s.ring.slots[i % |slots|] == s.past.accepted[i])
            && (a.Offer? ==> (t.ring.producer == Idle <==> |a.chunk| + |s.past.accepted| - a.view > |slots|))
  {
    var s := After(Init(slots), run);
    InitInv(slots);
    RunInv(Init(slots), run);
    SizeFixed(Init(slots), run);
    hide Wrap, After, Legal;
    if a.Store? {
      forall i | s.past.freed <= i < |s.past.accepted|
        ensures Next(s, a).ring.slots[i % |slots|] == s.ring.slots[i % |slots|] == s.past.accepted[i]
      {
        StoreHitsFreeSlot(s, i);
        assert Written(s)[i] == s.past.accepted[i];
      }
    }
    if a.Offer? { SpaceIsTrue(s, a.view); }
  }

  // ---------------------------------------------------------------- I and Q stay in step

  /** A chunk of whole samples: I first, then Q. */
  ghost predicate Paired<T(!new)>(chunk: seq<T>, isI: T -> bool) {
    |chunk| % 2 == 0 && Alternates(chunk, isI)
  }

  ghost predicate Alternates<T(!new)>(bytes: seq<T>, isI: T -> bool) {
    forall k :: 0 <= k < |bytes| ==> (isI(bytes[k]) <==> k % 2 == 0)
  }

  lemma PairedJoin<T(!new)>(a: seq<T>, b: seq<T>, isI: T -> bool)
    requires Paired(a, isI) && Paired(b, isI)
    ensures Paired(a + b, isI)
  {
  }

  /** A run whose producer offers whole samples and whose consumer, wanting an even number of bytes,
      takes all it saw or an even number. */
  ghost predicate Sampled<T(!new)>(s: State<T>, run: seq<Action<T>>, isI: T -> bool)
    requires Legal(s, run)
    decreases |run|
  {
    run == [] || (SampledStep(s, run[0], isI) && Sampled(Next(s, run[0]), run[1..], isI))
  }

  ghost predicate InStep<T(!new)>(s: State<T>, isI: T -> bool) {
    var r, p := s.ring, s.past;
    && Paired(p.accepted, isI)
    && (r.producer.Storing? ==> Paired(r.producer.chunk, isI))
    && p.freed % 2 == 0 && p.seenHead % 2 == 0
    && forall v :: v in p.heads ==> v % 2 == 0
  }

  lemma ReleaseInStep<T(!new)>(s: State<T>)
    requires Inv(s) && s.ring.consumer.Copying?
    requires Wrap(s.ring.tail + |s.ring.consumer.copied|) == s.ring.consumer.limit
    ensures s.past.freed + |s.ring.consumer.copied| == s.past.seenHead
  {
    WrapAdd(s.past.freed, |s.ring.consumer.copied|);
    WrapOnto(s.past.freed + |s.ring.consumer.copied|, s.past.seenHead);
  }

  /** What one step of a sampled run is allowed. */
  ghost predicate SampledStep<T(!new)>(s: State<T>, a: Action<T>, isI: T -> bool) {
    && (a.Offer? ==> Paired(a.chunk, isI))
    && (a.Release? && s.ring.consumer.Copying? ==>
          || |s.ring.consumer.copied| % 2 == 0
          || Wrap(s.ring.tail + |s.ring.consumer.copied|) == s.ring.consumer.limit)
  }

  lemma StepInStep<T(!new)>(s: State<T>, a: Action<T>, isI: T -> bool)
    requires Inv(s) && InStep(s, isI) && Enabled(s, a) && SampledStep(s, a, isI)
    ensures InStep(Next(s, a), isI)
  {
    hide Wrap, Space, Inv, Paired;
    if a.Publish? { PairedJoin(s.past.accepted, s.ring.producer.chunk, isI); }
    if a.Release? && |s.ring.consumer.copied| % 2 != 0 { ReleaseInStep(s); }
  }

  lemma {:induction false} RunInStep<T(!new)>(s: State<T>, run: seq<Action<T>>, isI: T -> bool)
    requires Inv(s) && InStep(s, isI) && Legal(s, run) && Sampled(s, run, isI)
    ensures InStep(After(s, run), isI)
    decreases |run|
  {
    if run != [] {
      hide Next, Enabled, Inv, InStep, SampledStep;
      NextInv(s, run[0]);
      StepInStep(s, run[0], isI);
      RunInStep(Next(s, run[0]), run[1..], isI);
    }
  }

  /** However many chunks were dropped, every read begins on an I byte and alternates from there. */
  lemma ReadsStartOnI<T(!new)>(slots: seq<T>, run: seq<Action<T>>, isI: T -> bool)
    requires Capacity(|slots|) && Legal(Init(slots), run) && Sampled(Init(slots), run, isI)
    ensures var c := After(Init(slots), run).ring.consumer; c.Copying? ==> Alternates(c.copied, isI)
  {
    InitInv(slots);
    assert InStep(Init(slots), isI);
    RunInv(Init(slots), run);
    RunInStep(Init(slots), run, isI);
    CopyInStep(After(Init(slots), run), isI);
  }

  lemma CopyInStep<T(!new)>(s: State<T>, isI: T -> bool)
    requires Inv(s) && InStep(s, isI)
    ensures s.ring.consumer.Copying? ==> Alternates(s.ring.consumer.copied, isI)
  {
    hide Wrap, Intact;
  }
}
