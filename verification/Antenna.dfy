/**
 * The hand-off of the antenna position in main/class_driver.c: setters on one core write the
 * configured copy field by field and then raise a flag; the receiver's task on the other core sees the
 * flag, lowers it and then copies field by field, and with what it has copied derives every range
 * again. There is no lock: sets may overlap each other and the copying.
 */
module Antenna {

  datatype Field = Lat | Lon | Valid

  datatype Position = Position(lat: real, lon: real, valid: bool)

  /** Which set each field was written by; 0 stands for the position read at start-up. */
  datatype Marks = Marks(lat: nat, lon: nat, valid: nat)

  /** A copy of the position and, for the record, where its fields are from. */
  datatype Held = Held(value: Position, marks: Marks)

  /** A setter: what it writes and the fields it has still to write. */
  datatype Setter = Idle | Writing(from: Held, left: set<Field>)

  /** The receiver's task: the fields it has still to copy. */
  datatype Receiver = Resting | Seen | Copying(left: set<Field>)

  /** Both copies, the flag, the tasks; and, for the record, the values of all sets begun, in order. */
  datatype State = State(cfg: Held, pos: Held, flag: bool, setters: seq<Setter>, rx: Receiver, sets: seq<Position>)

  datatype Action =
    | Begin(who: nat, value: Position)
    | Put(who: nat, field: Field)
    | Raise(who: nat)
    | Look
    | Lower
    | Take(field: Field)
    | Finish

  const FIELDS: set<Field> := {Lat, Lon, Valid}

  function Given(value: Position, k: nat): Held {
    Held(value, Marks(k, k, k))
  }

  function By(h: Held, field: Field): nat {
    match field
    case Lat => h.marks.lat
    case Lon => h.marks.lon
    case Valid => h.marks.valid
  }

  function Copied(to: Held, from: Held, field: Field): Held {
    match field
    case Lat => Held(to.value.(lat := from.value.lat), to.marks.(lat := from.marks.lat))
    case Lon => Held(to.value.(lon := from.value.lon), to.marks.(lon := from.marks.lon))
    case Valid => Held(to.value.(valid := from.value.valid), to.marks.(valid := from.marks.valid))
  }

  predicate Same(a: Held, b: Held, field: Field) {
    Copied(a, b, field) == a
  }

  /** All three fields are of one set. */
  predicate Whole(h: Held) {
    h.marks.lat == h.marks.lon == h.marks.valid
  }

  predicate Enabled(s: State, a: Action) {
    match a
    case Begin(who, _) => who < |s.setters| && s.setters[who].Idle?
    case Put(who, field) => who < |s.setters| && s.setters[who].Writing? && field in s.setters[who].left
    case Raise(who) => who < |s.setters| && s.setters[who].Writing? && s.setters[who].left == {}
    case Look => s.rx == Resting && s.flag
    case Lower => s.rx == Seen
    case Take(field) => s.rx.Copying? && field in s.rx.left
    case Finish => s.rx == Copying({})
  }

  function Next(s: State, a: Action): State
    requires Enabled(s, a)
  {
    match a
    case Begin(who, value) =>
      s.(setters := s.setters[who := Writing(Given(value, |s.sets|), FIELDS)], sets := s.sets + [value])
    case Put(who, field) =>
      var w := s.setters[who];
      s.(cfg := Copied(s.cfg, w.from, field), setters := s.setters[who := w.(left := w.left - {field})])
    case Raise(who) => s.(flag := true, setters := s.setters[who := Idle])
    case Look => s.(rx := Seen)
    case Lower => s.(flag := false, rx := Copying(FIELDS))
    case Take(field) => s.(pos := Copied(s.pos, s.cfg, field), rx := Copying(s.rx.left - {field}))
    case Finish => s.(rx := Resting)
  }

  function Init(cfg: Position, setters: nat): State {
    State(Given(cfg, 0), Given(cfg, 0), false, seq(setters, _ => Idle), Resting, [cfg])
  }

  predicate AllIdle(setters: seq<Setter>) {
    forall i :: 0 <= i < |setters| ==> setters[i].Idle?
  }

  predicate OthersIdle(setters: seq<Setter>, who: nat) {
    forall i :: 0 <= i < |setters| && i != who ==> setters[i].Idle?
  }

  predicate Quiet(s: State) {
    AllIdle(s.setters) && s.rx == Resting && !s.flag
  }

  // ---------------------------------------------------------------- runs

  ghost predicate Legal(s: State, run: seq<Action>)
    decreases |run|
  {
    run == [] || (Enabled(s, run[0]) && Legal(Next(s, run[0]), run[1..]))
  }

  ghost function After(s: State, run: seq<Action>): State
    requires Legal(s, run)
    decreases |run|
  {
    if run == [] then s else After(Next(s, run[0]), run[1..])
  }

  lemma Step(s: State, a: Action, rest: seq<Action>)
    requires Enabled(s, a) && Legal(Next(s, a), rest)
    ensures Legal(s, [a] + rest) && After(s, [a] + rest) == After(Next(s, a), rest)
  {
    assert ([a] + rest)[1..] == rest;
  }

  lemma {:induction false} Join(s: State, first: seq<Action>, second: seq<Action>)
    requires Legal(s, first) && Legal(After(s, first), second)
    ensures Legal(s, first + second) && After(s, first + second) == After(After(s, first), second)
    decreases |first|
  {
    if first == [] {
      assert first + second == second;
    } else {
      assert (first + second)[1..] == first[1..] + second;
      Join(Next(s, first[0]), first[1..], second);
    }
  }

  lemma {:induction false} Split(s: State, first: seq<Action>, second: seq<Action>)
    requires Legal(s, first + second)
    ensures Legal(s, first) && Legal(After(s, first), second)
    ensures After(s, first + second) == After(After(s, first), second)
    decreases |first|
  {
    if first == [] {
      assert first + second == second;
    } else {
      assert (first + second)[1..] == first[1..] + second;
      Split(Next(s, first[0]), first[1..], second);
    }
  }

  // ---------------------------------------------------------------- what every step keeps

  /** A field's value is that of the set it is marked with. */
  predicate Traced(h: Held, sets: seq<Position>) {
    && h.marks.lat < |sets| && sets[h.marks.lat].lat == h.value.lat
    && h.marks.lon < |sets| && sets[h.marks.lon].lon == h.value.lon
    && h.marks.valid < |sets| && sets[h.marks.valid].valid == h.value.valid
  }

  lemma WholeIsASet(h: Held, sets: seq<Position>)
    requires Traced(h, sets) && Whole(h)
    ensures h.value == sets[h.marks.lat]
  {
  }

  /** Wherever the copies differ, somebody is still going to do something about it. */
  ghost predicate Inv(s: State) {
    && (forall f :: Same(s.pos, s.cfg, f) || s.flag || !AllIdle(s.setters) || (s.rx.Copying? && f in s.rx.left))
    && (s.rx == Seen ==> s.flag)
    && (s.rx.Copying? ==> s.rx.left <= FIELDS)
  }

  ghost predicate Recorded(s: State) {
    && Traced(s.cfg, s.sets) && Traced(s.pos, s.sets)
    && forall i :: 0 <= i < |s.setters| && s.setters[i].Writing? ==>
         Whole(s.setters[i].from) && Traced(s.setters[i].from, s.sets)
  }

  lemma NextInv(s: State, a: Action)
    requires Inv(s) && Enabled(s, a)
    ensures Inv(Next(s, a))
  {
    var t := Next(s, a);
    if a.Put? || a.Begin? {
      assert t.setters[a.who].Writing?;
    } else if !a.Raise? {
      assert t.setters == s.setters;
    }
  }

  lemma NextRecorded(s: State, a: Action)
    requires Recorded(s) && Enabled(s, a)
    ensures Recorded(Next(s, a))
  {
    var t := Next(s, a);
    assert s.sets <= t.sets;
    if a.Put? { assert Traced(s.setters[a.who].from, s.sets); }
  }

  lemma {:induction false} RunInv(s: State, run: seq<Action>)
    requires Inv(s) && Recorded(s) && Legal(s, run)
    ensures Inv(After(s, run)) && Recorded(After(s, run))
    decreases |run|
  {
    if run != [] {
      NextInv(s, run[0]);
      NextRecorded(s, run[0]);
      RunInv(Next(s, run[0]), run[1..]);
    }
  }

  lemma SameAll(a: Held, b: Held)
    requires forall f :: Same(a, b, f)
    ensures a == b
  {
    assert Same(a, b, Lat) && Same(a, b, Lon) && Same(a, b, Valid);
  }

  /** However many setters there are and however their writes and the copying overlap: once all is
      quiet and the flag is down, the working position is the configured one. */
  lemma HandedOff(cfg: Position, setters: nat, run: seq<Action>)
    requires Legal(Init(cfg, setters), run) && Quiet(After(Init(cfg, setters), run))
    ensures var s := After(Init(cfg, setters), run); s.pos == s.cfg
  {
    RunInv(Init(cfg, setters), run);
    var s := After(Init(cfg, setters), run);
    SameAll(s.pos, s.cfg);
  }

  // ---------------------------------------------------------------- where it comes to rest

  predicate NoBegin(run: seq<Action>) {
    forall i :: 0 <= i < |run| ==> !run[i].Begin?
  }

  /** Fields written and fields taken, and nothing else. */
  predicate Inner(run: seq<Action>) {
    forall i :: 0 <= i < |run| ==> run[i].Put? || run[i].Take?
  }

  /** A set that no other overlaps: its writes stand, and when it is over they are all there is. */
  ghost predicate Alone(s: State, who: nat, from: Held) {
    && who < |s.setters| && OthersIdle(s.setters, who)
    && (s.setters[who].Idle? ==> s.cfg == from)
    && (s.setters[who].Writing? ==> s.setters[who].from == from && forall f :: f in s.setters[who].left || Same(s.cfg, from, f))
  }

  lemma NextAlone(s: State, a: Action, who: nat, from: Held)
    requires Alone(s, who, from) && Enabled(s, a) && !a.Begin?
    ensures Alone(Next(s, a), who, from)
  {
    if a.Raise? { SameAll(s.cfg, from); }
  }

  lemma {:induction false} RunAlone(s: State, run: seq<Action>, who: nat, from: Held)
    requires Alone(s, who, from) && Legal(s, run) && NoBegin(run)
    ensures Alone(After(s, run), who, from)
    decreases |run|
  {
    if run != [] {
      NextAlone(s, run[0], who, from);
      RunAlone(Next(s, run[0]), run[1..], who, from);
    }
  }

  /** If the last set overlaps no other, whatever the ones before it did, the working position comes to
      rest at its value. */
  lemma LatestWins(cfg: Position, setters: nat, before: seq<Action>, who: nat, value: Position, rest: seq<Action>)
    requires Legal(Init(cfg, setters), before + ([Begin(who, value)] + rest)) && NoBegin(rest)
    requires Legal(Init(cfg, setters), before) && AllIdle(After(Init(cfg, setters), before).setters)
    requires Quiet(After(Init(cfg, setters), before + ([Begin(who, value)] + rest)))
    ensures After(Init(cfg, setters), before + ([Begin(who, value)] + rest)).pos.value == value
  {
    var s0 := Init(cfg, setters);
    Split(s0, before, [Begin(who, value)] + rest);
    var s := After(s0, before);
    Split(s, [Begin(who, value)], rest);
    var t := Next(s, Begin(who, value));
    assert After(s, [Begin(who, value)]) == t;
    RunAlone(t, rest, who, Given(value, |s.sets|));
    HandedOff(cfg, setters, before + ([Begin(who, value)] + rest));
  }

  // ---------------------------------------------------------------- continuations

  /** One copy with some fields taken from another. */
  function Mixed(to: Held, from: Held, fields: set<Field>): Held {
    Held(Position(if Lat in fields then from.value.lat else to.value.lat,
                  if Lon in fields then from.value.lon else to.value.lon,
                  if Valid in fields then from.value.valid else to.value.valid),
         Marks(if Lat in fields then from.marks.lat else to.marks.lat,
               if Lon in fields then from.marks.lon else to.marks.lon,
               if Valid in fields then from.marks.valid else to.marks.valid))
  }

  lemma MixedOne(to: Held, from: Held, f: Field, fields: set<Field>)
    requires f in fields
    ensures Mixed(Copied(to, from, f), from, fields - {f}) == Mixed(to, from, fields)
  {
  }

  lemma MixedNone(to: Held, from: Held)
    ensures Mixed(to, from, {}) == to && Mixed(to, from, FIELDS) == from
  {
  }

  /** The receiver can always take the fields it has left. */
  lemma {:induction false} TakeRest(s: State) returns (run: seq<Action>)
    requires s.rx.Copying?
    ensures Legal(s, run) && forall i :: 0 <= i < |run| ==> run[i].Take?
    ensures After(s, run) == s.(pos := Mixed(s.pos, s.cfg, s.rx.left), rx := Copying({}))
    decreases |if s.rx.Copying? then s.rx.left else {}|
  {
    run := [];
    if s.rx.left == {} {
      MixedNone(s.pos, s.cfg);
    } else {
      var f :| f in s.rx.left;
      var t := Next(s, Take(f));
      MixedOne(s.pos, s.cfg, f, s.rx.left);
      run := TakeRest(t);
      Step(s, Take(f), run);
      run := [Take(f)] + run;
    }
  }

  /** A setter can always write any of the fields it has left. */
  lemma {:induction false} PutSome(s: State, who: nat, fields: set<Field>) returns (run: seq<Action>)
    requires who < |s.setters| && s.setters[who].Writing? && fields <= s.setters[who].left
    ensures Legal(s, run) && Inner(run)
    ensures var w := s.setters[who];
            After(s, run) == s.(cfg := Mixed(s.cfg, w.from, fields), setters := s.setters[who := w.(left := w.left - fields)])
    decreases |fields|
  {
    run := [];
    var w := s.setters[who];
    if fields == {} {
      MixedNone(s.cfg, w.from);
      assert w.left - fields == w.left && s.setters[who := w] == s.setters;
    } else {
      var f :| f in fields;
      var t := Next(s, Put(who, f));
      MixedOne(s.cfg, w.from, f, fields);
      run := PutSome(t, who, fields - {f});
      assert w.left - {f} - (fields - {f}) == w.left - fields;
      Step(s, Put(who, f), run);
      run := [Put(who, f)] + run;
    }
  }

  // ---------------------------------------------------------------- one copy

  /** A set some of whose fields are written and some are not. */
  predicate PartWritten(w: Setter) {
    w.Writing? && w.left != FIELDS && w.left != {}
  }

  /** Nothing a copy could tear on: its first field is taken while no set is part written, and until the
      last is taken nothing is put. */
  predicate CalmStep(s: State, a: Action) {
    && (a.Begin? ==> AllIdle(s.setters))
    && (a.Take? && s.rx.Copying? && s.rx.left == FIELDS ==> forall i :: 0 <= i < |s.setters| ==> !PartWritten(s.setters[i]))
    && (a.Put? && s.rx.Copying? ==> s.rx.left == FIELDS || s.rx.left == {})
  }

  /** No two sets overlap, and every copy is undisturbed. */
  ghost predicate Calm(s: State, run: seq<Action>)
    requires Legal(s, run)
    decreases |run|
  {
    run == [] || (CalmStep(s, run[0]) && Calm(Next(s, run[0]), run[1..]))
  }

  /** The fields a setter has left are of one set, those it has written of its own. */
  predicate HalfAndHalf(cfg: Held, w: Setter) {
    w.Writing? ==>
      && w.left <= FIELDS && Whole(w.from)
      && (forall f, g :: f in w.left && g in w.left ==> By(cfg, f) == By(cfg, g) < By(w.from, g))
      && (forall f :: f !in w.left ==> By(cfg, f) == By(w.from, f))
  }

  ghost predicate Ordered(s: State) {
    && (AllIdle(s.setters) ==> Whole(s.cfg))
    && (forall i :: 0 <= i < |s.setters| ==> HalfAndHalf(s.cfg, s.setters[i]))
    && (forall i :: 0 <= i < |s.setters| && s.setters[i].Writing? ==> OthersIdle(s.setters, i))
    && (s.rx.Copying? ==>
          && s.rx.left <= FIELDS
          && (s.rx.left == {} ==> Whole(s.pos))
          && (s.rx.left != {} && s.rx.left != FIELDS ==>
                Whole(s.cfg) && forall f :: f !in s.rx.left ==> By(s.pos, f) == By(s.cfg, f)))
  }

  lemma WholeFrom(h: Held, k: nat)
    requires forall f :: By(h, f) == k
    ensures Whole(h)
  {
    assert By(h, Lat) == By(h, Lon) == By(h, Valid);
  }

  lemma BeginOrdered(s: State, a: Action)
    requires Ordered(s) && Recorded(s) && Enabled(s, a) && CalmStep(s, a) && a.Begin?
    ensures Ordered(Next(s, a))
  {
    var t := Next(s, a);
    assert t.setters[a.who].Writing? && t.cfg == s.cfg && t.rx == s.rx && t.pos == s.pos;
    assert HalfAndHalf(t.cfg, t.setters[a.who]);
    hide HalfAndHalf;
  }

  lemma PutOrdered(s: State, a: Action)
    requires Ordered(s) && Enabled(s, a) && CalmStep(s, a) && a.Put?
    ensures Ordered(Next(s, a))
  {
    var t := Next(s, a);
    var w := s.setters[a.who];
    assert HalfAndHalf(s.cfg, w) && t.rx == s.rx && t.pos == s.pos;
    assert t.setters[a.who].Writing?;
    assert forall f :: By(t.cfg, f) == if f == a.field then By(w.from, f) else By(s.cfg, f);
    assert HalfAndHalf(t.cfg, t.setters[a.who]);
    assert forall i :: 0 <= i < |t.setters| && i != a.who ==> t.setters[i].Idle?;
  }

  lemma RaiseOrdered(s: State, a: Action)
    requires Ordered(s) && Enabled(s, a) && a.Raise?
    ensures Ordered(Next(s, a))
  {
    var w := s.setters[a.who];
    assert HalfAndHalf(s.cfg, w);
    WholeFrom(s.cfg, By(w.from, Lat));
  }

  lemma CopyOrdered(s: State, a: Action)
    requires Ordered(s) && Enabled(s, a) && CalmStep(s, a) && !(a.Begin? || a.Put? || a.Raise?)
    ensures Ordered(Next(s, a))
  {
    var t := Next(s, a);
    assert t.setters == s.setters && t.cfg == s.cfg;
    if a.Take? {
      if s.rx.left == FIELDS { CalmIsWhole(s); }
      assert forall f :: f !in t.rx.left ==> By(t.pos, f) == By(t.cfg, f);
      if t.rx.left == {} { WholeFrom(t.pos, By(t.cfg, Lat)); }
    }
    hide HalfAndHalf;
  }

  lemma NextOrdered(s: State, a: Action)
    requires Ordered(s) && Recorded(s) && Enabled(s, a) && CalmStep(s, a)
    ensures Ordered(Next(s, a))
  {
    hide Ordered, Recorded, Next;
    match a
    case Begin(_, _) => BeginOrdered(s, a);
    case Put(_, _) => PutOrdered(s, a);
    case Raise(_) => RaiseOrdered(s, a);
    case _ => CopyOrdered(s, a);
  }

  /** While no set is part written the configured copy is one set's. */
  lemma CalmIsWhole(s: State)
    requires Ordered(s) && forall i :: 0 <= i < |s.setters| ==> !PartWritten(s.setters[i])
    ensures Whole(s.cfg)
  {
    if !AllIdle(s.setters) {
      var i :| 0 <= i < |s.setters| && s.setters[i].Writing?;
      assert HalfAndHalf(s.cfg, s.setters[i]);
      WholeFrom(s.cfg, By(s.cfg, Lat));
    }
  }

  lemma {:induction false} RunOrdered(s: State, run: seq<Action>)
    requires Ordered(s) && Recorded(s) && Legal(s, run) && Calm(s, run)
    ensures Ordered(After(s, run))
    decreases |run|
  {
    if run != [] {
      NextOrdered(s, run[0]);
      NextRecorded(s, run[0]);
      RunOrdered(Next(s, run[0]), run[1..]);
    }
  }

  /** If no two sets overlap, no copy takes its first field while a set is part written, and no field is
      put between the first and the last taken, then what every copy ends with, and every range is
      derived from, is the value of one set. */
  lemma CalmCopyIsWhole(cfg: Position, setters: nat, run: seq<Action>)
    requires Legal(Init(cfg, setters), run) && Calm(Init(cfg, setters), run)
    requires After(Init(cfg, setters), run).rx == Copying({})
    ensures var s := After(Init(cfg, setters), run);
            Whole(s.pos) && s.pos.marks.lat < |s.sets| && s.pos.value == s.sets[s.pos.marks.lat]
  {
    RunOrdered(Init(cfg, setters), run);
    RunInv(Init(cfg, setters), run);
    var s := After(Init(cfg, setters), run);
    WholeIsASet(s.pos, s.sets);
  }

  /** The first condition is needed: a copy that starts on a part-written set and is then left in peace
      ends torn. */
  lemma PartWrittenTears(s: State, who: nat) returns (run: seq<Action>)
    requires Ordered(s) && s.rx == Copying(FIELDS) && who < |s.setters| && PartWritten(s.setters[who])
    ensures Legal(s, run) && (forall i :: 0 <= i < |run| ==> run[i].Take?)
    ensures After(s, run).rx == Copying({}) && !Whole(After(s, run).pos)
  {
    run := TakeRest(s);
    MixedNone(s.pos, s.cfg);
    var w := s.setters[who];
    assert HalfAndHalf(s.cfg, w);
    var f :| f in w.left;
    var g :| g in FIELDS && g !in w.left;
    assert By(s.cfg, f) < By(w.from, f) == By(w.from, g) == By(s.cfg, g);
  }

  /** A set begun when a field is taken and a field is left, and written before the rest is taken. */
  lemma SetWithin(s: State, who: nat, value: Position) returns (run: seq<Action>)
    requires s.rx.Copying? && s.rx.left <= FIELDS && who < |s.setters| && s.setters[who].Idle?
    ensures Legal(s, [Begin(who, value)] + run) && Inner(run)
    ensures var t := After(s, [Begin(who, value)] + run);
            && t.rx == Copying({}) && t.sets == s.sets + [value]
            && t.pos == Mixed(s.pos, Given(value, |s.sets|), s.rx.left)
  {
    var t1 := Next(s, Begin(who, value));
    var puts := PutSome(t1, who, FIELDS);
    var t2 := After(t1, puts);
    MixedNone(s.cfg, Given(value, |s.sets|));
    var takes := TakeRest(t2);
    Join(t1, puts, takes);
    run := puts + takes;
    Step(s, Begin(who, value), run);
  }

  /** More than every number in a list of positions. */
  function Above(sets: seq<Position>): (x: real)
    ensures forall i :: 0 <= i < |sets| ==> sets[i].lat < x && sets[i].lon < x
  {
    if sets == [] then 0.0
    else
      var last, x := sets[|sets| - 1], Above(sets[..|sets| - 1]);
      assert forall i :: 0 <= i < |sets| - 1 ==> sets[..|sets| - 1][i] == sets[i];
      Larger(x, Larger(last.lat + 1.0, last.lon + 1.0))
  }

  function Larger(x: real, y: real): real {
    if x < y then y else x
  }

  /** A setter can always end the set it is in, if any, without the receiver's doing. */
  lemma EndsSet(s: State, who: nat) returns (run: seq<Action>)
    requires Recorded(s) && who < |s.setters|
    ensures Legal(s, run) && forall i :: 0 <= i < |run| ==> !run[i].Finish?
    ensures var t := After(s, run);
            && Recorded(t) && t.rx == s.rx && t.pos == s.pos && t.sets == s.sets
            && |t.setters| == |s.setters| && t.setters[who].Idle?
  {
    run := [];
    if s.setters[who].Writing? {
      var left := s.setters[who].left;
      var puts := PutSome(s, who, left);
      var t := After(s, puts);
      assert t.setters[who].left == {};
      RunRecorded(s, puts);
      NextRecorded(t, Raise(who));
      Step(t, Raise(who), []);
      Join(s, puts, [Raise(who)]);
      assert [Raise(who)] + [] == [Raise(who)];
      run := puts + [Raise(who)];
    }
  }

  lemma {:induction false} RunRecorded(s: State, run: seq<Action>)
    requires Recorded(s) && Legal(s, run)
    ensures Recorded(After(s, run))
    decreases |run|
  {
    if run != [] {
      NextRecorded(s, run[0]);
      RunRecorded(Next(s, run[0]), run[1..]);
    }
  }

  /** The second condition is needed: any copy with a field taken and a field left can still end torn, by
      one more set of any setter, begun when the set it may be in is over; and with a coordinate left, at
      a position nobody ever set. */
  lemma AnyCopyCanTear(s: State, who: nat, f: Field, g: Field) returns (run: seq<Action>)
    requires Recorded(s) && s.rx.Copying? && s.rx.left <= FIELDS && f !in s.rx.left && g in s.rx.left
    requires who < |s.setters|
    ensures CopyEnds(s, run)
    ensures var t := After(s, run); By(t.pos, f) != By(t.pos, g) && (g != Valid ==> t.pos.value !in t.sets)
  {
    var ending := EndsSet(s, who);
    var t := After(s, ending);
    var value := Position(Above(s.sets), Above(s.sets), !s.pos.value.valid);
    var inner := SetWithin(t, who, value);
    run := [Begin(who, value)] + inner;
    Join(s, ending, run);
    run := ending + run;
  }

  /** Every way the copy under way can end, before the next one begins. */
  ghost predicate CopyEnds(s: State, run: seq<Action>) {
    Legal(s, run) && (forall i :: 0 <= i < |run| ==> !run[i].Finish?) && After(s, run).rx == Copying({})
  }

  lemma {:induction false} DoneStays(s: State, run: seq<Action>)
    requires s.rx == Copying({}) && Legal(s, run) && forall i :: 0 <= i < |run| ==> !run[i].Finish?
    ensures After(s, run).pos == s.pos
    decreases |run|
  {
    if run != [] { DoneStays(Next(s, run[0]), run[1..]); }
  }

  /** As long as there is a setter, a copy that has taken a field is safe from tearing exactly when it has
      taken them all, of one set. */
  lemma CopySafeExactly(s: State)
    requires Recorded(s) && s.rx.Copying? && s.rx.left < FIELDS && s.setters != []
    ensures (forall run :: CopyEnds(s, run) ==> Whole(After(s, run).pos)) <==> s.rx.left == {} && Whole(s.pos)
  {
    if s.rx.left == {} {
      forall run | CopyEnds(s, run) ensures After(s, run).pos == s.pos { DoneStays(s, run); }
      assert CopyEnds(s, []) && After(s, []) == s;
    } else {
      var f :| f in FIELDS && f !in s.rx.left;
      var g :| g in s.rx.left;
      var run := AnyCopyCanTear(s, 0, f, g);
      assert !Whole(After(s, run).pos);
    }
  }

  /** One setter, two sets, one after the other: the ranges are derived from the first one's latitude and
      the second one's longitude. */
  lemma LoneSetTears(cfg: Position, a: Position, b: Position) returns (run: seq<Action>)
    ensures Legal(Init(cfg, 1), run)
    ensures var s := After(Init(cfg, 1), run);
            s.rx == Copying({}) && s.pos.value == Position(a.lat, b.lon, b.valid)
  {
    var s := Init(cfg, 1);
    var s1 := Next(s, Begin(0, a));
    var puts := PutSome(s1, 0, FIELDS);
    MixedNone(s.cfg, Given(a, 1));
    var s2 := After(s1, puts);
    assert s2.setters[0].left == {};
    var s3 := Next(s2, Raise(0));
    var s4 := Next(s3, Look);
    var s5 := Next(s4, Lower);
    var s6 := Next(s5, Take(Lat));
    run := SetWithin(s6, 0, b);
    run := [Begin(0, b)] + run;
    Step(s5, Take(Lat), run);
    run := [Take(Lat)] + run;
    Step(s4, Lower, run);
    run := [Lower] + run;
    Step(s3, Look, run);
    run := [Look] + run;
    Step(s2, Raise(0), run);
    run := [Raise(0)] + run;
    Join(s1, puts, run);
    run := puts + run;
    Step(s, Begin(0, a), run);
    run := [Begin(0, a)] + run;
  }

  /** Nor is it enough that nothing is put between lowering the flag and the end of the copy: one setter
      part way through its second set when the copy begins. */
  lemma QuietCopyTears(cfg: Position, a: Position, b: Position) returns (before: seq<Action>, takes: seq<Action>)
    ensures Legal(Init(cfg, 1), before) && After(Init(cfg, 1), before).rx == Copying(FIELDS)
    ensures Legal(After(Init(cfg, 1), before), takes) && forall i :: 0 <= i < |takes| ==> takes[i].Take?
    ensures var t := After(After(Init(cfg, 1), before), takes);
            t.rx == Copying({}) && t.pos.value == Position(b.lat, a.lon, a.valid)
  {
    var s := Init(cfg, 1);
    var s1 := Next(s, Begin(0, a));
    var puts := PutSome(s1, 0, FIELDS);
    MixedNone(s.cfg, Given(a, 1));
    var s2 := After(s1, puts);
    assert s2.setters[0].left == {};
    var s3 := Next(s2, Raise(0));
    var s4 := Next(s3, Begin(0, b));
    var s5 := Next(s4, Put(0, Lat));
    var s6 := Next(s5, Look);
    var s7 := Next(s6, Lower);
    takes := TakeRest(s7);
    MixedNone(s7.pos, s7.cfg);
    Step(s6, Lower, []);
    before := [Lower] + [];
    Step(s5, Look, before);
    before := [Look] + before;
    Step(s4, Put(0, Lat), before);
    before := [Put(0, Lat)] + before;
    Step(s3, Begin(0, b), before);
    before := [Begin(0, b)] + before;
    Step(s2, Raise(0), before);
    before := [Raise(0)] + before;
    Join(s1, puts, before);
    before := puts + before;
    Step(s, Begin(0, a), before);
    before := [Begin(0, a)] + before;
  }

  // ---------------------------------------------------------------- two sets that overlap

  /** With the flag up and no set under way, the receiver's next pass takes over the configured position. */
  lemma Copies(s: State) returns (run: seq<Action>)
    requires s.flag && s.rx == Resting && AllIdle(s.setters)
    ensures Legal(s, run) && After(s, run) == s.(flag := false, pos := s.cfg)
  {
    var s1 := Next(s, Look);
    var s2 := Next(s1, Lower);
    var takes := TakeRest(s2);
    MixedNone(s.pos, s.cfg);
    var s3 := After(s2, takes);
    Step(s3, Finish, []);
    Join(s2, takes, [Finish]);
    run := takes + [Finish];
    Step(s1, Lower, run);
    run := [Lower] + run;
    Step(s, Look, run);
    run := [Look] + run;
  }

  /** All of the second set but g, then what the first has left, then g. */
  lemma InterleavedValue(cfg: Held, second: Held, first: Held, left: set<Field>, g: Field)
    requires left <= FIELDS
    ensures Copied(Mixed(Mixed(cfg, second, FIELDS - {g}), first, left), second, g) == Copied(Mixed(second, first, left), second, g)
  {
  }

  /** A set with a field left while another begins: what both leave behind, if one field of the second
      comes last. */
  lemma Interleave(s: State, who: nat, other: nat, value: Position, g: Field) returns (run: seq<Action>)
    requires who < |s.setters| && other < |s.setters| && who != other && s.rx == Resting
    requires s.setters[who].Writing? && s.setters[who].left <= FIELDS
    requires s.setters[other].Idle? && forall i :: 0 <= i < |s.setters| && i != who ==> s.setters[i].Idle?
    ensures Legal(s, run)
    ensures var t, second := After(s, run), Given(value, |s.sets|);
            && t.flag && t.rx == Resting && AllIdle(t.setters)
            && t.cfg == Copied(Mixed(second, s.setters[who].from, s.setters[who].left), second, g)
  {
    hide Mixed, Copied, Given;
    var w, second := s.setters[who], Given(value, |s.sets|);
    InterleavedValue(s.cfg, second, w.from, w.left, g);
    var t1 := Next(s, Begin(other, value));
    var r1 := PutSome(t1, other, FIELDS - {g});
    var t2 := After(t1, r1);
    var r2 := PutSome(t2, who, w.left);
    var t3 := After(t2, r2);
    run := LastField(t3, who, other, g);
    Join(t2, r2, run);
    run := r2 + run;
    Join(t1, r1, run);
    run := r1 + run;
    Step(s, Begin(other, value), run);
    run := [Begin(other, value)] + run;
  }

  /** Two sets, one all written and one but for a field, both end. */
  lemma LastField(s: State, who: nat, other: nat, g: Field) returns (run: seq<Action>)
    requires who < |s.setters| && other < |s.setters| && who != other
    requires s.setters[who].Writing? && s.setters[who].left == {}
    requires s.setters[other].Writing? && s.setters[other].left == {g}
    ensures Legal(s, run)
    ensures After(s, run) == s.(flag := true, setters := s.setters[who := Idle][other := Idle],
                                cfg := Copied(s.cfg, s.setters[other].from, g))
  {
    hide Copied;
    var t1 := Next(s, Put(other, g));
    var t2 := Next(t1, Raise(who));
    var t3 := Next(t2, Raise(other));
    assert t3.setters == s.setters[who := Idle][other := Idle];
    Step(t2, Raise(other), []);
    run := [Raise(other)] + [];
    Step(t1, Raise(who), run);
    run := [Raise(who)] + run;
    Step(s, Put(other, g), run);
    run := [Put(other, g)] + run;
  }

  /** That the last set overlap no other is needed too: whenever one could begin while another has a field
      left, the working position can come to rest torn. */
  lemma OverlapCanTear(s: State, who: nat, other: nat, value: Position, f: Field, g: Field) returns (run: seq<Action>)
    requires Recorded(s) && who < |s.setters| && other < |s.setters| && who != other && s.rx == Resting
    requires s.setters[who].Writing? && s.setters[who].left <= FIELDS && f in s.setters[who].left && g != f
    requires s.setters[other].Idle? && forall i :: 0 <= i < |s.setters| && i != who ==> s.setters[i].Idle?
    ensures Legal(s, run) && Quiet(After(s, run))
    ensures After(s, run).pos == Copied(Mixed(Given(value, |s.sets|), s.setters[who].from, s.setters[who].left), Given(value, |s.sets|), g)
    ensures By(After(s, run).pos, f) != By(After(s, run).pos, g)
  {
    var first := Interleave(s, who, other, value, g);
    var second := Copies(After(s, first));
    Join(s, first, second);
    run := first + second;
  }

  /** When they overlap it may end as neither value: latitude from one, longitude from the other. */
  lemma OverlapTears(cfg: Position, a: Position, b: Position) returns (run: seq<Action>)
    ensures Legal(Init(cfg, 2), run) && Quiet(After(Init(cfg, 2), run))
    ensures After(Init(cfg, 2), run).pos.value == Position(b.lat, a.lon, a.valid)
  {
    var s := Init(cfg, 2);
    var t := Next(s, Begin(0, a));
    NextRecorded(s, Begin(0, a));
    run := OverlapCanTear(t, 0, 1, b, Lon, Lat);
    Step(s, Begin(0, a), run);
    run := [Begin(0, a)] + run;
  }
}
