/**
 * The aircraft table of main/class_driver.c: finding or making a row, a position from CPR frames and
 * the gate it must pass, ranges from the antenna, and expiry. Distance on the ground is a parameter;
 * the position decoders are those of module Cpr.
 */
module Tracker {
  import opened Basics
  import Cpr

  const MAX_TRACKED: nat := 64
  const CONTACT_TTL: int := 60_000_000
  const REF_MAX_AGE: int := 600_000_000
  const PAIR_MAX_DT: int := 10_000_000
  const REF_MAX_KM: real := 185.0

  /** Kilometres between two positions. */
  type Distance = (real, real, real, real) -> real

  datatype Position = Position(lat: real, lon: real)

  datatype Antenna = Antenna(lat: real, lon: real, valid: bool)

  datatype CprFrame = CprFrame(lat: int, lon: int, at: int, surface: bool, valid: bool)

  /** The part of a message the position needs. */
  datatype Message = Message(lat: int, lon: int, odd: bool, surface: bool)

  datatype Row = Row(active: bool, icao: nat, lastSeen: int, posValid: bool, lat: real, lon: real, posAt: int,
                     rejects: nat, rngValid: bool, dist: real, even: CprFrame, odd: CprFrame)

  function Fresh(icao: nat): Row {
    var none := CprFrame(0, 0, 0, false, false);
    Row(true, icao, 0, false, 0.0, 0.0, 0, 0, false, 0.0, none, none)
  }

  // ---------------------------------------------------------------- one row

  function Ranged(a: Row, antenna: Antenna, km: Distance): Row {
    var ok := a.posValid && antenna.valid;
    a.(rngValid := ok, dist := if ok then km(antenna.lat, antenna.lon, a.lat, a.lon) else a.dist)
  }

  function Fixed(r: Cpr.Result): Option<Position> {
    match r
    case Fix(lat, lon) => Some(Position(lat, lon))
    case _ => None
  }

  /** The pair of frames decoded together, when they are of one kind and close enough in time. */
  function Global(a: Row, surface: bool, antenna: Antenna): Option<Position> {
    var e, o := a.even, a.odd;
    var dt := if e.at < o.at then o.at - e.at else e.at - o.at;
    if !(e.valid && o.valid && e.surface == o.surface && dt <= PAIR_MAX_DT) then None
    else
      var oddLatest := o.at >= e.at;
      if !surface then Fixed(Cpr.DecodeAirborne(e.lat, e.lon, o.lat, o.lon, oddLatest))
      else if antenna.valid then Fixed(Cpr.DecodeSurface(antenna.lat, antenna.lon, e.lat, e.lon, o.lat, o.lon, oddLatest))
      else if a.posValid then Fixed(Cpr.DecodeSurface(a.lat, a.lon, e.lat, e.lon, o.lat, o.lon, oddLatest))
      else None
  }

  /** One frame decoded next to the row's own last fix. */
  function Relative(a: Row, m: Message, now: int, km: Distance): Option<Position> {
    if !(a.posValid && now - a.posAt < REF_MAX_AGE) then None
    else
      match Fixed(Cpr.DecodeRelative(a.lat, a.lon, m.lat, m.lon, m.odd, m.surface))
      case None => None
      case Some(p) => if km(a.lat, a.lon, p.lat, p.lon) <= REF_MAX_KM then Some(p) else None
  }

  function Candidate(a: Row, m: Message, now: int, antenna: Antenna, km: Distance): Option<Position> {
    match Global(a, m.surface, antenna)
    case Some(p) => Some(p)
    case None => Relative(a, m, now, km)
  }

  /** Whether the row's fix is there and young enough to judge by. */
  predicate Judges(a: Row, now: int) {
    a.posValid && now - a.posAt < REF_MAX_AGE
  }

  /** How far the aircraft may have flown since its fix. */
  function Reach(a: Row, now: int): real {
    var d := 2.0 + (now - a.posAt) as real / 1_000_000.0 * 0.5;
    if d > REF_MAX_KM then REF_MAX_KM else d
  }

  predicate Near(a: Row, p: Position, now: int, km: Distance) {
    km(a.lat, a.lon, p.lat, p.lon) <= Reach(a, now)
  }

  predicate Accepts(a: Row, p: Position, now: int, km: Distance) {
    !Judges(a, now) || Near(a, p, now, km) || a.rejects + 1 >= 3
  }

  /** The reject count after the gate: kept when there is nothing to judge by. */
  function Rejects(a: Row, p: Position, now: int, km: Distance): nat {
    if !Judges(a, now) then a.rejects
    else if Accepts(a, p, now, km) then 0
    else a.rejects + 1
  }

  /** A candidate at the gate. */
  function Gate(a: Row, p: Position, now: int, antenna: Antenna, km: Distance): Row {
    var b := a.(rejects := Rejects(a, p, now, km));
    if Accepts(a, p, now, km)
    then Ranged(b.(lat := p.lat, lon := p.lon, posValid := true, posAt := now), antenna, km)
    else b
  }

  function Noted(a: Row, m: Message, now: int): Row {
    var f := CprFrame(m.lat, m.lon, now, m.surface, true);
    if m.odd then a.(odd := f) else a.(even := f)
  }

  /** A position message's effect on its row. */
  function Located(a: Row, m: Message, now: int, antenna: Antenna, km: Distance): Row {
    var b := Noted(a, m, now);
    match Candidate(b, m, now, antenna, km)
    case None => b
    case Some(p) => Gate(b, p, now, antenna, km)
  }

  /** Any message's effect on its row: stamped, and moved if it says where. */
  function Updated(a: Row, position: Option<Message>, now: int, antenna: Antenna, km: Distance): Row {
    var seen := a.(lastSeen := now);
    if position.Some? then Located(seen, position.value, now, antenna, km) else seen
  }

  /** A row after the tick that drops those silent for over a minute. */
  function Expired(a: Row, now: int): Row {
    a.(active := a.active && now - a.lastSeen <= CONTACT_TTL)
  }

  /** Whether a message gives its row a new fix. */
  predicate Moves(a: Row, m: Message, now: int, antenna: Antenna, km: Distance) {
    var p := Candidate(Noted(a, m, now), m, now, antenna, km);
    p.Some? && Accepts(Noted(a, m, now), p.value, now, km)
  }

  /** A message that gives a new fix stamps it; any other leaves the fix alone. */
  lemma MovesExactly(a: Row, m: Message, now: int, antenna: Antenna, km: Distance)
    ensures var b := Located(a, m, now, antenna, km);
            if Moves(a, m, now, antenna, km) then b.posValid && b.posAt == now
            else b.posValid == a.posValid && b.lat == a.lat && b.lon == a.lon && b.posAt == a.posAt
  {
    hide Candidate;
  }

  // ---------------------------------------------------------------- the table

  predicate Known(rows: seq<Row>, icao: nat, i: nat) {
    i < |rows| && rows[i].active && rows[i].icao == icao
  }

  /** No two active rows are the same aircraft. */
  ghost predicate Distinct(rows: seq<Row>) {
    forall i, j :: 0 <= i < j < |rows| && rows[i].active && rows[j].active ==> rows[i].icao != rows[j].icao
  }

  /** A row shows a range exactly when there is a fix and an antenna position, and it is that range;
      its reject count is below three. */
  predicate Sound(a: Row, antenna: Antenna, km: Distance) {
    a.active ==>
      && a.rngValid == (a.posValid && antenna.valid)
      && (a.rngValid ==> a.dist == km(antenna.lat, antenna.lon, a.lat, a.lon))
      && a.rejects < 3
  }

  lemma LocatedSound(a: Row, m: Message, now: int, antenna: Antenna, km: Distance)
    requires Sound(a, antenna, km)
    ensures var b := Located(a, m, now, antenna, km);
            Sound(b, antenna, km) && b.active == a.active && b.icao == a.icao && b.lastSeen == a.lastSeen
  {
    hide Candidate;
  }

  class Table {
    const rows: array<Row>
    const km: Distance
    var antenna: Antenna
    var maxRange: real
    var lastTick: int

    ghost predicate Valid()
      reads this, rows
    {
      && rows.Length == MAX_TRACKED && Distinct(rows[..])
      && forall i :: 0 <= i < MAX_TRACKED ==> Sound(rows[i], antenna, km)
    }

    constructor (km: Distance, antenna: Antenna)
      ensures Valid() && this.km == km && this.antenna == antenna && maxRange == 0.0
      ensures forall i :: 0 <= i < MAX_TRACKED ==> !rows[i].active
    {
      this.km, this.antenna, maxRange, lastTick := km, antenna, 0.0, 0;
      rows := new Row[MAX_TRACKED](_ => Fresh(0).(active := false));
    }

    /** The aircraft's row; else a blank one in the first idle place; else, with every place taken by
        another aircraft, none, and nothing changes. */
    method FindOrCreate(icao: nat) returns (row: Option<nat>)
      requires Valid()
      modifies rows
      ensures Valid()
      ensures row.Some? ==> Known(rows[..], icao, row.value)
                            && forall k :: 0 <= k < MAX_TRACKED && k != row.value ==> rows[k] == old(rows[k])
      ensures row.Some? && old(Known(rows[..], icao, row.value)) ==> rows[row.value] == old(rows[row.value])
      ensures row.Some? && !old(Known(rows[..], icao, row.value)) ==>
                && (forall k :: 0 <= k < MAX_TRACKED ==> !old(Known(rows[..], icao, k)))
                && !old(rows[row.value].active) && (forall k :: 0 <= k < row.value ==> old(rows[k].active))
                && rows[row.value] == Fresh(icao)
      ensures row.Some? && !old(Known(rows[..], icao, row.value)) ==>
                var a := rows[row.value];
                !a.posValid && !a.rngValid && a.rejects == 0 && !a.even.valid && !a.odd.valid
      ensures row.None? ==>
                && rows[..] == old(rows[..])
                && forall k :: 0 <= k < MAX_TRACKED ==> old(rows[k].active) && old(rows[k].icao) != icao
    {
      var empty: Option<nat> := None;
      for i := 0 to MAX_TRACKED
        invariant rows[..] == old(rows[..])
        invariant forall k :: 0 <= k < i && rows[k].active ==> rows[k].icao != icao
        invariant empty.None? ==> forall k :: 0 <= k < i ==> rows[k].active
        invariant empty.Some? ==> empty.value < i && !rows[empty.value].active
                                  && forall k :: 0 <= k < empty.value ==> rows[k].active
      {
        if rows[i].active && rows[i].icao == icao { return Some(i); }
        if !rows[i].active && empty.None? { empty := Some(i); }
      }
      if empty.Some? { rows[empty.value] := Fresh(icao); }
      return empty;
    }

    /** A frame of an aircraft: its row is found or made, stamped, and moved if the frame says where. */
    method OnMessage(icao: nat, position: Option<Message>, now: int) returns (row: Option<nat>)
      requires Valid()
      modifies rows, this`maxRange
      ensures Valid()
      ensures row.None? ==> rows[..] == old(rows[..]) && maxRange == old(maxRange)
      ensures row.Some? ==>
                && Known(rows[..], icao, row.value)
                && (forall k :: 0 <= k < MAX_TRACKED && k != row.value ==> rows[k] == old(rows[k]))
                && var was := (if old(Known(rows[..], icao, row.value)) then old(rows[row.value]) else Fresh(icao));
                   var seen := was.(lastSeen := now);
                   && rows[row.value] == Updated(was, position, now, antenna, km)
                   && maxRange == var a := rows[row.value];
                        if position.Some? && Moves(seen, position.value, now, antenna, km)
                           && a.rngValid && a.dist > old(maxRange) && a.dist < 600.0
                        then a.dist else old(maxRange)
    {
      hide Located, Moves, Distinct;
      row := FindOrCreate(icao);
      if row.None? { return; }
      var i := row.value;
      ghost var before := rows[..];
      rows[i] := rows[i].(lastSeen := now);
      if position.Some? {
        LocatedSound(rows[i], position.value, now, antenna, km);
        var moves := Moves(rows[i], position.value, now, antenna, km);
        rows[i] := Located(rows[i], position.value, now, antenna, km);
        var a := rows[i];
        if moves && a.rngValid && a.dist > maxRange && a.dist < 600.0 { maxRange := a.dist; }
      }
      SameAircraft(before, rows[..], i);
    }

    /** A new antenna position: every range is derived again and the maximum starts over. */
    method PosApply(cfg: Antenna)
      requires Valid()
      modifies rows, this`antenna, this`maxRange
      ensures Valid() && antenna == cfg && maxRange == 0.0
      ensures forall k :: 0 <= k < MAX_TRACKED ==>
                rows[k] == if old(rows[k].active) then Ranged(old(rows[k]), cfg, km) else old(rows[k])
    {
      antenna, maxRange := cfg, 0.0;
      for i := 0 to MAX_TRACKED
        invariant antenna == cfg && maxRange == 0.0
        invariant forall k :: 0 <= k < i ==>
                    rows[k] == if old(rows[k].active) then Ranged(old(rows[k]), cfg, km) else old(rows[k])
        invariant forall k :: i <= k < MAX_TRACKED ==> rows[k] == old(rows[k])
      {
        if rows[i].active { rows[i] := Ranged(rows[i], antenna, km); }
      }
    }

    /** At most once a second: rows not heard from for a minute go, and no others. */
    method Tick(now: int)
      requires Valid()
      modifies rows, this`lastTick
      ensures Valid()
      ensures now - old(lastTick) < 1_000_000 ==> rows[..] == old(rows[..]) && lastTick == old(lastTick)
      ensures now - old(lastTick) >= 1_000_000 ==>
                && lastTick == now
                && forall k :: 0 <= k < MAX_TRACKED ==>
                     rows[k] == Expired(old(rows[k]), now)
    {
      if now - lastTick < 1_000_000 { return; }
      lastTick := now;
      for i := 0 to MAX_TRACKED
        invariant lastTick == now
        invariant forall k :: 0 <= k < i ==>
                    rows[k] == Expired(old(rows[k]), now)
        invariant forall k :: i <= k < MAX_TRACKED ==> rows[k] == old(rows[k])
      {
        if rows[i].active && now - rows[i].lastSeen > CONTACT_TTL { rows[i] := rows[i].(active := false); }
      }
    }
  }

  lemma SameAircraft(before: seq<Row>, after: seq<Row>, i: nat)
    requires |before| == |after| && i < |before| && Distinct(before)
    requires forall k :: 0 <= k < |before| && k != i ==> after[k] == before[k]
    requires after[i].active == before[i].active && after[i].icao == before[i].icao
    ensures Distinct(after)
  {
  }

  // ---------------------------------------------------------------- the gate over a run

  /** What happens to an aircraft: a frame of its own, with or without a position, a new antenna position,
      a tick. Frames of others leave its row alone. */
  datatype Event = Heard(position: Option<Message>, now: int) | Moved(antenna: Antenna) | Ticked(now: int)

  datatype Track = Track(row: Row, antenna: Antenna)

  /** The row a frame finds or makes. */
  function Found(a: Row): Row {
    if a.active then a else Fresh(a.icao)
  }

  function Next(t: Track, e: Event, km: Distance): Track {
    match e
    case Heard(position, now) => t.(row := Updated(Found(t.row), position, now, t.antenna, km))
    case Moved(antenna) => Track(if t.row.active then Ranged(t.row, antenna, km) else t.row, antenna)
    case Ticked(now) => t.(row := Expired(t.row, now))
  }

  function After(t: Track, run: seq<Event>, km: Distance): Track {
    if run == [] then t else Next(After(t, run[..|run| - 1], km), run[|run| - 1], km)
  }

  /** The row that judges a frame's candidate, and the candidate it makes. */
  function Judge(t: Track, e: Event): Row
    requires e.Heard? && e.position.Some?
  {
    Noted(Found(t.row).(lastSeen := e.now), e.position.value, e.now)
  }

  function Proposed(t: Track, e: Event, km: Distance): Option<Position> {
    if e.Heard? && e.position.Some? then Candidate(Judge(t, e), e.position.value, e.now, t.antenna, km) else None
  }

  predicate Takes(t: Track, e: Event, km: Distance) {
    Proposed(t, e, km).Some? && Accepts(Judge(t, e), Proposed(t, e, km).value, e.now, km)
  }

  predicate Drops(t: Track, e: Event, km: Distance) {
    Proposed(t, e, km).Some? && !Takes(t, e, km)
  }

  /** A candidate out of reach of a fix that can still judge it. */
  predicate Far(t: Track, e: Event, km: Distance) {
    Proposed(t, e, km).Some? && Judges(Judge(t, e), e.now) && !Near(Judge(t, e), Proposed(t, e, km).value, e.now, km)
  }

  /** A candidate with no fix to judge it, or one too old. */
  predicate Unjudged(t: Track, e: Event, km: Distance) {
    Proposed(t, e, km).Some? && !Judges(Judge(t, e), e.now)
  }

  /** What one event does to fix and count. */
  lemma EventOnGate(t: Track, e: Event, km: Distance)
    ensures var a, b := Found(t.row), Next(t, e, km).row;
            && (e.Heard? ==> b.active)
            && (!e.Heard? ==> b.rejects == t.row.rejects && b.posValid == t.row.posValid && b.lat == t.row.lat && b.lon == t.row.lon)
            && (e.Heard? && !Takes(t, e, km) ==> b.posValid == a.posValid && b.lat == a.lat && b.lon == a.lon && b.posAt == a.posAt)
            && (e.Heard? && !Takes(t, e, km) && !Drops(t, e, km) ==> b.rejects == a.rejects)
            && (Drops(t, e, km) ==> a.posValid && b.rejects == a.rejects + 1 < 3)
            && (Takes(t, e, km) ==> b.posValid && Position(b.lat, b.lon) == Proposed(t, e, km).value && b.posAt == e.now)
            && (Far(t, e, km) ==> a.posValid && (Takes(t, e, km) <==> a.rejects >= 2))
            && (Far(t, e, km) && Takes(t, e, km) ==> b.rejects == 0)
            && (Unjudged(t, e, km) ==> Takes(t, e, km) && b.rejects == a.rejects)
  {
    hide Candidate, Near;
  }

  /** A candidate is taken exactly when there is no fix, or one ten minutes old, or the way from it is at
      most two kilometres and half a kilometre a second, and never more than 185, or two were dropped. */
  lemma TakenExactly(t: Track, e: Event, km: Distance)
    requires Proposed(t, e, km).Some?
    ensures var a, p := Found(t.row), Proposed(t, e, km).value;
            var way := km(a.lat, a.lon, p.lat, p.lon);
            Takes(t, e, km) <==>
              || !a.posValid || e.now - a.posAt >= 600_000_000 || a.rejects >= 2
              || (way <= 185.0 && way <= 2.0 + (e.now - a.posAt) as real / 2_000_000.0)
  {
    hide Candidate;
  }

  /** The candidates dropped in a run, and whether none is taken. */
  function Dropped(t: Track, run: seq<Event>, km: Distance): nat {
    if run == [] then 0
    else
      var m := |run| - 1;
      Dropped(t, run[..m], km) + if Drops(After(t, run[..m], km), run[m], km) then 1 else 0
  }

  predicate NoneTaken(t: Track, run: seq<Event>, km: Distance) {
    forall k :: 0 <= k < |run| ==> !Takes(After(t, run[..k], km), run[k], km)
  }

  /** Whatever frames, ticks and antenna positions come between, no run drops three candidates and takes
      none: of any three in a row at least one becomes the fix. */
  lemma {:induction false} AtMostTwoDropped(t: Track, run: seq<Event>, km: Distance)
    requires t.row.rejects < 3 && NoneTaken(t, run, km)
    ensures Dropped(t, run, km) <= 2
    ensures var a := After(t, run, km).row; a.rejects < 3 && (a.active && a.posValid ==> Dropped(t, run, km) <= a.rejects)
  {
    if run != [] {
      hide Takes, Drops, Next;
      var m := |run| - 1;
      forall k | 0 <= k < m ensures !Takes(After(t, run[..m][..k], km), run[..m][k], km) {
        assert run[..m][..k] == run[..k];
      }
      AtMostTwoDropped(t, run[..m], km);
      EventOnGate(After(t, run[..m], km), run[m], km);
    }
  }

  /** The row is never given up, and every candidate is out of reach of the fix or has none to judge it. */
  predicate NoneNear(t: Track, run: seq<Event>, km: Distance) {
    forall k :: 0 <= k < |run| ==>
      var u := After(t, run[..k], km);
      u.row.active && (Proposed(u, run[k], km).Some? ==> Far(u, run[k], km) || Unjudged(u, run[k], km))
  }

  function Fars(t: Track, run: seq<Event>, km: Distance): nat {
    if run == [] then 0
    else
      var m := |run| - 1;
      Fars(t, run[..m], km) + if Far(After(t, run[..m], km), run[m], km) then 1 else 0
  }

  function FarsTaken(t: Track, run: seq<Event>, km: Distance): nat {
    if run == [] then 0
    else
      var m := |run| - 1;
      var u := After(t, run[..m], km);
      FarsTaken(t, run[..m], km) + if Far(u, run[m], km) && Takes(u, run[m], km) then 1 else 0
  }

  /** In such a run exactly every third candidate out of reach is taken, counting on over fixes that aged
      out and were replaced in between. */
  lemma {:induction false} EveryThirdFarIsTaken(t: Track, run: seq<Event>, km: Distance)
    requires t.row.rejects < 3 && NoneNear(t, run, km)
    ensures FarsTaken(t, run, km) == (t.row.rejects + Fars(t, run, km)) / 3
    ensures After(t, run, km).row.rejects == (t.row.rejects + Fars(t, run, km)) % 3
  {
    if run != [] {
      hide Takes, Drops, Next, Far, Unjudged, Proposed;
      var m := |run| - 1;
      var u := After(t, run[..m], km);
      NearPrefix(t, run, m, km);
      EveryThirdFarIsTaken(t, run[..m], km);
      assert u.row.active && (Proposed(u, run[m], km).Some? ==> Far(u, run[m], km) || Unjudged(u, run[m], km));
      EventOnGate(u, run[m], km);
      NoCandidate(u, run[m], km);
    }
  }

  lemma NearPrefix(t: Track, run: seq<Event>, m: nat, km: Distance)
    requires m <= |run| && NoneNear(t, run, km)
    ensures NoneNear(t, run[..m], km)
  {
    hide After, Proposed, Far, Unjudged;
    forall k | 0 <= k < m
      ensures var u := After(t, run[..m][..k], km);
              u.row.active && (Proposed(u, run[..m][k], km).Some? ==> Far(u, run[..m][k], km) || Unjudged(u, run[..m][k], km))
    {
      assert run[..m][..k] == run[..k];
    }
  }

  lemma NearButLast(t: Track, run: seq<Event>, e: Event, km: Distance)
    requires NoneNear(t, run + [e], km)
    ensures NoneNear(t, run, km) && After(t, run, km).row.active
  {
    hide After, Proposed, Far, Unjudged;
    assert (run + [e])[..|run|] == run;
    NearPrefix(t, run + [e], |run|, km);
  }

  lemma NoCandidate(t: Track, e: Event, km: Distance)
    ensures Proposed(t, e, km).None? ==> !Takes(t, e, km) && !Drops(t, e, km) && !Far(t, e, km)
    ensures Far(t, e, km) ==> !Unjudged(t, e, km)
    ensures Takes(t, e, km) ==> e.Heard?
  {
  }

  /** From a clean count, of the candidates out of reach the first two are dropped and the third, not a
      fourth, becomes the new fix. */
  lemma ThirdIsTaken(t: Track, run: seq<Event>, e: Event, km: Distance)
    requires t.row.rejects == 0 && NoneNear(t, run + [e], km)
    requires Fars(t, run, km) == 2 && Far(After(t, run, km), e, km)
    ensures FarsTaken(t, run, km) == 0 && Takes(After(t, run, km), e, km)
    ensures var u, b := After(t, run, km), After(t, run + [e], km).row;
            Proposed(u, e, km) == Some(Position(b.lat, b.lon)) && b.posAt == e.now && b.rejects == 0
  {
    NearButLast(t, run, e, km);
    assert (run + [e])[..|run|] == run;
    hide Takes, Far, Unjudged, Proposed, Next, Fars, FarsTaken, NoneNear;
    EveryThirdFarIsTaken(t, run, km);
    EventOnGate(After(t, run, km), e, km);
    NoCandidate(After(t, run, km), e, km);
  }

  /** A fix taken because the old one had grown too old to judge keeps the count: the next candidate out
      of reach, however many frames without one lie between, is taken at once exactly when two had been
      dropped before. */
  lemma CountSurvivesAge(t: Track, stale: Event, between: seq<Event>, e: Event, km: Distance)
    requires t.row.rejects < 3 && NoneNear(t, [stale] + between + [e], km)
    requires Unjudged(t, stale, km) && Fars(t, [stale] + between, km) == 0 && Far(After(t, [stale] + between, km), e, km)
    ensures Takes(t, stale, km)
    ensures Takes(After(t, [stale] + between, km), e, km) <==> t.row.rejects == 2
  {
    var run := [stale] + between;
    hide Takes, Far, Unjudged, Proposed, Next, Fars, FarsTaken, NoneNear;
    NearButLast(t, run, e, km);
    EveryThirdFarIsTaken(t, run, km);
    EventOnGate(t, stale, km);
    EventOnGate(After(t, run, km), e, km);
  }

  // ---------------------------------------------------------------- from the sky to the table

  /** An aircraft's position in the frame it sends, in the air or on the ground. */
  function Sent(lat: real, lon: real, odd: bool, surface: bool): Message {
    Message(Cpr.EncodeLat(lat, odd, surface), Cpr.EncodeLon(lat, lon, odd, surface), odd, surface)
  }

  /** An airborne aircraft without a fix yet sends one frame and, within ten seconds, one of the other
      parity. Unless the two straddle a zone boundary its row then holds where it was at the second,
      to within half a quantum. */
  lemma FirstFixIsTrue(a: Row, lat1: real, lon1: real, lat2: real, lon2: real, turns: int, odd2: bool,
                       t1: int, t2: int, antenna: Antenna, km: Distance)
    requires !a.posValid && !a.odd.valid && !a.even.valid && t1 < t2 <= t1 + PAIR_MAX_DT
    requires Cpr.InLatRange(lat1) && Cpr.InLatRange(lat2) && Cpr.Abs(lat1 - lat2) <= 0.05
    requires Cpr.Abs(lon1 - lon2 - 360.0 * turns as real) <= 0.05
    ensures var b := Located(Located(a, Sent(lat1, lon1, !odd2, false), t1, antenna, km), Sent(lat2, lon2, odd2, false), t2, antenna, km);
            b.posValid <==> Cpr.Nl(Cpr.EncRlat(lat1, !odd2, false)) == Cpr.Nl(Cpr.EncRlat(lat2, odd2, false))
    ensures var b := Located(Located(a, Sent(lat1, lon1, !odd2, false), t1, antenna, km), Sent(lat2, lon2, odd2, false), t2, antenna, km);
            b.posValid ==> Cpr.Recovers(Cpr.Fix(b.lat, b.lon), lat2, lon2, odd2, false) && b.posAt == t2
  {
    hide Cpr.DecodeAirborne, Cpr.DecodeRelative, Cpr.DecodeSurface, Cpr.EncodeLat, Cpr.EncodeLon, Cpr.Nl,
         Cpr.EncRlat, Cpr.InLatRange, Cpr.Wrap180, Cpr.LonDistance;
    if odd2 {
      Cpr.AirborneRecovers(lat1, lon1, lat2, lon2, turns, true);
    } else {
      Negated(lon1, lon2, turns);
      Cpr.AirborneRecovers(lat2, lon2, lat1, lon1, -turns, false);
    }
  }

  /** With a young fix less than half a cell away and no usable pair, a single frame is enough, in the air
      or on the ground: if the aircraft could have got there, its row holds where it was, to within half a
      quantum. */
  lemma NextFixIsTrue(a: Row, lat: real, lon: real, odd: bool, surface: bool, now: int, antenna: Antenna, km: Distance)
    requires Judges(a, now) && Global(Noted(a, Sent(lat, lon, odd, surface), now), surface, antenna) == None
    requires Cpr.InLatRange(lat) && Cpr.InLatRange(a.lat)
    requires var p := Position(Cpr.EncRlat(lat, odd, surface), Cpr.Wrap180(Cpr.EncRlon(lat, lon, odd, surface)));
             && Cpr.Abs(p.lat - a.lat) < Cpr.RelDlat(odd, surface) / 2.0
             && Cpr.Abs(p.lon - a.lon) < Cpr.Dlon(p.lat, odd, surface) / 2.0
             && Near(a, p, now, km)
    ensures var b := Located(a, Sent(lat, lon, odd, surface), now, antenna, km);
            Cpr.Recovers(Cpr.Fix(b.lat, b.lon), lat, lon, odd, surface) && b.posAt == now && b.rejects == 0
  {
    hide Cpr.DecodeRelative, Cpr.EncodeLat, Cpr.EncodeLon, Cpr.Nl, Cpr.EncRlat, Cpr.EncRlon, Cpr.InLatRange,
         Cpr.Wrap180, Cpr.LonDistance, Cpr.Dlon, Cpr.RelDlat, Cpr.Abs, Global;
    Cpr.RelativeRecovers(lat, lon, odd, surface, a.lat, a.lon);
  }

  // ---------------------------------------------------------------- on the ground

  /** A reference within 45 degrees, less half a quantum, of two surface positions: in latitude of both,
      in longitude of the newer, up to u whole turns. */
  predicate Refers(ref: Position, lat1: real, lat2: real, lon2: real, odd2: bool, u: int) {
    && Cpr.Abs(ref.lat - lat1) < 45.0 - Cpr.EncDlat(!odd2) / 1048576.0
    && Cpr.Abs(ref.lat - lat2) < 45.0 - Cpr.EncDlat(odd2) / 1048576.0
    && Cpr.Abs(lon2 + 360.0 * u as real - ref.lon) < 45.0 - Cpr.EncDlon(lat2, odd2, true) / 1048576.0
  }

  /** The antenna, or without one the row's own fix. */
  function Reference(a: Row, antenna: Antenna): Position {
    if antenna.valid then Position(antenna.lat, antenna.lon) else Position(a.lat, a.lon)
  }

  /** The row holds a frame sent from the ground. */
  predicate Holds(a: Row, lat: real, lon: real, odd: bool, at: int) {
    (if odd then a.odd else a.even) == CprFrame(Cpr.EncodeLat(lat, odd, true), Cpr.EncodeLon(lat, lon, odd, true), at, true, true)
  }

  predicate Neighbours(lat1: real, lon1: real, lat2: real, lon2: real, turns: int) {
    && Cpr.InLatRange(lat1) && Cpr.InLatRange(lat2) && Cpr.Abs(lat1 - lat2) <= 0.0125
    && Cpr.Abs(lon1 - lon2 - 360.0 * turns as real) <= 0.0125
  }

  /** Where the newer of two frames places the aircraft. */
  function Placed(lat: real, lon: real, odd: bool): Position {
    Position(Cpr.EncRlat(lat, odd, true), Cpr.Wrap180(Cpr.EncRlon(lat, lon, odd, true)))
  }

  predicate BandsAgree(lat1: real, lat2: real, odd2: bool) {
    Cpr.Nl(Cpr.EncRlat(lat1, !odd2, true)) == Cpr.Nl(Cpr.EncRlat(lat2, odd2, true))
  }

  lemma SurfacePair(a: Row, lat1: real, lon1: real, lat2: real, lon2: real, turns: int, u: int, odd2: bool,
                    t1: int, t2: int, antenna: Antenna)
    requires Holds(a, lat1, lon1, !odd2, t1) && t1 < t2 <= t1 + PAIR_MAX_DT && (antenna.valid || a.posValid)
    requires Neighbours(lat1, lon1, lat2, lon2, turns) && Refers(Reference(a, antenna), lat1, lat2, lon2, odd2, u)
    ensures Global(Noted(a, Sent(lat2, lon2, odd2, true), t2), true, antenna)
         == if BandsAgree(lat1, lat2, odd2) then Some(Placed(lat2, lon2, odd2)) else None
    ensures BandsAgree(lat1, lat2, odd2) ==>
              var p := Placed(lat2, lon2, odd2); Cpr.Recovers(Cpr.Fix(p.lat, p.lon), lat2, lon2, odd2, true)
  {
    hide Cpr.DecodeAirborne, Cpr.DecodeSurface, Cpr.EncodeLat, Cpr.EncodeLon, Cpr.Nl, Cpr.EncRlat, Cpr.EncRlon,
         Cpr.InLatRange, Cpr.Wrap180, Cpr.LonDistance, Cpr.EncDlat, Cpr.EncDlon;
    var ref := Reference(a, antenna);
    if odd2 {
      Cpr.SurfaceRecovers(lat1, lon1, lat2, lon2, turns, true, ref.lat, ref.lon, u);
    } else {
      Negated(lon1, lon2, turns);
      Cpr.SurfaceRecovers(lat2, lon2, lat1, lon1, -turns, false, ref.lat, ref.lon, u);
    }
  }

  /** An aircraft on the ground without a fix yet sends one frame and, within ten seconds, one of the other
      parity, with an antenna position to tell the quadrant by. Unless the two straddle a zone boundary its
      row then holds where it was at the second, to within half a quantum. */
  lemma FirstSurfaceFixIsTrue(a: Row, lat1: real, lon1: real, lat2: real, lon2: real, turns: int, u: int, odd2: bool,
                              t1: int, t2: int, antenna: Antenna, km: Distance)
    requires !a.posValid && !a.odd.valid && !a.even.valid && t1 < t2 <= t1 + PAIR_MAX_DT && antenna.valid
    requires Neighbours(lat1, lon1, lat2, lon2, turns)
    requires Refers(Position(antenna.lat, antenna.lon), lat1, lat2, lon2, odd2, u)
    ensures var b := Located(Located(a, Sent(lat1, lon1, !odd2, true), t1, antenna, km), Sent(lat2, lon2, odd2, true), t2, antenna, km);
            && (b.posValid <==> BandsAgree(lat1, lat2, odd2))
            && (b.posValid ==> Cpr.Recovers(Cpr.Fix(b.lat, b.lon), lat2, lon2, odd2, true) && b.posAt == t2)
  {
    hide Cpr.DecodeAirborne, Cpr.DecodeRelative, Cpr.DecodeSurface, Cpr.EncodeLat, Cpr.EncodeLon, Cpr.Recovers,
         Neighbours, Refers, BandsAgree, Placed;
    var c := Located(a, Sent(lat1, lon1, !odd2, true), t1, antenna, km);
    assert c == Noted(a, Sent(lat1, lon1, !odd2, true), t1);
    SurfacePair(c, lat1, lon1, lat2, lon2, turns, u, odd2, t1, t2, antenna);
  }

  /** With a fix already, such a pair is judged by it: taken if the fix is ten minutes old, the place in
      reach, or two candidates were dropped before; else dropped and counted. Without an antenna position
      the old fix tells the quadrant. */
  lemma NextSurfaceFixIsTrue(a: Row, lat1: real, lon1: real, lat2: real, lon2: real, turns: int, u: int, odd2: bool,
                             t1: int, t2: int, antenna: Antenna, km: Distance)
    requires a.posValid && Holds(a, lat1, lon1, !odd2, t1) && t1 < t2 <= t1 + PAIR_MAX_DT
    requires Neighbours(lat1, lon1, lat2, lon2, turns) && Refers(Reference(a, antenna), lat1, lat2, lon2, odd2, u)
    requires BandsAgree(lat1, lat2, odd2)
    ensures var b, p := Located(a, Sent(lat2, lon2, odd2, true), t2, antenna, km), Placed(lat2, lon2, odd2);
            if !Judges(a, t2) || Near(a, p, t2, km) || a.rejects >= 2
            then Cpr.Recovers(Cpr.Fix(b.lat, b.lon), lat2, lon2, odd2, true) && b.posAt == t2
            else b.lat == a.lat && b.lon == a.lon && b.posAt == a.posAt && b.rejects == a.rejects + 1
  {
    hide Cpr.DecodeAirborne, Cpr.DecodeRelative, Cpr.DecodeSurface, Cpr.EncodeLat, Cpr.EncodeLon, Cpr.Recovers,
         Neighbours, Refers, BandsAgree, Placed;
    SurfacePair(a, lat1, lon1, lat2, lon2, turns, u, odd2, t1, t2, antenna);
  }

  // ---------------------------------------------------------------- what gives no fix

  /** A first fix comes only of a frame of the other parity, of the same kind, at most ten seconds off, and
      on the ground only with an antenna position. */
  lemma FirstFixNeedsPair(a: Row, m: Message, now: int, antenna: Antenna, km: Distance)
    requires !a.posValid && Located(a, m, now, antenna, km).posValid
    ensures var f := if m.odd then a.even else a.odd;
            f.valid && f.surface == m.surface && now - 10_000_000 <= f.at <= now + 10_000_000 && (m.surface ==> antenna.valid)
  {
    hide Cpr.DecodeAirborne, Cpr.DecodeRelative, Cpr.DecodeSurface;
  }

  /** A frame without such a partner moves a row only from a fix under ten minutes old, by at most 185 km. */
  lemma LoneFrameStaysNear(a: Row, m: Message, now: int, antenna: Antenna, km: Distance)
    requires var f := if m.odd then a.even else a.odd;
             !(f.valid && f.surface == m.surface && now - 10_000_000 <= f.at <= now + 10_000_000)
    ensures var b := Located(a, m, now, antenna, km);
            || (b.posValid == a.posValid && b.lat == a.lat && b.lon == a.lon && b.posAt == a.posAt)
            || (a.posValid && now - a.posAt < 600_000_000 && km(a.lat, a.lon, b.lat, b.lon) <= 185.0)
  {
    hide Cpr.DecodeAirborne, Cpr.DecodeRelative, Cpr.DecodeSurface;
  }

  lemma Negated(x: real, y: real, t: int)
    ensures Cpr.Abs(y - x - 360.0 * (-t) as real) == Cpr.Abs(x - y - 360.0 * t as real)
  {
    assert (-t) as real == -(t as real);
  }
}
