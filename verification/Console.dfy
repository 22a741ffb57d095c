/**
 * Who holds the console: the serial task and the SSH task of main/shell.c and main/net_ssh.c, and the
 * draw task of main/screen.c, as one machine whose steps are the single reads and writes of what they
 * share. The serial task works under s_lock; the SSH task takes it only to claim, and afterwards
 * relies on ownership alone; the draw task holds only the paint lock.
 */
module Console {

  /** An owner of the console, a transport, and the task behind it. */
  datatype Owner = Nobody | Uart | Ssh

  datatype Screen = Blank | Tui | Top

  /** A display slot: the transport its sink writes to (nobody: free), and the screen it shows. */
  datatype Slot = Slot(sink: Owner, screen: Screen)

  /** A byte of the line buffer and the transport it was typed on. */
  datatype Key = Key(byte: nat, from: Owner)

  datatype Command = Open(id: Screen) | Exit | Other

  const LINE_MAX: nat := 160

  /** Where a task is. Settle to Release are the serial task's pass; Handle to Wipe are shared; the
      rest are the session's. */
  datatype Pc =
    | Away
    | Settle(key: nat, typed: bool, again: bool) | Clear(key: nat, typed: bool, again: bool)
    | Greet(key: nat, typed: bool, again: bool) | Dispatch(key: nat, typed: bool) | Release
    | Handle(byte: nat) | Run
    | Attach(id: Screen, sink: Owner) | Describe(id: Screen, sink: Owner, i: nat)
    | Publish(id: Screen, sink: Owner, i: nat) | Front(id: Screen, sink: Owner) | Yield | Full
    | Ended | Prompt | Hot(byte: nat) | Leave
    | Detach(closing: bool) | Unfront(closing: bool) | Hold(closing: bool) | Wipe
    | Claim | Own | Unquit | Fresh | Give | Swap | Banner | Judge
    | Restore | Close | Disown | Forget

  datatype Draw = Idle | Scan(id: Screen, i: nat) | Loaded(id: Screen, i: nat, sink: Owner)
                | Write(id: Screen, i: nat, sink: Owner)

  /** The shared variables, the lock's holder, where stdout points, whether the session's ring has room
      for a run of a frame, and the three tasks. */
  datatype State = State(owner: Owner, fgUart: Screen, fgSsh: Screen, ready: bool, quit: bool, line: seq<Key>,
                         slots: seq<Slot>, lock: Owner, stdout: Owner, room: bool, c: Pc, s: Pc, d: Draw)

  function Init(): State {
    State(Nobody, Blank, Blank, false, false, [], [Slot(Nobody, Blank), Slot(Nobody, Blank)],
          Nobody, Uart, true, Away, Away, Idle)
  }

  /** A step of one of the tasks, with what it gets from outside: a byte or none, the effect of the
      command line, whether the client is gone, the screen due for a repaint, more of it to come, the
      room its writes and reads leave in the session's ring, and whether a wait for room has gone on
      for its 200 ms. */
  datatype Action =
    | Start
    | Serial(typed: bool, byte: nat, command: Command)
    | Session(hangup: bool, byte: nat, command: Command, space: bool)
    | Paint(id: Screen, more: bool, space: bool, timedOut: bool)

  // ---------------------------------------------------------------- the steps

  function Detached(slot: Slot, w: Owner): Slot {
    if slot.sink == w then slot.(sink := Nobody) else slot
  }

  function FirstFree(slots: seq<Slot>): nat
    requires |slots| == 2
  {
    if slots[0].sink.Nobody? then 0 else if slots[1].sink.Nobody? then 1 else 2
  }

  predicate LeaveKey(b: nat) {
    b == 0x71 || b == 0x51 || b == 0x3A || b == 3 || b == 4
  }

  /** What task w does next. */
  function Move(st: State, w: Owner, p: Pc): State {
    if w.Uart? then st.(c := p) else st.(s := p)
  }

  /** After a byte: the serial task settles again, the session looks whether to go on. */
  function Finished(w: Owner): Pc {
    if w.Uart? then Settle(0, false, true) else Judge
  }

  /** The line after a key: cut by one, cleared, left alone, or one byte longer. */
  function Edited(line: seq<Key>, w: Owner, b: nat): seq<Key> {
    if b == 0x7F || b == 8 then if line == [] then [] else line[..|line| - 1]
    else if b == 3 || b == 0x15 then []
    else if b < 0x20 || b > 0x7E || |line| >= LINE_MAX - 1 then line
    else line + [Key(b, w)]
  }

  predicate Printable(b: nat) {
    0x20 <= b <= 0x7E
  }

  /** The line after some bytes typed by one task. */
  function EditedAll(line: seq<Key>, w: Owner, bytes: seq<nat>): seq<Key> {
    if bytes == [] then line else Edited(EditedAll(line, w, bytes[..|bytes| - 1]), w, bytes[|bytes| - 1])
  }

  function Keys(w: Owner, bytes: seq<nat>): (line: seq<Key>)
    ensures |line| == |bytes|
  {
    seq(|bytes|, k requires 0 <= k < |bytes| => Key(bytes[k], w))
  }

  /** What is typed stands in the line in the order typed, the first 159 bytes of it. */
  lemma {:induction false} LineIsTyped(w: Owner, bytes: seq<nat>)
    requires forall k :: 0 <= k < |bytes| ==> Printable(bytes[k])
    ensures EditedAll([], w, bytes) == if |bytes| < 160 then Keys(w, bytes) else Keys(w, bytes[..159])
  {
    if bytes != [] {
      LineIsTyped(w, bytes[..|bytes| - 1]);
    }
  }

  /** A rubout takes back one byte, an interrupt or a kill the line; no other control byte edits it. */
  lemma ControlsEdit(line: seq<Key>, w: Owner, b: nat)
    ensures Printable(b) && |line| < 159 ==> Edited(Edited(line, w, b), w, 0x7F) == line && Edited(Edited(line, w, b), w, 8) == line
    ensures Edited(line, w, 3) == [] && Edited(line, w, 0x15) == []
    ensures !Printable(b) && b !in {3, 8, 0x15, 0x7F} ==> Edited(line, w, b) == line
  {
  }

  /** The line editor, the same code in both tasks. */
  function Edit(st: State, w: Owner, b: nat): State {
    Move(st.(line := Edited(st.line, w, b), quit := st.quit || (b == 4 && st.line == [] && st.owner.Ssh?)), w,
         if b != 13 && b != 10 then Finished(w) else if st.line == [] then Ended else Run)
  }

  /** A command running in task w. The screens branch on the owner, not on the task. */
  function RunLine(st: State, w: Owner, command: Command): State {
    Move(st.(quit := st.quit || (command.Exit? && st.owner.Ssh?)), w,
         if command.Open? && !command.id.Blank? then Attach(command.id, if st.owner.Ssh? then Ssh else Uart) else Ended)
  }

  /** The steps both tasks can take. */
  function Common(st: State, w: Owner, p: Pc, command: Command): (t: State)
    requires |st.slots| == 2
    ensures |t.slots| == 2 && t.d == st.d
  {
    match p
    case Handle(b) => Edit(st, w, b)
    case Run => RunLine(st, w, command)
    case Attach(id, sink) =>
      var i := FirstFree(st.slots);
      Move(st, w, if i == 2 then Full else Describe(id, sink, i))
    case Describe(id, sink, i) =>
      if i < 2 then Move(st.(slots := st.slots[i := st.slots[i].(screen := id)]), w, Publish(id, sink, i)) else st
    case Publish(id, sink, i) =>
      if i < 2 then Move(st.(slots := st.slots[i := st.slots[i].(sink := sink)]), w, Front(id, sink)) else st
    case Front(id, sink) =>
      if sink.Ssh? then Move(st.(fgSsh := id), w, Ended) else Move(st.(fgUart := id), w, Yield)
    case Yield => Move(st.(owner := Nobody), w, Ended)
    case Full => Move(st, w, Ended)
    case Ended => Move(st.(line := []), w, Prompt)
    case Prompt => Move(st, w, Finished(w))
    case Detach(closing) =>
      Move(st.(slots := [Detached(st.slots[0], w), Detached(st.slots[1], w)]), w, Unfront(closing))
    case Unfront(closing) =>
      Move(if w.Uart? then st.(fgUart := Blank) else st.(fgSsh := Blank), w, Hold(closing))
    case _ => st
  }

  /** The serial task's step: one pass takes the lock, settles, gives out the byte, settles, gives back. */
  function SerialStep(st: State, typed: bool, byte: nat, command: Command): (t: State)
    requires |st.slots| == 2
    ensures |t.slots| == 2 && t.d == st.d
  {
    match st.c
    case Away => st.(lock := Uart, c := Settle(byte, typed, false))
    case Settle(key, t, again) =>
      var free := st.owner.Nobody? && st.ready && st.fgUart.Blank?;
      st.(owner := if free then Uart else st.owner,
          c := if free then Clear(key, t, again) else if again then Release else Dispatch(key, t))
    case Clear(key, t, again) => st.(line := [], c := Greet(key, t, again))
    case Greet(key, t, again) => st.(c := if again then Release else Dispatch(key, t))
    case Dispatch(key, t) =>
      st.(c := if !t then Settle(0, false, true)
               else if st.owner.Uart? then Handle(key)
               else if !st.fgUart.Blank? then Hot(key)
               else Settle(0, false, true))
    case Hot(b) => st.(c := if LeaveKey(b) then Leave else Settle(0, false, true))
    case Leave => st.(c := if !st.owner.Nobody? then Settle(0, false, true) else Detach(false))
    case Hold(_) => st.(c := Settle(0, false, true))
    case Release => st.(lock := Nobody, c := Away)
    case p => Common(st, Uart, p, command)
  }

  /** The SSH task's step: claim, swap stdout, bytes, restore stdout, close. */
  function SessionStep(st: State, hangup: bool, byte: nat, command: Command): (t: State)
    requires |st.slots| == 2
    ensures |t.slots| == 2 && t.d == st.d
  {
    match st.s
    case Away =>
      var claims := !st.stdout.Ssh? && !st.owner.Ssh? && st.lock.Nobody?;
      st.(lock := if claims then Ssh else st.lock,
          s := if claims then Claim
               else if !st.stdout.Ssh? then Away
               else if hangup || !st.owner.Ssh? then Restore
               else if !st.fgSsh.Blank? then Hot(byte)
               else Handle(byte))
    case Claim => st.(s := if st.owner.Ssh? then Give else Own)
    case Own => st.(owner := Ssh, s := Unquit)
    case Unquit => st.(quit := false, s := Fresh)
    case Fresh => st.(line := [], s := Give)
    case Give => st.(lock := Nobody, s := Swap)
    case Swap => st.(stdout := Ssh, s := Banner)
    case Banner => st.(s := Away)
    case Judge => st.(s := if st.quit then Restore else Away)
    case Hot(b) => st.(s := if LeaveKey(b) then Detach(false) else Away)
    case Hold(closing) => st.(s := if closing then Disown else Wipe)
    case Wipe => st.(line := [], s := Away)
    case Restore => st.(stdout := Uart, s := Close)
    case Close => st.(s := if !st.owner.Ssh? then Away else if !st.fgSsh.Blank? then Detach(true) else Disown)
    case Disown => st.(owner := Nobody, s := Forget)
    case Forget => st.(quit := false, s := Away)
    case p => Common(st, Ssh, p, command)
  }

  predicate Viewers(slots: seq<Slot>, id: Screen)
    requires |slots| == 2
  {
    (!slots[0].sink.Nobody? && slots[0].screen == id) || (!slots[1].sink.Nobody? && slots[1].screen == id)
  }

  /** The draw task's next point: for each run of a frame, each slot's sink is loaded, then its screen. */
  function DrawNext(d: Draw, slots: seq<Slot>, id: Screen, more: bool): Draw
    requires |slots| == 2
  {
    match d
    case Idle => if Viewers(slots, id) then Scan(id, 0) else Idle
    case Scan(p, i) =>
      if i >= 2 then (if more then Scan(p, 0) else Idle)
      else if slots[i].sink.Nobody? then Scan(p, i + 1)
      else Loaded(p, i, slots[i].sink)
    case Loaded(p, i, sink) => if i < 2 && slots[i].screen == p then Write(p, i, sink) else Scan(p, i + 1)
    case Write(p, i, _) => Scan(p, i + 1)
  }

  /** The session's task drains the ring while it waits for bytes and before it wipes a screen; anywhere
      else what it prints can only fill it. */
  predicate Drains(st: State) {
    st.s.Wipe? || (st.s.Away? && st.stdout.Ssh?)
  }

  /** The draw task has a run to write to the session. */
  predicate WritesToSession(st: State) {
    st.d.Write? && st.d.sink.Ssh?
  }

  /** A pass begins when the lock is free; waiting out a repaint ends when none is in flight; a run goes
      to the session when there is room, or when the wait for room has timed out. */
  predicate Enabled(st: State, a: Action) {
    match a
    case Start => true
    case Serial(_, _, _) => (st.c.Away? ==> st.lock.Nobody?) && (st.c.Hold? ==> st.d.Idle?)
    case Session(_, _, _, _) => st.s.Hold? ==> st.d.Idle?
    case Paint(_, _, _, timedOut) => WritesToSession(st) ==> st.room || timedOut
  }

  function Next(st: State, a: Action): (t: State)
    requires |st.slots| == 2
    ensures |t.slots| == 2
  {
    match a
    case Start => st.(ready := true)
    case Serial(typed, byte, command) => SerialStep(st, typed, byte, command)
    case Session(hangup, byte, command, space) =>
      SessionStep(st, hangup, byte, command).(room := if Drains(st) then space else st.room && space)
    case Paint(id, more, space, _) =>
      st.(d := DrawNext(st.d, st.slots, id, more), room := if WritesToSession(st) then space else st.room)
  }

  // ---------------------------------------------------------------- what holds where

  /** The serial side does not own the console while its screen is up. */
  predicate ScreenExcluded(owner: Owner, fg: Screen) {
    owner.Uart? ==> fg.Blank?
  }

  /** Free, and about to become task w's. */
  predicate Chosen(slots: seq<Slot>, w: Owner, id: Screen, sink: Owner, i: nat)
    requires |slots| == 2
  {
    sink == w && !id.Blank? && i < 2 && slots[i].sink.Nobody?
  }

  /** What the serial task can count on, program point by program point: whether it holds the lock, who
      owns the console, and the screen in front of it. */
  predicate SerialAt(c: Pc, locked: bool, owner: Owner, fg: Screen, slots: seq<Slot>)
    requires |slots| == 2
  {
    match c
    case Away => !locked && ScreenExcluded(owner, fg)
    case Settle(_, _, _) | Dispatch(_, _) | Release => locked && ScreenExcluded(owner, fg)
    case Clear(_, _, _) | Greet(_, _, _) | Handle(_) | Run => locked && owner.Uart? && fg.Blank?
    case Attach(id, sink) => locked && owner.Uart? && fg.Blank? && sink.Uart? && !id.Blank?
    case Front(id, sink) => locked && owner.Uart? && fg.Blank? && sink.Uart? && !id.Blank?
    case Describe(id, sink, i) => locked && owner.Uart? && fg.Blank? && Chosen(slots, Uart, id, sink, i)
    case Publish(id, sink, i) =>
      locked && owner.Uart? && fg.Blank? && Chosen(slots, Uart, id, sink, i) && slots[i].screen == id
    case Yield => locked && owner.Uart? && !fg.Blank?
    case Ended | Prompt => locked && !owner.Ssh? && ScreenExcluded(owner, fg)
    case Hot(_) | Leave => locked && !owner.Uart? && !fg.Blank?
    case Detach(_) | Unfront(_) => locked && owner.Nobody? && !fg.Blank?
    case Hold(_) => locked && owner.Nobody? && fg.Blank?
    case _ => false
  }

  /** What the session can count on: whether it holds the lock, who owns the console, where stdout points,
      and the screen in front of it. */
  predicate SessionAt(s: Pc, locked: bool, owner: Owner, stdout: Owner, fg: Screen, slots: seq<Slot>)
    requires |slots| == 2
  {
    match s
    case Away => !locked && (stdout.Ssh? <==> owner.Ssh?) && (!fg.Blank? ==> owner.Ssh?)
    case Claim | Own => locked && !owner.Ssh? && stdout.Uart? && fg.Blank?
    case Unquit | Fresh | Give => locked && owner.Ssh? && stdout.Uart? && fg.Blank?
    case Swap => !locked && owner.Ssh? && stdout.Uart? && fg.Blank?
    case Banner | Handle(_) | Run | Wipe => !locked && owner.Ssh? && stdout.Ssh? && fg.Blank?
    case Attach(id, sink) => !locked && owner.Ssh? && stdout.Ssh? && fg.Blank? && sink.Ssh? && !id.Blank?
    case Front(id, sink) => !locked && owner.Ssh? && stdout.Ssh? && fg.Blank? && sink.Ssh? && !id.Blank?
    case Describe(id, sink, i) =>
      !locked && owner.Ssh? && stdout.Ssh? && fg.Blank? && Chosen(slots, Ssh, id, sink, i)
    case Publish(id, sink, i) =>
      !locked && owner.Ssh? && stdout.Ssh? && fg.Blank? && Chosen(slots, Ssh, id, sink, i) && slots[i].screen == id
    case Ended | Prompt | Judge | Restore => !locked && owner.Ssh? && stdout.Ssh?
    case Hot(_) => !locked && owner.Ssh? && stdout.Ssh? && !fg.Blank?
    case Detach(closing) => !locked && owner.Ssh? && (if closing then stdout.Uart? else stdout.Ssh?) && !fg.Blank?
    case Unfront(closing) => !locked && owner.Ssh? && (if closing then stdout.Uart? else stdout.Ssh?) && !fg.Blank?
    case Hold(closing) => !locked && owner.Ssh? && (if closing then stdout.Uart? else stdout.Ssh?) && fg.Blank?
    case Close => !locked && owner.Ssh? && stdout.Uart?
    case Disown => !locked && owner.Ssh? && stdout.Uart? && fg.Blank?
    case Forget => !locked && !owner.Ssh? && stdout.Uart? && fg.Blank?
    case _ => false
  }

  /** The screen whose sink a transport should have published, given where its task is. */
  function Due(p: Pc, fg: Screen): Screen {
    if p.Front? then p.id else if p.Unfront? then Blank else fg
  }

  /** One slot for the transport if a screen is due, none otherwise. */
  predicate Slotted(slots: seq<Slot>, w: Owner, due: Screen)
    requires |slots| == 2
  {
    && (forall i :: 0 <= i < 2 && slots[i].sink == w ==> slots[i].screen == due && !due.Blank?)
    && !(slots[0].sink == w && slots[1].sink == w)
    && (!due.Blank? ==> slots[0].sink == w || slots[1].sink == w)
  }

  /** A task that has taken its sink away and has not yet waited for the repaint in flight. */
  predicate LettingGo(p: Pc) {
    p.Unfront? || p.Hold?
  }

  /** A sink the draw task has loaded is still published in that slot, or its task is waiting for the
      repaint to end. */
  predicate Painting(d: Draw, slots: seq<Slot>, uartGoing: bool, sshGoing: bool)
    requires |slots| == 2
  {
    (d.Loaded? || d.Write?) ==>
      && d.i < 2 && !d.sink.Nobody?
      && (slots[d.i].sink == d.sink || (slots[d.i].sink.Nobody? && if d.sink.Uart? then uartGoing else sshGoing))
      && (d.Write? ==> slots[d.i].screen == d.id)
  }

  predicate TypedOn(line: seq<Key>, w: Owner) {
    forall k :: k in line ==> k.from == w
  }

  /** Every byte in the buffer was typed on the transport that owns the console, from the moment the
      owner has cleared it. */
  predicate Typed(line: seq<Key>, owner: Owner, uartClears: bool, sshClears: bool) {
    && (owner.Uart? && !uartClears ==> TypedOn(line, Uart))
    && (owner.Ssh? && !sshClears ==> TypedOn(line, Ssh))
    && |line| < LINE_MAX
  }

  predicate Inv(st: State) {
    && |st.slots| == 2 && !st.stdout.Nobody?
    && SerialAt(st.c, st.lock.Uart?, st.owner, st.fgUart, st.slots)
    && SessionAt(st.s, st.lock.Ssh?, st.owner, st.stdout, st.fgSsh, st.slots)
    && Slotted(st.slots, Uart, Due(st.c, st.fgUart)) && Slotted(st.slots, Ssh, Due(st.s, st.fgSsh))
    && Painting(st.d, st.slots, LettingGo(st.c), LettingGo(st.s))
    && Typed(st.line, st.owner, st.c.Clear?, st.s.Unquit? || st.s.Fresh?)
  }

  lemma InitInv()
    ensures Inv(Init())
  {
  }

  /** While a transport shows nothing, one of the two slots is free. */
  lemma SlotFree(slots: seq<Slot>, w: Owner, due: Screen)
    requires |slots| == 2 && !w.Nobody? && Slotted(slots, w, Blank) && Slotted(slots, if w.Uart? then Ssh else Uart, due)
    ensures FirstFree(slots) < 2 && slots[FirstFree(slots)].sink.Nobody?
  {
  }

  /** Only its own owner's task looks at the slots. */
  lemma SlotsDoNotMatter(st: State, slots: seq<Slot>)
    requires |st.slots| == |slots| == 2
    requires SerialAt(st.c, st.lock.Uart?, st.owner, st.fgUart, st.slots)
    requires SessionAt(st.s, st.lock.Ssh?, st.owner, st.stdout, st.fgSsh, st.slots)
    ensures !st.owner.Uart? ==> SerialAt(st.c, st.lock.Uart?, st.owner, st.fgUart, slots)
    ensures !st.owner.Ssh? ==> SessionAt(st.s, st.lock.Ssh?, st.owner, st.stdout, st.fgSsh, slots) && !LettingGo(st.s)
    ensures !st.owner.Nobody? ==> !LettingGo(st.c)
  {
  }

  function TheOther(w: Owner): Owner {
    if w.Uart? then Ssh else Uart
  }

  lemma DetachSlots(slots: seq<Slot>, w: Owner, due: Screen, other: Screen, d: Draw, uartGoing: bool, sshGoing: bool)
    requires |slots| == 2 && !w.Nobody? && Painting(d, slots, uartGoing, sshGoing)
    requires Slotted(slots, w, due) && Slotted(slots, TheOther(w), other)
    ensures var t := [Detached(slots[0], w), Detached(slots[1], w)];
            && Slotted(t, w, Blank) && Slotted(t, TheOther(w), other)
            && Painting(d, t, uartGoing || w.Uart?, sshGoing || w.Ssh?)
  {
  }

  lemma DescribeSlot(slots: seq<Slot>, i: nat, id: Screen, uart: Screen, ssh: Screen, d: Draw)
    requires |slots| == 2 && i < 2 && slots[i].sink.Nobody? && Painting(d, slots, false, false)
    requires Slotted(slots, Uart, uart) && Slotted(slots, Ssh, ssh)
    ensures var t := slots[i := slots[i].(screen := id)];
            Slotted(t, Uart, uart) && Slotted(t, Ssh, ssh) && Painting(d, t, false, false)
  {
  }

  lemma PublishSlot(slots: seq<Slot>, i: nat, w: Owner, other: Screen, d: Draw)
    requires |slots| == 2 && i < 2 && slots[i].sink.Nobody? && !slots[i].screen.Blank?
    requires Painting(d, slots, false, false)
    requires !w.Nobody? && Slotted(slots, w, Blank) && Slotted(slots, TheOther(w), other)
    ensures var t := slots[i := slots[i].(sink := w)];
            Slotted(t, w, slots[i].screen) && Slotted(t, TheOther(w), other) && Painting(d, t, false, false)
  {
  }

  /** A key adds to the line only what its own task typed. */
  lemma EditTypes(line: seq<Key>, w: Owner, b: nat)
    requires |line| < LINE_MAX && TypedOn(line, w)
    ensures TypedOn(Edited(line, w, b), w) && |Edited(line, w, b)| < LINE_MAX
  {
  }

  lemma SerialAwayRelease(st: State, a: Action)
    requires Inv(st) && Enabled(st, a) && a.Serial? && (st.c.Away? || st.c.Release?)
    ensures Inv(Next(st, a))
  {
    hide SessionStep, Edit, RunLine, SessionAt, Slotted, Painting, TypedOn;
  }

  lemma SerialSettle(st: State, a: Action)
    requires Inv(st) && Enabled(st, a) && a.Serial? && st.c.Settle?
    ensures Inv(Next(st, a))
  {
    hide SessionStep, Edit, RunLine, Slotted, Painting, TypedOn;
  }

  lemma SerialClearGreet(st: State, a: Action)
    requires Inv(st) && Enabled(st, a) && a.Serial? && (st.c.Clear? || st.c.Greet?)
    ensures Inv(Next(st, a))
  {
    hide SessionStep, Edit, RunLine, SessionAt, Slotted, Painting;
  }

  lemma SerialDispatch(st: State, a: Action)
    requires Inv(st) && Enabled(st, a) && a.Serial? && st.c.Dispatch?
    ensures Inv(Next(st, a))
  {
    hide SessionStep, Edit, RunLine, SessionAt, Slotted, Painting, TypedOn;
  }

  lemma SerialHotLeave(st: State, a: Action)
    requires Inv(st) && Enabled(st, a) && a.Serial? && (st.c.Hot? || st.c.Leave?)
    ensures Inv(Next(st, a))
  {
    hide SessionStep, Edit, RunLine, SessionAt, Slotted, Painting, TypedOn;
  }

  lemma SerialHandle(st: State, a: Action)
    requires Inv(st) && Enabled(st, a) && a.Serial? && st.c.Handle?
    ensures Inv(Next(st, a))
  {
    EditTypes(st.line, Uart, st.c.byte);
    hide SessionStep, RunLine, SessionAt, Slotted, Painting, TypedOn, Edited;
  }

  lemma SerialRun(st: State, a: Action)
    requires Inv(st) && Enabled(st, a) && a.Serial? && st.c.Run?
    ensures Inv(Next(st, a))
  {
    hide SessionStep, Edit, SessionAt, Slotted, Painting, TypedOn;
  }

  lemma SerialAttach(st: State, a: Action)
    requires Inv(st) && Enabled(st, a) && a.Serial? && st.c.Attach?
    ensures Inv(Next(st, a))
  {
    SlotFree(st.slots, Uart, Due(st.s, st.fgSsh));
    hide SessionStep, Edit, RunLine, SessionAt, Slotted, Painting, TypedOn;
  }

  lemma SerialDescribe(st: State, a: Action)
    requires Inv(st) && Enabled(st, a) && a.Serial? && st.c.Describe?
    ensures Inv(Next(st, a))
  {
    SlotsDoNotMatter(st, Next(st, a).slots);
    DescribeSlot(st.slots, st.c.i, st.c.id, Due(st.c, st.fgUart), Due(st.s, st.fgSsh), st.d);
    hide SessionStep, Edit, RunLine, SessionAt, TypedOn, Slotted, Painting, Detached;
  }

  lemma SerialPublish(st: State, a: Action)
    requires Inv(st) && Enabled(st, a) && a.Serial? && st.c.Publish?
    ensures Inv(Next(st, a))
  {
    SlotsDoNotMatter(st, Next(st, a).slots);
    PublishSlot(st.slots, st.c.i, Uart, Due(st.s, st.fgSsh), st.d);
    hide SessionStep, Edit, RunLine, SessionAt, TypedOn, Slotted, Painting, Detached;
  }

  lemma SerialFront(st: State, a: Action)
    requires Inv(st) && Enabled(st, a) && a.Serial? && st.c.Front?
    ensures Inv(Next(st, a))
  {
    hide SessionStep, Edit, RunLine, SessionAt, TypedOn;
  }

  lemma SerialYield(st: State, a: Action)
    requires Inv(st) && Enabled(st, a) && a.Serial? && st.c.Yield?
    ensures Inv(Next(st, a))
  {
    hide SessionStep, Edit, RunLine, Slotted, Painting, TypedOn;
  }

  lemma SerialEndedPrompt(st: State, a: Action)
    requires Inv(st) && Enabled(st, a) && a.Serial? && (st.c.Ended? || st.c.Prompt?)
    ensures Inv(Next(st, a))
  {
    hide SessionStep, Edit, RunLine, SessionAt, Slotted, Painting;
  }

  lemma SerialDetach(st: State, a: Action)
    requires Inv(st) && Enabled(st, a) && a.Serial? && st.c.Detach?
    ensures Inv(Next(st, a))
  {
    SlotsDoNotMatter(st, Next(st, a).slots);
    DetachSlots(st.slots, Uart, Due(st.c, st.fgUart), Due(st.s, st.fgSsh), st.d, LettingGo(st.c), LettingGo(st.s));
    hide SessionStep, Edit, RunLine, SessionAt, TypedOn, Slotted, Painting, Detached;
  }

  lemma SerialUnfront(st: State, a: Action)
    requires Inv(st) && Enabled(st, a) && a.Serial? && st.c.Unfront?
    ensures Inv(Next(st, a))
  {
    hide SessionStep, Edit, RunLine, SessionAt, Slotted, Painting, TypedOn;
  }

  lemma SerialHold(st: State, a: Action)
    requires Inv(st) && Enabled(st, a) && a.Serial? && st.c.Hold?
    ensures Inv(Next(st, a))
  {
    hide SessionStep, Edit, RunLine, SessionAt, Slotted, TypedOn;
  }

  lemma SessionAway(st: State, a: Action)
    requires Inv(st) && Enabled(st, a) && a.Session? && st.s.Away?
    ensures Inv(Next(st, a))
  {
    hide SerialStep, Edit, RunLine, SerialAt, Slotted, Painting, TypedOn;
  }

  lemma SessionClaimOwn(st: State, a: Action)
    requires Inv(st) && Enabled(st, a) && a.Session? && (st.s.Claim? || st.s.Own?)
    ensures Inv(Next(st, a))
  {
    hide SerialStep, Edit, RunLine, Slotted, Painting, TypedOn;
  }

  lemma SessionUnquitFreshGive(st: State, a: Action)
    requires Inv(st) && Enabled(st, a) && a.Session? && (st.s.Unquit? || st.s.Fresh? || st.s.Give?)
    ensures Inv(Next(st, a))
  {
    hide SerialStep, Edit, RunLine, SerialAt, Slotted, Painting;
  }

  lemma SessionSwapBannerJudge(st: State, a: Action)
    requires Inv(st) && Enabled(st, a) && a.Session? && (st.s.Swap? || st.s.Banner? || st.s.Judge?)
    ensures Inv(Next(st, a))
  {
    hide SerialStep, Edit, RunLine, SerialAt, Slotted, Painting, TypedOn;
  }

  lemma SessionHandle(st: State, a: Action)
    requires Inv(st) && Enabled(st, a) && a.Session? && st.s.Handle?
    ensures Inv(Next(st, a))
  {
    EditTypes(st.line, Ssh, st.s.byte);
    hide SerialStep, RunLine, SerialAt, Slotted, Painting, TypedOn, Edited;
  }

  lemma SessionRun(st: State, a: Action)
    requires Inv(st) && Enabled(st, a) && a.Session? && st.s.Run?
    ensures Inv(Next(st, a))
  {
    hide SerialStep, Edit, SerialAt, Slotted, Painting, TypedOn;
  }

  lemma SessionAttach(st: State, a: Action)
    requires Inv(st) && Enabled(st, a) && a.Session? && st.s.Attach?
    ensures Inv(Next(st, a))
  {
    SlotFree(st.slots, Ssh, Due(st.c, st.fgUart));
    hide SerialStep, Edit, RunLine, SerialAt, Slotted, Painting, TypedOn;
  }

  lemma SessionDescribe(st: State, a: Action)
    requires Inv(st) && Enabled(st, a) && a.Session? && st.s.Describe?
    ensures Inv(Next(st, a))
  {
    SlotsDoNotMatter(st, Next(st, a).slots);
    DescribeSlot(st.slots, st.s.i, st.s.id, Due(st.c, st.fgUart), Due(st.s, st.fgSsh), st.d);
    hide SerialStep, Edit, RunLine, SerialAt, TypedOn, Slotted, Painting, Detached;
  }

  lemma SessionPublish(st: State, a: Action)
    requires Inv(st) && Enabled(st, a) && a.Session? && st.s.Publish?
    ensures Inv(Next(st, a))
  {
    SlotsDoNotMatter(st, Next(st, a).slots);
    PublishSlot(st.slots, st.s.i, Ssh, Due(st.c, st.fgUart), st.d);
    hide SerialStep, Edit, RunLine, SerialAt, TypedOn, Slotted, Painting, Detached;
  }

  lemma SessionFront(st: State, a: Action)
    requires Inv(st) && Enabled(st, a) && a.Session? && st.s.Front?
    ensures Inv(Next(st, a))
  {
    hide SerialStep, Edit, RunLine, SerialAt, TypedOn;
  }

  lemma SessionEndedPromptWipe(st: State, a: Action)
    requires Inv(st) && Enabled(st, a) && a.Session? && (st.s.Ended? || st.s.Prompt? || st.s.Wipe?)
    ensures Inv(Next(st, a))
  {
    hide SerialStep, Edit, RunLine, SerialAt, Slotted, Painting;
  }

  lemma SessionHot(st: State, a: Action)
    requires Inv(st) && Enabled(st, a) && a.Session? && st.s.Hot?
    ensures Inv(Next(st, a))
  {
    hide SerialStep, Edit, RunLine, SerialAt, Slotted, Painting, TypedOn;
  }

  lemma SessionDetach(st: State, a: Action)
    requires Inv(st) && Enabled(st, a) && a.Session? && st.s.Detach?
    ensures Inv(Next(st, a))
  {
    SlotsDoNotMatter(st, Next(st, a).slots);
    DetachSlots(st.slots, Ssh, Due(st.s, st.fgSsh), Due(st.c, st.fgUart), st.d, LettingGo(st.c), LettingGo(st.s));
    hide SerialStep, Edit, RunLine, SerialAt, TypedOn, Slotted, Painting, Detached;
  }

  lemma SessionUnfront(st: State, a: Action)
    requires Inv(st) && Enabled(st, a) && a.Session? && st.s.Unfront?
    ensures Inv(Next(st, a))
  {
    hide SerialStep, Edit, RunLine, SerialAt, Slotted, Painting, TypedOn;
  }

  lemma SessionHold(st: State, a: Action)
    requires Inv(st) && Enabled(st, a) && a.Session? && st.s.Hold?
    ensures Inv(Next(st, a))
  {
    hide SerialStep, Edit, RunLine, SerialAt, Slotted, TypedOn;
  }

  lemma SessionRestoreClose(st: State, a: Action)
    requires Inv(st) && Enabled(st, a) && a.Session? && (st.s.Restore? || st.s.Close?)
    ensures Inv(Next(st, a))
  {
    hide SerialStep, Edit, RunLine, SerialAt, Slotted, Painting, TypedOn;
  }

  lemma SessionDisownForget(st: State, a: Action)
    requires Inv(st) && Enabled(st, a) && a.Session? && (st.s.Disown? || st.s.Forget?)
    ensures Inv(Next(st, a))
  {
    hide SerialStep, Edit, RunLine, Slotted, Painting, TypedOn;
  }

  lemma SerialKeeps(st: State, a: Action)
    requires Inv(st) && Enabled(st, a) && a.Serial?
    ensures Inv(Next(st, a))
  {
    hide Slotted, Painting, Typed, Next;
    match st.c
    case Away => SerialAwayRelease(st, a);
    case Release => SerialAwayRelease(st, a);
    case Settle(_, _, _) => SerialSettle(st, a);
    case Clear(_, _, _) => SerialClearGreet(st, a);
    case Greet(_, _, _) => SerialClearGreet(st, a);
    case Dispatch(_, _) => SerialDispatch(st, a);
    case Hot(_) => SerialHotLeave(st, a);
    case Leave => SerialHotLeave(st, a);
    case Handle(_) => SerialHandle(st, a);
    case Run => SerialRun(st, a);
    case Attach(_, _) => SerialAttach(st, a);
    case Describe(_, _, _) => SerialDescribe(st, a);
    case Publish(_, _, _) => SerialPublish(st, a);
    case Front(_, _) => SerialFront(st, a);
    case Yield => SerialYield(st, a);
    case Ended => SerialEndedPrompt(st, a);
    case Prompt => SerialEndedPrompt(st, a);
    case Detach(_) => SerialDetach(st, a);
    case Unfront(_) => SerialUnfront(st, a);
    case Hold(_) => SerialHold(st, a);
  }

  lemma SessionKeeps(st: State, a: Action)
    requires Inv(st) && Enabled(st, a) && a.Session?
    ensures Inv(Next(st, a))
  {
    hide Slotted, Painting, Typed, Next;
    match st.s
    case Away => SessionAway(st, a);
    case Claim => SessionClaimOwn(st, a);
    case Own => SessionClaimOwn(st, a);
    case Unquit => SessionUnquitFreshGive(st, a);
    case Fresh => SessionUnquitFreshGive(st, a);
    case Give => SessionUnquitFreshGive(st, a);
    case Swap => SessionSwapBannerJudge(st, a);
    case Banner => SessionSwapBannerJudge(st, a);
    case Judge => SessionSwapBannerJudge(st, a);
    case Handle(_) => SessionHandle(st, a);
    case Run => SessionRun(st, a);
    case Attach(_, _) => SessionAttach(st, a);
    case Describe(_, _, _) => SessionDescribe(st, a);
    case Publish(_, _, _) => SessionPublish(st, a);
    case Front(_, _) => SessionFront(st, a);
    case Ended => SessionEndedPromptWipe(st, a);
    case Prompt => SessionEndedPromptWipe(st, a);
    case Wipe => SessionEndedPromptWipe(st, a);
    case Hot(_) => SessionHot(st, a);
    case Detach(_) => SessionDetach(st, a);
    case Unfront(_) => SessionUnfront(st, a);
    case Hold(_) => SessionHold(st, a);
    case Restore => SessionRestoreClose(st, a);
    case Close => SessionRestoreClose(st, a);
    case Disown => SessionDisownForget(st, a);
    case Forget => SessionDisownForget(st, a);
  }

  lemma DrawKeeps(d: Draw, slots: seq<Slot>, id: Screen, more: bool, uartGoing: bool, sshGoing: bool)
    requires |slots| == 2 && Painting(d, slots, uartGoing, sshGoing)
    ensures Painting(DrawNext(d, slots, id, more), slots, uartGoing, sshGoing)
  {
  }

  lemma PaintKeeps(st: State, a: Action)
    requires Inv(st) && a.Paint? && Enabled(st, a)
    ensures Inv(Next(st, a))
  {
    DrawKeeps(st.d, st.slots, a.id, a.more, LettingGo(st.c), LettingGo(st.s));
    hide SerialStep, SessionStep, DrawNext, SerialAt, SessionAt, Slotted, Painting, Typed, LettingGo;
  }

  lemma NextInv(st: State, a: Action)
    requires Inv(st) && Enabled(st, a)
    ensures Inv(Next(st, a))
  {
    match a
    case Start => hide SerialAt, SessionAt, Slotted, Painting, Typed;
    case Serial(_, _, _) => SerialKeeps(st, a);
    case Session(_, _, _, _) => SessionKeeps(st, a);
    case Paint(_, _, _, _) => PaintKeeps(st, a);
  }

  // ---------------------------------------------------------------- whole runs

  ghost predicate Legal(st: State, run: seq<Action>)
    requires |st.slots| == 2
    decreases |run|
  {
    run == [] || (Enabled(st, run[0]) && Legal(Next(st, run[0]), run[1..]))
  }

  ghost function After(st: State, run: seq<Action>): (t: State)
    requires |st.slots| == 2 && Legal(st, run)
    ensures |t.slots| == 2
    decreases |run|
  {
    if run == [] then st else After(Next(st, run[0]), run[1..])
  }

  lemma {:induction false} RunInv(st: State, run: seq<Action>)
    requires Inv(st) && Legal(st, run)
    ensures Inv(After(st, run))
    decreases |run|
  {
    if run != [] {
      NextInv(st, run[0]);
      hide Inv, Next, Enabled;
      RunInv(Next(st, run[0]), run[1..]);
    }
  }

  /** Inside a command. */
  predicate Commanding(p: Pc) {
    p.Run? || p.Attach? || p.Describe? || p.Publish? || p.Front? || p.Yield? || p.Full?
  }

  /** About to read or write the line buffer. */
  predicate Lining(p: Pc) {
    p.Handle? || p.Run? || p.Ended? || p.Clear? || p.Wipe? || p.Fresh?
  }

  /** About to print on the console, task w's way: through stdout, or straight to its transport. */
  predicate Printing(st: State, w: Owner) {
    var p := if w.Uart? then st.c else st.s;
    || p.Greet? || p.Handle? || p.Run? || p.Attach? || p.Full? || p.Banner?
    || (p.Prompt? && !st.owner.Nobody? && !st.quit && st.fgSsh.Blank?)
  }

  /** One command at a time, the line buffer touched only by the task whose transport owns the console or,
      with nobody owning it, by the serial task; and no byte of a command line was typed on the other
      transport. */
  predicate OneCommand(st: State) {
    && !(Commanding(st.c) && Commanding(st.s))
    && (Lining(st.c) ==> !st.owner.Ssh?)
    && (Lining(st.s) ==> st.owner.Ssh?)
    && (st.c.Run? ==> forall k :: k in st.line ==> k.from.Uart?)
    && (st.s.Run? ==> forall k :: k in st.line ==> k.from.Ssh?)
  }

  /** A screen on the session means the session owns; serial ownership means no serial screen, but
      for the one step in which the screen takes over. */
  predicate Fronts(st: State) {
    && (!st.fgSsh.Blank? ==> st.owner.Ssh?)
    && (st.owner.Uart? && !st.fgUart.Blank? ==> st.c.Yield? && st.lock.Uart?)
  }

  /** One display slot a transport, so that a command that opens a screen always finds one free. */
  predicate SlotsSuffice(st: State)
    requires |st.slots| == 2
  {
    && !st.c.Full? && !st.s.Full?
    && (st.slots[0].sink == st.slots[1].sink ==> st.slots[0].sink.Nobody?)
  }

  /** What a task prints goes to its own transport, and no repaint is being written there. */
  predicate CleanOutput(st: State) {
    && (Printing(st, Uart) ==> st.stdout.Uart? && !(st.d.Write? && st.d.sink.Uart?))
    && (Printing(st, Ssh) ==> st.stdout.Ssh? && !(st.d.Write? && st.d.sink.Ssh?))
    && (st.s.Wipe? ==> !(st.d.Write? && st.d.sink.Ssh?))
  }

  /** A run of a frame goes to a transport only while that screen is in front of it, or being put
      there, or while the task taking it away waits for the repaint to end. */
  predicate RightScreen(st: State) {
    && (st.d.Write? && st.d.sink.Uart? ==>
          st.fgUart == st.d.id || (st.c.Front? && st.c.id == st.d.id) || st.c.Hold? || st.c.Unfront?)
    && (st.d.Write? && st.d.sink.Ssh? ==>
          st.fgSsh == st.d.id || (st.s.Front? && st.s.id == st.d.id) || st.s.Hold? || st.s.Unfront?)
  }

  /** In the middle of a claim, whose steps wait for nothing. */
  predicate Claiming(p: Pc) {
    p.Claim? || p.Own? || p.Unquit? || p.Fresh? || p.Give?
  }

  /** The draw task waits for room in the session's ring, which only the session's task makes. */
  predicate WantsRoom(st: State) {
    WritesToSession(st) && !st.room
  }

  /** Who waits for whom. The serial task waits for a claim, or for a repaint; the session waits for a
      repaint; a repaint waits for room. So the one circle is the session waiting for a repaint that
      waits for the session to make room; and then its sink is gone already, so the run that waits, at
      most as long as its time-out, is the last one written there. */
  predicate Waits(st: State)
    requires |st.slots| == 2
  {
    && (st.c.Away? && !st.lock.Nobody? ==> Claiming(st.s))
    && (st.c.Hold? ==> !Claiming(st.s))
    && (st.s.Hold? && WantsRoom(st) ==> !st.slots[0].sink.Ssh? && !st.slots[1].sink.Ssh?)
  }

  predicate Safe(st: State)
    requires |st.slots| == 2
  {
    OneCommand(st) && Fronts(st) && SlotsSuffice(st) && CleanOutput(st) && RightScreen(st) && Waits(st)
  }

  lemma InvOneCommand(st: State)
    requires Inv(st)
    ensures OneCommand(st) && Fronts(st)
  {
    hide Slotted, Painting;
  }

  lemma InvOutput(st: State)
    requires Inv(st)
    ensures SlotsSuffice(st) && CleanOutput(st) && Waits(st)
  {
    hide Typed;
  }

  lemma InvRightScreen(st: State)
    requires Inv(st)
    ensures RightScreen(st)
  {
    hide Typed;
  }

  /** In every interleaving of the three tasks, from boot on. */
  lemma AlwaysSafe(run: seq<Action>)
    requires Legal(Init(), run)
    ensures Safe(After(Init(), run))
  {
    InitInv();
    RunInv(Init(), run);
    InvOneCommand(After(Init(), run));
    InvOutput(After(Init(), run));
    InvRightScreen(After(Init(), run));
  }

  // ---------------------------------------------------------------- after a screen is taken away

  /** Throughout a run the session's task has detached its sink and waits for the repaint in flight. */
  ghost predicate StaysLeaving(st: State, run: seq<Action>)
    requires |st.slots| == 2 && Legal(st, run)
    decreases |run|
  {
    LettingGo(st.s) && (run == [] || StaysLeaving(Next(st, run[0]), run[1..]))
  }

  /** How many runs of a frame are written to the session. */
  ghost function RunsWritten(st: State, run: seq<Action>): nat
    requires |st.slots| == 2 && Legal(st, run)
    decreases |run|
  {
    if run == [] then 0
    else (if run[0].Paint? && WritesToSession(st) then 1 else 0) + RunsWritten(Next(st, run[0]), run[1..])
  }

  /** The session's sink is in the draw task's hands. */
  predicate InHand(d: Draw) {
    (d.Loaded? || d.Write?) && d.sink.Ssh?
  }

  /** Without a slot for it, the sink is not taken up again: once written to, it is out of hand. */
  lemma LastRun(d: Draw, slots: seq<Slot>, id: Screen, more: bool)
    requires |slots| == 2 && Slotted(slots, Ssh, Blank)
    ensures InHand(DrawNext(d, slots, id, more)) ==> InHand(d) && !d.Write?
  {
  }

  lemma NothingDue(st: State)
    requires Inv(st) && LettingGo(st.s)
    ensures Slotted(st.slots, Ssh, Blank)
  {
    hide SerialAt, Painting, Typed;
  }

  /** Only the draw task moves the draw task. */
  lemma DrawStays(st: State, a: Action)
    requires |st.slots| == 2 && Enabled(st, a) && !a.Paint?
    ensures Next(st, a).d == st.d
  {
    hide SerialStep, SessionStep;
  }

  lemma {:induction false} AtMostOneMoreRun(st: State, run: seq<Action>)
    requires Inv(st) && Legal(st, run) && StaysLeaving(st, run)
    ensures RunsWritten(st, run) <= if InHand(st.d) then 1 else 0
    decreases |run|
  {
    if run != [] {
      var t := Next(st, run[0]);
      NextInv(st, run[0]);
      NothingDue(st);
      if run[0].Paint? { LastRun(st.d, st.slots, run[0].id, run[0].more); } else { DrawStays(st, run[0]); }
      hide Inv, SerialStep, SessionStep, DrawNext, LettingGo;
      AtMostOneMoreRun(t, run[1..]);
    }
  }

  /** After the session's sink is detached at most one more run is written there, and so at most one
      time-out is waited for, before the task that detached it goes on. */
  lemma OneMoreRun(before: seq<Action>, run: seq<Action>)
    requires Legal(Init(), before) && Legal(After(Init(), before), run) && StaysLeaving(After(Init(), before), run)
    ensures RunsWritten(After(Init(), before), run) <= 1
  {
    InitInv();
    RunInv(Init(), before);
    AtMostOneMoreRun(After(Init(), before), run);
  }

  lemma {:induction false} OneMore(st: State, run: seq<Action>, a: Action)
    requires |st.slots| == 2 && Legal(st, run) && Enabled(After(st, run), a)
    ensures Legal(st, run + [a]) && After(st, run + [a]) == Next(After(st, run), a)
    decreases |run|
  {
    hide Next, Enabled;
    if run == [] {
      assert [a][1..] == [];
    } else {
      assert (run + [a])[1..] == run[1..] + [a];
      OneMore(Next(st, run[0]), run[1..], a);
    }
  }

  predicate Leads(st: State, a: Action, t: State)
    requires |st.slots| == 2
  {
    Enabled(st, a) && Next(st, a) == t
  }

  /** A run from boot that ends in st. */
  ghost predicate Reaches(run: seq<Action>, st: State) {
    Legal(Init(), run) && After(Init(), run) == st
  }

  lemma Go(run: seq<Action>, st: State, a: Action, t: State) returns (longer: seq<Action>)
    requires Reaches(run, st) && |st.slots| == 2 && Leads(st, a, t)
    ensures Reaches(longer, t)
  {
    hide Next, Enabled;
    OneMore(Init(), run, a);
    longer := run + [a];
  }

  /** A step of the session that leaves room, given byte b. */
  function Byte(b: nat): Action {
    Session(false, b, Open(Tui), true)
  }

  /** The session at p: claiming the console, having it, opening a screen in the first slot, showing it. */
  function Claims(owner: Owner, lock: Owner, p: Pc): State {
    Init().(ready := true, owner := owner, lock := lock, s := p)
  }

  function Has(line: seq<Key>, p: Pc): State {
    Init().(ready := true, owner := Ssh, stdout := Ssh, line := line, s := p)
  }

  function Opening(slot: Slot, fg: Screen, p: Pc): State {
    Has([Key(0x74, Ssh)], p).(slots := [slot, Slot(Nobody, Blank)], fgSsh := fg)
  }

  function Shows(sink: Owner, fg: Screen, p: Pc, room: bool, d: Draw): State {
    Has([], p).(slots := [Slot(sink, Tui), Slot(Nobody, Blank)], fgSsh := fg, room := room, d := d)
  }

  /** The session connects and claims the console. */
  lemma TakesLock(run: seq<Action>) returns (longer: seq<Action>)
    requires Reaches(run, Init())
    ensures Reaches(longer, Claims(Nobody, Ssh, Claim))
  {
    hide Reaches, Common, SerialStep, DrawNext;
    longer := run;
    longer := Go(longer, Init(), Start, Claims(Nobody, Nobody, Away));
    longer := Go(longer, Claims(Nobody, Nobody, Away), Byte(0), Claims(Nobody, Ssh, Claim));
  }

  lemma TakesConsole(run: seq<Action>) returns (longer: seq<Action>)
    requires Reaches(run, Claims(Nobody, Ssh, Claim))
    ensures Reaches(longer, Claims(Ssh, Ssh, Unquit))
  {
    hide Reaches, Common, SerialStep, DrawNext;
    longer := run;
    longer := Go(longer, Claims(Nobody, Ssh, Claim), Byte(0), Claims(Nobody, Ssh, Own));
    longer := Go(longer, Claims(Nobody, Ssh, Own), Byte(0), Claims(Ssh, Ssh, Unquit));
  }

  lemma StartsFresh(run: seq<Action>) returns (longer: seq<Action>)
    requires Reaches(run, Claims(Ssh, Ssh, Unquit))
    ensures Reaches(longer, Claims(Ssh, Ssh, Give))
  {
    hide Reaches, Common, SerialStep, DrawNext;
    longer := run;
    longer := Go(longer, Claims(Ssh, Ssh, Unquit), Byte(0), Claims(Ssh, Ssh, Fresh));
    longer := Go(longer, Claims(Ssh, Ssh, Fresh), Byte(0), Claims(Ssh, Ssh, Give));
  }

  lemma TurnsStdout(run: seq<Action>) returns (longer: seq<Action>)
    requires Reaches(run, Claims(Ssh, Ssh, Give))
    ensures Reaches(longer, Has([], Banner))
  {
    hide Reaches, Common, SerialStep, DrawNext;
    longer := run;
    longer := Go(longer, Claims(Ssh, Ssh, Give), Byte(0), Claims(Ssh, Nobody, Swap));
    longer := Go(longer, Claims(Ssh, Nobody, Swap), Byte(0), Has([], Banner));
  }

  lemma Greets(run: seq<Action>) returns (longer: seq<Action>)
    requires Reaches(run, Has([], Banner))
    ensures Reaches(longer, Has([], Away))
  {
    hide Reaches, Common, SerialStep, DrawNext;
    longer := run;
    longer := Go(longer, Has([], Banner), Byte(0), Has([], Away));
  }

  /** A byte is typed, then the end of the line. */
  lemma Types(run: seq<Action>) returns (longer: seq<Action>)
    requires Reaches(run, Has([], Away))
    ensures Reaches(longer, Has([Key(0x74, Ssh)], Judge))
  {
    hide Reaches, SerialStep, DrawNext;
    longer := run;
    longer := Go(longer, Has([], Away), Byte(0x74), Has([], Handle(0x74)));
    longer := Go(longer, Has([], Handle(0x74)), Byte(0), Has([Key(0x74, Ssh)], Judge));
  }

  lemma Looks(run: seq<Action>) returns (longer: seq<Action>)
    requires Reaches(run, Has([Key(0x74, Ssh)], Judge))
    ensures Reaches(longer, Has([Key(0x74, Ssh)], Handle(13)))
  {
    hide Reaches, SerialStep, DrawNext;
    longer := run;
    longer := Go(longer, Has([Key(0x74, Ssh)], Judge), Byte(0), Has([Key(0x74, Ssh)], Away));
    longer := Go(longer, Has([Key(0x74, Ssh)], Away), Byte(13), Has([Key(0x74, Ssh)], Handle(13)));
  }

  lemma Enters(run: seq<Action>) returns (longer: seq<Action>)
    requires Reaches(run, Has([Key(0x74, Ssh)], Handle(13)))
    ensures Reaches(longer, Has([Key(0x74, Ssh)], Run))
  {
    hide Reaches, SerialStep, DrawNext;
    longer := run;
    longer := Go(longer, Has([Key(0x74, Ssh)], Handle(13)), Byte(0), Has([Key(0x74, Ssh)], Run));
  }

  /** The command opens a screen. */
  lemma Runs(run: seq<Action>) returns (longer: seq<Action>)
    requires Reaches(run, Has([Key(0x74, Ssh)], Run))
    ensures Reaches(longer, Opening(Slot(Nobody, Blank), Blank, Describe(Tui, Ssh, 0)))
  {
    hide Reaches, SerialStep, DrawNext;
    longer := run;
    longer := Go(longer, Has([Key(0x74, Ssh)], Run), Byte(0), Opening(Slot(Nobody, Blank), Blank, Attach(Tui, Ssh)));
    longer := Go(longer, Opening(Slot(Nobody, Blank), Blank, Attach(Tui, Ssh)), Byte(0),
                 Opening(Slot(Nobody, Blank), Blank, Describe(Tui, Ssh, 0)));
  }

  lemma Describes(run: seq<Action>) returns (longer: seq<Action>)
    requires Reaches(run, Opening(Slot(Nobody, Blank), Blank, Describe(Tui, Ssh, 0)))
    ensures Reaches(longer, Opening(Slot(Ssh, Tui), Blank, Front(Tui, Ssh)))
  {
    hide Reaches, SerialStep, DrawNext;
    longer := run;
    longer := Go(longer, Opening(Slot(Nobody, Blank), Blank, Describe(Tui, Ssh, 0)), Byte(0),
                 Opening(Slot(Nobody, Tui), Blank, Publish(Tui, Ssh, 0)));
    longer := Go(longer, Opening(Slot(Nobody, Tui), Blank, Publish(Tui, Ssh, 0)), Byte(0),
                 Opening(Slot(Ssh, Tui), Blank, Front(Tui, Ssh)));
  }

  lemma ComesToFront(run: seq<Action>) returns (longer: seq<Action>)
    requires Reaches(run, Opening(Slot(Ssh, Tui), Blank, Front(Tui, Ssh)))
    ensures Reaches(longer, Shows(Ssh, Tui, Prompt, true, Idle))
  {
    hide Reaches, SerialStep, DrawNext;
    longer := run;
    longer := Go(longer, Opening(Slot(Ssh, Tui), Blank, Front(Tui, Ssh)), Byte(0), Opening(Slot(Ssh, Tui), Tui, Ended));
    longer := Go(longer, Opening(Slot(Ssh, Tui), Tui, Ended), Byte(0), Shows(Ssh, Tui, Prompt, true, Idle));
  }

  lemma Returns(run: seq<Action>) returns (longer: seq<Action>)
    requires Reaches(run, Shows(Ssh, Tui, Prompt, true, Idle))
    ensures Reaches(longer, Shows(Ssh, Tui, Away, true, Idle))
  {
    hide Reaches, SerialStep, DrawNext;
    longer := run;
    longer := Go(longer, Shows(Ssh, Tui, Prompt, true, Idle), Byte(0), Shows(Ssh, Tui, Judge, true, Idle));
    longer := Go(longer, Shows(Ssh, Tui, Judge, true, Idle), Byte(0), Shows(Ssh, Tui, Away, true, Idle));
  }

  /** Its repaint begins, and comes to the session's sink. */
  lemma Paints(run: seq<Action>) returns (longer: seq<Action>)
    requires Reaches(run, Shows(Ssh, Tui, Away, true, Idle))
    ensures Reaches(longer, Shows(Ssh, Tui, Away, true, Write(Tui, 0, Ssh)))
  {
    hide Reaches, SerialStep, SessionStep;
    longer := run;
    longer := Go(longer, Shows(Ssh, Tui, Away, true, Idle), Paint(Tui, false, true, false),
                 Shows(Ssh, Tui, Away, true, Scan(Tui, 0)));
    longer := Go(longer, Shows(Ssh, Tui, Away, true, Scan(Tui, 0)), Paint(Tui, false, true, false),
                 Shows(Ssh, Tui, Away, true, Loaded(Tui, 0, Ssh)));
    longer := Go(longer, Shows(Ssh, Tui, Away, true, Loaded(Tui, 0, Ssh)), Paint(Tui, false, true, false),
                 Shows(Ssh, Tui, Away, true, Write(Tui, 0, Ssh)));
  }

  /** The ring fills up, and the session leaves the screen. */
  lemma Quits(run: seq<Action>) returns (longer: seq<Action>)
    requires Reaches(run, Shows(Ssh, Tui, Away, true, Write(Tui, 0, Ssh)))
    ensures Reaches(longer, Shows(Ssh, Tui, Detach(false), false, Write(Tui, 0, Ssh)))
  {
    hide Reaches, SerialStep, DrawNext;
    longer := run;
    longer := Go(longer, Shows(Ssh, Tui, Away, true, Write(Tui, 0, Ssh)), Session(false, 0x71, Other, false),
                 Shows(Ssh, Tui, Hot(0x71), false, Write(Tui, 0, Ssh)));
    longer := Go(longer, Shows(Ssh, Tui, Hot(0x71), false, Write(Tui, 0, Ssh)), Byte(0),
                 Shows(Ssh, Tui, Detach(false), false, Write(Tui, 0, Ssh)));
  }

  lemma LetsGo(run: seq<Action>) returns (longer: seq<Action>)
    requires Reaches(run, Shows(Ssh, Tui, Detach(false), false, Write(Tui, 0, Ssh)))
    ensures Reaches(longer, Shows(Nobody, Blank, Hold(false), false, Write(Tui, 0, Ssh)))
  {
    hide Reaches, SerialStep, DrawNext;
    longer := run;
    longer := Go(longer, Shows(Ssh, Tui, Detach(false), false, Write(Tui, 0, Ssh)), Byte(0),
                 Shows(Nobody, Tui, Unfront(false), false, Write(Tui, 0, Ssh)));
    longer := Go(longer, Shows(Nobody, Tui, Unfront(false), false, Write(Tui, 0, Ssh)), Byte(0),
                 Shows(Nobody, Blank, Hold(false), false, Write(Tui, 0, Ssh)));
  }

  /** The circle does arise: a run from boot ends with the session waiting for the repaint and the repaint
      for the session, and only the time-out lets it go on. */
  lemma OnlyTimeOutBreaksIt() returns (run: seq<Action>)
    ensures Legal(Init(), run)
    ensures var st := After(Init(), run);
            && st.s.Hold? && WantsRoom(st)
            && (forall hangup, byte, command, space :: !Enabled(st, Session(hangup, byte, command, space)))
            && (forall id, more, space, timedOut :: Enabled(st, Paint(id, more, space, timedOut)) <==> timedOut)
  {
    run := [];
    assert Reaches(run, Init());
    hide Reaches;
    run := TakesLock(run);
    run := TakesConsole(run);
    run := StartsFresh(run);
    run := TurnsStdout(run);
    run := Greets(run);
    run := Types(run);
    run := Looks(run);
    run := Enters(run);
    run := Runs(run);
    run := Describes(run);
    run := ComesToFront(run);
    run := Returns(run);
    run := Paints(run);
    run := Quits(run);
    run := LetsGo(run);
    Arrived(run, Shows(Nobody, Blank, Hold(false), false, Write(Tui, 0, Ssh)));
  }

  lemma Arrived(run: seq<Action>, st: State)
    requires Reaches(run, st)
    ensures Legal(Init(), run) && After(Init(), run) == st
  {
  }
}
