/** How racing callers bring up one pool of outer sessions (`local_client.rs`).

    Each caller and the background fill task are programs over a shared slot, one global
    serial lock and one readiness signal. A step is one section executed under the slot
    lock, or one change of who holds the serial lock; steps of all parties interleave
    freely. What a caller cannot see (dialling, whether an endpoint still runs, when
    sessions end, cancellation) is nondeterministic. */
module MuxConnect {
  import opened Prelude
  import opened MuxPool

  /** Where a caller of `connect_tcp_mux_handle_attempts` is. `notified` belongs to the
      readiness future it registered last; `left` counts the batches still allowed. */
  datatype Caller =
    | Entering                              // top of the wait loop
    | Registered(notified: bool)            // readiness enabled, slot not yet looked at
    | Parked(notified: bool)                // saw no session; waits in the select
    | HasSerial                             // got the lock, slot to be looked at again
    | Dialling(pending: nat, left: nat)     // a batch of connection attempts
    | Ready(pending: nat)                   // one attempt succeeded
    | Installing(pending: nat, sid: nat)    // holds the slot; session task runs, not yet in the pool
    | Published(gen: nat, pending: nat)     // pool installed, waiters not yet woken
    | Woke(gen: nat, pending: nat)          // fill task not yet spawned
  {
    predicate HoldsSerial() {
      HasSerial? || Dialling? || Ready? || Installing? || Published? || Woke?
    }

    /** Sections without an await in them cannot be cancelled. */
    predicate Cancellable() {
      !Installing? && !Published? && !Woke?
    }
  }

  /** The fill task: its generation, attempts still running, a finished one in hand, and the
      session it is putting into the pool while it holds the slot. */
  datatype Fill = Fill(gen: nat, pending: nat, ready: bool, pushing: Option<nat>)

  datatype Holder = Task(id: nat) | FillTask

  datatype State = State(
    width: nat,                  // ws_parallel clamped to 1..4
    maxAttempts: nat,            // batches a caller may dial
    slot: Slot,
    nextGen: nat,
    nextSid: nat,
    serial: Option<Holder>,
    callers: map<nat, Caller>,
    fill: Option<Fill>,
    running: set<nat>,           // session tasks whose endpoint runs
    dying: set<nat>,             // session tasks about to remove their session
    removed: set<nat>,           // ids taken out of a pool
    genOf: map<nat, nat>,        // generation each id was published into
    ended: set<nat>,             // generations whose `ended` signal was raised or dropped
    shutdown: bool,
    stopped: bool)               // tracked tasks were aborted

  function Clamp(wsParallel: nat): nat {
    if wsParallel < 1 then 1 else if wsParallel > 4 then 4 else wsParallel
  }

  function Initial(wsParallel: nat, maxAttempts: nat): State {
    State(Clamp(wsParallel), maxAttempts, None, 0, 1, None, map[], None, {}, {}, {}, map[], {}, false, false)
  }

  datatype Step =
    | Arrive(c: nat) | Register(c: nat) | Look(c: nat) | Wake(c: nat) | Acquire(c: nat)
    | LookAgain(c: nat) | DialFails(c: nat) | DialSucceeds(c: nat) | NextAttempt(c: nat)
    | GiveUp(c: nat) | Stop(c: nat)       // attempts exhausted; shutdown seen in a select
    | Cancel(c: nat)                      // the caller's future is dropped
    | StartPublish(c: nat) | Publish(c: nat) | Notify(c: nat) | SpawnFill(c: nat)
    | FillFails | FillSucceeds | FillPublish | FillPush | FillLeaves | FillAborted
    | SessionDies(sid: nat) | SessionEnds(sid: nat) | Prune(dead: set<nat>)
    | Shutdown | ClearSlot | StopTasks

  predicate At(s: State, c: nat) {
    c in s.callers
  }

  /** The slot lock is held across spawning a session task and pushing its entry. */
  predicate SlotLocked(s: State) {
    match s.serial
    case None => false
    case Some(Task(c)) => c in s.callers && s.callers[c].Installing?
    case Some(FillTask) => s.fill.Some? && s.fill.value.pushing.Some?
  }

  /** The fill task leaves its select: pool ended, shutdown, or no attempt left. */
  predicate FillDone(s: State, f: Fill) {
    !f.ready && (f.gen in s.ended || s.shutdown || f.pending == 0)
  }

  predicate Enabled(s: State, e: Step) {
    match e
    case Arrive(c) => c !in s.callers
    case Register(c) => At(s, c) && s.callers[c].Entering?
    case Look(c) => At(s, c) && s.callers[c].Registered? && !SlotLocked(s)
    case Wake(c) => At(s, c) && s.callers[c].Parked? && s.callers[c].notified
    case Acquire(c) => At(s, c) && s.callers[c].Parked? && s.serial.None?
    case LookAgain(c) => At(s, c) && s.callers[c].HasSerial? && !SlotLocked(s)
    case DialFails(c) => At(s, c) && s.callers[c].Dialling? && s.callers[c].pending > 0
    case DialSucceeds(c) => At(s, c) && s.callers[c].Dialling? && s.callers[c].pending > 0
    case NextAttempt(c) => At(s, c) && s.callers[c].Dialling? && s.callers[c].pending == 0 && s.callers[c].left > 0
    case GiveUp(c) => At(s, c) && s.callers[c].Dialling? && s.callers[c].pending == 0 && s.callers[c].left == 0
    case Stop(c) => At(s, c) && s.shutdown && (s.callers[c].Parked? || s.callers[c].Dialling?)
    case Cancel(c) => At(s, c) && s.callers[c].Cancellable()
    case StartPublish(c) => At(s, c) && s.callers[c].Ready? && !SlotLocked(s)
    case Publish(c) => At(s, c) && s.callers[c].Installing?
    case Notify(c) => At(s, c) && s.callers[c].Published?
    case SpawnFill(c) => At(s, c) && s.callers[c].Woke?
    case FillFails => s.fill.Some? && s.fill.value.pending > 0 && !s.fill.value.ready
    case FillSucceeds => s.fill.Some? && s.fill.value.pending > 0 && !s.fill.value.ready
    case FillPublish => s.fill.Some? && s.fill.value.ready && !SlotLocked(s)
    case FillPush => s.fill.Some? && s.fill.value.pushing.Some?
    case FillLeaves => s.fill.Some? && FillDone(s, s.fill.value)
    case FillAborted => s.fill.Some? && s.stopped && s.fill.value.pushing.None?
    case SessionDies(sid) => sid in s.running
    case SessionEnds(sid) => sid in s.dying && !SlotLocked(s)
    case Prune(_) => !SlotLocked(s)
    case Shutdown => true
    case ClearSlot => s.shutdown && !SlotLocked(s)
    case StopTasks => true
  }

  function Move(s: State, c: nat, p: Caller): State {
    s.(callers := s.callers[c := p])
  }

  function Gone(s: State, c: nat): State {
    s.(callers := s.callers - {c},
       serial := if s.serial == Some(Task(c)) then None else s.serial)
  }

  /** `notify_waiters` reaches every readiness future enabled before it. */
  function Notified(p: Caller): Caller {
    match p
    case Registered(_) => Registered(true)
    case Parked(_) => Parked(true)
    case _ => p
  }

  /** A new session: its id, and its running task unless tasks are aborted already. */
  function Spawned(s: State, gen: nat): State {
    s.(nextSid := s.nextSid + 1,
       genOf := s.genOf[s.nextSid := gen],
       running := if s.stopped then s.running else s.running + {s.nextSid})
  }

  function SessionSet(slot: Slot): set<nat> {
    if slot.None? then {} else set x | x in slot.value.sessions
  }

  function NarrowSlot(s: State, keep: nat -> bool): State {
    var (after, signal) := Narrowed(s.slot, keep);
    s.(slot := after, removed := s.removed + (SessionSet(s.slot) - SessionSet(after)),
       ended := s.ended + if signal then {s.slot.value.gen} else {})
  }

  /** `*slot = None` at shutdown: dropping the pool drops its `ended` sender. */
  function ClearedSlot(s: State): State {
    s.(slot := None, removed := s.removed + SessionSet(s.slot),
       ended := s.ended + if s.slot.Some? then {s.slot.value.gen} else {})
  }

  /** The fill task takes the slot with a connection in hand: it goes on only if the pool is
      still the one it fills. */
  function FillChecked(s: State): State
    requires s.fill.Some?
  {
    var f := s.fill.value;
    if s.slot.Some? && s.slot.value.gen == f.gen && !s.shutdown && f.gen !in s.ended then
      Spawned(s, f.gen).(fill := Some(f.(pushing := Some(s.nextSid))))
    else s.(fill := None, serial := None)
  }

  function FillPushed(s: State): State
    requires s.fill.Some? && s.fill.value.pushing.Some?
  {
    var f := s.fill.value;
    s.(slot := if s.slot.None? then None
               else Some(s.slot.value.(sessions := s.slot.value.sessions + [f.pushing.value])),
       fill := Some(f.(ready := false, pushing := None)))
  }

  function Apply(s: State, e: Step): State
    requires Enabled(s, e)
  {
    match e
    case Arrive(c) => Move(s, c, Entering)
    case Register(c) => Move(s, c, Registered(false))
    case Look(c) =>
      if s.shutdown || HasSessions(s.slot) then Gone(s, c) else Move(s, c, Parked(s.callers[c].notified))
    case Wake(c) => Move(s, c, Entering)
    case Acquire(c) => Move(s, c, HasSerial).(serial := Some(Task(c)))
    case LookAgain(c) =>
      if HasSessions(s.slot) then Gone(s, c)
      else Move(s, c, if s.maxAttempts == 0 then Dialling(0, 0) else Dialling(s.width, s.maxAttempts - 1))
    case DialFails(c) => Move(s, c, Dialling(s.callers[c].pending - 1, s.callers[c].left))
    case DialSucceeds(c) => Move(s, c, Ready(s.callers[c].pending - 1))
    case NextAttempt(c) => Move(s, c, Dialling(s.width, s.callers[c].left - 1))
    case GiveUp(c) => Gone(s, c)
    case Stop(c) => Gone(s, c)
    case Cancel(c) => Gone(s, c)
    case StartPublish(c) =>
      Spawned(Move(s, c, Installing(s.callers[c].pending, s.nextSid)), s.nextGen)
    case Publish(c) =>
      Move(s, c, Published(s.nextGen, s.callers[c].pending))
      .(slot := Some(Pool(s.nextGen, [s.callers[c].sid])), nextGen := s.nextGen + 1)
    case Notify(c) =>
      s.(callers := map d | d in s.callers ::
           if d == c then Woke(s.callers[c].gen, s.callers[c].pending) else Notified(s.callers[d]))
    case SpawnFill(c) =>
      s.(callers := s.callers - {c}, serial := Some(FillTask),
         fill := Some(Fill(s.callers[c].gen, s.callers[c].pending, false, None)))
    case FillFails => s.(fill := Some(s.fill.value.(pending := s.fill.value.pending - 1)))
    case FillSucceeds => s.(fill := Some(s.fill.value.(pending := s.fill.value.pending - 1, ready := true)))
    case FillPublish => FillChecked(s)
    case FillPush => FillPushed(s)
    case FillLeaves => s.(fill := None, serial := None)
    case FillAborted => s.(fill := None, serial := None)
    case SessionDies(sid) => s.(running := s.running - {sid}, dying := s.dying + {sid})
    case SessionEnds(sid) => NarrowSlot(s.(dying := s.dying - {sid}), (id: nat) => id != sid)
    case Prune(dead) => NarrowSlot(s, (id: nat) => id !in dead)
    case Shutdown => s.(shutdown := true)
    case ClearSlot => ClearedSlot(s)
    case StopTasks => s.(stopped := true, running := {}, dying := {})
  }

  // ---------------------------------------------------------------------------
  // The invariant
  // ---------------------------------------------------------------------------

  /** Exactly the holder of the serial lock is past the wait. */
  ghost predicate SerialInv(s: State) {
    && (forall c | c in s.callers :: s.callers[c].HoldsSerial() <==> s.serial == Some(Task(c)))
    && (s.serial.Some? && s.serial.value.Task? ==> s.serial.value.id in s.callers)
    && (s.fill.Some? <==> s.serial == Some(FillTask))
  }

  /** Connections that may still be published into generation `gen`. */
  function Outstanding(s: State, gen: nat): nat {
    match s.serial
    case Some(FillTask) =>
      if s.fill.Some? && s.fill.value.gen == gen
      then s.fill.value.pending + (if s.fill.value.ready then 1 else 0) else 0
    case Some(Task(c)) =>
      if c in s.callers && (s.callers[c].Published? || s.callers[c].Woke?) && s.callers[c].gen == gen
      then s.callers[c].pending else 0
    case None => 0
  }

  ghost predicate PoolInv(s: State) {
    && 1 <= s.width <= 4
    && (s.slot.Some? ==>
          && s.slot.value.sessions != [] && Distinct(s.slot.value.sessions)
          && s.slot.value.gen < s.nextGen && s.slot.value.gen !in s.ended
          && |s.slot.value.sessions| + Outstanding(s, s.slot.value.gen) <= s.width)
    && (forall x | x in SessionSet(s.slot) :: x < s.nextSid && x in s.genOf && s.genOf[x] == s.slot.value.gen)
  }

  /** What a phase of the holder says: batches are bounded, later generations are untouched,
      and no pool is live while one is being made. */
  ghost predicate CallerOk(s: State, p: Caller) {
    match p
    case Dialling(pending, left) =>
      pending <= s.width && s.slot.None? && (left < s.maxAttempts || (left == 0 && pending == 0))
    case Ready(pending) => pending < s.width && s.slot.None?
    case Installing(pending, sid) => pending < s.width && s.slot.None? && Fresh(s, sid, s.nextGen)
    case Published(gen, pending) => gen < s.nextGen && pending < s.width
    case Woke(gen, pending) => gen < s.nextGen && pending < s.width
    case _ => true
  }

  ghost predicate FillOk(s: State, f: Fill) {
    && f.gen < s.nextGen && f.pending < s.width
    && (f.pushing.Some? ==>
          f.ready && s.slot.Some? && s.slot.value.gen == f.gen && Fresh(s, f.pushing.value, f.gen))
  }

  ghost predicate DialInv(s: State) {
    && (forall c | c in s.callers :: CallerOk(s, s.callers[c]))
    && (s.fill.Some? ==> FillOk(s, s.fill.value))
  }

  /** A session that has its task and is about to enter the pool of generation `gen`. */
  ghost predicate Fresh(s: State, sid: nat, gen: nat) {
    && sid < s.nextSid && sid !in s.removed && sid !in SessionSet(s.slot)
    && sid in s.genOf && s.genOf[sid] == gen
    && (!s.stopped ==> sid in s.running + s.dying)
  }

  ghost predicate RemovedInv(s: State) {
    && s.removed !! SessionSet(s.slot)
    && (forall x | x in s.removed :: x < s.nextSid)
    && (forall x | x in s.genOf :: x < s.nextSid)
    && (forall g | g in s.ended :: g < s.nextGen)
    && (!s.stopped ==> SessionSet(s.slot) <= s.running + s.dying)
  }

  /** No waiter sleeps through a published pool: its wake-up is delivered, or its
      publisher has not sent it yet. */
  ghost predicate WakeInv(s: State) {
    forall c | c in s.callers && s.callers[c] == Parked(false) && s.slot.Some? ::
      s.serial.Some? && s.serial.value.Task? && s.serial.value.id in s.callers
      && s.callers[s.serial.value.id].Published?
  }

  ghost predicate Inv(s: State) {
    SerialInv(s) && PoolInv(s) && DialInv(s) && RemovedInv(s) && WakeInv(s)
  }

  // One caller moves.

  lemma MoveKeepsSerial(s: State, c: nat, p: Caller)
    requires SerialInv(s) && (p.HoldsSerial() <==> s.serial == Some(Task(c)))
    ensures SerialInv(Move(s, c, p))
  {
  }

  lemma MoveKeepsDial(s: State, c: nat, p: Caller)
    requires DialInv(s) && CallerOk(s, p)
    ensures DialInv(Move(s, c, p))
  {
    var t := Move(s, c, p);
    assert forall q :: CallerOk(t, q) == CallerOk(s, q);
    assert forall f :: FillOk(t, f) == FillOk(s, f);
    hide CallerOk, FillOk;
  }

  lemma MoveKeepsPool(s: State, c: nat, p: Caller)
    requires PoolInv(s) && !p.Published? && !p.Woke?
    ensures PoolInv(Move(s, c, p))
  {
    hide Distinct, SessionSet;
  }

  lemma MoveKeepsWake(s: State, c: nat, p: Caller)
    requires WakeInv(s) && (p == Parked(false) ==> s.slot.None?)
    requires c in s.callers ==> !s.callers[c].Published?
    ensures WakeInv(Move(s, c, p))
  {
  }

  /** Any move into a phase without a generation, as long as the phase is right. */
  lemma MoveKeepsInv(s: State, c: nat, p: Caller)
    requires Inv(s) && CallerOk(s, p) && !p.Published? && !p.Woke?
    requires p.HoldsSerial() <==> s.serial == Some(Task(c))
    requires (p == Parked(false) ==> s.slot.None?) && (c in s.callers ==> !s.callers[c].Published?)
    ensures Inv(Move(s, c, p))
  {
    MoveKeepsSerial(s, c, p);
    MoveKeepsDial(s, c, p);
    MoveKeepsPool(s, c, p);
    MoveKeepsWake(s, c, p);
    hide SerialInv, DialInv, PoolInv, WakeInv, SessionSet;
  }

  lemma WaitingKeepsInv(s: State, e: Step)
    requires Inv(s) && Enabled(s, e) && (e.Arrive? || e.Register? || e.Wake?)
    ensures Inv(Apply(s, e))
  {
    assert s.serial != Some(Task(e.c));
    hide Inv, Move;
    MoveKeepsInv(s, e.c, if e.Register? then Registered(false) else Entering);
  }

  lemma GoneKeepsSerial(s: State, c: nat)
    requires SerialInv(s) && c in s.callers
    ensures SerialInv(Gone(s, c))
  {
  }

  lemma GoneKeepsDial(s: State, c: nat)
    requires DialInv(s)
    ensures DialInv(Gone(s, c))
  {
    var t := Gone(s, c);
    assert forall q :: CallerOk(t, q) == CallerOk(s, q);
    assert forall f :: FillOk(t, f) == FillOk(s, f);
    hide CallerOk, FillOk;
  }

  lemma GoneKeepsPool(s: State, c: nat)
    requires PoolInv(s)
    ensures PoolInv(Gone(s, c))
  {
    hide Distinct, SessionSet;
  }

  lemma GoneKeepsInv(s: State, c: nat)
    requires Inv(s) && c in s.callers && s.callers[c].Cancellable()
    ensures Inv(Gone(s, c))
  {
    GoneKeepsSerial(s, c);
    GoneKeepsDial(s, c);
    GoneKeepsPool(s, c);
    hide SerialInv, DialInv, PoolInv, SessionSet;
  }

  lemma LeaveKeepsInv(s: State, e: Step)
    requires Inv(s) && Enabled(s, e) && (e.GiveUp? || e.Stop? || e.Cancel?)
    ensures Inv(Apply(s, e))
  {
    hide Inv, Gone;
    GoneKeepsInv(s, e.c);
  }

  lemma LookKeepsInv(s: State, c: nat)
    requires Inv(s) && Enabled(s, Look(c))
    ensures Inv(Apply(s, Look(c)))
  {
    NotHolding(s, c);
    SlotHasSessions(s);
    hide Inv, Gone, Move, HasSessions, SlotLocked;
    if s.shutdown || HasSessions(s.slot) {
      GoneKeepsInv(s, c);
    } else {
      MoveKeepsInv(s, c, Parked(s.callers[c].notified));
    }
  }

  lemma NotHolding(s: State, c: nat)
    requires SerialInv(s) && c in s.callers && !s.callers[c].HoldsSerial()
    ensures s.serial != Some(Task(c))
  {
  }

  /** A pool in the slot is never empty. */
  lemma SlotHasSessions(s: State)
    requires PoolInv(s)
    ensures HasSessions(s.slot) <==> s.slot.Some?
  {
    hide Distinct, SessionSet;
  }

  lemma LookAgainKeepsInv(s: State, c: nat)
    requires Inv(s) && Enabled(s, LookAgain(c))
    ensures Inv(Apply(s, LookAgain(c)))
  {
    SlotHasSessions(s);
    assert s.serial == Some(Task(c));
    hide Inv, Gone, Move, HasSessions, SlotLocked;
    if HasSessions(s.slot) {
      GoneKeepsInv(s, c);
    } else {
      MoveKeepsInv(s, c, if s.maxAttempts == 0 then Dialling(0, 0) else Dialling(s.width, s.maxAttempts - 1));
    }
  }

  lemma AcquireKeepsInv(s: State, c: nat)
    requires Inv(s) && Enabled(s, Acquire(c))
    ensures Inv(Apply(s, Acquire(c)))
  {
    hide SessionSet, Distinct, HasSessions;
    assert SerialInv(Apply(s, Acquire(c)));
  }

  lemma DiallingKeepsInv(s: State, e: Step)
    requires Inv(s) && Enabled(s, e) && (e.DialFails? || e.DialSucceeds? || e.NextAttempt?)
    ensures Inv(Apply(s, e))
  {
    var p := s.callers[e.c];
    assert CallerOk(s, p) && s.serial == Some(Task(e.c));
    hide Inv, Move, Fresh;
    var q := if e.DialFails? then Dialling(p.pending - 1, p.left)
             else if e.DialSucceeds? then Ready(p.pending - 1) else Dialling(s.width, p.left - 1);
    assert CallerOk(s, q) && Apply(s, e) == Move(s, e.c, q);
    hide CallerOk, Apply;
    MoveKeepsInv(s, e.c, q);
  }

  /** No session is between its spawn and its push while the slot lock is free. */
  lemma UnlockedHasNoFresh(s: State)
    requires SerialInv(s) && !SlotLocked(s)
    ensures forall c | c in s.callers :: !s.callers[c].Installing?
    ensures s.fill.Some? ==> s.fill.value.pushing.None?
  {
  }

  // The sets of session tasks and the flags.

  lemma TasksKeepDial(s: State, t: State)
    requires DialInv(s) && t == s.(running := t.running, dying := t.dying, shutdown := t.shutdown, stopped := t.stopped)
    requires !t.stopped ==> !s.stopped && s.running + s.dying <= t.running + t.dying
    ensures DialInv(t)
  {
    assert forall sid, gen :: Fresh(s, sid, gen) ==> Fresh(t, sid, gen);
    hide Fresh;
  }

  /** Only the sets of session tasks and the two flags change. */
  lemma TasksKeepInv(s: State, t: State)
    requires Inv(s) && t == s.(running := t.running, dying := t.dying, shutdown := t.shutdown, stopped := t.stopped)
    requires !t.stopped ==> !s.stopped && s.running + s.dying <= t.running + t.dying
    ensures Inv(t)
  {
    TasksKeepDial(s, t);
    hide SessionSet, Distinct, HasSessions, DialInv;
    assert SerialInv(t) && PoolInv(t) && WakeInv(t);
  }

  lemma StoppingKeepsInv(s: State, e: Step)
    requires Inv(s) && Enabled(s, e) && (e.Shutdown? || e.StopTasks? || e.SessionDies?)
    ensures Inv(Apply(s, e))
  {
    hide Inv;
    TasksKeepInv(s, Apply(s, e));
  }

  lemma ClearKeepsInv(s: State)
    requires Inv(s) && Enabled(s, ClearSlot)
    ensures Inv(Apply(s, ClearSlot))
  {
    UnlockedHasNoFresh(s);
    hide Distinct, HasSessions, SlotLocked;
  }

  // A session task is spawned, then its entry is pushed.

  lemma SpawnedKeepsDial(s: State, gen: nat)
    requires DialInv(s) && RemovedInv(s)
    ensures DialInv(Spawned(s, gen))
  {
    var t := Spawned(s, gen);
    assert forall sid, g :: Fresh(s, sid, g) ==> Fresh(t, sid, g);
    hide Fresh, RemovedInv;
  }

  lemma SpawnedKeepsPool(s: State, gen: nat)
    requires PoolInv(s)
    ensures PoolInv(Spawned(s, gen))
  {
    hide Distinct, SessionSet;
  }

  /** A new session task disturbs nothing, and its session is fresh. */
  lemma SpawnedKeepsInv(s: State, gen: nat)
    requires Inv(s)
    ensures Inv(Spawned(s, gen)) && Fresh(Spawned(s, gen), s.nextSid, gen)
  {
    SpawnedKeepsDial(s, gen);
    SpawnedKeepsPool(s, gen);
    assert SerialInv(Spawned(s, gen)) && WakeInv(Spawned(s, gen));
    hide SerialInv, DialInv, WakeInv, Distinct;
  }

  lemma StartPublishKeepsInv(s: State, c: nat)
    requires Inv(s) && Enabled(s, StartPublish(c))
    ensures Inv(Apply(s, StartPublish(c)))
  {
    assert CallerOk(s, s.callers[c]) && s.serial == Some(Task(c));
    hide Inv, Fresh, SlotLocked;
    SpawnedKeepsInv(s, s.nextGen);
    var p := Installing(s.callers[c].pending, s.nextSid);
    var t := Spawned(s, s.nextGen);
    assert Apply(s, StartPublish(c)) == Move(t, c, p);
    MoveKeepsInv(t, c, p);
  }

  lemma PublishKeepsPool(s: State, c: nat)
    requires Inv(s) && Enabled(s, Publish(c))
    ensures PoolInv(Apply(s, Publish(c))) && RemovedInv(Apply(s, Publish(c)))
  {
    var t := Apply(s, Publish(c));
    assert CallerOk(s, s.callers[c]);
    assert SessionSet(t.slot) == {s.callers[c].sid};
    hide CallerOk, FillOk, WakeInv;
  }

  lemma PublishKeepsInv(s: State, c: nat)
    requires Inv(s) && Enabled(s, Publish(c))
    ensures Inv(Apply(s, Publish(c)))
  {
    PublishKeepsPool(s, c);
    var t := Apply(s, Publish(c));
    assert CallerOk(s, s.callers[c]) && s.serial == Some(Task(c)) && s.fill.None?;
    hide PoolInv, RemovedInv, SessionSet, Fresh;
    assert SerialInv(t);
    assert forall d | d in s.callers && d != c :: !s.callers[d].HoldsSerial();
    assert DialInv(t);
  }

  lemma NotifyKeepsSerial(s: State, c: nat)
    requires SerialInv(s) && Enabled(s, Notify(c))
    ensures SerialInv(Apply(s, Notify(c)))
  {
  }

  lemma NotifyKeepsDial(s: State, c: nat)
    requires DialInv(s) && Enabled(s, Notify(c))
    ensures DialInv(Apply(s, Notify(c)))
  {
    var t := Apply(s, Notify(c));
    assert CallerOk(s, s.callers[c]);
    assert forall q :: CallerOk(t, q) == CallerOk(s, q);
    assert forall f :: FillOk(t, f) == FillOk(s, f);
    assert forall q :: CallerOk(s, q) ==> CallerOk(s, Notified(q));
    assert CallerOk(s, t.callers[c]);
    hide CallerOk, FillOk, Notified;
  }

  lemma NotifyKeepsPool(s: State, c: nat)
    requires PoolInv(s) && Enabled(s, Notify(c))
    ensures PoolInv(Apply(s, Notify(c)))
  {
    hide Distinct, SessionSet;
  }

  lemma NotifyKeepsWake(s: State, c: nat)
    requires Enabled(s, Notify(c))
    ensures WakeInv(Apply(s, Notify(c)))
  {
  }

  lemma NotifyKeepsInv(s: State, c: nat)
    requires Inv(s) && Enabled(s, Notify(c))
    ensures Inv(Apply(s, Notify(c)))
  {
    NotifyKeepsSerial(s, c);
    NotifyKeepsDial(s, c);
    NotifyKeepsPool(s, c);
    NotifyKeepsWake(s, c);
    hide SerialInv, DialInv, PoolInv, WakeInv, SessionSet, Notified;
  }

  lemma SpawnFillKeepsInv(s: State, c: nat)
    requires Inv(s) && Enabled(s, SpawnFill(c))
    ensures Inv(Apply(s, SpawnFill(c)))
  {
    var t := Apply(s, SpawnFill(c));
    assert CallerOk(s, s.callers[c]);
    assert forall q :: CallerOk(t, q) == CallerOk(s, q);
    assert SerialInv(t);
    hide SessionSet, Distinct, HasSessions, CallerOk, Fresh;
    assert PoolInv(t) && DialInv(t);
  }

  // The fill task.

  lemma SetFillKeepsPool(s: State, f: Fill)
    requires PoolInv(s) && s.fill.Some? && s.serial == Some(FillTask) && f.gen == s.fill.value.gen
    requires f.pending + (if f.ready then 1 else 0) <= s.fill.value.pending + if s.fill.value.ready then 1 else 0
    ensures PoolInv(s.(fill := Some(f)))
  {
    hide Distinct, SessionSet;
  }

  /** The fill task goes on, with no more connections outstanding than before. */
  lemma SetFillKeepsInv(s: State, f: Fill)
    requires Inv(s) && s.fill.Some? && f.gen == s.fill.value.gen && FillOk(s, f)
    requires f.pending + (if f.ready then 1 else 0) <= s.fill.value.pending + if s.fill.value.ready then 1 else 0
    ensures Inv(s.(fill := Some(f)))
  {
    var t := s.(fill := Some(f));
    SetFillKeepsPool(s, f);
    assert SerialInv(t) && WakeInv(t);
    assert forall q :: CallerOk(t, q) == CallerOk(s, q);
    assert FillOk(t, f) == FillOk(s, f);
    hide SerialInv, PoolInv, WakeInv, SessionSet, CallerOk, FillOk;
  }

  lemma DropFillKeepsInv(s: State)
    requires Inv(s) && s.fill.Some?
    ensures Inv(s.(fill := None, serial := None))
  {
    var t := s.(fill := None, serial := None);
    assert SerialInv(t);
    assert forall q :: CallerOk(t, q) == CallerOk(s, q);
    hide Distinct, SessionSet, CallerOk;
    assert PoolInv(t);
  }

  lemma FillDialKeepsInv(s: State, e: Step)
    requires Inv(s) && Enabled(s, e) && (e.FillFails? || e.FillSucceeds?)
    ensures Inv(Apply(s, e))
  {
    var f := s.fill.value;
    assert FillOk(s, f);
    assert f.pushing.None?;
    var g := f.(pending := f.pending - 1, ready := e.FillSucceeds?);
    assert FillOk(s, g) && Apply(s, e) == s.(fill := Some(g));
    hide Inv, FillOk, Apply;
    SetFillKeepsInv(s, g);
  }

  lemma FillExitKeepsInv(s: State, e: Step)
    requires Inv(s) && Enabled(s, e) && (e.FillLeaves? || e.FillAborted?)
    ensures Inv(Apply(s, e))
  {
    hide Inv, FillDone;
    DropFillKeepsInv(s);
  }

  lemma FillPublishKeepsInv(s: State)
    requires Inv(s) && Enabled(s, FillPublish)
    ensures Inv(Apply(s, FillPublish))
  {
    var f := s.fill.value;
    assert FillOk(s, f);
    hide Inv, SlotLocked, Fresh;
    if s.slot.Some? && s.slot.value.gen == f.gen && !s.shutdown && f.gen !in s.ended {
      SpawnedKeepsInv(s, f.gen);
      var t := Spawned(s, f.gen);
      SetFillKeepsInv(t, f.(pushing := Some(s.nextSid)));
    } else {
      DropFillKeepsInv(s);
    }
  }

  lemma PushKeepsPool(s: State, t: State)
    requires Inv(s) && Enabled(s, FillPush) && t == Apply(s, FillPush)
    ensures PoolInv(t) && SessionSet(t.slot) == SessionSet(s.slot) + {s.fill.value.pushing.value}
  {
    var xs := s.slot.value.sessions;
    var sid := s.fill.value.pushing.value;
    assert forall i | 0 <= i < |xs| :: xs[i] in SessionSet(s.slot);
    assert Distinct(xs + [sid]);
  }

  lemma FillPushKeepsInv(s: State)
    requires Inv(s) && Enabled(s, FillPush)
    ensures Inv(Apply(s, FillPush))
  {
    var t := Apply(s, FillPush);
    PushKeepsPool(s, t);
    hide SessionSet, Distinct, HasSessions, PoolInv;
  }

  // Sessions are lost.

  lemma NarrowedSet(s: State, keep: nat -> bool, t: State)
    requires t == NarrowSlot(s, keep)
    ensures SessionSet(t.slot) <= SessionSet(s.slot) && forall x | x in SessionSet(t.slot) :: keep(x)
  {
    if s.slot.Some? { RetainExactly(s.slot.value.sessions, keep); }
  }

  lemma NarrowKeepsPool(s: State, keep: nat -> bool)
    requires PoolInv(s) && forall g | g in s.ended :: g < s.nextGen
    ensures PoolInv(NarrowSlot(s, keep))
  {
    var t := NarrowSlot(s, keep);
    NarrowedSet(s, keep, t);
    if s.slot.Some? { RetainExactly(s.slot.value.sessions, keep); }
    hide Distinct, SessionSet;
  }

  /** Losing sessions, from a session ending or from a prune. */
  lemma NarrowKeepsInv(s: State, keep: nat -> bool, gone: set<nat>)
    requires Inv(s) && !SlotLocked(s) && forall x :: x in gone ==> !keep(x)
    ensures Inv(NarrowSlot(s.(dying := s.dying - gone), keep))
  {
    UnlockedHasNoFresh(s);
    var u := s.(dying := s.dying - gone);
    var t := NarrowSlot(u, keep);
    NarrowedSet(u, keep, t);
    assert PoolInv(u) by { hide Distinct, SessionSet; }
    NarrowKeepsPool(u, keep);
    hide SlotLocked, Distinct, PoolInv, SessionSet;
    assert SerialInv(t);
    assert RemovedInv(t);
    assert DialInv(t);
  }

  lemma LosingKeepsInv(s: State, e: Step)
    requires Inv(s) && Enabled(s, e) && (e.SessionEnds? || e.Prune?)
    ensures Inv(Apply(s, e))
  {
    hide Inv, NarrowSlot;
    match e
    case SessionEnds(sid) => NarrowKeepsInv(s, (id: nat) => id != sid, {sid});
    case Prune(dead) =>
      NarrowKeepsInv(s, (id: nat) => id !in dead, {});
      assert s.(dying := s.dying - {}) == s;
  }

  lemma StepKeepsInv(s: State, e: Step)
    requires Inv(s) && Enabled(s, e)
    ensures Inv(Apply(s, e))
  {
    hide Inv, Apply;
    if e.FillPublish? { FillPublishKeepsInv(s); }
    else if e.FillPush? { FillPushKeepsInv(s); }
    else if e.SessionEnds? || e.Prune? { LosingKeepsInv(s, e); }
    else if e.Shutdown? || e.StopTasks? || e.SessionDies? { StoppingKeepsInv(s, e); }
    else if e.ClearSlot? { ClearKeepsInv(s); }
    else if e.FillFails? || e.FillSucceeds? { FillDialKeepsInv(s, e); }
    else if e.FillLeaves? || e.FillAborted? { FillExitKeepsInv(s, e); }
    else if e.StartPublish? { StartPublishKeepsInv(s, e.c); }
    else if e.Publish? { PublishKeepsInv(s, e.c); }
    else if e.Notify? { NotifyKeepsInv(s, e.c); }
    else if e.SpawnFill? { SpawnFillKeepsInv(s, e.c); }
    else if e.DialFails? || e.DialSucceeds? || e.NextAttempt? { DiallingKeepsInv(s, e); }
    else if e.GiveUp? || e.Stop? || e.Cancel? { LeaveKeepsInv(s, e); }
    else if e.Look? { LookKeepsInv(s, e.c); }
    else if e.LookAgain? { LookAgainKeepsInv(s, e.c); }
    else if e.Acquire? { AcquireKeepsInv(s, e.c); }
    else { WaitingKeepsInv(s, e); }
  }

  /** The settings stay, and what is recorded of sessions and generations only grows. */
  ghost predicate Later(s: State, t: State) {
    && t.width == s.width && t.maxAttempts == s.maxAttempts
    && s.removed <= t.removed && s.ended <= t.ended
    && forall x | x in s.genOf :: x in t.genOf && t.genOf[x] == s.genOf[x]
  }

  predicate ByCaller(e: Step) {
    match e
    case Arrive(_) | Register(_) | Look(_) | Wake(_) | Acquire(_) | LookAgain(_) => true
    case DialFails(_) | DialSucceeds(_) | NextAttempt(_) | GiveUp(_) | Stop(_) | Cancel(_) => true
    case StartPublish(_) | Publish(_) | Notify(_) | SpawnFill(_) => true
    case _ => false
  }

  lemma CallerStepLater(s: State, e: Step)
    requires Enabled(s, e) && ByCaller(e) && forall x | x in s.genOf :: x < s.nextSid
    ensures Later(s, Apply(s, e))
  {
    hide HasSessions, Notified, SlotLocked;
  }

  lemma FillStepLater(s: State, e: Step)
    requires Enabled(s, e) && forall x | x in s.genOf :: x < s.nextSid
    requires e.FillFails? || e.FillSucceeds? || e.FillPublish? || e.FillPush? || e.FillLeaves? || e.FillAborted?
    ensures Later(s, Apply(s, e))
  {
    hide SlotLocked, FillDone;
  }

  lemma SessionStepLater(s: State, e: Step)
    requires Enabled(s, e)
    requires e.SessionDies? || e.SessionEnds? || e.Prune? || e.Shutdown? || e.ClearSlot? || e.StopTasks?
    ensures Later(s, Apply(s, e))
  {
    hide SessionSet, Narrowed, SlotLocked;
  }

  lemma HistoryGrows(s: State, e: Step)
    requires Inv(s) && Enabled(s, e)
    ensures Later(s, Apply(s, e))
  {
    assert forall x | x in s.genOf :: x < s.nextSid;
    hide Inv, Apply, Later, Enabled;
    if ByCaller(e) { CallerStepLater(s, e); }
    else if e.SessionDies? || e.SessionEnds? || e.Prune? || e.Shutdown? || e.ClearSlot? || e.StopTasks? {
      SessionStepLater(s, e);
    } else { FillStepLater(s, e); }
  }

  // ---------------------------------------------------------------------------
  // Runs
  // ---------------------------------------------------------------------------

  ghost predicate Run(ss: seq<State>, es: seq<Step>, wsParallel: nat, maxAttempts: nat) {
    && |ss| == |es| + 1 && ss[0] == Initial(wsParallel, maxAttempts)
    && forall i {:trigger es[i]} | 0 <= i < |es| :: Enabled(ss[i], es[i]) && ss[i + 1] == Apply(ss[i], es[i])
  }

  lemma {:induction false} RunKeepsInv(ss: seq<State>, es: seq<Step>, wsParallel: nat, maxAttempts: nat, i: nat)
    requires Run(ss, es, wsParallel, maxAttempts) && i < |ss|
    ensures Inv(ss[i]) && ss[i].width == Clamp(wsParallel) && ss[i].maxAttempts == maxAttempts
  {
    if i == 0 {
      assert Inv(Initial(wsParallel, maxAttempts));
    } else {
      assert Enabled(ss[i - 1], es[i - 1]);
      RunKeepsInv(ss, es, wsParallel, maxAttempts, i - 1);
      hide Inv, Initial;
      StepKeepsInv(ss[i - 1], es[i - 1]);
      HistoryGrows(ss[i - 1], es[i - 1]);
    }
  }

  /** Whenever the slot lock is free, a non-empty slot holds between one and
      `clamp(ws_parallel, 1, 4)` sessions, all different. */
  lemma PoolWithinWidth(ss: seq<State>, es: seq<Step>, wsParallel: nat, maxAttempts: nat, i: nat)
    requires Run(ss, es, wsParallel, maxAttempts) && i < |ss| && ss[i].slot.Some?
    ensures 1 <= |ss[i].slot.value.sessions| <= Clamp(wsParallel) <= 4
    ensures Distinct(ss[i].slot.value.sessions)
  {
    RunKeepsInv(ss, es, wsParallel, maxAttempts, i);
  }

  /** Installing a new pool never overwrites a live one, and at most one party is
      connecting or filling at a time. */
  lemma NeverOverwritesPool(ss: seq<State>, es: seq<Step>, wsParallel: nat, maxAttempts: nat, i: nat, c: nat)
    requires Run(ss, es, wsParallel, maxAttempts) && i < |es| && es[i] == Publish(c)
    ensures ss[i].slot == None && ss[i].fill == None
    ensures forall d | d in ss[i].callers && d != c :: !ss[i].callers[d].HoldsSerial()
  {
    assert Enabled(ss[i], es[i]);
    RunKeepsInv(ss, es, wsParallel, maxAttempts, i);
  }

  /** Every session in the slot was published into that very generation. */
  lemma SessionsOfOneGeneration(ss: seq<State>, es: seq<Step>, wsParallel: nat, maxAttempts: nat, i: nat, sid: nat)
    requires Run(ss, es, wsParallel, maxAttempts) && i < |ss| && sid in SessionSet(ss[i].slot)
    ensures sid in ss[i].genOf && ss[i].genOf[sid] == ss[i].slot.value.gen
    ensures ss[i].slot.value.gen !in ss[i].ended
  {
    RunKeepsInv(ss, es, wsParallel, maxAttempts, i);
  }

  lemma LaterStep(ss: seq<State>, es: seq<Step>, wsParallel: nat, maxAttempts: nat, k: nat)
    requires Run(ss, es, wsParallel, maxAttempts) && k + 1 < |ss|
    ensures Later(ss[k], ss[k + 1])
  {
    hide Inv, Apply, Enabled, Initial, Later;
    RunKeepsInv(ss, es, wsParallel, maxAttempts, k);
    HistoryGrows(ss[k], es[k]);
  }

  lemma LaterChain(s: State, t: State, u: State)
    requires Later(s, t) && Later(t, u)
    ensures Later(s, u)
  {
  }

  lemma {:induction false} HistoryKept(ss: seq<State>, es: seq<Step>, wsParallel: nat, maxAttempts: nat,
                                       i: nat, j: nat)
    requires Run(ss, es, wsParallel, maxAttempts) && i <= j < |ss|
    ensures Later(ss[i], ss[j])
    decreases j - i
  {
    if i < j {
      hide Run, Later, Initial, Inv, Apply, Enabled;
      HistoryKept(ss, es, wsParallel, maxAttempts, i, j - 1);
      LaterStep(ss, es, wsParallel, maxAttempts, j - 1);
      LaterChain(ss[i], ss[j - 1], ss[j]);
    }
  }

  /** A removed session id never comes back, and an ended generation gets no session
      any more: not from its fill task, not from anyone. */
  lemma RemovedNeverReturns(ss: seq<State>, es: seq<Step>, wsParallel: nat, maxAttempts: nat,
                            i: nat, j: nat, sid: nat, gen: nat)
    requires Run(ss, es, wsParallel, maxAttempts) && i <= j < |ss|
    ensures sid in ss[i].removed ==> sid !in SessionSet(ss[j].slot)
    ensures gen in ss[i].ended && ss[j].slot.Some? ==> ss[j].slot.value.gen != gen
  {
    HistoryKept(ss, es, wsParallel, maxAttempts, i, j);
    RunKeepsInv(ss, es, wsParallel, maxAttempts, j);
  }

  /** No lost wake-up: a caller parked without its notification while sessions are
      published is always about to be notified by the publisher. */
  lemma NoLostWakeUp(ss: seq<State>, es: seq<Step>, wsParallel: nat, maxAttempts: nat, i: nat, c: nat)
    requires Run(ss, es, wsParallel, maxAttempts) && i < |ss|
    requires c in ss[i].callers && ss[i].callers[c] == Parked(false) && HasSessions(ss[i].slot)
    ensures exists d :: d in ss[i].callers && ss[i].callers[d].Published?
              && Enabled(ss[i], Notify(d)) && Apply(ss[i], Notify(d)).callers[c] == Parked(true)
  {
    RunKeepsInv(ss, es, wsParallel, maxAttempts, i);
    var d := ss[i].serial.value.id;
    assert Enabled(ss[i], Notify(d)) && d != c;
  }

  /** Until the client stops its tasks, every published session still has a task that will
      take it out of the slot, even one that ended before it was published: its removal waits
      for the slot lock, and once that is free it happens. */
  lemma SessionsHaveRemovers(ss: seq<State>, es: seq<Step>, wsParallel: nat, maxAttempts: nat, i: nat, sid: nat)
    requires Run(ss, es, wsParallel, maxAttempts) && i < |ss| && !ss[i].stopped && sid in SessionSet(ss[i].slot)
    ensures sid in ss[i].running || sid in ss[i].dying
    ensures sid in ss[i].dying && !SlotLocked(ss[i]) ==>
              Enabled(ss[i], SessionEnds(sid)) && sid !in SessionSet(Apply(ss[i], SessionEnds(sid)).slot)
  {
    RunKeepsInv(ss, es, wsParallel, maxAttempts, i);
    var s := ss[i];
    RetainExactly(s.slot.value.sessions, (id: nat) => id != sid);
  }

  // ---------------------------------------------------------------------------
  // The serial lock is given up
  // ---------------------------------------------------------------------------

  /** How many steps of its own the holder of the serial lock can still take. */
  function Rank(s: State): nat {
    match s.serial
    case None => 0
    case Some(Task(c)) =>
      if c !in s.callers then 0 else
      (match s.callers[c]
       case HasSerial => 19 + 13 * s.maxAttempts
       case Dialling(p, left) => 3 * p + 6 + 13 * left
       case Ready(p) => 3 * p + 5
       case Installing(p, _) => 3 * p + 4
       case Published(_, p) => 3 * p + 3
       case Woke(_, p) => 3 * p + 2
       case _ => 0)
    case Some(FillTask) =>
      if s.fill.None? then 0
      else 3 * s.fill.value.pending + 1 + (
             if s.fill.value.pushing.Some? then 1 else if s.fill.value.ready then 2 else 0)
  }

  /** Steps taken by the holder of the serial lock itself. */
  predicate Own(s: State, e: Step) {
    match e
    case Arrive(_) | Register(_) | Look(_) | Wake(_) | Acquire(_) => false
    case SessionDies(_) | SessionEnds(_) | Prune(_) | Shutdown | ClearSlot | StopTasks => false
    case FillFails | FillSucceeds | FillPublish | FillPush | FillLeaves | FillAborted => true
    case _ => s.serial == Some(Task(e.c))
  }

  lemma DialStepDescends(s: State, e: Step)
    requires Enabled(s, e) && s.serial.Some? && Own(s, e) && s.width <= 4
    requires e.LookAgain? || e.DialFails? || e.DialSucceeds? || e.NextAttempt? || e.GiveUp? || e.Stop? || e.Cancel?
    ensures Apply(s, e).serial.None? || Rank(Apply(s, e)) < Rank(s)
  {
    hide HasSessions, SlotLocked;
  }

  lemma PublishStepDescends(s: State, e: Step)
    requires Enabled(s, e) && s.serial.Some? && Own(s, e)
    requires e.StartPublish? || e.Publish? || e.Notify? || e.SpawnFill?
    ensures Rank(Apply(s, e)) < Rank(s)
  {
    hide SlotLocked, Notified;
  }

  lemma FillHolds(s: State)
    requires SerialInv(s) && DialInv(s) && s.fill.Some?
    ensures s.serial == Some(FillTask) && (s.fill.value.pushing.Some? ==> s.fill.value.ready && SlotLocked(s))
  {
  }

  lemma FillStepDescends(s: State, e: Step)
    requires SerialInv(s) && DialInv(s) && Enabled(s, e) && s.serial.Some?
    requires e.FillFails? || e.FillSucceeds? || e.FillPublish? || e.FillPush? || e.FillLeaves? || e.FillAborted?
    ensures Apply(s, e).serial.None? || Rank(Apply(s, e)) < Rank(s)
  {
    hide SerialInv, DialInv, SlotLocked, FillDone;
    FillHolds(s);
  }

  /** The lock is free after the step, or the same hold goes on with a smaller rank. */
  lemma OwnStepDescends(s: State, e: Step)
    requires Inv(s) && Enabled(s, e) && s.serial.Some? && Own(s, e)
    ensures Apply(s, e).serial.None? || Rank(Apply(s, e)) < Rank(s)
  {
    assert s.width <= 4;
    hide SerialInv, DialInv, PoolInv, RemovedInv, WakeInv, Apply, Rank, Enabled;
    if e.StartPublish? || e.Publish? || e.Notify? || e.SpawnFill? { PublishStepDescends(s, e); }
    else if ByCaller(e) { DialStepDescends(s, e); }
    else { FillStepDescends(s, e); }
  }

  lemma OtherMoveKeepsRank(s: State, c: nat, p: Caller)
    requires s.serial.Some? && s.serial.value != Task(c)
    ensures Move(s, c, p).serial == s.serial && Rank(Move(s, c, p)) == Rank(s)
    ensures Gone(s, c).serial == s.serial && Rank(Gone(s, c)) == Rank(s)
  {
  }

  lemma OtherCallerKeepsRank(s: State, e: Step)
    requires SerialInv(s) && Enabled(s, e) && s.serial.Some? && !Own(s, e)
    requires e.Arrive? || e.Register? || e.Look? || e.Wake? || e.Acquire? || e.Stop? || e.Cancel?
    ensures Apply(s, e).serial == s.serial && Rank(Apply(s, e)) == Rank(s)
  {
    assert s.serial.value != Task(e.c);
    hide HasSessions, SlotLocked, SerialInv, Rank, Move, Gone;
    OtherMoveKeepsRank(s, e.c, Entering);
    OtherMoveKeepsRank(s, e.c, Registered(false));
    if e.Look? { OtherMoveKeepsRank(s, e.c, Parked(s.callers[e.c].notified)); }
  }

  lemma SessionStepLeaves(s: State, e: Step)
    requires Enabled(s, e)
    requires e.SessionDies? || e.SessionEnds? || e.Prune? || e.Shutdown? || e.ClearSlot? || e.StopTasks?
    ensures var t := Apply(s, e);
            t.serial == s.serial && t.callers == s.callers && t.fill == s.fill && t.maxAttempts == s.maxAttempts
  {
    hide SessionSet, Narrowed, SlotLocked;
  }

  lemma SessionStepKeepsRank(s: State, e: Step)
    requires Enabled(s, e)
    requires e.SessionDies? || e.SessionEnds? || e.Prune? || e.Shutdown? || e.ClearSlot? || e.StopTasks?
    ensures Apply(s, e).serial == s.serial && Rank(Apply(s, e)) == Rank(s)
  {
    hide Apply, Enabled;
    SessionStepLeaves(s, e);
  }

  /** The other steps need the serial lock, so they are the holder's. */
  lemma OtherStepKinds(s: State, e: Step)
    requires SerialInv(s) && Enabled(s, e) && s.serial.Some? && !Own(s, e)
    ensures e.Arrive? || e.Register? || e.Look? || e.Wake? || e.Acquire? || e.Stop? || e.Cancel?
            || e.SessionDies? || e.SessionEnds? || e.Prune? || e.Shutdown? || e.ClearSlot? || e.StopTasks?
  {
    hide SlotLocked, FillDone;
  }

  lemma OtherStepKeepsRank(s: State, e: Step)
    requires Inv(s) && Enabled(s, e) && s.serial.Some? && !Own(s, e)
    ensures Apply(s, e).serial == s.serial && Rank(Apply(s, e)) == Rank(s)
  {
    hide Apply, Rank, Enabled, Own;
    OtherStepKinds(s, e);
    hide Inv;
    if e.Arrive? || e.Register? || e.Look? || e.Wake? || e.Acquire? || e.Stop? || e.Cancel? {
      OtherCallerKeepsRank(s, e);
    } else {
      SessionStepKeepsRank(s, e);
    }
  }

  /** The steps that end a hold when nothing is cancelled and no task is aborted. */
  predicate Natural(e: Step) {
    !e.Cancel? && !e.FillAborted?
  }

  /** A holder is never stuck: whatever it waits for, one of its own steps can happen, by a
      dial attempt ending, its attempts running out, or its batch running dry. */
  lemma HolderCanMove(s: State) returns (e: Step)
    requires Inv(s) && s.serial.Some?
    ensures Enabled(s, e) && Own(s, e) && Natural(e)
  {
    match s.serial.value
    case FillTask =>
      var f := s.fill.value;
      e := if f.pushing.Some? then FillPush else if f.ready then FillPublish
           else if f.pending > 0 then FillFails else FillLeaves;
    case Task(c) =>
      match s.callers[c]
      case HasSerial => e := LookAgain(c);
      case Dialling(p, left) => e := if p > 0 then DialFails(c) else if left > 0 then NextAttempt(c) else GiveUp(c);
      case Ready(_) => e := StartPublish(c);
      case Installing(_, _) => e := Publish(c);
      case Published(_, _) => e := Notify(c);
      case Woke(_, _) => e := SpawnFill(c);
  }

  /** The holder's own steps among `es[i..j]`. */
  ghost function OwnSteps(ss: seq<State>, es: seq<Step>, i: nat, j: nat): nat
    requires i <= j <= |es| <= |ss|
    decreases j - i
  {
    if i == j then 0 else OwnSteps(ss, es, i, j - 1) + if Own(ss[j - 1], es[j - 1]) then 1 else 0
  }

  /** In no interleaving is the serial lock held for more than `19 + 13 * attempts` steps of
      its holder, connecting and filling together; and while it is held the holder can move. */
  lemma {:induction false} SerialReleased(ss: seq<State>, es: seq<Step>, wsParallel: nat, maxAttempts: nat,
                                        i: nat, j: nat)
    requires Run(ss, es, wsParallel, maxAttempts) && i <= j < |ss|
    requires forall k | i <= k <= j :: ss[k].serial.Some?
    ensures OwnSteps(ss, es, i, j) + Rank(ss[j]) <= Rank(ss[i]) <= 19 + 13 * maxAttempts
    decreases j - i
  {
    hide Inv, Apply, Rank, Enabled, Own, Initial;
    RunKeepsInv(ss, es, wsParallel, maxAttempts, i);
    RankBound(ss[i], maxAttempts);
    if i < j {
      SerialReleased(ss, es, wsParallel, maxAttempts, i, j - 1);
      RunKeepsInv(ss, es, wsParallel, maxAttempts, j - 1);
      HeldStep(ss[j - 1], es[j - 1], ss[j]);
    }
  }

  lemma HeldStep(s: State, e: Step, t: State)
    requires Inv(s) && Enabled(s, e) && t == Apply(s, e) && s.serial.Some? && t.serial.Some?
    ensures Rank(t) + (if Own(s, e) then 1 else 0) <= Rank(s)
  {
    hide Inv, Apply, Rank, Enabled, Own;
    if Own(s, e) { OwnStepDescends(s, e); } else { OtherStepKeepsRank(s, e); }
  }

  lemma RankBound(s: State, maxAttempts: nat)
    requires Inv(s) && s.maxAttempts == maxAttempts
    ensures Rank(s) <= 19 + 13 * maxAttempts
  {
  }
}
