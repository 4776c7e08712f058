/** What becomes of every connection attempt and every session (`local_client.rs`): the
    attempts of a hold are all accounted for, each success enters the pool, and nothing
    leaves the pool unasked. */
module MuxBatch {
  import opened Prelude
  import opened MuxPool
  import opened MuxConnect

  // ---------------------------------------------------------------------------
  // Counting events
  // ---------------------------------------------------------------------------

  function Pushes(es: seq<Step>): nat {
    if es == [] then 0 else Pushes(es[..|es| - 1]) + if es[|es| - 1].FillPush? then 1 else 0
  }

  function Successes(es: seq<Step>): nat {
    if es == [] then 0 else Successes(es[..|es| - 1]) + if es[|es| - 1].FillSucceeds? then 1 else 0
  }

  function Failures(es: seq<Step>): nat {
    if es == [] then 0 else Failures(es[..|es| - 1]) + if es[|es| - 1].FillFails? then 1 else 0
  }

  /** Failed dial attempts of one caller. */
  function DialFailures(es: seq<Step>, c: nat): nat {
    if es == [] then 0 else DialFailures(es[..|es| - 1], c) + if es[|es| - 1] == DialFails(c) then 1 else 0
  }

  lemma OneMore(es: seq<Step>, e: Step, c: nat)
    ensures Pushes(es + [e]) == Pushes(es) + if e.FillPush? then 1 else 0
    ensures Successes(es + [e]) == Successes(es) + if e.FillSucceeds? then 1 else 0
    ensures Failures(es + [e]) == Failures(es) + if e.FillFails? then 1 else 0
    ensures DialFailures(es + [e], c) == DialFailures(es, c) + if e == DialFails(c) then 1 else 0
  {
    assert (es + [e])[..|es|] == es;
  }

  /** Nothing takes sessions away or stops the fill task. */
  predicate Undisturbed(e: Step) {
    !e.SessionEnds? && !e.Prune? && !e.ClearSlot? && !e.Shutdown? && !e.FillAborted?
  }

  // ---------------------------------------------------------------------------
  // The pool of one generation grows by its successes
  // ---------------------------------------------------------------------------

  /** The holder has installed its pool and not yet started the fill task. */
  predicate Publishing(s: State) {
    && s.serial.Some? && s.serial.value.Task? && s.serial.value.id in s.callers
    && var p := s.callers[s.serial.value.id]; p.Published? || p.Woke?
  }

  /** Counts since generation `gen` was installed with `left` attempts running: pushes,
      successes and failures of the fill task, and whether it has left. */
  datatype Tally = Tally(pushes: nat, successes: nat, failures: nat, done: bool)

  ghost predicate Filling(s: State, gen: nat, left: nat, n: Tally) {
    && s.slot.Some? && s.slot.value.gen == gen && |s.slot.value.sessions| == 1 + n.pushes && !s.shutdown
    && (n.done ==> s.fill.None? && !Publishing(s))
    && if s.fill.Some? then
         && s.fill.value.gen == gen && s.fill.value.pending + n.successes + n.failures == left
         && n.successes == n.pushes + if s.fill.value.ready then 1 else 0
       else if Publishing(s) then
         && s.callers[s.serial.value.id].gen == gen && s.callers[s.serial.value.id].pending == left
         && n.pushes == n.successes == n.failures == 0
       else n.successes == n.pushes && n.successes + n.failures == left
  }

  function Next(n: Tally, e: Step): Tally {
    Tally(n.pushes + (if e.FillPush? then 1 else 0), n.successes + (if e.FillSucceeds? then 1 else 0),
          n.failures + (if e.FillFails? then 1 else 0), n.done || e.FillLeaves?)
  }

  /** The slot, the fill task, the holder and its phase stay. */
  ghost predicate SameFill(s: State, t: State) {
    && t.slot == s.slot && t.fill == s.fill && t.shutdown == s.shutdown && Publishing(t) == Publishing(s)
    && (Publishing(s) ==> t.serial == s.serial && t.callers[t.serial.value.id] == s.callers[s.serial.value.id])
  }

  lemma SameFillKeeps(s: State, t: State, gen: nat, left: nat, n: Tally)
    requires Filling(s, gen, left, n) && SameFill(s, t)
    ensures Filling(t, gen, left, n)
  {
  }

  /** Steps of callers that neither install nor start a fill task, while a pool is live. */
  lemma WaiterSame(s: State, e: Step)
    requires SerialInv(s) && Enabled(s, e)
    requires e.Arrive? || e.Register? || e.Look? || e.Wake? || e.Acquire? || e.Stop? || e.Cancel?
    ensures SameFill(s, Apply(s, e))
  {
    hide HasSessions, SlotLocked;
  }

  lemma HolderSame(s: State, e: Step)
    requires SerialInv(s) && Enabled(s, e)
    requires e.LookAgain? || e.DialFails? || e.DialSucceeds? || e.NextAttempt? || e.GiveUp?
    ensures SameFill(s, Apply(s, e))
  {
    assert s.serial == Some(Task(e.c));
    hide HasSessions, SlotLocked, SerialInv;
  }

  lemma OtherCallerSame(s: State, e: Step)
    requires SerialInv(s) && Enabled(s, e) && ByCaller(e)
    requires !e.StartPublish? && !e.Publish? && !e.Notify? && !e.SpawnFill?
    ensures SameFill(s, Apply(s, e))
  {
    hide SerialInv, Apply, Enabled, SameFill;
    if e.LookAgain? || e.DialFails? || e.DialSucceeds? || e.NextAttempt? || e.GiveUp? {
      HolderSame(s, e);
    } else {
      WaiterSame(s, e);
    }
  }

  /** With a pool in the slot nobody is dialling or installing. */
  lemma NoOneInstalls(s: State, e: Step)
    requires DialInv(s) && s.slot.Some? && Enabled(s, e)
    ensures !e.StartPublish? && !e.Publish?
  {
    hide Fresh, SlotLocked, FillDone;
  }

  lemma NotifySame(s: State, c: nat, gen: nat, left: nat, n: Tally)
    requires SerialInv(s) && Filling(s, gen, left, n) && Enabled(s, Notify(c))
    ensures Filling(Apply(s, Notify(c)), gen, left, n)
  {
    assert s.serial == Some(Task(c));
    hide Notified;
  }

  lemma SpawnFills(s: State, c: nat, gen: nat, left: nat, n: Tally)
    requires SerialInv(s) && Filling(s, gen, left, n) && Enabled(s, SpawnFill(c))
    ensures Filling(Apply(s, SpawnFill(c)), gen, left, n)
  {
    assert s.serial == Some(Task(c)) && s.fill.None?;
  }

  lemma FillDialTallies(s: State, e: Step, gen: nat, left: nat, n: Tally)
    requires Filling(s, gen, left, n) && Enabled(s, e) && s.serial == Some(FillTask) && gen !in s.ended
    requires e.FillFails? || e.FillSucceeds? || e.FillLeaves?
    ensures Filling(Apply(s, e), gen, left, Next(n, e))
  {
  }

  lemma FillPushTallies(s: State, e: Step, gen: nat, left: nat, n: Tally)
    requires Filling(s, gen, left, n) && Enabled(s, e) && s.serial == Some(FillTask) && gen !in s.ended
    requires (e.FillPublish? || e.FillPush?) && (s.fill.value.pushing.Some? ==> s.fill.value.ready)
    ensures Filling(Apply(s, e), gen, left, Next(n, e))
  {
    hide SlotLocked;
  }

  lemma FillStepTallies(s: State, e: Step, gen: nat, left: nat, n: Tally)
    requires SerialInv(s) && DialInv(s) && PoolInv(s) && Filling(s, gen, left, n) && Enabled(s, e)
    requires e.FillFails? || e.FillSucceeds? || e.FillPublish? || e.FillPush? || e.FillLeaves?
    ensures Filling(Apply(s, e), gen, left, Next(n, e))
  {
    assert s.serial == Some(FillTask) && gen !in s.ended && (s.fill.value.pushing.Some? ==> s.fill.value.ready);
    hide SerialInv, DialInv, PoolInv, Apply;
    if e.FillPublish? || e.FillPush? {
      FillPushTallies(s, e, gen, left, n);
    } else {
      FillDialTallies(s, e, gen, left, n);
    }
  }

  lemma TaskStepSame(s: State, e: Step)
    requires Enabled(s, e) && (e.SessionDies? || e.StopTasks?)
    ensures SameFill(s, Apply(s, e))
  {
  }

  lemma FillingSlot(s: State, gen: nat, left: nat, n: Tally)
    requires Filling(s, gen, left, n)
    ensures s.slot.Some?
  {
  }

  lemma StepTallies(s: State, e: Step, gen: nat, left: nat, n: Tally)
    requires Inv(s) && Enabled(s, e) && Undisturbed(e) && Filling(s, gen, left, n)
    ensures Filling(Apply(s, e), gen, left, Next(n, e))
  {
    hide Filling, Apply, Enabled, SerialInv, DialInv, PoolInv, RemovedInv, WakeInv, SameFill;
    FillingSlot(s, gen, left, n);
    NoOneInstalls(s, e);
    if ByCaller(e) {
      if e.Notify? {
        NotifySame(s, e.c, gen, left, n);
      } else if e.SpawnFill? {
        SpawnFills(s, e.c, gen, left, n);
      } else {
        OtherCallerSame(s, e);
        SameFillKeeps(s, Apply(s, e), gen, left, n);
      }
    } else if e.SessionDies? || e.StopTasks? {
      TaskStepSame(s, e);
      SameFillKeeps(s, Apply(s, e), gen, left, n);
    } else {
      FillStepTallies(s, e, gen, left, n);
    }
  }

  lemma JustPublished(s: State, c: nat)
    requires Inv(s) && Enabled(s, Publish(c)) && !s.shutdown
    ensures Filling(Apply(s, Publish(c)), s.nextGen, s.callers[c].pending, Tally(0, 0, 0, false))
  {
    assert s.serial == Some(Task(c)) && s.fill.None?;
    hide Inv;
  }

  function TallyOf(es: seq<Step>): Tally {
    Tally(Pushes(es), Successes(es), Failures(es), FillLeaves in es)
  }

  lemma TallyNext(es: seq<Step>, e: Step)
    ensures TallyOf(es + [e]) == Next(TallyOf(es), e)
    ensures TallyOf([]) == Tally(0, 0, 0, false)
  {
    OneMore(es, e, 0);
    hide Pushes, Successes, Failures;
  }

  lemma RunAt(ss: seq<State>, es: seq<Step>, wsParallel: nat, maxAttempts: nat, k: nat)
    requires Run(ss, es, wsParallel, maxAttempts)
    ensures |ss| == |es| + 1
    ensures k < |es| ==> Enabled(ss[k], es[k]) && ss[k + 1] == Apply(ss[k], es[k])
  {
    hide Enabled, Apply, Initial;
  }

  lemma {:induction false} RunTallies(ss: seq<State>, es: seq<Step>, wsParallel: nat, maxAttempts: nat,
                                      i: nat, j: nat, c: nat)
    requires Run(ss, es, wsParallel, maxAttempts) && i < j < |ss| == |es| + 1
    requires es[i] == Publish(c) && c in ss[i].callers && ss[i].callers[c].Installing? && !ss[i].shutdown
    requires forall k | i < k < j :: Undisturbed(es[k])
    ensures Filling(ss[j], ss[i].nextGen, ss[i].callers[c].pending, TallyOf(es[i + 1..j]))
    decreases j
  {
    hide Run, Filling, Apply, Enabled, Inv, TallyOf, Undisturbed;
    RunAt(ss, es, wsParallel, maxAttempts, j - 1);
    RunKeepsInv(ss, es, wsParallel, maxAttempts, j - 1);
    if j == i + 1 {
      JustPublished(ss[i], c);
      assert es[i + 1..j] == [];
      TallyNext([], es[i]);
    } else {
      RunTallies(ss, es, wsParallel, maxAttempts, i, j - 1, c);
      var n := TallyOf(es[i + 1..j - 1]);
      StepTallies(ss[j - 1], es[j - 1], ss[i].nextGen, ss[i].callers[c].pending, n);
      assert es[i + 1..j] == es[i + 1..j - 1] + [es[j - 1]];
      TallyNext(es[i + 1..j - 1], es[j - 1]);
    }
  }

  /** After a caller installs a pool, as long as no session ends and nothing is shut down, the
      pool holds one session for the caller and one for each push of the fill task; at most one
      success is in hand; and once the task has left by itself every one of its successes is a
      session and every attempt has ended. */
  lemma EverySuccessJoins(ss: seq<State>, es: seq<Step>, wsParallel: nat, maxAttempts: nat, i: nat, j: nat, c: nat)
    requires Run(ss, es, wsParallel, maxAttempts) && i < j < |ss| && es[i] == Publish(c) && !ss[i].shutdown
    requires forall k | i < k < j :: Undisturbed(es[k])
    ensures c in ss[i].callers && ss[i].callers[c].Installing?
    ensures ss[j].slot.Some? && ss[j].slot.value.gen == ss[i].nextGen
    ensures var since := es[i + 1..j];
            && |ss[j].slot.value.sessions| == 1 + Pushes(since)
            && Pushes(since) <= Successes(since) <= Pushes(since) + 1
            && Successes(since) + Failures(since) <= ss[i].callers[c].pending
            && (FillLeaves in since ==>
                  && |ss[j].slot.value.sessions| == 1 + Successes(since)
                  && Successes(since) + Failures(since) == ss[i].callers[c].pending)
  {
    hide Run, Apply, Undisturbed, Pushes, Successes, Failures;
    RunAt(ss, es, wsParallel, maxAttempts, i);
    RunTallies(ss, es, wsParallel, maxAttempts, i, j, c);
  }

  // ---------------------------------------------------------------------------
  // The attempts of one hold
  // ---------------------------------------------------------------------------

  /** The attempts of caller `c` after `fails` failures: batches of `width`, at most
      `maxAttempts` of them, and a later one begins only when all before it have failed. */
  ghost predicate Dialled(s: State, c: nat, fails: nat) {
    && c in s.callers
    && match s.callers[c]
       case Dialling(p, left) => fails + p + s.width * left == s.width * s.maxAttempts
       case Ready(p) => WholeBatches(s, fails + 1 + p)
       case Installing(p, _) => WholeBatches(s, fails + 1 + p)
       case Published(_, p) => WholeBatches(s, fails + 1 + p)
       case Woke(_, p) => WholeBatches(s, fails + 1 + p)
       case _ => false
  }

  ghost predicate WholeBatches(s: State, n: nat) {
    exists k: nat :: 1 <= k <= s.maxAttempts && n == s.width * k
  }

  lemma BatchesAgree(s: State, t: State, n: nat)
    requires t.width == s.width && t.maxAttempts == s.maxAttempts
    ensures WholeBatches(s, n) == WholeBatches(t, n)
  {
  }

  lemma FirstBatch(s: State, c: nat)
    requires Enabled(s, LookAgain(c)) && c in Apply(s, LookAgain(c)).callers
    ensures Dialled(Apply(s, LookAgain(c)), c, 0)
  {
    hide HasSessions, SlotLocked;
    if s.maxAttempts > 0 { LastBatch(s.width, s.maxAttempts, s.maxAttempts - 1); }
  }

  lemma LastBatch(width: nat, attempts: nat, left: nat)
    requires left < attempts
    ensures width + width * left == width * (left + 1)
    ensures width * attempts == width * (attempts - left) + width * left
  {
  }

  lemma OwnSuccess(s: State, c: nat, fails: nat)
    requires Enabled(s, DialSucceeds(c)) && CallerOk(s, s.callers[c]) && Dialled(s, c, fails)
    ensures Dialled(Apply(s, DialSucceeds(c)), c, fails)
  {
    hide WholeBatches, Fresh;
    SucceedsWhole(s, c, fails);
    BatchesAgree(s, Apply(s, DialSucceeds(c)), fails + s.callers[c].pending);
  }

  lemma SucceedsWhole(s: State, c: nat, fails: nat)
    requires Enabled(s, DialSucceeds(c)) && CallerOk(s, s.callers[c]) && Dialled(s, c, fails)
    ensures WholeBatches(s, fails + s.callers[c].pending)
  {
    hide Fresh;
    var left := s.callers[c].left;
    LastBatch(s.width, s.maxAttempts, left);
    assert fails + s.callers[c].pending == s.width * (s.maxAttempts - left);
  }

  lemma OwnPublishing(s: State, e: Step, c: nat, fails: nat)
    requires Enabled(s, e) && Dialled(s, c, fails) && ByCaller(e) && e.c == c && c in Apply(s, e).callers
    requires !e.DialFails? && !e.DialSucceeds? && !e.NextAttempt?
    ensures Dialled(Apply(s, e), c, fails)
  {
    hide WholeBatches, SlotLocked, HasSessions, Notified;
    var t := Apply(s, e);
    assert t.width == s.width && t.maxAttempts == s.maxAttempts;
    if !s.callers[c].Dialling? { BatchesAgree(s, t, fails + 1 + s.callers[c].pending); }
  }

  lemma OwnDialling(s: State, e: Step, c: nat, fails: nat)
    requires Enabled(s, e) && Dialled(s, c, fails) && (e == DialFails(c) || e == NextAttempt(c))
    ensures Dialled(Apply(s, e), c, fails + if e == DialFails(c) then 1 else 0)
  {
    hide WholeBatches;
    if e.NextAttempt? { LastBatch(s.width, s.callers[c].left, s.callers[c].left - 1); }
  }

  lemma OwnDialStep(s: State, e: Step, c: nat, fails: nat)
    requires DialInv(s) && Enabled(s, e) && Dialled(s, c, fails) && ByCaller(e) && e.c == c
    requires c in Apply(s, e).callers
    ensures Dialled(Apply(s, e), c, fails + if e == DialFails(c) then 1 else 0)
  {
    hide CallerOk, FillOk, Enabled, Apply;
    assert CallerOk(s, s.callers[c]);
    hide Dialled;
    if e.DialSucceeds? { OwnSuccess(s, c, fails); }
    else if e.DialFails? || e.NextAttempt? { OwnDialling(s, e, c, fails); }
    else { OwnPublishing(s, e, c, fails); }
  }

  /** Steps of a caller that does not hold the serial lock, or that lets go of it. */
  predicate Waiting(e: Step) {
    e.Arrive? || e.Register? || e.Look? || e.Wake? || e.Acquire? || e.Stop? || e.Cancel? || e.GiveUp?
  }

  lemma WaitersLeavePhase(s: State, e: Step, c: nat)
    requires Enabled(s, e) && c in s.callers && Waiting(e) && e.c != c
    ensures c in Apply(s, e).callers && Apply(s, e).callers[c] == s.callers[c]
  {
    hide SlotLocked, HasSessions;
  }

  lemma HoldersLeavePhase(s: State, e: Step, c: nat)
    requires Enabled(s, e) && c in s.callers && ByCaller(e) && !Waiting(e) && e.c != c
    ensures c in Apply(s, e).callers
    ensures Apply(s, e).callers[c] == if e.Notify? then Notified(s.callers[c]) else s.callers[c]
  {
    hide SlotLocked, HasSessions, Notified;
  }

  lemma OtherCallersLeavePhase(s: State, e: Step, c: nat)
    requires Enabled(s, e) && c in s.callers && ByCaller(e) && e.c != c
    ensures c in Apply(s, e).callers
    ensures Apply(s, e).callers[c] == if e.Notify? then Notified(s.callers[c]) else s.callers[c]
  {
    hide Apply, Enabled, Notified;
    if Waiting(e) { WaitersLeavePhase(s, e, c); } else { HoldersLeavePhase(s, e, c); }
  }

  lemma TasksLeaveCallers(s: State, e: Step)
    requires Enabled(s, e) && !ByCaller(e)
    ensures Apply(s, e).callers == s.callers
  {
    hide SlotLocked, SessionSet, Narrowed, FillDone;
  }

  /** Whatever others do leaves the phase of a holder alone. */
  lemma OthersLeavePhase(s: State, e: Step, c: nat)
    requires Enabled(s, e) && c in s.callers && s.callers[c].HoldsSerial() && !(ByCaller(e) && e.c == c)
    ensures c in Apply(s, e).callers && Apply(s, e).callers[c] == s.callers[c]
  {
    hide Apply, Enabled;
    if ByCaller(e) { OtherCallersLeavePhase(s, e, c); } else { TasksLeaveCallers(s, e); }
  }

  lemma PhaseKeepsDialled(s: State, t: State, c: nat, fails: nat)
    requires Dialled(s, c, fails) && c in t.callers && t.callers[c] == s.callers[c]
    requires t.width == s.width && t.maxAttempts == s.maxAttempts
    ensures Dialled(t, c, fails)
  {
    hide WholeBatches;
    if !s.callers[c].Dialling? { BatchesAgree(s, t, fails + 1 + s.callers[c].pending); }
  }

  lemma DialStep(s: State, e: Step, c: nat, fails: nat)
    requires Inv(s) && Enabled(s, e) && Dialled(s, c, fails) && c in Apply(s, e).callers
    ensures Dialled(Apply(s, e), c, fails + if e == DialFails(c) then 1 else 0)
  {
    hide Dialled, Apply, Enabled, SerialInv, DialInv, PoolInv, RemovedInv, WakeInv;
    DiallerHolds(s, c, fails);
    if ByCaller(e) && e.c == c {
      OwnDialStep(s, e, c, fails);
    } else {
      OthersLeavePhase(s, e, c);
      HistoryGrows(s, e);
      PhaseKeepsDialled(s, Apply(s, e), c, fails);
    }
  }

  lemma DiallerHolds(s: State, c: nat, fails: nat)
    requires Dialled(s, c, fails)
    ensures c in s.callers && s.callers[c].HoldsSerial()
  {
    hide WholeBatches;
  }

  lemma HoldStarts(ss: seq<State>, es: seq<Step>, wsParallel: nat, maxAttempts: nat, h: nat, c: nat)
    requires Run(ss, es, wsParallel, maxAttempts) && h < |es| && |ss| == |es| + 1 && es[h] == LookAgain(c)
    requires c in ss[h + 1].callers
    ensures Dialled(ss[h + 1], c, 0)
  {
    hide *;
    RunAt(ss, es, wsParallel, maxAttempts, h);
    FirstBatch(ss[h], c);
  }

  lemma HoldStep(ss: seq<State>, es: seq<Step>, wsParallel: nat, maxAttempts: nat, n: nat, c: nat, fails: nat)
    requires Run(ss, es, wsParallel, maxAttempts) && n < |es| && |ss| == |es| + 1
    requires Dialled(ss[n], c, fails) && c in ss[n + 1].callers
    ensures Dialled(ss[n + 1], c, fails + if es[n] == DialFails(c) then 1 else 0)
  {
    hide *;
    RunAt(ss, es, wsParallel, maxAttempts, n);
    RunKeepsInv(ss, es, wsParallel, maxAttempts, n);
    DialStep(ss[n], es[n], c, fails);
  }

  /** While a caller holds the serial lock to connect, its failures and the attempts still
      running or allowed add up. */
  lemma {:induction false} HoldAccounted(ss: seq<State>, es: seq<Step>, wsParallel: nat, maxAttempts: nat,
                                         h: nat, j: nat, c: nat)
    requires Run(ss, es, wsParallel, maxAttempts) && h < j < |ss| == |es| + 1 && es[h] == LookAgain(c)
    requires forall k | h < k <= j :: c in ss[k].callers
    ensures Dialled(ss[j], c, DialFailures(es[h + 1..j], c))
    decreases j
  {
    hide Run, Dialled, DialFailures;
    if j == h + 1 {
      HoldStarts(ss, es, wsParallel, maxAttempts, h, c);
      assert es[h + 1..j] == [];
      NoneYet(c);
    } else {
      HoldAccounted(ss, es, wsParallel, maxAttempts, h, j - 1, c);
      HoldStep(ss, es, wsParallel, maxAttempts, j - 1, c, DialFailures(es[h + 1..j - 1], c));
      assert es[h + 1..j] == es[h + 1..j - 1] + [es[j - 1]];
      OneMore(es[h + 1..j - 1], es[j - 1], c);
    }
  }

  lemma NoneYet(c: nat)
    ensures DialFailures([], c) == 0
  {
  }

  /** A caller gives up only after every attempt of every allowed batch has failed. */
  lemma GivesUpAfterAll(ss: seq<State>, es: seq<Step>, wsParallel: nat, maxAttempts: nat, h: nat, j: nat, c: nat)
    requires Run(ss, es, wsParallel, maxAttempts) && h < j < |es| && es[h] == LookAgain(c) && es[j] == GiveUp(c)
    requires |ss| == |es| + 1 && forall k | h < k <= j :: c in ss[k].callers
    ensures DialFailures(es[h + 1..j], c) == Min(Max(wsParallel, 1), 4) * maxAttempts
  {
    hide Run, DialFailures, Inv, WholeBatches;
    RunAt(ss, es, wsParallel, maxAttempts, j);
    RunKeepsInv(ss, es, wsParallel, maxAttempts, j);
    HoldAccounted(ss, es, wsParallel, maxAttempts, h, j, c);
    assert Clamp(wsParallel) == Min(Max(wsParallel, 1), 4);
  }

  /** A caller that installs a pool has one success and, with the failures and the attempts it
      hands to the fill task, between one and all allowed batches. */
  lemma InstallsFromBatch(ss: seq<State>, es: seq<Step>, wsParallel: nat, maxAttempts: nat, h: nat, i: nat, c: nat)
    requires Run(ss, es, wsParallel, maxAttempts) && h < i < |es| && es[h] == LookAgain(c) && es[i] == Publish(c)
    requires |ss| == |es| + 1 && forall k | h < k <= i :: c in ss[k].callers
    ensures ss[i].callers[c].Installing?
    ensures exists k: nat | 1 <= k <= maxAttempts ::
              DialFailures(es[h + 1..i], c) + 1 + ss[i].callers[c].pending == Min(Max(wsParallel, 1), 4) * k
  {
    hide Run, DialFailures, Inv;
    RunAt(ss, es, wsParallel, maxAttempts, i);
    RunKeepsInv(ss, es, wsParallel, maxAttempts, i);
    HoldAccounted(ss, es, wsParallel, maxAttempts, h, i, c);
    assert Clamp(wsParallel) == Min(Max(wsParallel, 1), 4);
  }

  /** If no attempt fails, the pool grows to exactly `clamp(ws_parallel, 1, 4)` sessions. */
  lemma AllSucceedFillsPool(ss: seq<State>, es: seq<Step>, wsParallel: nat, maxAttempts: nat,
                            h: nat, i: nat, j: nat, c: nat)
    requires Run(ss, es, wsParallel, maxAttempts) && h < i < j < |ss| == |es| + 1
    requires es[h] == LookAgain(c) && es[i] == Publish(c) && !ss[i].shutdown
    requires forall k | h < k <= i :: c in ss[k].callers
    requires forall k | i < k < j :: Undisturbed(es[k])
    requires DialFailures(es[h + 1..i], c) == 0 && Failures(es[i + 1..j]) == 0 && FillLeaves in es[i + 1..j]
    ensures ss[j].slot.Some? && |ss[j].slot.value.sessions| == Min(Max(wsParallel, 1), 4)
  {
    hide Run, DialFailures, Pushes, Successes, Failures, Undisturbed, Inv;
    RunKeepsInv(ss, es, wsParallel, maxAttempts, i);
    RunAt(ss, es, wsParallel, maxAttempts, i);
    InstallsFromBatch(ss, es, wsParallel, maxAttempts, h, i, c);
    EverySuccessJoins(ss, es, wsParallel, maxAttempts, i, j, c);
    PendingBelowWidth(ss[i], c);
    var k: nat :| 1 <= k <= maxAttempts && 1 + ss[i].callers[c].pending == Min(Max(wsParallel, 1), 4) * k;
    OneBatch(Min(Max(wsParallel, 1), 4), k);
    assert Clamp(wsParallel) == Min(Max(wsParallel, 1), 4);
  }

  lemma PendingBelowWidth(s: State, c: nat)
    requires Inv(s) && Enabled(s, Publish(c))
    ensures s.callers[c].pending < s.width
  {
    assert CallerOk(s, s.callers[c]);
    hide Fresh;
  }

  lemma OneBatch(width: nat, k: nat)
    requires width * k <= width && k >= 1 && width >= 1
    ensures k == 1
  {
    assert width * k == width * (k - 1) + width;
  }

  // ---------------------------------------------------------------------------
  // Sessions and generations are all accounted for
  // ---------------------------------------------------------------------------

  /** The session whose task runs and which is not yet in the pool. */
  function InHand(s: State): set<nat> {
    match s.serial
    case None => {}
    case Some(Task(c)) => if c in s.callers && s.callers[c].Installing? then {s.callers[c].sid} else {}
    case Some(FillTask) => if s.fill.Some? && s.fill.value.pushing.Some? then {s.fill.value.pushing.value} else {}
  }

  /** Every session spawned is in the slot, was removed, or is about to enter; and of the
      generations exactly the one in the slot has not ended. */
  ghost predicate Accounted(s: State) {
    && s.genOf.Keys == SessionSet(s.slot) + s.removed + InHand(s)
    && (forall g: nat :: g in s.ended <==> g < s.nextGen && !(s.slot.Some? && s.slot.value.gen == g))
  }

  /** Nothing that is counted changes. */
  ghost predicate SameAccount(s: State, t: State) {
    && t.slot == s.slot && t.removed == s.removed && t.genOf == s.genOf && t.ended == s.ended
    && t.nextGen == s.nextGen && InHand(t) == InHand(s)
  }

  lemma WaiterAccount(s: State, e: Step)
    requires SerialInv(s) && Enabled(s, e)
    requires e.Arrive? || e.Register? || e.Look? || e.Wake? || e.Acquire? || e.Stop? || e.Cancel?
    ensures SameAccount(s, Apply(s, e))
  {
    hide HasSessions, SlotLocked;
  }

  lemma HolderAccount(s: State, e: Step)
    requires SerialInv(s) && Enabled(s, e)
    requires e.LookAgain? || e.DialFails? || e.DialSucceeds? || e.NextAttempt? || e.GiveUp? || e.SpawnFill?
    ensures SameAccount(s, Apply(s, e))
  {
    assert s.serial == Some(Task(e.c));
    hide HasSessions, SlotLocked, SerialInv;
  }

  lemma PlainCallerAccount(s: State, e: Step)
    requires SerialInv(s) && Enabled(s, e) && ByCaller(e) && !e.StartPublish? && !e.Publish? && !e.Notify?
    ensures SameAccount(s, Apply(s, e))
  {
    hide SerialInv, Apply, Enabled, SameAccount;
    if e.LookAgain? || e.DialFails? || e.DialSucceeds? || e.NextAttempt? || e.GiveUp? || e.SpawnFill? {
      HolderAccount(s, e);
    } else {
      WaiterAccount(s, e);
    }
  }

  lemma NotifyAccount(s: State, c: nat)
    requires SerialInv(s) && Enabled(s, Notify(c))
    ensures SameAccount(s, Apply(s, Notify(c)))
  {
    hide Notified;
  }

  lemma SpawnAccount(s: State, e: Step)
    requires SerialInv(s) && Accounted(s) && Enabled(s, e) && (e.StartPublish? || e.FillPublish?)
    ensures Accounted(Apply(s, e))
  {
    hide SessionSet;
  }

  lemma InstallAccount(s: State, c: nat)
    requires Accounted(s) && Enabled(s, Publish(c)) && s.slot.None? && s.serial == Some(Task(c))
    ensures Accounted(Apply(s, Publish(c)))
  {
    var t := Apply(s, Publish(c));
    assert SessionSet(t.slot) == {s.callers[c].sid} && SessionSet(s.slot) == {};
    hide SessionSet;
  }

  lemma PushAccount(s: State)
    requires Accounted(s) && Enabled(s, FillPush) && s.slot.Some? && s.serial == Some(FillTask)
    ensures Accounted(Apply(s, FillPush))
  {
    var t := Apply(s, FillPush);
    assert SessionSet(t.slot) == SessionSet(s.slot) + {s.fill.value.pushing.value};
    hide SessionSet;
  }

  lemma InstallerMeans(s: State, c: nat)
    requires Inv(s) && Enabled(s, Publish(c))
    ensures s.slot.None? && s.serial == Some(Task(c))
  {
    assert CallerOk(s, s.callers[c]);
    hide Fresh;
  }

  lemma PusherMeans(s: State)
    requires Inv(s) && Enabled(s, FillPush)
    ensures s.slot.Some? && s.serial == Some(FillTask)
  {
    hide Fresh, PoolInv, RemovedInv, WakeInv;
  }

  lemma FillAccount(s: State, e: Step)
    requires SerialInv(s) && DialInv(s) && Enabled(s, e)
    requires e.FillFails? || e.FillSucceeds? || e.FillLeaves? || e.FillAborted?
    ensures SameAccount(s, Apply(s, e))
  {
    assert s.serial == Some(FillTask) && s.fill.value.pushing.None?;
    hide SerialInv, DialInv;
  }

  lemma NarrowEnds(s: State, keep: nat -> bool)
    ensures var t := NarrowSlot(s, keep);
            && t.nextGen == s.nextGen && t.genOf == s.genOf && t.serial == s.serial && t.callers == s.callers
            && t.fill == s.fill && t.removed == s.removed + (SessionSet(s.slot) - SessionSet(t.slot))
            && (s.slot.None? ==> t.slot.None? && t.ended == s.ended)
            && (s.slot.Some? && t.slot.Some? ==> t.slot.value.gen == s.slot.value.gen && t.ended == s.ended)
            && (s.slot.Some? && t.slot.None? ==> t.ended == s.ended + {s.slot.value.gen})
  {
    hide SessionSet, Retain;
  }

  lemma NarrowAccount(s: State, keep: nat -> bool)
    requires PoolInv(s) && Accounted(s)
    ensures Accounted(NarrowSlot(s, keep))
  {
    hide SessionSet, NarrowSlot, Retain, Distinct;
    var t := NarrowSlot(s, keep);
    NarrowedSet(s, keep, t);
    NarrowEnds(s, keep);
    assert InHand(t) == InHand(s);
    hide InHand;
  }

  lemma LossAccount(s: State, e: Step)
    requires PoolInv(s) && Accounted(s) && Enabled(s, e) && (e.SessionEnds? || e.Prune?)
    ensures Accounted(Apply(s, e))
  {
    hide SlotLocked, PoolInv, NarrowSlot, SessionSet, Accounted;
    if e.SessionEnds? {
      var u := s.(dying := s.dying - {e.sid});
      DyingAccount(s, u);
      NarrowAccount(u, (id: nat) => id != e.sid);
    } else {
      NarrowAccount(s, (id: nat) => id !in e.dead);
    }
  }

  lemma DyingAccount(s: State, u: State)
    requires PoolInv(s) && Accounted(s) && u == s.(dying := u.dying)
    ensures PoolInv(u) && Accounted(u)
  {
    hide SessionSet, Distinct;
  }

  lemma ClearAccount(s: State)
    requires PoolInv(s) && Accounted(s) && Enabled(s, ClearSlot)
    ensures Accounted(Apply(s, ClearSlot))
  {
    assert s.slot.Some? ==> s.slot.value.gen < s.nextGen;
    hide SlotLocked, PoolInv;
  }

  lemma FlagAccount(s: State, e: Step)
    requires Enabled(s, e) && (e.Shutdown? || e.StopTasks? || e.SessionDies?)
    ensures SameAccount(s, Apply(s, e))
  {
  }

  lemma StepAccounted(s: State, e: Step)
    requires Inv(s) && Accounted(s) && Enabled(s, e)
    ensures Accounted(Apply(s, e))
  {
    hide SerialInv, DialInv, PoolInv, RemovedInv, WakeInv, Apply, Enabled, InHand, SessionSet;
    if e.StartPublish? || e.FillPublish? { SpawnAccount(s, e); }
    else if e.Publish? { InstallerMeans(s, e.c); InstallAccount(s, e.c); }
    else if e.FillPush? { PusherMeans(s); PushAccount(s); }
    else if e.Notify? { NotifyAccount(s, e.c); }
    else if ByCaller(e) { PlainCallerAccount(s, e); }
    else if e.SessionEnds? || e.Prune? { LossAccount(s, e); }
    else if e.ClearSlot? { ClearAccount(s); }
    else if e.Shutdown? || e.StopTasks? || e.SessionDies? { FlagAccount(s, e); }
    else { FillAccount(s, e); }
  }

  lemma StartAccounted(wsParallel: nat, maxAttempts: nat)
    ensures Accounted(Initial(wsParallel, maxAttempts))
  {
  }

  /** In every state of every run: no session is lost or in two places, and a generation has
      ended exactly if it is not in the slot. */
  lemma {:induction false} NothingLost(ss: seq<State>, es: seq<Step>, wsParallel: nat, maxAttempts: nat, i: nat)
    requires Run(ss, es, wsParallel, maxAttempts) && i < |ss|
    ensures Accounted(ss[i]) && SessionSet(ss[i].slot) !! ss[i].removed
  {
    hide Accounted, Apply, Enabled, Inv, SessionSet;
    RunKeepsInv(ss, es, wsParallel, maxAttempts, i);
    Apart(ss[i]);
    if i == 0 {
      StartAccounted(wsParallel, maxAttempts);
    } else {
      NothingLost(ss, es, wsParallel, maxAttempts, i - 1);
      RunKeepsInv(ss, es, wsParallel, maxAttempts, i - 1);
      RunAt(ss, es, wsParallel, maxAttempts, i - 1);
      StepAccounted(ss[i - 1], es[i - 1]);
    }
  }

  lemma Apart(s: State)
    requires Inv(s)
    ensures SessionSet(s.slot) !! s.removed
  {
    hide SessionSet, SerialInv, DialInv, PoolInv, WakeInv;
  }

  lemma CallersLeaveSlot(s: State, e: Step)
    requires Enabled(s, e) && ByCaller(e) && !e.Publish?
    ensures Apply(s, e).slot == s.slot
  {
    hide SlotLocked, HasSessions, Notified;
  }

  lemma TasksLeaveSlot(s: State, e: Step)
    requires Enabled(s, e) && !ByCaller(e) && !e.FillPush? && !e.SessionEnds? && !e.Prune? && !e.ClearSlot?
    ensures Apply(s, e).slot == s.slot
  {
    hide SlotLocked, FillDone;
  }

  lemma NarrowLeaves(s: State, keep: nat -> bool, sid: nat)
    requires sid in SessionSet(s.slot)
    ensures sid in SessionSet(NarrowSlot(s, keep).slot) <==> keep(sid)
  {
    RetainExactly(s.slot.value.sessions, keep);
    hide Retain;
  }

  lemma LossLeaves(s: State, e: Step, sid: nat)
    requires Enabled(s, e) && sid in SessionSet(s.slot) && (e.SessionEnds? || e.Prune?)
    ensures sid !in SessionSet(Apply(s, e).slot) <==> e == SessionEnds(sid) || (e.Prune? && sid in e.dead)
  {
    hide SlotLocked, NarrowSlot, SessionSet;
    if e.SessionEnds? {
      NarrowLeaves(s.(dying := s.dying - {e.sid}), (id: nat) => id != e.sid, sid);
    } else {
      NarrowLeaves(s, (id: nat) => id !in e.dead, sid);
    }
  }

  lemma PushClearLeaves(s: State, e: Step, sid: nat)
    requires Enabled(s, e) && sid in SessionSet(s.slot) && (e.FillPush? || e.ClearSlot?)
    ensures sid !in SessionSet(Apply(s, e).slot) <==> e.ClearSlot?
  {
    hide SlotLocked;
  }

  /** A session leaves the slot exactly by its own end, by a prune that found it stopped, or
      with the whole slot. */
  lemma LeavesExactlyBy(s: State, e: Step, sid: nat)
    requires Inv(s) && Enabled(s, e) && sid in SessionSet(s.slot)
    ensures sid !in SessionSet(Apply(s, e).slot) <==>
            e == SessionEnds(sid) || (e.Prune? && sid in e.dead) || e.ClearSlot?
  {
    assert s.slot.Some?;
    hide SerialInv, DialInv, PoolInv, RemovedInv, WakeInv, Apply, Enabled, SessionSet;
    NoOneInstalls(s, e);
    if e.SessionEnds? || e.Prune? { LossLeaves(s, e, sid); }
    else if e.FillPush? || e.ClearSlot? { PushClearLeaves(s, e, sid); }
    else if ByCaller(e) { CallersLeaveSlot(s, e); }
    else { TasksLeaveSlot(s, e); }
  }

  lemma WaiterGone(s: State, e: Step)
    requires Enabled(s, e) && Waiting(e) && e.c in s.callers && (HasSessions(s.slot) <==> s.slot.Some?)
    ensures e.c !in Apply(s, e).callers <==>
            || e.Cancel? || e.Stop? || (e.Look? && (s.shutdown || s.slot.Some?))
            || (e.GiveUp? && s.callers[e.c] == Dialling(0, 0))
  {
    hide SlotLocked, HasSessions;
  }

  lemma HolderGone(s: State, e: Step)
    requires Enabled(s, e) && ByCaller(e) && !Waiting(e) && (HasSessions(s.slot) <==> s.slot.Some?)
    ensures e.c !in Apply(s, e).callers <==>
            (e.LookAgain? && s.slot.Some?) || (e.SpawnFill? && s.callers[e.c].Woke?)
  {
    hide SlotLocked, Notified, HasSessions;
  }

  /** Why a caller is gone: cancelled; shut down; a pool is live; its own pool is installed and
      its fill task started; or all its attempts have failed. */
  lemma GoneExactlyFor(s: State, e: Step, c: nat)
    requires Inv(s) && Enabled(s, e) && c in s.callers
    ensures c !in Apply(s, e).callers <==>
            || e == Cancel(c) || e == Stop(c) || (e == Look(c) && s.shutdown)
            || ((e == Look(c) || e == LookAgain(c)) && s.slot.Some?)
            || (e == SpawnFill(c) && s.callers[c].Woke?)
            || (e == GiveUp(c) && s.callers[c] == Dialling(0, 0))
  {
    hide SerialInv, DialInv, PoolInv, RemovedInv, WakeInv, Apply, Enabled, HasSessions;
    SlotHasSessions(s);
    if ByCaller(e) && e.c == c {
      if Waiting(e) { WaiterGone(s, e); } else { HolderGone(s, e); }
    }
    else if ByCaller(e) { OtherCallersLeavePhase(s, e, c); }
    else { TasksLeaveCallers(s, e); }
  }

  /** A notification reaches every caller that waits or is about to look, and changes no other. */
  lemma NotifyReachesAll(s: State, c: nat, d: nat)
    requires Enabled(s, Notify(c)) && d in s.callers && d != c
    ensures var p := s.callers[d]; var t := Apply(s, Notify(c));
            && d in t.callers
            && (p.Registered? ==> t.callers[d] == Registered(true))
            && (p.Parked? ==> t.callers[d] == Parked(true))
            && (!p.Registered? && !p.Parked? ==> t.callers[d] == p)
  {
  }

  /** A finished connection is published exactly if the pool is still the one it was dialled for
      and neither has it ended nor is the client shutting down; otherwise the task leaves. */
  lemma FillPublishesExactly(s: State)
    requires Enabled(s, FillPublish)
    ensures var (f, t) := (s.fill.value, Apply(s, FillPublish));
            var current := s.slot.Some? && s.slot.value.gen == f.gen && !s.shutdown && f.gen !in s.ended;
            && (current ==> t.fill.Some? && t.fill.value.pushing == Some(s.nextSid) && t.nextSid == s.nextSid + 1)
            && (!current ==> t == s.(fill := None, serial := None))
  {
    hide SlotLocked;
  }
}
