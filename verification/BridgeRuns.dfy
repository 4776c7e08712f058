/** What one end of the bridge guarantees over whole runs. */
module BridgeRuns {
  import opened Prelude
  import opened Bytes
  import opened Protocol
  import opened Bridge

  // ---------------------------------------------------------------------------
  // One end
  // ---------------------------------------------------------------------------

  lemma ChunkWellMade(c: Config, s: State, d: Draws)
    requires c.Lawful() && AllWellMade(c, s) && Enabled(c, s, Pack(d))
    ensures AllWellMade(c, DoPack(c, s, d))
  {
    var payload := s.buf[..Min(|s.buf|, c.Chunk())];
    if Packed(c, s.ctr, payload, d).Some? { PackedDecodes(c, s.ctr, s.downCount, payload, d); }
    hide WellMade, Packed;
  }

  lemma DummyWellMade(c: Config, s: State, d: Draws)
    requires c.Lawful() && AllWellMade(c, s) && Enabled(c, s, DummyPack(d))
    ensures AllWellMade(c, DoDummyPack(c, s, d))
  {
    if Packed(c, s.ctr, [], d).Some? { PackedDecodes(c, s.ctr, s.dummyCount, [], d); }
    hide WellMade, Packed;
  }

  lemma PackWellMade(c: Config, s: State, e: Event)
    requires c.Lawful() && AllWellMade(c, s) && Enabled(c, s, e) && (e.Pack? || e.DummyPack?)
    ensures AllWellMade(c, Act(c, s, e))
  {
    hide AllWellMade, DoPack, DoDummyPack;
    if e.Pack? { ChunkWellMade(c, s, e.d); } else { DummyWellMade(c, s, e.dd); }
  }

  lemma MoveWellMade(c: Config, s: State, e: Event)
    requires AllWellMade(c, s) && Enabled(c, s, e) && Moves(e) && !e.Pack? && !e.DummyPack?
    ensures AllWellMade(c, Act(c, s, e))
  {
    hide WellMade, DoReceive, UpEnds, DoPack, DoDummyPack;
    match e {
      case Feed => assert s.queue == [s.queue[0]] + s.queue[1..];
      case TcpRead(_) => hide DoFeed;
      case _ => hide DoFeed, DoTcpRead;
    }
  }

  lemma StepKeepsWellMade(c: Config, s: State, e: Event)
    requires c.Lawful() && AllWellMade(c, s)
    ensures AllWellMade(c, Step(c, s, e))
  {
    hide WellMade, Act;
    if !s.phase.Done? && Enabled(c, s, e) {
      if !Moves(e) {
        QuietSame(c, s, e);
      } else if e.Pack? || e.DummyPack? {
        PackWellMade(c, s, e);
      } else {
        MoveWellMade(c, s, e);
      }
    }
  }

  lemma FeedKeepsCloseLast(s: State)
    requires CloseLast(s) && s.queue != [] && !s.writerDone
    ensures CloseLast(DoFeed(s))
  {
    var s' := DoFeed(s);
    assert s.queue == [s.queue[0]] + s'.queue;
    assert forall i | 0 <= i < |s'.queue| :: s'.queue[i] == s.queue[i + 1];
    assert s.queue[0] == Close ==> NoBinary(s'.queue);
    assert Close !in s.fed;
  }

  lemma QueueKeepsCloseLast(s: State, s': State, m: Msg)
    requires CloseLast(s) && s'.queue == s.queue + [m] && SameSource(s, s') && s'.fed == s.fed && s'.eof == s.eof
    requires s'.writerDone == s.writerDone && s'.phase == s.phase && !s.phase.Done? && !s.writerDone
    requires s'.held == s.held || s'.held.None?
    requires if m == Close then s'.closeQueued && !s.closeQueued && s.eof
             else s'.closeQueued == s.closeQueued && (m.Binary? ==> !s.eof)
    ensures CloseLast(s')
  {
  }

  lemma QuietKeepsCloseLast(c: Config, s: State, e: Event)
    requires CloseLast(s) && !s.phase.Done? && Enabled(c, s, e) && !Moves(e)
    ensures CloseLast(Act(c, s, e))
  {
    hide Accept, NoBinary;
    QuietSame(c, s, e);
  }

  lemma QueuingKeepsCloseLast(c: Config, s: State, e: Event)
    requires CloseLast(s) && !s.phase.Done? && Enabled(c, s, e)
    requires e.QueueChunk? || e.QueueDummy? || e.QueuePong? || e.QueueClose?
    ensures CloseLast(Act(c, s, e))
  {
    hide NoBinary;
    var s' := Act(c, s, e);
    match e {
      case QueueChunk => QueueKeepsCloseLast(s, s', Binary(s.held.value));
      case QueueDummy => QueueKeepsCloseLast(s, s', Binary(s.dummy.value));
      case QueuePong => if !s.writerDone { QueueKeepsCloseLast(s, s', Pong(s.up.pong.value)); }
      case QueueClose => QueueKeepsCloseLast(s, s', Close);
    }
  }

  lemma MoveKeepsCloseLast(c: Config, s: State, e: Event)
    requires CloseLast(s) && !s.phase.Done? && Enabled(c, s, e) && Moves(e)
    requires !e.QueueChunk? && !e.QueueDummy? && !e.QueuePong? && !e.QueueClose?
    ensures CloseLast(Act(c, s, e))
  {
    hide Packed, DoReceive, NoBinary;
    if e.Feed? { FeedKeepsCloseLast(s); }
  }

  lemma StepKeepsCloseLast(c: Config, s: State, e: Event)
    requires CloseLast(s)
    ensures CloseLast(Step(c, s, e))
  {
    hide Act, CloseLast;
    if !s.phase.Done? && Enabled(c, s, e) {
      if !Moves(e) { QuietKeepsCloseLast(c, s, e); }
      else if e.QueueChunk? || e.QueueDummy? || e.QueuePong? || e.QueueClose? { QueuingKeepsCloseLast(c, s, e); }
      else { MoveKeepsCloseLast(c, s, e); }
    }
  }

  lemma {:induction false} RunKeepsAll(c: Config, ss: seq<State>, es: seq<Event>, i: nat)
    requires c.Lawful() && Run(c, ss, es) && i < |ss|
    ensures Conserved(c, ss[i]) && AllWellMade(c, ss[i]) && CloseLast(ss[i])
    ensures ss[i].prefix == ss[0].prefix
  {
    if i == 0 {
      assert Payloads(c, []) + (Payloads(c, []) + ([] + [])) == [];
    } else {
      RunKeepsAll(c, ss, es, i - 1);
      assert ss[i] == Step(c, ss[i - 1], es[i - 1]);
      StepKeepsConserved(c, ss[i - 1], es[i - 1]);
      StepKeepsWellMade(c, ss[i - 1], es[i - 1]);
      StepKeepsCloseLast(c, ss[i - 1], es[i - 1]);
      PrefixFixed(c, ss[i - 1], es[i - 1]);
      hide Conserved, AllWellMade, CloseLast, Step;
    }
  }

  lemma PrefixFixed(c: Config, s: State, e: Event)
    ensures Step(c, s, e).prefix == s.prefix
  {
    if !s.phase.Done? && Enabled(c, s, e) && !Moves(e) { QuietSame(c, s, e); }
    hide Packed, DoReceive;
  }

  /** In every state of every run, what has been fed to the socket decodes to a prefix of the
      uplink prefix followed by the TCP bytes, and each message is within the size limit. */
  lemma FedIsPrefix(c: Config, ss: seq<State>, es: seq<Event>, i: nat)
    requires c.Lawful() && Run(c, ss, es) && i < |ss|
    ensures Payloads(c, ss[i].fed) <= ss[0].prefix + ss[i].tcp
    ensures forall k | 0 <= k < |ss[i].fed| && ss[i].fed[k].Binary? :: |ss[i].fed[k].blob| <= c.maxWs
  {
    RunKeepsAll(c, ss, es, i);
    hide Payloads, Pending, Run;
    var s := ss[i];
    assert Payloads(c, s.fed) <= Source(s);
    if s.pos < |s.prefix| {
      assert s.prefix[..s.pos] + [] <= s.prefix + s.tcp;
    } else {
      assert s.prefix[..s.pos] == s.prefix;
    }
  }

  /** Once Close is fed, everything taken from TCP has been fed before it, TCP had ended, and
      nothing is fed afterwards. */
  lemma CloseIsComplete(c: Config, ss: seq<State>, es: seq<Event>, i: nat, j: nat)
    requires c.Lawful() && Run(c, ss, es) && i <= j < |ss| && Close in ss[i].fed
    ensures ss[i].eof && Payloads(c, ss[i].fed) == ss[0].prefix + ss[i].tcp
    ensures ss[j].fed == ss[i].fed && ss[j].tcp == ss[i].tcp
  {
    RunKeepsAll(c, ss, es, i);
    var s := ss[i];
    NoBinaryNoPayload(c, s.queue);
    assert s.prefix[..s.pos] == s.prefix;
    assert Payloads(c, s.fed) + ([] + ([] + [])) == Payloads(c, s.fed);
    hide Payloads;
    NothingAfterClose(c, ss, es, i, j);
  }

  lemma {:induction false} NoBinaryNoPayload(c: Config, ms: seq<Msg>)
    requires NoBinary(ms)
    ensures Payloads(c, ms) == []
  {
    if ms != [] {
      NoBinaryNoPayload(c, ms[..|ms| - 1]);
      assert !ms[|ms| - 1].Binary?;
    }
  }

  lemma {:induction false} NothingAfterClose(c: Config, ss: seq<State>, es: seq<Event>, i: nat, j: nat)
    requires c.Lawful() && Run(c, ss, es) && i <= j < |ss| && Close in ss[i].fed
    ensures ss[j].fed == ss[i].fed && ss[j].tcp == ss[i].tcp
    decreases j
  {
    hide Conserved, AllWellMade, CloseLast, Step;
    if i < j {
      NothingAfterClose(c, ss, es, i, j - 1);
      RunKeepsAll(c, ss, es, j - 1);
      assert ss[j] == Step(c, ss[j - 1], es[j - 1]);
      StuckAfterClose(c, ss[j - 1], es[j - 1]);
    }
  }

  lemma StuckAfterClose(c: Config, s: State, e: Event)
    requires CloseLast(s) && Close in s.fed
    ensures Step(c, s, e).fed == s.fed && Step(c, s, e).tcp == s.tcp
  {
    hide Packed, Accept;
  }

  /** A successful end after TCP EOF has sent all of it. */
  lemma SuccessfulEofSentAll(c: Config, ss: seq<State>, es: seq<Event>, i: nat)
    requires c.Lawful() && Run(c, ss, es) && i < |ss| && ss[i].phase == Done(true) && ss[i].eof
    ensures Payloads(c, ss[i].fed) == ss[0].prefix + ss[i].tcp
    ensures ss[i].fed != [] && ss[i].fed[|ss[i].fed| - 1] == Close
  {
    JoinMeansClosed(c, ss, es, i);
    CloseIsComplete(c, ss, es, i, i);
    RunKeepsAll(c, ss, es, i);
  }

  lemma {:induction false} JoinMeansClosed(c: Config, ss: seq<State>, es: seq<Event>, i: nat)
    requires c.Lawful() && Run(c, ss, es) && i < |ss|
    ensures ss[i].phase == Done(true) && ss[i].eof ==> Close in ss[i].fed
    ensures ss[i].phase.AfterUp? ==> !ss[i].eof
  {
    hide Conserved, AllWellMade, CloseLast, Step;
    if i > 0 {
      JoinMeansClosed(c, ss, es, i - 1);
      RunKeepsAll(c, ss, es, i - 1);
      assert ss[i] == Step(c, ss[i - 1], es[i - 1]);
      JoinStep(c, ss[i - 1], es[i - 1]);
    }
  }

  lemma JoinStep(c: Config, s: State, e: Event)
    requires CloseLast(s)
    requires s.phase == Done(true) && s.eof ==> Close in s.fed
    requires s.phase.AfterUp? ==> !s.eof
    ensures var s' := Step(c, s, e);
            (s'.phase == Done(true) && s'.eof ==> Close in s'.fed) && (s'.phase.AfterUp? ==> !s'.eof)
  {
    hide Packed, Accept;
  }

  // ---------------------------------------------------------------------------
  // The receiving task
  // ---------------------------------------------------------------------------

  function Written(c: Config, item: Item): bytes {
    match Accept(c, item)
    case Fail => []
    case Write(data) => data
  }

  function Writes(c: Config, items: seq<Item>): bytes {
    if items == [] then [] else Writes(c, items[..|items| - 1]) + Written(c, items[|items| - 1])
  }

  lemma WritesSnoc(c: Config, items: seq<Item>, item: Item)
    ensures Writes(c, items + [item]) == Writes(c, items) + Written(c, item)
  {
    hide Written;
    assert (items + [item])[..|items|] == items;
  }

  /** TCP holds exactly what the items taken so far say; only the last one may be refused,
      and nothing is taken after Close. */
  predicate UpInv(c: Config, s: State) {
    && s.up.written == Writes(c, s.up.got)
    && (forall i | 0 <= i < |s.up.got| && Accept(c, s.up.got[i]).Fail? :: i == |s.up.got| - 1 && s.phase.Done?)
    && (forall i | 0 <= i < |s.up.got| && s.up.got[i] == Ws(Close) :: i == |s.up.got| - 1 && s.up.done)
    && (s.up.done ==> !s.phase.Running?)
  }

  /** The prefetched items are taken first and in order; all others come from the socket. */
  predicate Fetched(s: State, pre: seq<Item>) {
    if |s.up.got| <= |pre| then s.up.got + s.up.pre == pre
    else s.up.pre == [] && s.up.got[..|pre|] == pre && forall i | |pre| <= i < |s.up.got| :: s.up.got[i].Ws?
  }

  lemma CloseAccepted(c: Config)
    ensures Accept(c, Ws(Close)) == Write([])
  {
  }

  lemma ReceiveKeepsUp(c: Config, s: State, item: Item)
    requires UpInv(c, s) && UpPolled(s)
    ensures UpInv(c, DoReceive(c, s, item))
  {
    hide Accept, Writes;
    CloseAccepted(c);
    WritesSnoc(c, s.up.got, item);
    var s' := DoReceive(c, s, item);
    ReceiveTakes(c, s, item);
    assert s.up.written + [] == s.up.written;
    assert s'.up.written == s.up.written + Written(c, item);
    assert forall i | 0 <= i < |s.up.got| :: s'.up.got[i] == s.up.got[i];
  }

  predicate UpSame(s: State, s': State) {
    && s'.up.pre == s.up.pre && s'.up.got == s.up.got && s'.up.written == s.up.written
    && (s.up.done ==> s'.up.done) && (s'.up.done && !s.up.done ==> !s'.phase.Running?)
    && (s'.phase.Running? ==> s.phase.Running?) && (s.phase.Done? ==> s'.phase.Done?)
  }

  lemma OthersLeaveUp(c: Config, s: State, e: Event)
    requires Enabled(c, s, e) && !e.Receive? && !s.phase.Done?
    ensures UpSame(s, Act(c, s, e))
  {
    hide Packed, DoReceive;
  }

  lemma UpSameKeepsUp(c: Config, s: State, s': State, pre: seq<Item>)
    requires UpInv(c, s) && UpSame(s, s')
    ensures UpInv(c, s')
    ensures Fetched(s, pre) ==> Fetched(s', pre)
  {
    hide Accept, Writes;
  }

  lemma TakeFetched(rest: seq<Item>, got: seq<Item>, pre: seq<Item>, item: Item)
    requires if |got| <= |pre| then got + rest == pre else rest == [] && got[..|pre|] == pre
    requires rest != [] ==> item == rest[0]
    ensures var (rest', got') := (if rest != [] then rest[1..] else [], got + [item]);
            if |got'| <= |pre| then got' + rest' == pre else rest' == [] && got'[..|pre|] == pre
  {
    if rest != [] {
      assert rest == [item] + rest[1..];
      assert got + rest == (got + [item]) + rest[1..];
    } else if |got| <= |pre| {
      assert got == pre;
    }
  }

  lemma ReceiveTakes(c: Config, s: State, item: Item)
    ensures var up := DoReceive(c, s, item).up;
            up.got == s.up.got + [item] && up.pre == if s.up.pre != [] then s.up.pre[1..] else []
  {
    hide Accept;
    var up := Wrote(s.up, item, Written(c, item));
    assert DoReceive(c, s, item).up == up || DoReceive(c, s, item).up == up.(done := true);
  }

  lemma ReceiveFetched(c: Config, s: State, msg: Msg, pre: seq<Item>)
    requires Fetched(s, pre)
    ensures Fetched(DoReceive(c, s, Taken(s.up, msg)), pre)
  {
    hide DoReceive;
    var item := Taken(s.up, msg);
    TakeFetched(s.up.pre, s.up.got, pre, item);
    ReceiveTakes(c, s, item);
  }

  lemma StepKeepsUp(c: Config, s: State, e: Event, pre: seq<Item>)
    requires UpInv(c, s) && Fetched(s, pre)
    ensures UpInv(c, Step(c, s, e)) && Fetched(Step(c, s, e), pre)
  {
    hide UpInv, Fetched, UpSame, DoReceive;
    if !s.phase.Done? && Enabled(c, s, e) {
      if e.Receive? {
        ReceiveKeepsUp(c, s, Taken(s.up, e.msg));
        ReceiveFetched(c, s, e.msg, pre);
      } else {
        OthersLeaveUp(c, s, e);
        UpSameKeepsUp(c, s, Act(c, s, e), pre);
        hide Act;
      }
    }
  }

  lemma {:induction false} RunKeepsUp(c: Config, ss: seq<State>, es: seq<Event>, i: nat)
    requires Run(c, ss, es) && i < |ss|
    ensures UpInv(c, ss[i]) && Fetched(ss[i], ss[0].up.pre)
  {
    hide Step;
    if i > 0 {
      RunKeepsUp(c, ss, es, i - 1);
      assert ss[i] == Step(c, ss[i - 1], es[i - 1]);
      StepKeepsUp(c, ss[i - 1], es[i - 1], ss[0].up.pre);
      hide UpInv, Fetched;
    } else {
      assert ss[0].up.got + ss[0].up.pre == ss[0].up.pre;
    }
  }

  /** The `up` loop over the items it is given: it stops at the first one it refuses, or
      after Close, and has written what the items before say. */
  method UpLoop(c: Config, items: seq<Item>) returns (written: bytes, taken: nat, ok: bool)
    ensures taken <= |items| && written == Writes(c, items[..taken])
    ensures forall i | 0 <= i < taken - 1 :: !Accept(c, items[i]).Fail? && items[i] != Ws(Close)
    ensures ok ==> taken == |items| || (taken > 0 && items[taken - 1] == Ws(Close))
    ensures ok ==> forall i | 0 <= i < taken :: !Accept(c, items[i]).Fail?
    ensures !ok ==> taken > 0 && Accept(c, items[taken - 1]).Fail?
  {
    hide Deliver, OneBinary;
    written, taken, ok := [], 0, true;
    while taken < |items|
      invariant taken <= |items| && ok
      invariant written == Writes(c, items[..taken])
      invariant forall i | 0 <= i < taken :: !Accept(c, items[i]).Fail? && items[i] != Ws(Close)
    {
      var item := items[taken];
      assert items[..taken + 1] == items[..taken] + [item];
      WritesSnoc(c, items[..taken], item);
      hide Writes;
      taken := taken + 1;
      match item {
        case Opened(payload) => if payload != [] { written := written + payload; }
        case Ws(Binary(b)) =>
          var (data, good) := OneBinary(c, b);
          if !good { ok := false; return; }
          written := written + data;
        case Ws(Close) => return;
        case Ws(_) =>
      }
    }
  }

  /** The binary branch of `up`, test by test. */
  function OneBinary(c: Config, b: bytes): (r: (bytes, bool))
    ensures r.1 <==> !Deliver(c, b).Fail?
    ensures r.0 == Written(c, Ws(Binary(b)))
  {
    if IsOpenOk(b) then ([], true)
    else if DecodeOpenErr(b).Some? || |b| > Min(c.maxWs * 4, U64_MAX) then ([], false)
    else
      var payload := Decode(Incoming(c), b);
      if payload.None? then ([], false)
      else if c.keys.Some? && c.end.Client? then
        if IsV3OpenOk(payload.value) then ([], true)
        else if DecodeV3OpenErr(payload.value).Some? then ([], false)
        else (payload.value, true)
      else (payload.value, true)
  }

  /** `PrefixedRead`: the cursor over bytes read before bridging, then the socket. */
  class PrefixedRead {
    const prefix: bytes
    var pos: nat

    constructor (prefix: bytes)
      ensures this.prefix == prefix && pos == 0
    {
      this.prefix := prefix;
      pos := 0;
    }

    /** `socket` is what the socket would give now, at most `cap` bytes. */
    method PollRead(cap: nat, socket: bytes) returns (data: bytes)
      requires cap > 0 && |socket| <= cap && pos <= |prefix|
      modifies this
      ensures pos <= |prefix| && |data| <= cap
      ensures prefix[..old(pos)] + data == if old(pos) < |prefix| then prefix[..pos] else prefix + socket
      ensures data == [] <==> old(pos) == |prefix| && socket == []
    {
      if pos < |prefix| {
        var rest := prefix[pos..];
        var n := Min(|rest|, cap);
        data := rest[..n];
        assert prefix[..pos] + data == prefix[..pos + n];
        pos := pos + n;
      } else {
        data := socket;
        assert prefix[..pos] == prefix;
      }
    }
  }
}
