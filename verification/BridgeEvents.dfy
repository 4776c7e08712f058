/** What one end of the bridge does with each event, over whole runs: its inputs are all taken,
    every ping is answered in order, the output queue is bounded, and no nonce is used twice. */
module BridgeEvents {
  import opened Prelude
  import opened Bytes
  import opened Text
  import opened Protocol
  import opened Crypto
  import opened Frame
  import opened Bridge
  import opened BridgeRuns

  /** The event takes place; otherwise it cannot and the state stays. */
  predicate Happens(c: Config, s: State, e: Event) { !s.phase.Done? && Enabled(c, s, e) }

  lemma RunAt(c: Config, ss: seq<State>, es: seq<Event>, i: nat)
    requires Run(c, ss, es)
    ensures |ss| == |es| + 1 && ss[0] == Init(ss[0].prefix, ss[0].up.pre, ss[0].ctr)
    ensures i < |es| ==> ss[i + 1] == Step(c, ss[i], es[i])
  {
    hide Step, Init;
  }

  // ---------------------------------------------------------------------------
  // Inputs
  // ---------------------------------------------------------------------------

  /** Bytes that came from the socket, once the prefix is used up. */
  function FromSocket(c: Config, s: State, e: Event): bytes {
    if Happens(c, s, e) && e.TcpRead? && s.pos >= |s.prefix| then e.data else []
  }

  function SocketBytes(c: Config, ss: seq<State>, es: seq<Event>, i: nat): bytes
    requires i <= |es| <= |ss|
  {
    if i == 0 then [] else SocketBytes(c, ss, es, i - 1) + FromSocket(c, ss[i - 1], es[i - 1])
  }

  lemma TcpStep(c: Config, s: State, e: Event)
    ensures Step(c, s, e).tcp == s.tcp + FromSocket(c, s, e)
  {
    assert s.tcp + [] == s.tcp;
    if Happens(c, s, e) && !Moves(e) { QuietSame(c, s, e); }
    hide Packed, DoReceive;
  }

  /** All that the socket gave is counted as input, and nothing else. */
  lemma {:induction false} TcpIsSocket(c: Config, ss: seq<State>, es: seq<Event>, i: nat)
    requires Run(c, ss, es) && i < |ss| == |es| + 1
    ensures ss[i].tcp == SocketBytes(c, ss, es, i)
  {
    hide Run, Step, FromSocket;
    RunAt(c, ss, es, if i == 0 then 0 else i - 1);
    if i > 0 {
      TcpIsSocket(c, ss, es, i - 1);
      TcpStep(c, ss[i - 1], es[i - 1]);
    }
  }

  /** What `up` takes at an event: the next prefetched item while there is one, then messages. */
  function Takes(c: Config, s: State, e: Event): seq<Item> {
    if Happens(c, s, e) && e.Receive? then [if s.up.pre != [] then s.up.pre[0] else Ws(e.msg)] else []
  }

  function TakenItems(c: Config, ss: seq<State>, es: seq<Event>, i: nat): seq<Item>
    requires i <= |es| <= |ss|
  {
    if i == 0 then [] else TakenItems(c, ss, es, i - 1) + Takes(c, ss[i - 1], es[i - 1])
  }

  lemma GotStep(c: Config, s: State, e: Event)
    ensures Step(c, s, e).up.got == s.up.got + Takes(c, s, e)
  {
    assert s.up.got + [] == s.up.got;
    hide DoReceive, Act;
    if Happens(c, s, e) {
      if e.Receive? { ReceiveActs(c, s, e); ReceiveTakes(c, s, Taken(s.up, e.msg)); } else { OthersLeaveUp(c, s, e); }
    }
  }

  lemma ReceiveActs(c: Config, s: State, e: Event)
    requires Enabled(c, s, e) && e.Receive?
    ensures Act(c, s, e) == DoReceive(c, s, Taken(s.up, e.msg))
  {
    hide DoReceive;
  }

  lemma {:induction false} GotIsTaken(c: Config, ss: seq<State>, es: seq<Event>, i: nat)
    requires Run(c, ss, es) && i < |ss| == |es| + 1
    ensures ss[i].up.got == TakenItems(c, ss, es, i)
  {
    hide Run, Step, Takes;
    RunAt(c, ss, es, if i == 0 then 0 else i - 1);
    if i > 0 {
      GotIsTaken(c, ss, es, i - 1);
      GotStep(c, ss[i - 1], es[i - 1]);
    }
  }

  // ---------------------------------------------------------------------------
  // Pings and pongs
  // ---------------------------------------------------------------------------

  function PingsIn(items: seq<Item>): seq<bytes> {
    if items == [] then []
    else
      var last := items[|items| - 1];
      PingsIn(items[..|items| - 1]) + if last.Ws? && last.msg.Ping? then [last.msg.data] else []
  }

  function PongsIn(ms: seq<Msg>): seq<bytes> {
    if ms == [] then []
    else
      var last := ms[|ms| - 1];
      PongsIn(ms[..|ms| - 1]) + if last.Pong? then [last.data] else []
  }

  lemma PingsSnoc(items: seq<Item>, item: Item)
    ensures PingsIn(items + [item]) ==
            PingsIn(items) + if item.Ws? && item.msg.Ping? then [item.msg.data] else []
  {
    assert (items + [item])[..|items|] == items;
  }

  lemma PongsSnoc(ms: seq<Msg>, m: Msg)
    ensures PongsIn(ms + [m]) == PongsIn(ms) + if m.Pong? then [m.data] else []
  {
    assert (ms + [m])[..|ms|] == ms;
  }

  /** A message that is no pong makes no difference, wherever it stands. */
  lemma {:induction false} PongsSkip(a: seq<Msg>, m: Msg, b: seq<Msg>)
    requires !m.Pong?
    ensures PongsIn((a + [m]) + b) == PongsIn(a + b)
  {
    if b == [] {
      assert (a + [m]) + b == a + [m] && a + b == a;
      PongsSnoc(a, m);
    } else {
      var (init, last) := (b[..|b| - 1], b[|b| - 1]);
      PongsSkip(a, m, init);
      assert (a + [m]) + b == ((a + [m]) + init) + [last] && a + b == (a + init) + [last];
      PongsSnoc((a + [m]) + init, last);
      PongsSnoc(a + init, last);
    }
  }

  /** Every ping taken is answered by one pong with its data, in the order of the pings: already
      fed or queued, but for the last one, which may be about to be queued. */
  ghost predicate PongsMatch(s: State) {
    PongsIn(s.fed + s.queue) + (if s.up.pong.Some? then [s.up.pong.value] else []) == PingsIn(s.up.got)
  }

  predicate SamePongs(s: State, s': State) {
    s'.fed == s.fed && s'.queue == s.queue && s'.up.pong == s.up.pong && s'.up.got == s.up.got
  }

  lemma ReceivePongs(c: Config, s: State, item: Item)
    requires PongsMatch(s) && UpPolled(s)
    ensures PongsMatch(DoReceive(c, s, item))
  {
    hide Accept, PongsIn, PingsIn;
    CloseAccepted(c);
    PingAccepted(c, item);
    PingsSnoc(s.up.got, item);
    ReceiveSame(c, s, item);
    var pings := PingsIn(s.up.got);
    assert PongsIn(s.fed + s.queue) + [] == PongsIn(s.fed + s.queue);
    assert pings + [] == pings;
  }

  lemma PingAccepted(c: Config, item: Item)
    ensures item.Ws? && item.msg.Ping? ==> Accept(c, item) == Write([])
  {
  }

  lemma QueuePongs(c: Config, s: State, s': State, m: Msg)
    requires PongsMatch(s) && s'.queue == s.queue + [m] && s'.fed == s.fed && s'.up.got == s.up.got
    requires if m.Pong? then s.up.pong == Some(m.data) && s'.up.pong.None? else s'.up.pong == s.up.pong
    ensures PongsMatch(s')
  {
    hide PongsIn, PingsIn;
    assert s'.fed + s'.queue == (s.fed + s.queue) + [m];
    PongsSnoc(s.fed + s.queue, m);
    var all := PongsIn(s.fed + s.queue);
    assert all + [] == all && (m.Pong? ==> (all + [m.data]) + [] == all + [m.data]);
  }

  lemma FeedPongs(s: State)
    requires PongsMatch(s) && s.queue != []
    ensures PongsMatch(DoFeed(s))
  {
    hide PongsIn, PingsIn;
    assert DoFeed(s).fed + DoFeed(s).queue == s.fed + s.queue;
  }

  lemma PingPongs(s: State)
    requires PongsMatch(s)
    ensures PongsMatch(s.(fed := s.fed + [Ping([])]))
  {
    hide PongsIn, PingsIn;
    PongsSkip(s.fed, Ping([]), s.queue);
  }

  lemma SamePongsMatch(s: State, s': State)
    requires PongsMatch(s) && SamePongs(s, s')
    ensures PongsMatch(s')
  {
    hide PongsIn, PingsIn;
  }

  lemma QueueingPongs(c: Config, s: State, e: Event)
    requires PongsMatch(s) && Enabled(c, s, e)
    requires e.QueueChunk? || e.QueueDummy? || e.QueuePong? || e.QueueClose?
    ensures PongsMatch(Act(c, s, e))
  {
    hide PongsMatch;
    var s' := Act(c, s, e);
    match e {
      case QueueChunk => QueuePongs(c, s, s', Binary(s.held.value));
      case QueueDummy => QueuePongs(c, s, s', Binary(s.dummy.value));
      case QueueClose => QueuePongs(c, s, s', Close);
      case QueuePong =>
        if s.writerDone { SamePongsMatch(s, s'); } else { QueuePongs(c, s, s', Pong(s.up.pong.value)); }
    }
  }

  lemma OtherPongs(c: Config, s: State, e: Event)
    requires Enabled(c, s, e) && !e.Receive? && !e.Feed? && !e.SendPing?
    requires !e.QueueChunk? && !e.QueueDummy? && !e.QueuePong? && !e.QueueClose?
    ensures SamePongs(s, Act(c, s, e))
  {
    hide Packed;
  }

  lemma StepPongs(c: Config, s: State, e: Event)
    requires PongsMatch(s)
    ensures PongsMatch(Step(c, s, e))
  {
    hide PongsMatch, DoReceive, SamePongs;
    if Happens(c, s, e) {
      if e.Receive? { ReceivePongs(c, s, Taken(s.up, e.msg)); }
      else if e.Feed? { FeedPongs(s); }
      else if e.SendPing? { PingPongs(s); }
      else if e.QueueChunk? || e.QueueDummy? || e.QueuePong? || e.QueueClose? { QueueingPongs(c, s, e); }
      else { OtherPongs(c, s, e); SamePongsMatch(s, Act(c, s, e)); }
    }
  }

  lemma {:induction false} PingsAnswered(c: Config, ss: seq<State>, es: seq<Event>, i: nat)
    requires Run(c, ss, es) && i < |ss|
    ensures PongsMatch(ss[i])
  {
    hide Run, Step;
    if i == 0 {
      RunAt(c, ss, es, 0);
    } else {
      hide PongsMatch;
      RunAt(c, ss, es, i - 1);
      PingsAnswered(c, ss, es, i - 1);
      StepPongs(c, ss[i - 1], es[i - 1]);
    }
  }

  // ---------------------------------------------------------------------------
  // The output queue
  // ---------------------------------------------------------------------------

  lemma StepQueue(c: Config, s: State, e: Event)
    requires |s.queue| <= 512
    ensures |Step(c, s, e).queue| <= 512
  {
    if Happens(c, s, e) && !Moves(e) { QuietSame(c, s, e); }
    hide Packed, DoReceive;
  }

  /** At most 512 messages wait for the writer, in every state of every run. */
  lemma {:induction false} QueueBounded(c: Config, ss: seq<State>, es: seq<Event>, i: nat)
    requires Run(c, ss, es) && i < |ss|
    ensures |ss[i].queue| <= 512
  {
    hide Run, Step;
    RunAt(c, ss, es, if i == 0 then 0 else i - 1);
    if i > 0 {
      QueueBounded(c, ss, es, i - 1);
      StepQueue(c, ss[i - 1], es[i - 1]);
    }
  }

  // ---------------------------------------------------------------------------
  // Nonces
  // ---------------------------------------------------------------------------

  /** The message made at an event, by the data task or the dummy task. */
  function Made(c: Config, s: State, e: Event): Option<bytes> {
    if !Happens(c, s, e) then None
    else if e.Pack? then Act(c, s, e).held
    else if e.DummyPack? then Act(c, s, e).dummy
    else None
  }

  lemma PackedNonce(c: Config, ctr: u64, payload: bytes, d: Draws)
    requires c.Lawful() && c.keys.Some? && Packed(c, ctr, payload, d).Some?
    ensures ctr < U64_MAX && Count(c, ctr, payload) == ctr + 1
    ensures var b := Packed(c, ctr, payload, d).value; |b| >= 12 && b[..12] == Nonce(ctr)
  {
    NonceShape(ctr);
    SealedSize(c.keys.value.out, Nonce(ctr), d.decoy, FrameBytes(d.pad, payload));
    hide Sealed, Nonce, FrameBytes;
  }

  lemma CounterStep(c: Config, s: State, e: Event)
    ensures s.ctr <= Step(c, s, e).ctr
  {
    if Happens(c, s, e) && !Moves(e) { QuietCounter(c, s, e); }
    hide Packed, DoReceive;
  }

  lemma QuietCounter(c: Config, s: State, e: Event)
    requires Enabled(c, s, e) && !e.Pack? && !e.DummyPack?
    ensures Act(c, s, e).ctr == s.ctr
  {
    hide Accept;
  }

  /** A sealed message starts with the nonce of the counter, which then moves on. */
  lemma MadeNonce(c: Config, s: State, e: Event)
    requires c.Lawful() && c.keys.Some? && Made(c, s, e).Some?
    ensures s.ctr < Step(c, s, e).ctr
    ensures |Made(c, s, e).value| >= 12 && Made(c, s, e).value[..12] == Nonce(s.ctr)
  {
    if e.Pack? {
      PackedNonce(c, s.ctr, s.buf[..Min(|s.buf|, c.Chunk())], e.d);
    } else {
      PackedNonce(c, s.ctr, [], e.dd);
    }
    hide Packed, Nonce, Count, DrawsOk;
  }

  lemma {:induction false} CounterGrowsInRun(c: Config, ss: seq<State>, es: seq<Event>, i: nat, j: nat)
    requires Run(c, ss, es) && i <= j < |ss|
    ensures ss[i].ctr <= ss[j].ctr
    decreases j
  {
    hide Run, Step;
    if i < j {
      RunAt(c, ss, es, j - 1);
      CounterGrowsInRun(c, ss, es, i, j - 1);
      CounterStep(c, ss[j - 1], es[j - 1]);
    }
  }

  /** No two sealed messages of one end carry the same nonce, data and dummies together. */
  lemma NoncesDiffer(c: Config, ss: seq<State>, es: seq<Event>, i: nat, j: nat)
    requires c.Lawful() && c.keys.Some? && Run(c, ss, es) && i < j < |es| && |ss| == |es| + 1
    requires Made(c, ss[i], es[i]).Some? && Made(c, ss[j], es[j]).Some?
    ensures var (a, b) := (Made(c, ss[i], es[i]).value, Made(c, ss[j], es[j]).value);
            |a| >= 12 && |b| >= 12 && a[..12] != b[..12]
  {
    hide Run, Step, Made, Nonce;
    RunAt(c, ss, es, i);
    MadeNonce(c, ss[i], es[i]);
    MadeNonce(c, ss[j], es[j]);
    CounterGrowsInRun(c, ss, es, i + 1, j);
    if Nonce(ss[i].ctr) == Nonce(ss[j].ctr) { NonceInjective(ss[i].ctr, ss[j].ctr); assert false; }
  }

  /** The largest piece of TCP data in one message: what fits beside the overhead of 5 bytes and
      padding, and sealed of 29 bytes and decoy more, but never under 256. */
  function Piece(c: Config): int {
    Max(256, c.maxWs - (5 + c.maxPad as int) - if c.keys.Some? then 29 + c.decoyMax as int else 0)
  }

  lemma PieceExactly(c: Config)
    ensures c.Chunk() == Piece(c)
  {
  }

  /** A data message carries as much as there is, up to that, and what is left stays. */
  lemma PackTakesExactly(c: Config, s: State, e: Event)
    requires c.Lawful() && e.Pack? && Made(c, s, e).Some?
    ensures var n := Min(|s.buf|, Piece(c));
            && Decode(Outgoing(c), Made(c, s, e).value) == Some(s.buf[..n])
            && Step(c, s, e).buf == s.buf[n..]
  {
    PieceExactly(c);
    var payload := s.buf[..Min(|s.buf|, c.Chunk())];
    PackedDecodes(c, s.ctr, s.downCount, payload, e.d);
    hide Packed, Decode, Piece;
  }

  /** The prefix is read in pieces of eight such messages, at most half a megabyte. */
  lemma PrefixReadExactly(c: Config, s: State, data: bytes)
    requires Happens(c, s, TcpRead(data)) && s.pos < |s.prefix|
    ensures var n := Min(|s.prefix| - s.pos, Max(Min(8 * Piece(c), 524_288), Piece(c)));
            var t := Step(c, s, TcpRead(data));
            t.pos == s.pos + n && t.buf == s.prefix[s.pos..s.pos + n] && t.tcp == s.tcp
  {
    PieceExactly(c);
    hide Piece;
  }

  // ---------------------------------------------------------------------------
  // Adaptive padding
  // ---------------------------------------------------------------------------

  /** Data messages packed, or tried, so far. */
  function PacksIn(c: Config, ss: seq<State>, es: seq<Event>, i: nat): nat
    requires i <= |es| <= |ss|
  {
    if i == 0 then 0
    else PacksIn(c, ss, es, i - 1) + if Happens(c, ss[i - 1], es[i - 1]) && es[i - 1].Pack? then 1 else 0
  }

  lemma DownCountStep(c: Config, s: State, e: Event)
    requires c.mode.Adaptive? && c.maxPad > 0
    ensures Step(c, s, e).downCount ==
            if Happens(c, s, e) && e.Pack? then Min(s.downCount + 1, 0xFFFF_FFFF) else s.downCount
  {
    hide Packed, Accept;
  }

  lemma {:induction false} DownCountIsPacks(c: Config, ss: seq<State>, es: seq<Event>, i: nat)
    requires c.mode.Adaptive? && c.maxPad > 0 && Run(c, ss, es) && i < |ss| == |es| + 1
    ensures ss[i].downCount == Min(PacksIn(c, ss, es, i), 0xFFFF_FFFF)
  {
    hide Run, Step;
    RunAt(c, ss, es, if i == 0 then 0 else i - 1);
    if i > 0 {
      DownCountIsPacks(c, ss, es, i - 1);
      hide Happens;
      DownCountStep(c, ss[i - 1], es[i - 1]);
    }
  }

  /** With adaptive padding the first seven data messages of a bridge aim at 900 to 1400 bytes of
      frame and all later ones at 128 to 512. */
  lemma FirstSevenAreFat(c: Config, ss: seq<State>, es: seq<Event>, i: nat)
    requires c.mode.Adaptive? && c.maxPad > 0 && Run(c, ss, es) && i < |es| && |ss| == |es| + 1
    requires Happens(c, ss[i], es[i]) && es[i].Pack?
    ensures var draw := es[i].d.draw;
            && (if PacksIn(c, ss, es, i) < 7 then 900 <= draw <= 1400 else 128 <= draw <= 512)
            && Aims(5 + |es[i].d.pad| + Min(|ss[i].buf|, Piece(c)), 5 + Min(|ss[i].buf|, Piece(c)), c.maxPad, draw)
  {
    hide Run, Piece;
    DownCountIsPacks(c, ss, es, i);
    PieceExactly(c);
    PadHitsTarget(c.mode, c.maxPad, Min(|ss[i].buf|, c.Chunk()), es[i].d.draw);
    hide PacksIn, PadLen;
  }

  // ---------------------------------------------------------------------------
  // What is done with any message, and how a bridge ends
  // ---------------------------------------------------------------------------

  /** Any binary message at all. The legacy OPEN_OK is dropped and a legacy OPEN_ERR fails the
      bridge, whatever the mode; so does a message over four times the limit, and one that does
      not open. What is left is written, but for a sealed client, which drops the one byte 10 and
      fails on an OPEN_ERR. */
  lemma DeliverExactly(c: Config, b: bytes)
    ensures var legacyOk := b == [66, 73, 66, 65, 1, 79, 80, 79, 75, 0];
            var legacyErr := exists m :: ValidUtf8(m) && EncodeAfter(OPEN_ERR_MAGIC, m) == Some(b);
            var p := Decode(Incoming(c), b);
            var status := c.keys.Some? && c.end.Client?;
            Deliver(c, b) ==
            if legacyOk then Write([])
            else if legacyErr || |b| > 4 * c.maxWs || |b| > 0xFFFF_FFFF_FFFF_FFFF || p.None? then Fail
            else if status && p.value == [0x10] then Write([])
            else if status && Classify(p.value).OpenErr? then Fail
            else Write(p.value)
  {
    hide ValidUtf8, Decode, EncodeAfter, DecodeAfter;
    forall m ensures DecodeOpenErr(b) == Some(m) <==> ValidUtf8(m) && EncodeAfter(OPEN_ERR_MAGIC, m) == Some(b) {
      StatusExactly(OPEN_ERR_MAGIC, b, m);
    }
    if DecodeOpenErr(b).Some? { assert DecodeOpenErr(b) == Some(DecodeOpenErr(b).value); }
  }

  lemma MovesNotWell(c: Config, s: State, e: Event)
    requires Happens(c, s, e) && Moves(e)
    ensures Act(c, s, e).phase != Done(true)
  {
    hide Packed;
  }

  lemma OthersNotWell(c: Config, s: State, e: Event)
    requires Happens(c, s, e) && !Moves(e) && !e.FlushReply? && !e.Join?
    ensures Act(c, s, e).phase != Done(true)
  {
    hide Accept;
  }

  /** A bridge ends well exactly when the flush after the peer's Close is done, or when Close is
      sent, the writer has finished and the peer has closed too. */
  lemma EndsWellExactly(c: Config, s: State, e: Event)
    requires !s.phase.Done?
    ensures Step(c, s, e).phase == Done(true) <==>
            || (e.FlushReply? && s.phase.AfterUp?)
            || (e.Join? && s.phase.AfterDown? && s.closeQueued && s.writerDone && s.up.done)
  {
    hide Packed, Accept, DoReceive, DoPack, DoTcpRead, DoDummyPack, DoFeed, UpEnds;
    if Happens(c, s, e) {
      if Moves(e) { MovesNotWell(c, s, e); } else if !e.FlushReply? && !e.Join? { OthersNotWell(c, s, e); }
    }
  }

  /** It fails exactly by an error or a timeout, by a message it refuses, by data it cannot pack,
      or by a pong for a writer that has finished. */
  lemma FailsExactly(c: Config, s: State, e: Event)
    requires Happens(c, s, e)
    ensures Step(c, s, e).phase == Done(false) <==>
            || e.TcpError? || e.ReceiveError? || e.WriterError? || e.Timeout?
            || (e.Receive? && Accept(c, Taken(s.up, e.msg)).Fail?)
            || (e.Pack? && Made(c, s, e).None?)
            || (e.QueuePong? && s.writerDone)
  {
    hide Packed, Accept;
    if e.Receive? { CloseAccepted(c); }
  }
}
