/** Two bridges joined by an in-order channel: what one reads and what the other writes. */
module BridgeEnds {
  import opened Prelude
  import opened Bytes
  import opened Frame
  import opened Crypto
  import opened Protocol
  import opened FrameStack
  import opened Bridge
  import opened BridgeRuns

  /** The two ends of one tunnel; their size limits may differ. */
  ghost predicate Peers(a: Config, b: Config) {
    && a.end != b.end && a.keys.Some? == b.keys.Some?
    && (a.keys.Some? ==> b.keys.value.back == a.keys.value.out && b.keys.value.out == a.keys.value.back)
  }

  /** The receiver has taken the first messages the sender fed, in order. */
  predicate Heard(got: seq<Item>, fed: seq<Msg>) {
    |got| <= |fed| && forall i | 0 <= i < |got| :: got[i] == Ws(fed[i])
  }

  /** Chunks of a sealed server that its client takes for a status. */
  function Status(a: Config, m: Msg): OpenWait {
    if m.Binary? && a.keys.Some? && a.end.Server? then Classify(Inner(a, m)) else Payload(Inner(a, m))
  }

  predicate TooLong(b: Config, m: Msg) {
    m.Binary? && |m.blob| > Min(b.maxWs * 4, U64_MAX)
  }

  /** What the receiver does with any message of the sender: it fails exactly on one over its
      own limit and on a chunk that reads as OPEN_ERR, it swallows exactly a chunk that reads
      as OPEN_OK, and it writes all others as they were packed. */
  lemma AcceptExactly(a: Config, b: Config, m: Msg)
    requires Peers(a, b) && (m.Binary? ==> WellMade(a, m.blob))
    ensures Accept(b, Ws(m)) ==
            if TooLong(b, m) || Status(a, m).OpenErr? then Fail
            else Write(if Status(a, m).OpenOk? then [] else Inner(a, m))
  {
    hide IsOpenOk, DecodeAfter, ReadPadded;
  }

  predicate NoneSwallowed(a: Config, ms: seq<Msg>) {
    forall i | 0 <= i < |ms| :: !Status(a, ms[i]).OpenOk?
  }

  /** No chunk reads as a status: something the sender can tell from its input. */
  predicate NoStatus(a: Config, ms: seq<Msg>) {
    forall i | 0 <= i < |ms| :: Status(a, ms[i]).Payload?
  }

  predicate AllMade(a: Config, fed: seq<Msg>) {
    forall i | 0 <= i < |fed| && fed[i].Binary? :: WellMade(a, fed[i].blob)
  }

  /** A chunk that reads as a status is not empty. */
  lemma StatusNotEmpty(a: Config, m: Msg)
    requires !Status(a, m).Payload?
    ensures Inner(a, m) != []
  {
  }

  lemma {:induction false} WritesExactly(a: Config, b: Config, got: seq<Item>, fed: seq<Msg>)
    requires Peers(a, b) && Heard(got, fed) && |got| == |fed| && AllMade(a, fed)
    requires forall i | 0 <= i < |got| :: !Accept(b, got[i]).Fail?
    ensures NoneSwallowed(a, fed) ==> Writes(b, got) == Payloads(a, fed)
    ensures |Writes(b, got)| <= |Payloads(a, fed)|
    ensures !NoneSwallowed(a, fed) ==> |Writes(b, got)| < |Payloads(a, fed)|
  {
    hide Inner, Accept, WellMade, Status, TooLong;
    var n := |got|;
    if n > 0 {
      var m := fed[n - 1];
      WritesExactly(a, b, got[..n - 1], fed[..n - 1]);
      assert got[n - 1] == Ws(m) && !Accept(b, got[n - 1]).Fail?;
      AcceptExactly(a, b, m);
      if Status(a, m).OpenOk? { StatusNotEmpty(a, m); }
      assert forall i | 0 <= i < n - 1 :: fed[..n - 1][i] == fed[i];
    }
  }

  /** A refused message adds nothing. */
  lemma RefusedWritesNothing(c: Config, got: seq<Item>)
    requires got != [] && Accept(c, got[|got| - 1]).Fail?
    ensures Writes(c, got) == Writes(c, got[..|got| - 1])
  {
    hide Accept;
  }

  lemma PayloadsPart(a: Config, ms: seq<Msg>, k: nat)
    requires k <= |ms|
    ensures Payloads(a, ms[..k]) <= Payloads(a, ms)
    ensures k < |ms| && Inner(a, ms[k]) != [] ==> |Payloads(a, ms[..k])| < |Payloads(a, ms)|
  {
    hide Payloads, Inner;
    PayloadsAppend(a, ms[..k], ms[k..]);
    assert ms == ms[..k] + ms[k..];
    if k < |ms| {
      PayloadsAppend(a, [ms[k]], ms[k + 1..]);
      PayloadsOne(a, ms[k]);
      assert ms[k..] == [ms[k]] + ms[k + 1..];
    }
  }

  lemma PayloadsOne(a: Config, m: Msg)
    ensures Payloads(a, [m]) == Inner(a, m)
  {
    hide Inner;
    PayloadsSnoc(a, [], m);
    assert [] + [m] == [m];
    assert Payloads(a, []) == [];
  }

  /** What the receiver has taken, the last message perhaps refused. */
  lemma PartlyHeard(a: Config, b: Config, got: seq<Item>, fed: seq<Msg>)
    requires Peers(a, b) && Heard(got, fed) && NoneSwallowed(a, fed) && AllMade(a, fed)
    requires forall i | 0 <= i < |got| && Accept(b, got[i]).Fail? :: i == |got| - 1
    ensures Writes(b, got) <= Payloads(a, fed)
  {
    hide WellMade, Payloads, Writes, Accept, Status;
    var n := |got|;
    var k := if n > 0 && Accept(b, got[n - 1]).Fail? then n - 1 else n;
    if k < n { RefusedWritesNothing(b, got); } else { assert got[..n] == got; }
    PayloadsPart(a, fed, k);
    WritesExactly(a, b, got[..k], fed[..k]);
  }

  lemma {:induction false} WritesAppend(c: Config, x: seq<Item>, y: seq<Item>)
    ensures Writes(c, x + y) == Writes(c, x) + Writes(c, y)
  {
    hide Written;
    if y == [] {
      assert x + y == x;
    } else {
      var (y', m) := (y[..|y| - 1], y[|y| - 1]);
      WritesAppend(c, x, y');
      WritesSnoc(c, x + y', m);
      assert x + y == (x + y') + [m];
      assert Writes(c, y) == Writes(c, y') + Written(c, m);
      hide Writes;
      Assoc(Writes(c, x), Writes(c, y'), Written(c, m));
    }
  }

  /** Prefetched items are written first; the rest comes from the messages of the peer. */
  lemma WrittenParts(c: Config, qs: seq<State>, qe: seq<Event>, j: nat)
    requires Run(c, qs, qe) && j < |qs| && |qs[0].up.pre| <= |qs[j].up.got|
    ensures var n := |qs[0].up.pre|;
            && qs[j].up.written == Writes(c, qs[0].up.pre) + Writes(c, qs[j].up.got[n..])
            && forall i | 0 <= i < |qs[j].up.got[n..]| && Accept(c, qs[j].up.got[n..][i]).Fail? ::
                 i == |qs[j].up.got[n..]| - 1
  {
    hide Run, Accept, Writes;
    RunKeepsUp(c, qs, qe, j);
    var (pre, got) := (qs[0].up.pre, qs[j].up.got);
    assert got[..|pre|] == pre;
    assert got == pre + got[|pre|..];
    WritesAppend(c, pre, got[|pre|..]);
  }

  /** Two bridges in any run of their own: after its prefetched items the receiver writes to
      its TCP side a prefix of the sender's uplink prefix and TCP bytes, unless a chunk is
      swallowed. */
  lemma EndToEndPrefix(a: Config, b: Config, ps: seq<State>, pe: seq<Event>, qs: seq<State>, qe: seq<Event>,
                       i: nat, j: nat)
    requires a.Lawful() && Peers(a, b) && Run(a, ps, pe) && Run(b, qs, qe) && i < |ps| && j < |qs|
    requires |qs[0].up.pre| <= |qs[j].up.got| && Heard(qs[j].up.got[|qs[0].up.pre|..], ps[i].fed)
    requires NoneSwallowed(a, ps[i].fed)
    ensures var w := Writes(b, qs[0].up.pre);
            w <= qs[j].up.written && qs[j].up.written[|w|..] <= ps[0].prefix + ps[i].tcp
  {
    hide Run, Conserved, CloseLast, Payloads, Writes, WellMade, Accept;
    RunKeepsAll(a, ps, pe, i);
    WrittenParts(b, qs, qe, j);
    FedIsPrefix(a, ps, pe, i);
    PartlyHeard(a, b, qs[j].up.got[|qs[0].up.pre|..], ps[i].fed);
  }

  /** The receiver has been offered everything up to Close: it has taken it all, or has
      stopped at a message it refuses. */
  predicate Offered(b: Config, got: seq<Item>, fed: seq<Msg>) {
    && Heard(got, fed) && Close in fed
    && (|got| == |fed| || (got != [] && Accept(b, got[|got| - 1]).Fail?))
  }

  /** Something the sender can tell from what it fed: no chunk reads as a status, and no data
      comes with or after a message over the receiver's limit. */
  predicate Unblocked(a: Config, b: Config, fed: seq<Msg>) {
    && NoStatus(a, fed)
    && forall k | 0 <= k < |fed| && TooLong(b, fed[k]) :: Payloads(a, fed[k..]) == []
  }

  /** A receiver offered everything up to the sender's Close has written all of the sender's
      input if and only if no sealed server chunk reads as OPEN_OK or OPEN_ERR and no data comes
      with or after a message of more than four times the receiver's own limit. */
  lemma EndToEndExact(a: Config, b: Config, ps: seq<State>, pe: seq<Event>, qs: seq<State>, qe: seq<Event>,
                      i: nat, j: nat)
    requires a.Lawful() && Peers(a, b) && Run(a, ps, pe) && Run(b, qs, qe) && i < |ps| && j < |qs|
    requires |qs[0].up.pre| <= |qs[j].up.got| && Offered(b, qs[j].up.got[|qs[0].up.pre|..], ps[i].fed)
    ensures ps[i].eof
    ensures qs[j].up.written == Writes(b, qs[0].up.pre) + (ps[0].prefix + ps[i].tcp) <==>
            Unblocked(a, b, ps[i].fed)
  {
    hide Run, Conserved, CloseLast, Payloads, Writes, Unblocked, Accept, WellMade;
    RunKeepsAll(a, ps, pe, i);
    WrittenParts(b, qs, qe, j);
    var (w, got, fed) := (Writes(b, qs[0].up.pre), qs[j].up.got[|qs[0].up.pre|..], ps[i].fed);
    CloseIsComplete(a, ps, pe, i, i);
    OfferedExactly(a, b, got, fed);
    assert qs[j].up.written == w + Writes(b, got);
    if w + Writes(b, got) == w + Payloads(a, fed) { SameTail(w, Writes(b, got), Payloads(a, fed)); }
  }

  /** If no message can exceed the receiver's limit, only a status stands in the way. */
  lemma LimitsFit(a: Config, b: Config, fed: seq<Msg>)
    requires AllMade(a, fed) && a.maxWs <= Min(b.maxWs * 4, U64_MAX)
    ensures Unblocked(a, b, fed) <==> NoStatus(a, fed)
  {
    hide NoStatus, Payloads;
  }

  lemma SameTail(w: bytes, x: bytes, y: bytes)
    requires w + x == w + y
    ensures x == y
  {
    assert x == (w + x)[|w|..] && y == (w + y)[|w|..];
  }

  /** Messages the receiver took are within its limit and do not read as OPEN_ERR. */
  lemma TakenMeans(a: Config, b: Config, got: seq<Item>, fed: seq<Msg>, k: nat)
    requires Peers(a, b) && Heard(got, fed) && AllMade(a, fed) && k <= |got|
    requires forall i | 0 <= i < k :: !Accept(b, got[i]).Fail?
    ensures forall i | 0 <= i < k :: !TooLong(b, fed[i]) && !Status(a, fed[i]).OpenErr?
  {
    hide Accept, Status, TooLong, WellMade;
    forall i | 0 <= i < k ensures !TooLong(b, fed[i]) && !Status(a, fed[i]).OpenErr? {
      assert got[i] == Ws(fed[i]);
      AcceptExactly(a, b, fed[i]);
    }
  }

  /** From a point on there is no data, so no later point has any and nothing reads as a status. */
  lemma EmptyTail(a: Config, fed: seq<Msg>, k: nat)
    requires k <= |fed| && Payloads(a, fed[k..]) == []
    ensures forall j | k <= j < |fed| :: Payloads(a, fed[j..]) == [] && Status(a, fed[j]).Payload?
  {
    hide Payloads, Status, Inner;
    forall j | k <= j < |fed| ensures Payloads(a, fed[j..]) == [] && Status(a, fed[j]).Payload? {
      PayloadsAppend(a, fed[k..j], fed[j..]);
      assert fed[k..] == fed[k..j] + fed[j..];
      PayloadsPart(a, fed[j..], 0);
      if !Status(a, fed[j]).Payload? { StatusNotEmpty(a, fed[j]); }
    }
  }

  lemma TakenExactly(a: Config, b: Config, got: seq<Item>, fed: seq<Msg>)
    requires Peers(a, b) && AllMade(a, fed) && Heard(got, fed) && |got| == |fed|
    requires forall i | 0 <= i < |got| :: !Accept(b, got[i]).Fail?
    ensures Writes(b, got) == Payloads(a, fed) <==> Unblocked(a, b, fed)
  {
    hide Payloads, Writes, Accept, Status, TooLong, WellMade;
    TakenMeans(a, b, got, fed, |got|);
    WritesExactly(a, b, got, fed);
  }

  lemma RefusedExactly(a: Config, b: Config, got: seq<Item>, fed: seq<Msg>)
    requires Peers(a, b) && AllMade(a, fed) && Heard(got, fed) && got != []
    requires Accept(b, got[|got| - 1]).Fail? && forall i | 0 <= i < |got| - 1 :: !Accept(b, got[i]).Fail?
    ensures Writes(b, got) == Payloads(a, fed) <==> Unblocked(a, b, fed)
  {
    hide Payloads, Writes, Accept, Status, TooLong, WellMade, Inner;
    var k := |got| - 1;
    RefusedWritesNothing(b, got);
    TakenMeans(a, b, got, fed, k);
    WritesExactly(a, b, got[..k], fed[..k]);
    PayloadsAppend(a, fed[..k], fed[k..]);
    assert fed == fed[..k] + fed[k..];
    assert got[k] == Ws(fed[k]);
    AcceptExactly(a, b, fed[k]);
    if Payloads(a, fed[k..]) == [] {
      EmptyTail(a, fed, k);
      assert Payloads(a, fed) == Payloads(a, fed[..k]);
      assert NoneSwallowed(a, fed[..k]) <==> Unblocked(a, b, fed) by { EarlyStatus(a, fed, k); }
    }
  }

  lemma EarlyStatus(a: Config, fed: seq<Msg>, k: nat)
    requires k <= |fed|
    requires forall i | 0 <= i < k :: !Status(a, fed[i]).OpenErr?
    requires forall i | k <= i < |fed| :: Status(a, fed[i]).Payload?
    ensures NoStatus(a, fed) <==> NoneSwallowed(a, fed[..k])
  {
    hide Status;
    assert forall i | 0 <= i < k :: fed[..k][i] == fed[i];
  }

  lemma OfferedExactly(a: Config, b: Config, got: seq<Item>, fed: seq<Msg>)
    requires Peers(a, b) && AllMade(a, fed) && Offered(b, got, fed)
    requires forall i | 0 <= i < |got| && Accept(b, got[i]).Fail? :: i == |got| - 1
    ensures Writes(b, got) == Payloads(a, fed) <==> Unblocked(a, b, fed)
  {
    hide Payloads, Writes, Accept, Unblocked, WellMade;
    if got != [] && Accept(b, got[|got| - 1]).Fail? {
      RefusedExactly(a, b, got, fed);
    } else {
      TakenExactly(a, b, got, fed);
    }
  }

  // ---------------------------------------------------------------------------
  // Both exceptions are real
  // ---------------------------------------------------------------------------

  /** Unpadded, without decoy. */
  const BARE: Draws := Draws(0, [], [])

  lemma SmallPacked(a: Config, data: bytes)
    requires a.Lawful() && a.keys.Some? && a.mode.Random? && a.maxPad == 0 && |data| <= 256 && a.maxWs >= 34 + |data|
    ensures DrawsOk(a, 0, |data|, BARE)
    ensures var r := Packed(a, 0, data, BARE);
            r.Some? && |r.value| == 34 + |data| && WellMade(a, r.value) && Decode(Outgoing(a), r.value) == Some(data)
  {
    var frame := FrameBytes([], data);
    assert |frame| == 5 + |data| by { Be24RoundTrip(|data|); }
    NonceShape(0);
    SealedSize(a.keys.value.out, Nonce(0), [], frame);
    hide Sealed, Nonce, FrameBytes, WellMade, Decode;
    PackedDecodes(a, 0, 0, data, BARE);
  }

  lemma ReadPackQueue(a: Config, p: State, data: bytes, d: Draws, blob: bytes, p': State)
    requires p == Init([], [], 0) && 1 <= |data| <= 256 && DrawsOk(a, 0, |data|, d)
             && Packed(a, 0, data, d) == Some(blob)
    requires p' == p.(tcp := data, ctr := Count(a, 0, data), downCount := Bump(a, 0), queue := [Binary(blob)])
    ensures var p1 := Step(a, p, TcpRead(data));
            var p2 := Step(a, p1, Pack(d));
            Step(a, p2, QueueChunk) == p'
  {
    assert a.Chunk() >= 256 && data[..|data|] == data && data[|data|..] == [];
    hide Packed, PadLen, MaxChunk;
    var p1 := p.(tcp := data, buf := data);
    assert p1 == Step(a, p, TcpRead(data));
    var p2 := p'.(held := Some(blob), queue := []);
    assert p2 == Step(a, p1, Pack(d));
  }

  lemma EndAndFeed(a: Config, p: State, m: Msg, p': State)
    requires p.phase.Running? && p.pos >= |p.prefix| && p.buf == [] && p.held.None? && p.queue == [m] && p.fed == []
    requires m.Binary? && !p.closeQueued && !p.writerDone
    requires p' == p.(eof := true, phase := AfterDown, closeQueued := true, writerDone := true,
                    queue := [], fed := [m, Close])
    ensures var p4 := Step(a, p, TcpRead([]));
            var p5 := Step(a, p4, QueueClose);
            Step(a, Step(a, p5, Feed), Feed) == p'
  {
    var p4 := p.(eof := true, phase := AfterDown);
    assert p4 == Step(a, p, TcpRead([]));
    var p5 := p4.(queue := [m, Close], closeQueued := true);
    assert p5 == Step(a, p4, QueueClose);
    var p6 := p5.(queue := [Close], fed := [m]);
    assert p6 == Step(a, p5, Feed);
    assert p' == Step(a, p6, Feed);
  }

  /** Seven steps of a sender: read, pack, queue, end of file, Close, and two messages fed. */
  lemma SenderSteps(a: Config, data: bytes, d: Draws, blob: bytes)
    returns (ps: seq<State>, pe: seq<Event>)
    requires 1 <= |data| <= 256 && DrawsOk(a, 0, |data|, d) && Packed(a, 0, data, d) == Some(blob)
    ensures Run(a, ps, pe) && ps[0].prefix == [] && ps[|pe|].tcp == data && ps[|pe|].fed == [Binary(blob), Close]
  {
    hide Step, Packed, DrawsOk;
    var p0 := Init([], [], 0);
    var p3 := p0.(tcp := data, ctr := Count(a, 0, data), downCount := Bump(a, 0), queue := [Binary(blob)]);
    ReadPackQueue(a, p0, data, d, blob, p3);
    var p7 := p3.(eof := true, phase := AfterDown, closeQueued := true, writerDone := true,
                  queue := [], fed := [Binary(blob), Close]);
    EndAndFeed(a, p3, Binary(blob), p7);
    var p1 := Step(a, p0, TcpRead(data));
    var p2 := Step(a, p1, Pack(d));
    var p4 := Step(a, p3, TcpRead([]));
    var p5 := Step(a, p4, QueueClose);
    var p6 := Step(a, p5, Feed);
    ps, pe := [p0, p1, p2, p3, p4, p5, p6, p7],
              [TcpRead(data), Pack(d), QueueChunk, TcpRead([]), QueueClose, Feed, Feed];
  }

  /** A receiver that takes a message it writes nothing for, and then Close. */
  lemma ReceiverSteps(b: Config, blob: bytes)
    returns (qs: seq<State>, qe: seq<Event>)
    requires Deliver(b, blob) == Write([])
    ensures Run(b, qs, qe) && qs[0].up.pre == [] && qs[|qe|].up.got == [Ws(Binary(blob)), Ws(Close)]
    ensures qs[|qe|].up.written == []
  {
    hide Deliver;
    var q0 := Init([], [], 0);
    var q1 := q0.(up := Up([], [Ws(Binary(blob))], [], None, false));
    var q2 := q0.(up := Up([], [Ws(Binary(blob)), Ws(Close)], [], None, true), phase := AfterUp);
    assert q1 == Step(b, q0, Receive(Binary(blob)));
    assert q2 == Step(b, q1, Receive(Close));
    hide Step;
    qs, qe := [q0, q1, q2], [Receive(Binary(blob)), Receive(Close)];
  }

  /** A receiver whose first message is refused. */
  lemma RefusingSteps(b: Config, blob: bytes)
    returns (qs: seq<State>, qe: seq<Event>)
    requires Deliver(b, blob) == Fail
    ensures Run(b, qs, qe) && qs[0].up.pre == [] && qs[|qe|].up.got == [Ws(Binary(blob))]
    ensures qs[|qe|].up.written == [] && qs[|qe|].phase == Done(false)
  {
    hide Deliver;
    var q0 := Init([], [], 0);
    var q1 := q0.(up := Up([], [Ws(Binary(blob))], [], None, false), phase := Done(false));
    assert q1 == Step(b, q0, Receive(Binary(blob)));
    hide Step;
    qs, qe := [q0, q1], [Receive(Binary(blob))];
  }

  /** A sealed server without padding, and its client. */
  ghost predicate SealedServer(a: Config, b: Config) {
    && a.Lawful() && Peers(a, b) && a.keys.Some? && a.end.Server? && a.mode.Random? && a.maxPad == 0
    && a.maxWs >= 37 && b.maxWs >= 10
  }

  /** A server whose TCP side sends the one byte 0x10 and ends closes its tunnel in order, and
      the client writes nothing. */
  lemma OneByteSwallowed(a: Config, b: Config)
    returns (ps: seq<State>, pe: seq<Event>, qs: seq<State>, qe: seq<Event>)
    requires SealedServer(a, b)
    ensures Run(a, ps, pe) && Run(b, qs, qe) && qs[0].up.pre == []
    ensures ps[0].prefix + ps[|pe|].tcp == [V3_CTRL_OPEN_OK] && Close in ps[|pe|].fed
    ensures Heard(qs[|qe|].up.got, ps[|pe|].fed) && Ws(Close) in qs[|qe|].up.got && qs[|qe|].up.written == []
  {
    var data := [V3_CTRL_OPEN_OK];
    SmallPacked(a, data);
    var blob := Packed(a, 0, data, BARE).value;
    hide Packed, Decode, Run;
    assert Deliver(b, blob) == Write([]);
    hide Deliver;
    ps, pe := SenderSteps(a, data, BARE, blob);
    qs, qe := ReceiverSteps(b, blob);
    assert ps[|pe|].fed[1] == Close && qs[|qe|].up.got[1] == Ws(Close);
  }

  /** A server whose TCP side sends the three bytes 11 00 00, an OPEN_ERR with an empty reason,
      closes its tunnel in order, and the client fails and writes nothing. */
  lemma OpenErrStops(a: Config, b: Config)
    returns (ps: seq<State>, pe: seq<Event>, qs: seq<State>, qe: seq<Event>)
    requires SealedServer(a, b)
    ensures Run(a, ps, pe) && Run(b, qs, qe) && qs[0].up.pre == []
    ensures ps[0].prefix + ps[|pe|].tcp == [V3_CTRL_OPEN_ERR, 0, 0] && Close in ps[|pe|].fed
    ensures Offered(b, qs[|qe|].up.got, ps[|pe|].fed) && qs[|qe|].up.written == [] && qs[|qe|].phase == Done(false)
  {
    var data := [V3_CTRL_OPEN_ERR, 0, 0];
    SmallPacked(a, data);
    var blob := Packed(a, 0, data, BARE).value;
    hide Packed, Decode, Run, WellMade, Deliver, DrawsOk;
    EmptyReason(data);
    ErrDelivered(a, b, blob, data);
    ps, pe := SenderSteps(a, data, BARE, blob);
    qs, qe := RefusingSteps(b, blob);
    RefusedIsOffered(b, blob);
  }

  lemma ErrDelivered(a: Config, b: Config, blob: bytes, data: bytes)
    requires Peers(a, b) && WellMade(a, blob) && Decode(Outgoing(a), blob) == Some(data)
    requires a.keys.Some? && a.end.Server? && Classify(data).OpenErr?
    ensures Deliver(b, blob) == Fail
  {
    hide Deliver, WellMade, Classify, Decode;
    AcceptExactly(a, b, Binary(blob));
  }

  lemma RefusedIsOffered(b: Config, blob: bytes)
    requires Deliver(b, blob) == Fail
    ensures Offered(b, [Ws(Binary(blob))], [Binary(blob), Close])
  {
    hide Deliver;
    assert [Binary(blob), Close][1] == Close;
  }

  lemma EmptyReason(data: bytes)
    requires data == [V3_CTRL_OPEN_ERR, 0, 0]
    ensures Classify(data) == OpenErr([])
  {
    assert data[..1] == [V3_CTRL_OPEN_ERR] && data[3..] == [];
  }

  // ---------------------------------------------------------------------------
  // The oversize error
  // ---------------------------------------------------------------------------

  /** A Pack step that ends the bridge because the message is too long, and for nothing else. */
  predicate RefusedBySize(c: Config, s: State, d: Draws) {
    && !s.phase.Done? && Enabled(c, s, Pack(d))
    && var payload := s.buf[..Min(|s.buf|, c.Chunk())];
       Packed(c, s.ctr, payload, d).None? && Packed(c.(maxWs := U64_MAX), s.ctr, payload, d).Some?
  }

  /** Draws with full padding and full decoy for a payload of 256 bytes in a first frame. */
  lemma FullDraws(c: Config) returns (d: Draws)
    ensures DrawsOk(c, 0, 256, d) && |d.pad| == c.maxPad && |d.decoy| == c.decoyMax
  {
    var draw := match c.mode case Random => c.maxPad case HttpBuckets => 105 case Adaptive => 1400;
    assert c.mode.HttpBuckets? ==> Bucket(261, 0) == Bucket(261, 1) == Bucket(261, 2) == 512;
    assert PadLen(c.mode, c.maxPad, 256, draw) == c.maxPad;
    d := Draws(draw, seq(c.maxPad, _ => 0), seq(c.decoyMax, _ => 0));
  }

  lemma PackedSize(c: Config, ctr: u64, payload: bytes, d: Draws)
    requires c.Lawful() && |payload| <= 0xFF_FFFF && (c.keys.Some? ==> Issued(ctr).Some?)
    ensures var n := WireSize(c.keys.Some?, |d.decoy|, |d.pad|, |payload|);
            Packed(c, ctr, payload, d).Some? <==> n <= c.maxWs
  {
    if c.keys.Some? {
      NonceShape(ctr);
      WireSizeExact(c.keys.value.out, Nonce(ctr), d.decoy, d.pad, payload);
    } else {
      Be24RoundTrip(|payload|);
    }
    hide Sealed, Nonce, FrameBytes;
  }

  /** With room for 256 bytes beside the overhead no message is too long, in any state. */
  lemma SizeFits(c: Config, s: State, d: Draws)
    requires c.Lawful() && c.maxWs >= 256 + Overhead(c.keys.Some?, c.decoyMax, c.maxPad)
    ensures !RefusedBySize(c, s, d)
  {
    if RefusedBySize(c, s, d) {
      var payload := s.buf[..Min(|s.buf|, c.Chunk())];
      PadWithinMax(c.mode, c.maxPad, |payload|, Some(s.downCount), d.draw);
      assert |payload| <= 0xFF_FFFF && (c.keys.Some? ==> Issued(s.ctr).Some?);
      PackedSize(c, s.ctr, payload, d);
      assert false;
    }
  }

  /** Without it, one read of 256 bytes is enough, in each of the three padding modes. */
  lemma SizeOverflows(c: Config) returns (ss: seq<State>, es: seq<Event>, d: Draws)
    requires c.Lawful() && c.maxWs < 256 + Overhead(c.keys.Some?, c.decoyMax, c.maxPad)
    ensures Run(c, ss, es) && |es| == 1 && RefusedBySize(c, ss[1], d)
  {
    d := FullDraws(c);
    var data: bytes := seq(256, _ => 0);
    var p0 := Init([], [], 0);
    var p1 := p0.(tcp := data, buf := data);
    assert c.Chunk() == 256 && data[..256] == data;
    var wide := c.(maxWs := U64_MAX);
    PackedSize(c, 0, data, d);
    PackedSize(wide, 0, data, d);
    hide Packed, PadLen;
    assert p1 == Step(c, p0, TcpRead(data));
    ss, es := [p0, p1], [TcpRead(data)];
  }

  /** The bridge's oversize error happens in some run of a configuration if and only if its
      maximum is under `290 + decoy_max + max_pad` sealed, or `261 + max_pad` plain. */
  lemma OversizeReachedExactly(c: Config)
    requires c.Lawful()
    ensures (exists ss, es, i: nat, d :: Run(c, ss, es) && i < |ss| && RefusedBySize(c, ss[i], d)) <==>
            c.maxWs < if c.keys.Some? then 290 + c.decoyMax as int + c.maxPad as int else 261 + c.maxPad as int
  {
    assert 256 + Overhead(c.keys.Some?, c.decoyMax, c.maxPad) ==
           if c.keys.Some? then 290 + c.decoyMax as int + c.maxPad as int else 261 + c.maxPad as int;
    hide Run, RefusedBySize;
    if c.maxWs < 256 + Overhead(c.keys.Some?, c.decoyMax, c.maxPad) {
      var ss, es, d := SizeOverflows(c);
    } else {
      forall ss: seq<State>, i: nat, d | i < |ss| ensures !RefusedBySize(c, ss[i], d) { SizeFits(c, ss[i], d); }
    }
  }
}
