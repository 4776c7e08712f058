/** The WebSocket/TCP bridge of `ws_bridge.rs` as a transition system. One step is what a
    task does between two suspension points; steps of the writer, `up`, `down` and `dummy`
    tasks interleave in any order. */
module Bridge {
  import opened Prelude
  import opened Bytes
  import opened Frame
  import opened Crypto
  import opened Protocol
  import opened FrameStack

  const WS_OUT_CAP: nat := 512
  const READ_MAX: nat := 512 * 1024

  datatype Msg = Binary(blob: bytes) | Ping(data: bytes) | Pong(data: bytes) | Close | Text

  datatype TunnelEnd = Client | Server

  /** The ciphers of the two directions. */
  datatype Keys = Keys(out: Aead, back: Aead)

  datatype Config = Config(keys: Option<Keys>, end: TunnelEnd, mode: PadMode, maxPad: byte, decoyMax: byte, maxWs: nat)
  {
    function Chunk(): nat { MaxChunk(keys.Some?, decoyMax, maxPad, maxWs) }

    function ReadCap(): nat { Max(Min(Chunk() * 8, READ_MAX), Chunk()) }

    ghost predicate Lawful() {
      keys.Some? ==> keys.value.out.Lawful() && keys.value.back.Lawful()
    }
  }

  /** Prefetched downlink items: a raw message, or a payload that is already open. */
  datatype Item = Ws(msg: Msg) | Opened(payload: bytes)

  /** `AfterUp`: the peer closed, the writer flushes. `AfterDown`: TCP ended, Close is sent
      while writer and `up` go on. */
  datatype Phase = Running | AfterUp | AfterDown | Done(ok: bool)

  /**
    `prefix`, `pos`: the `PrefixedRead` cursor; `tcp`: all bytes read from the socket.
    `buf`: the part of the read buffer not yet packed; `held`: the blob `down` is about to
    queue; `dummy`: the same for the dummy task.
  */
  datatype State = State(
    prefix: bytes, pos: nat, tcp: bytes, eof: bool, buf: bytes, held: Option<bytes>,
    dummy: Option<bytes>, ctr: u64, downCount: nat, dummyCount: nat,
    queue: seq<Msg>, fed: seq<Msg>, closeQueued: bool, writerDone: bool, up: Up, phase: Phase)

  /** `got`, `written`: what `up` has taken and what it has written to TCP; `pong`: a reply
      it is about to queue. */
  datatype Up = Up(pre: seq<Item>, got: seq<Item>, written: bytes, pong: Option<bytes>, done: bool)

  function Init(prefix: bytes, pre: seq<Item>, ctr: u64): State {
    State(prefix, 0, [], false, [], None, None, ctr, 0, 0, [], [], false, false, Up(pre, [], [], None, false), Running)
  }

  /** The random choices of one packed frame. */
  datatype Draws = Draws(draw: nat, pad: bytes, decoy: bytes)

  predicate DrawsOk(c: Config, count: nat, n: nat, d: Draws) {
    && DrawOk(c.mode, c.maxPad, Some(count), d.draw)
    && |d.pad| == PadLen(c.mode, c.maxPad, n, d.draw)
    && |d.decoy| <= c.decoyMax
  }

  datatype Event =
    | TcpRead(data: bytes) | TcpError | Pack(d: Draws) | QueueChunk
    | DummyPack(dd: Draws) | QueueDummy
    | Receive(msg: Msg) | ReceiveEnd | ReceiveError | QueuePong
    | Feed | SendPing | WriterError | FlushReply
    | QueueClose | Join | Timeout

  // ---------------------------------------------------------------------------
  // Packing and delivering one message
  // ---------------------------------------------------------------------------

  /** Pad, seal if there are keys, and check the size; `None` is an error return. */
  function Packed(c: Config, ctr: u64, payload: bytes, d: Draws): Option<bytes> {
    if |payload| > 0xFF_FFFF then None else
    var frame := FrameBytes(d.pad, payload);
    var blob := match c.keys
      case None => Some(frame)
      case Some(k) =>
        match Issued(ctr)
        case None => None
        case Some(n) => Some(Sealed(k.out, n, d.decoy, frame));
    if blob.Some? && |blob.value| > c.maxWs then None else blob
  }

  /** The counter moves only when a sealed frame is asked for. */
  function Count(c: Config, ctr: u64, payload: bytes): u64 {
    if |payload| > 0xFF_FFFF || c.keys.None? then ctr else Advance(ctr)
  }

  /** The counter of adaptive padding. */
  function Bump(c: Config, count: nat): nat {
    if c.mode.Adaptive? && c.maxPad != 0 then Min(count + 1, U32_MAX) else count
  }

  /** Open and unpad. */
  function Decode(cipher: Option<Aead>, blob: bytes): Option<bytes> {
    match cipher
    case None => ReadPadded(blob)
    case Some(a) =>
      match Crypto.Opened(a, blob)
      case None => None
      case Some(raw) => ReadPadded(raw)
  }

  function Outgoing(c: Config): Option<Aead> {
    if c.keys.None? then None else Some(c.keys.value.out)
  }

  function Incoming(c: Config): Option<Aead> {
    if c.keys.None? then None else Some(c.keys.value.back)
  }

  datatype Delivery = Write(data: bytes) | Fail

  /** What `up` does with one binary message; writing nothing is `Write([])`. */
  function Deliver(c: Config, b: bytes): Delivery {
    if IsOpenOk(b) then Write([])
    else if DecodeOpenErr(b).Some? then Fail
    else if |b| > Min(c.maxWs * 4, U64_MAX) then Fail
    else match Decode(Incoming(c), b)
         case None => Fail
         case Some(p) =>
           if c.keys.None? || c.end.Server? then Write(p)
           else match Classify(p)
                case OpenOk => Write([])
                case OpenErr(_) => Fail
                case Payload(data) => Write(data)
  }

  function Accept(c: Config, item: Item): Delivery {
    match item
    case Opened(p) => Write(p)
    case Ws(Binary(b)) => Deliver(c, b)
    case Ws(_) => Write([])
  }

  // ---------------------------------------------------------------------------
  // Steps
  // ---------------------------------------------------------------------------

  predicate Room(s: State) { |s.queue| < WS_OUT_CAP }

  function Failed(s: State): State { s.(phase := Done(false)) }

  /** `PrefixedRead::poll_read`, then the end-of-file test. */
  function DoTcpRead(c: Config, s: State, data: bytes): State {
    if s.pos < |s.prefix| then
      var n := Min(|s.prefix| - s.pos, c.ReadCap());
      s.(pos := s.pos + n, buf := s.prefix[s.pos..s.pos + n])
    else if data == [] then s.(eof := true, phase := AfterDown)
    else s.(tcp := s.tcp + data, buf := data)
  }

  function DoPack(c: Config, s: State, d: Draws): State {
    var take := Min(|s.buf|, c.Chunk());
    var payload := s.buf[..take];
    var s' := s.(ctr := Count(c, s.ctr, payload), downCount := Bump(c, s.downCount));
    match Packed(c, s.ctr, payload, d)
    case None => Failed(s')
    case Some(blob) => s'.(held := Some(blob), buf := s.buf[take..])
  }

  /** A dummy that cannot be packed or is too long is skipped. */
  function DoDummyPack(c: Config, s: State, d: Draws): State {
    s.(ctr := Count(c, s.ctr, []), dummyCount := Bump(c, s.dummyCount), dummy := Packed(c, s.ctr, [], d))
  }

  function UpEnds(s: State, up: Up): State {
    s.(up := up.(done := true), phase := if s.phase.Running? then AfterUp else s.phase)
  }

  function Taken(up: Up, msg: Msg): Item {
    if up.pre != [] then up.pre[0] else Ws(msg)
  }

  /** `up` after a message that it accepts, writing `data`. */
  function Wrote(up: Up, item: Item, data: bytes): Up {
    Up(if up.pre != [] then up.pre[1..] else [], up.got + [item], up.written + data,
       if item.Ws? && item.msg.Ping? then Some(item.msg.data) else up.pong, up.done)
  }

  function DoReceive(c: Config, s: State, item: Item): State {
    match Accept(c, item)
    case Fail => s.(up := Wrote(s.up, item, []), phase := Done(false))
    case Write(data) =>
      var up := Wrote(s.up, item, data);
      if item == Ws(Close) then UpEnds(s, up) else s.(up := up)
  }

  function DoFeed(s: State): State
    requires s.queue != []
  {
    s.(queue := s.queue[1..], fed := s.fed + [s.queue[0]], writerDone := s.queue[0] == Close)
  }

  /** Whether the future of an event is polled and not suspended elsewhere. */
  predicate Enabled(c: Config, s: State, e: Event) {
    match e
    case TcpRead(data) => s.phase.Running? && s.buf == [] && s.held.None? && |data| <= c.ReadCap()
    case TcpError => s.phase.Running? && s.buf == [] && s.held.None? && s.pos >= |s.prefix|
    case Pack(d) => s.phase.Running? && s.buf != [] && s.held.None?
                    && DrawsOk(c, s.downCount, Min(|s.buf|, c.Chunk()), d)
    case QueueChunk => s.phase.Running? && s.held.Some? && Room(s)
    case DummyPack(d) => s.phase.Running? && s.dummy.None? && DrawsOk(c, s.dummyCount, 0, d)
    case QueueDummy => s.phase.Running? && s.dummy.Some? && Room(s)
    case Receive(_) => UpPolled(s)
    case ReceiveEnd => UpPolled(s) && s.up.pre == []
    case ReceiveError => UpPolled(s)
    case QueuePong => (s.phase.Running? || s.phase.AfterDown?) && s.up.pong.Some? && (Room(s) || s.writerDone)
    case Feed => !s.writerDone && s.queue != []
    case SendPing => !s.writerDone
    case WriterError => !s.writerDone
    case FlushReply => s.phase.AfterUp?
    case QueueClose => s.phase.AfterDown? && !s.closeQueued && Room(s)
    case Join => s.phase.AfterDown? && s.closeQueued && s.writerDone && s.up.done
    case Timeout => s.phase.AfterUp? || s.phase.AfterDown?
  }

  predicate UpPolled(s: State) {
    (s.phase.Running? || s.phase.AfterDown?) && !s.up.done && s.up.pong.None?
  }

  function Act(c: Config, s: State, e: Event): State
    requires Enabled(c, s, e)
  {
    match e
    case TcpRead(data) => DoTcpRead(c, s, data)
    case Pack(d) => DoPack(c, s, d)
    case QueueChunk => s.(queue := s.queue + [Binary(s.held.value)], held := None)
    case DummyPack(d) => DoDummyPack(c, s, d)
    case QueueDummy => s.(queue := s.queue + [Binary(s.dummy.value)], dummy := None)
    case Receive(msg) => DoReceive(c, s, Taken(s.up, msg))
    case ReceiveEnd => UpEnds(s, s.up)
    case QueuePong =>
      if s.writerDone then Failed(s)
      else s.(queue := s.queue + [Pong(s.up.pong.value)], up := s.up.(pong := None))
    case Feed => DoFeed(s)
    case SendPing => s.(fed := s.fed + [Ping([])])
    case QueueClose => s.(queue := s.queue + [Close], closeQueued := true)
    case FlushReply => s.(phase := Done(true))
    case Join => s.(phase := Done(true))
    case TcpError => Failed(s)
    case ReceiveError => Failed(s)
    case WriterError => Failed(s)
    case Timeout => Failed(s)
  }

  function Step(c: Config, s: State, e: Event): State {
    if !s.phase.Done? && Enabled(c, s, e) then Act(c, s, e) else s
  }

  ghost predicate Run(c: Config, ss: seq<State>, es: seq<Event>) {
    && |ss| == |es| + 1
    && ss[0] == Init(ss[0].prefix, ss[0].up.pre, ss[0].ctr)
    && forall i {:trigger es[i]} | 0 <= i < |es| :: ss[i + 1] == Step(c, ss[i], es[i])
  }

  // ---------------------------------------------------------------------------
  // Payloads
  // ---------------------------------------------------------------------------

  function Value(p: Option<bytes>): bytes {
    if p.Some? then p.value else []
  }

  /** TCP bytes inside one message of our own. */
  function Inner(c: Config, m: Msg): bytes {
    if m.Binary? then Value(Decode(Outgoing(c), m.blob)) else []
  }

  function Payloads(c: Config, ms: seq<Msg>): bytes {
    if ms == [] then [] else Payloads(c, ms[..|ms| - 1]) + Inner(c, ms[|ms| - 1])
  }

  lemma PayloadsSnoc(c: Config, ms: seq<Msg>, m: Msg)
    ensures Payloads(c, ms + [m]) == Payloads(c, ms) + Inner(c, m)
  {
    hide Inner;
    assert (ms + [m])[..|ms|] == ms;
  }

  lemma {:induction false} PayloadsAppend(c: Config, a: seq<Msg>, b: seq<Msg>)
    ensures Payloads(c, a + b) == Payloads(c, a) + Payloads(c, b)
  {
    hide Inner;
    if b == [] {
      assert a + b == a;
    } else {
      var (b', m) := (b[..|b| - 1], b[|b| - 1]);
      PayloadsAppend(c, a, b');
      PayloadsSnoc(c, a + b', m);
      assert a + b == (a + b') + [m];
      assert Payloads(c, b) == Payloads(c, b') + Inner(c, m);
      hide Payloads;
      Assoc(Payloads(c, a), Payloads(c, b'), Inner(c, m));
    }
  }

  /** All the TCP bytes the bridge has taken in. */
  function Source(s: State): bytes
    requires s.pos <= |s.prefix|
  {
    s.prefix[..s.pos] + s.tcp
  }

  /** Whatever is packed decodes to its payload, is no legacy status, and fits the limit. */
  predicate WellMade(c: Config, b: bytes) {
    Decode(Outgoing(c), b).Some? && !IsOpenOk(b) && DecodeOpenErr(b).None? && |b| <= c.maxWs
  }

  lemma PackedDecodes(c: Config, ctr: u64, count: nat, payload: bytes, d: Draws)
    requires c.Lawful() && DrawsOk(c, count, |payload|, d) && Packed(c, ctr, payload, d).Some?
    ensures var b := Packed(c, ctr, payload, d).value;
            WellMade(c, b) && Decode(Outgoing(c), b) == Some(payload)
  {
    PadWithinMax(c.mode, c.maxPad, |payload|, Some(count), d.draw);
    FrameReadBack(d.pad, payload);
    var frame := FrameBytes(d.pad, payload);
    if c.keys.None? {
      assert frame[0] == FRAME_VER;
      NotStatus(frame);
    } else {
      NonceShape(ctr);
      OpenUndoesSeal(c.keys.value.out, Nonce(ctr), d.decoy, frame);
      NeverLegacyStatus(c.keys.value.out, ctr, d.decoy, frame, d.pad, payload);
    }
  }

  // ---------------------------------------------------------------------------
  // Invariants
  // ---------------------------------------------------------------------------

  /** Nothing is lost, duplicated or reordered between the read buffer and the wire. */
  predicate Conserved(c: Config, s: State) {
    && s.pos <= |s.prefix|
    && (s.pos < |s.prefix| ==> s.tcp == [])
    && Payloads(c, s.fed) + (Payloads(c, s.queue) + (Pending(c, s.held) + s.buf)) == Source(s)
    && (s.dummy.Some? ==> Pending(c, s.dummy) == [])
  }

  function Pending(c: Config, blob: Option<bytes>): bytes {
    if blob.Some? then Inner(c, Binary(blob.value)) else []
  }

  predicate AllWellMade(c: Config, s: State) {
    && (forall i | 0 <= i < |s.fed| :: s.fed[i].Binary? ==> WellMade(c, s.fed[i].blob))
    && (forall i | 0 <= i < |s.queue| :: s.queue[i].Binary? ==> WellMade(c, s.queue[i].blob))
    && (s.held.Some? ==> WellMade(c, s.held.value))
    && (s.dummy.Some? ==> WellMade(c, s.dummy.value))
  }

  /** Close is queued once, after the last chunk; the writer feeds nothing after it. */
  predicate CloseLast(s: State) {
    && (s.eof ==> s.buf == [] && s.held.None? && s.pos >= |s.prefix| && !s.phase.Running?)
    && (s.closeQueued ==> s.eof)
    && (s.phase.AfterDown? ==> s.eof)
    && (Close in s.queue || Close in s.fed ==> s.closeQueued)
    && (forall i, j | 0 <= i < j < |s.queue| && s.queue[i] == Close :: !s.queue[j].Binary? && s.queue[j] != Close)
    && (s.writerDone ==> s.fed != [] && s.fed[|s.fed| - 1] == Close)
    && (Close in s.fed ==> s.writerDone && NoBinary(s.queue))
    && (forall i | 0 <= i < |s.fed| && s.fed[i] == Close :: i == |s.fed| - 1)
  }

  predicate NoBinary(ms: seq<Msg>) {
    forall i | 0 <= i < |ms| :: !ms[i].Binary? && ms[i] != Close
  }

  lemma Reassociate(fed: bytes, m: bytes, queue: bytes, rest: bytes)
    ensures fed + ((m + queue) + rest) == (fed + m) + (queue + rest)
  {
  }

  lemma QueueRegroups(c: Config, fed: seq<Msg>, queue: seq<Msg>, m: Msg, rest: bytes)
    ensures Payloads(c, fed) + (Payloads(c, queue + [m]) + rest)
         == Payloads(c, fed) + (Payloads(c, queue) + (Inner(c, m) + rest))
  {
    PayloadsSnoc(c, queue, m);
    hide Payloads, Inner;
    assert (Payloads(c, queue) + Inner(c, m)) + rest == Payloads(c, queue) + (Inner(c, m) + rest);
  }

  lemma FeedRegroups(c: Config, fed: seq<Msg>, queue: seq<Msg>, rest: bytes)
    requires queue != []
    ensures Payloads(c, fed + [queue[0]]) + (Payloads(c, queue[1..]) + rest)
         == Payloads(c, fed) + (Payloads(c, queue) + rest)
  {
    var m := queue[0];
    assert Payloads(c, [m]) == Inner(c, m) by {
      hide Inner;
      PayloadsSnoc(c, [], m);
      assert Payloads(c, []) == [];
      assert [] + [m] == [m];
    }
    hide Payloads, Inner;
    PayloadsAppend(c, [m], queue[1..]);
    PayloadsSnoc(c, fed, m);
    assert [m] + queue[1..] == queue;
    Reassociate(Payloads(c, fed), Inner(c, m), Payloads(c, queue[1..]), rest);
  }

  lemma FeedKeepsConserved(c: Config, s: State)
    requires Conserved(c, s) && s.queue != []
    ensures Conserved(c, DoFeed(s))
  {
    hide Payloads, Inner;
    FeedRegroups(c, s.fed, s.queue, Pending(c, s.held) + s.buf);
  }

  lemma ReadRegroups(fed: bytes, queue: bytes, source: bytes, data: bytes)
    requires fed + (queue + ([] + [])) == source
    ensures fed + (queue + ([] + data)) == source + data
  {
    assert fed + (queue + ([] + [])) == fed + queue;
    assert fed + (queue + ([] + data)) == (fed + queue) + data;
  }

  lemma ReadExtendsSource(c: Config, s: State, data: bytes)
    requires s.pos <= |s.prefix| && (s.pos < |s.prefix| ==> s.tcp == []) && s.buf == []
    ensures var s' := DoTcpRead(c, s, data);
            s'.pos <= |s.prefix| && Source(s') == Source(s) + s'.buf && (s'.pos < |s.prefix| ==> s'.tcp == [])
  {
    var s' := DoTcpRead(c, s, data);
    if s.pos < |s.prefix| {
      assert s.prefix[..s.pos] + s.prefix[s.pos..s'.pos] == s.prefix[..s'.pos];
    }
  }

  lemma ReadKeepsConserved(c: Config, s: State, data: bytes)
    requires Conserved(c, s) && Enabled(c, s, TcpRead(data))
    ensures Conserved(c, DoTcpRead(c, s, data))
  {
    hide Payloads, Inner;
    var s' := DoTcpRead(c, s, data);
    assert s'.fed == s.fed && s'.queue == s.queue && s'.held == s.held && s'.dummy == s.dummy && s'.prefix == s.prefix;
    ReadExtendsSource(c, s, data);
    hide DoTcpRead;
    assert Pending(c, s.held) == [] && s.buf == [];
    ReadRegroups(Payloads(c, s.fed), Payloads(c, s.queue), Source(s), s'.buf);
    hide Pending, Source;
  }

  lemma PackKeepsConserved(c: Config, s: State, d: Draws)
    requires c.Lawful() && Conserved(c, s) && Enabled(c, s, Pack(d))
    ensures Conserved(c, DoPack(c, s, d))
  {
    var take := Min(|s.buf|, c.Chunk());
    var payload := s.buf[..take];
    if Packed(c, s.ctr, payload, d).Some? {
      PackedDecodes(c, s.ctr, s.downCount, payload, d);
      assert [] + s.buf == payload + s.buf[take..];
    }
    hide Payloads, Packed, Decode;
  }

  lemma DummyKeepsConserved(c: Config, s: State, d: Draws)
    requires c.Lawful() && Conserved(c, s) && Enabled(c, s, DummyPack(d))
    ensures Conserved(c, DoDummyPack(c, s, d))
  {
    if Packed(c, s.ctr, [], d).Some? {
      PackedDecodes(c, s.ctr, s.dummyCount, [], d);
    }
    hide Payloads, Packed, Decode;
  }

  /** The fields `Conserved` speaks of, apart from the queue, the held blobs and what is fed. */
  predicate SameSource(s: State, s': State) {
    s'.prefix == s.prefix && s'.pos == s.pos && s'.tcp == s.tcp && s'.buf == s.buf
  }

  lemma QueuedKeepsConserved(c: Config, s: State, s': State, m: Msg)
    requires Conserved(c, s) && SameSource(s, s') && s'.fed == s.fed && s'.queue == s.queue + [m]
    requires s'.dummy == s.dummy || s'.dummy.None?
    requires if s'.held == s.held then Inner(c, m) == [] else m.Binary? && s.held == Some(m.blob) && s'.held.None?
    ensures Conserved(c, s')
  {
    hide Payloads, Decode, Outgoing;
    var rest := Pending(c, s'.held) + s.buf;
    assert Inner(c, m) + rest == Pending(c, s.held) + s.buf;
    QueueRegroups(c, s.fed, s.queue, m, rest);
  }

  lemma PingKeepsConserved(c: Config, s: State, s': State)
    requires Conserved(c, s) && s' == s.(fed := s.fed + [Ping([])])
    ensures Conserved(c, s')
  {
    PayloadsSnoc(c, s.fed, Ping([]));
    hide Payloads, Pending;
    assert Payloads(c, s.fed) + [] == Payloads(c, s.fed);
  }

  predicate SameStream(s: State, s': State) {
    SameSource(s, s') && s'.fed == s.fed && s'.queue == s.queue && s'.held == s.held && s'.dummy == s.dummy
  }

  lemma SameKeepsConserved(c: Config, s: State, s': State)
    requires Conserved(c, s) && SameStream(s, s')
    ensures Conserved(c, s')
  {
    hide Payloads, Pending;
  }

  lemma ReceiveSame(c: Config, s: State, item: Item)
    ensures SameStream(s, DoReceive(c, s, item))
  {
    hide Accept, Wrote;
  }

  /** Steps that touch the outgoing stream. */
  predicate Moves(e: Event) {
    e.TcpRead? || e.Pack? || e.QueueChunk? || e.DummyPack? || e.QueueDummy? || e.QueuePong? || e.QueueClose? || e.Feed?
    || e.SendPing?
  }

  lemma QuietSame(c: Config, s: State, e: Event)
    requires !Moves(e) && Enabled(c, s, e)
    ensures SameStream(s, Act(c, s, e))
  {
    if e.Receive? { ReceiveSame(c, s, Taken(s.up, e.msg)); }
    hide DoReceive;
  }

  lemma DownKeepsConserved(c: Config, s: State, e: Event)
    requires c.Lawful() && Conserved(c, s) && Enabled(c, s, e)
    requires e.TcpRead? || e.Pack? || e.DummyPack? || e.Feed? || e.SendPing?
    ensures Conserved(c, Act(c, s, e))
  {
    hide Conserved, DoPack, DoDummyPack, DoTcpRead, DoFeed;
    match e {
      case TcpRead(data) => ReadKeepsConserved(c, s, data);
      case Pack(d) => PackKeepsConserved(c, s, d);
      case DummyPack(d) => DummyKeepsConserved(c, s, d);
      case Feed => FeedKeepsConserved(c, s);
      case SendPing => PingKeepsConserved(c, s, Act(c, s, e));
    }
  }

  lemma QueueKeepsConserved(c: Config, s: State, e: Event)
    requires Conserved(c, s) && Enabled(c, s, e)
    requires e.QueueChunk? || e.QueueDummy? || e.QueuePong? || e.QueueClose?
    ensures Conserved(c, Act(c, s, e))
  {
    assert s.dummy.Some? ==> Inner(c, Binary(s.dummy.value)) == [];
    hide Conserved, Decode;
    var s' := Act(c, s, e);
    match e {
      case QueueChunk => QueuedKeepsConserved(c, s, s', Binary(s.held.value));
      case QueueDummy => QueuedKeepsConserved(c, s, s', Binary(s.dummy.value));
      case QueueClose => QueuedKeepsConserved(c, s, s', Close);
      case QueuePong =>
        if s.writerDone {
          SameKeepsConserved(c, s, s');
        } else {
          QueuedKeepsConserved(c, s, s', Pong(s.up.pong.value));
        }
    }
  }

  lemma StepKeepsConserved(c: Config, s: State, e: Event)
    requires c.Lawful() && Conserved(c, s)
    ensures Conserved(c, Step(c, s, e))
  {
    hide Conserved, Act;
    if !s.phase.Done? && Enabled(c, s, e) {
      hide Enabled;
      if !Moves(e) {
        QuietSame(c, s, e);
        SameKeepsConserved(c, s, Act(c, s, e));
      } else if e.QueueChunk? || e.QueueDummy? || e.QueuePong? || e.QueueClose? {
        QueueKeepsConserved(c, s, e);
      } else {
        DownKeepsConserved(c, s, e);
      }
    }
  }
}
