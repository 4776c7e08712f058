/** Credit-based flow control of one multiplexed stream (`tcp_mux_flow.rs`).

    `Flow` holds both halves of one end of a stream. The second part of the module joins
    the sending half of one end to the receiving half of the other and lets every task
    of both ends, and both directions of the wire, move in any order. */
module MuxFlow {
  import opened Prelude
  import opened Bytes

  const MAX_QUEUED_RECORDS: nat := 8192
  const MAX_PEER_WINDOW: nat := 0x100_0000

  datatype Flow = Flow(
    negotiated: bool, sendLimit: nat, receiveLimit: nat,
    available: int, queue: seq<bytes>, queued: int, credit: int, fin: bool, cancelled: bool)

  function NewFlow(peerWindow: Option<nat>, localWindow: nat): Flow {
    var limit := if peerWindow.Some? then peerWindow.value else 0;
    Flow(peerWindow.Some?, limit, localWindow, limit, [], 0, localWindow, false, false)
  }

  /** The test that refuses a DATA record. */
  predicate ReceiveRefused(f: Flow, payload: bytes) {
    || |payload| > f.credit
    || f.queued + |payload| > f.receiveLimit
    || |f.queue| >= MAX_QUEUED_RECORDS
  }

  function Enqueued(f: Flow, payload: bytes, fin: bool): Option<Flow> {
    if f.fin || f.cancelled then None
    else if payload == [] then Some(f.(fin := fin))
    else if ReceiveRefused(f, payload) then None
    else Some(f.(credit := f.credit - |payload|, queued := f.queued + |payload|,
                 queue := f.queue + [payload], fin := fin))
  }

  function ConsumedFlow(f: Flow, n: nat): Flow {
    f.(queued := f.queued - n, credit := if f.negotiated then f.credit else f.credit + n)
  }

  /** Raising the receive allowance before the WIN record is handed to the writer. */
  function Published(f: Flow, amount: nat): Option<Flow> {
    if f.credit + amount > U32_MAX || f.credit + amount > f.receiveLimit then None
    else Some(f.(credit := f.credit + amount))
  }

  function Credited(f: Flow, payload: bytes): Option<Flow> {
    if !f.negotiated then Some(f)
    else if |payload| != 4 then None
    else
      var amount := U32(payload[0], payload[1], payload[2], payload[3]);
      if amount == 0 || amount > f.sendLimit - f.available then None
      else Some(f.(available := f.available + amount))
  }

  /** How much of `requested` may be sent now; 0 means wait for credit. */
  function Grant(f: Flow, requested: nat): int {
    if !f.negotiated then requested else Min(requested, f.available)
  }

  function Taken(f: Flow, requested: nat): Flow {
    if !f.negotiated then f else f.(available := f.available - Min(requested, f.available))
  }

  type u32 = x: int | 0 <= x <= 0xFFFF_FFFF

  /** One end of a stream, changed in place under its two mutexes. The counters are unsigned:
      every subtraction below is also a claim that it does not wrap. */
  class FlowObject {
    const negotiated: bool
    const sendLimit: u32
    const receiveLimit: u32
    var available: u32
    var queue: seq<bytes>
    var queued: nat
    var credit: u32
    var fin: bool
    var cancelled: bool
    ghost var held: nat   // dequeued, not yet written
    ghost var owed: nat   // written, not yet granted back

    function State(): Flow reads this {
      Flow(negotiated, sendLimit, receiveLimit, available, queue, queued, credit, fin, cancelled)
    }

    /** What every method keeps: windows within their limits, and the byte count of the
        receive side is that of the queue and of what its reader still holds. */
    ghost predicate Valid() reads this {
      && available <= sendLimit && credit <= receiveLimit && queued <= receiveLimit
      && |queue| <= MAX_QUEUED_RECORDS
      && (if cancelled then queue == [] && held <= queued else queued == |Concat(queue)| + held)
      && (!negotiated ==> owed == 0 && Balanced())
    }

    /** The receive window is split between credit, held bytes and what is owed. */
    ghost predicate Balanced() reads this {
      credit + queued + owed == receiveLimit
    }

    constructor (peerWindow: Option<u32>, localWindow: u32)
      ensures Valid() && Balanced() && held == 0 && queue == []
      ensures State() == NewFlow(peerWindow, localWindow)
    {
      var limit := if peerWindow.Some? then peerWindow.value else 0;
      negotiated, sendLimit, receiveLimit := peerWindow.Some?, limit, localWindow;
      available, queue, queued, credit, fin, cancelled := limit, [], 0, localWindow, false, false;
      held, owed := 0, 0;
    }

    /** An accepted record goes to the end of the queue and is paid for; a refused one changes
        nothing. With the window balanced, credit and the record count alone decide. */
    method Enqueue(payload: bytes, fin: bool) returns (ok: bool)
      requires Valid()
      modifies this
      ensures Valid() && held == old(held) && owed == old(owed)
      ensures ok == Enqueued(old(State()), payload, fin).Some?
      ensures State() == if ok then Enqueued(old(State()), payload, fin).value else old(State())
      ensures Concat(queue) == Concat(old(queue)) + if ok then payload else []
      ensures old(Balanced()) ==>
                && Balanced()
                && (ok <==> !old(this.fin) && !old(cancelled) &&
                            (payload == [] || (|payload| <= old(credit) && |old(queue)| < MAX_QUEUED_RECORDS)))
    {
      assert Concat(queue) + [] == Concat(queue);
      if this.fin || cancelled { return false; }
      if payload != [] {
        if |payload| > credit || queued + |payload| > receiveLimit || |queue| >= MAX_QUEUED_RECORDS {
          return false;
        }
        credit := credit - |payload|;
        queued := queued + |payload|;
        ConcatAppend(queue, payload);
        queue := queue + [payload];
      }
      this.fin := fin;
      return true;
    }

    /** The ready case of `receive`: the oldest record leaves the queue but stays counted. */
    method Receive() returns (data: Option<bytes>)
      requires Valid()
      modifies this
      ensures Valid() && queued == old(queued) && credit == old(credit) && owed == old(owed)
      ensures available == old(available) && fin == old(fin) && cancelled == old(cancelled)
      ensures data.None? <==> old(queue) == []
      ensures if data.None? then queue == [] && held == old(held)
              else old(queue) == [data.value] + queue && held == old(held) + |data.value|
    {
      if queue == [] { return None; }
      data := Some(queue[0]);
      held := held + |queue[0]|;
      queue := queue[1..];
    }

    /** Written bytes free their place, which never wraps; they become owed, or credit at once
        when nothing was negotiated. */
    method Consumed(n: nat)
      requires Valid() && n <= held
      modifies this
      ensures Valid() && State() == ConsumedFlow(old(State()), n)
      ensures held == old(held) - n && owed == old(owed) + (if negotiated then n else 0)
      ensures old(Balanced()) ==> Balanced()
    {
      queued := queued - n;
      held := held - n;
      if negotiated {
        owed := owed + n;
      } else {
        credit := credit + n;
      }
    }

    /** Granting back no more than is owed is never refused. */
    method PublishCredit(amount: u32) returns (ok: bool)
      requires Valid() && negotiated
      modifies this
      ensures Valid() && held == old(held)
      ensures ok == Published(old(State()), amount).Some?
      ensures State() == if ok then Published(old(State()), amount).value else old(State())
      ensures old(Balanced()) && amount <= old(owed) ==> ok && Balanced() && owed == old(owed) - amount
    {
      var raised := credit + amount;
      if raised > U32_MAX || raised > receiveLimit { return false; }
      credit := raised;
      owed := SatSub(owed, amount);
      return true;
    }

    /** A WIN record raises the window by what it says, never above the limit. */
    method AddCredit(payload: bytes) returns (ok: bool)
      requires Valid()
      modifies this
      ensures Valid() && held == old(held) && owed == old(owed)
      ensures ok == Credited(old(State()), payload).Some?
      ensures State() == if ok then Credited(old(State()), payload).value else old(State())
      ensures negotiated ==> (ok <==> |payload| == 4 && 0 < WinValue(payload) <= sendLimit - old(available))
      ensures negotiated && ok ==> available == old(available) + WinValue(payload) <= sendLimit
      ensures !negotiated ==> ok && available == old(available)
    {
      if !negotiated { return true; }
      if |payload| != 4 { return false; }
      var amount := U32(payload[0], payload[1], payload[2], payload[3]);
      if amount == 0 || amount > sendLimit - available { return false; }
      available := available + amount;
      return true;
    }

    /** What is granted is taken from the window; less than asked only if the window is empty
        then. A grant of zero is the waiting case. */
    method TryTakeCredit(requested: nat) returns (amount: nat)
      requires Valid()
      modifies this
      ensures Valid() && held == old(held) && owed == old(owed)
      ensures amount == Grant(old(State()), requested) && State() == Taken(old(State()), requested)
      ensures amount <= requested && (negotiated ==> amount + available == old(available))
      ensures amount < requested ==> negotiated && available == 0
    {
      if !negotiated { return requested; }
      amount := Min(requested, available);
      available := available - amount;
    }

    method Cancel()
      requires Valid()
      modifies this
      ensures Valid() && cancelled && queue == [] && queued == old(queued) && held == old(held)
      ensures available == old(available) && credit == old(credit) && owed == old(owed)
    {
      cancelled := true;
      queue := [];
    }
  }

  // ---------------------------------------------------------------------------
  // One direction of a negotiated stream
  // ---------------------------------------------------------------------------

  datatype Record = Data(payload: bytes) | Close

  /** The receiving pump: waiting, writing a dequeued chunk, or about to decide on a WIN. */
  datatype Pump = Idle | Writing(chunk: bytes) | Settling | Finished

  datatype Stream = Stream(
    window: nat,
    source: bytes,        // everything read from the sending socket so far
    buffer: bytes,        // read, not yet covered by credit
    hand: bytes,          // covered by credit, waiting for the output queue
    eof: bool,
    sender: Flow,
    data: seq<Record>,    // DATA and CLOSE records on their way, oldest first
    receiver: Flow,
    pump: Pump,
    pending: nat,         // consumed, not yet granted back
    wins: seq<bytes>,     // WIN payloads on their way back
    delivered: bytes,     // written to the receiving socket
    reset: bool)

  ghost predicate Initial(s: Stream) {
    && 0 < s.window <= MAX_PEER_WINDOW
    && s == Stream(s.window, [], [], [], false, NewFlow(Some(s.window), s.sender.receiveLimit), [],
                   NewFlow(Some(s.receiver.sendLimit), s.window), Idle, 0, [], [], false)
  }

  datatype Action =
    | Read(chunk: bytes) | ReadEof | Take | Send
    | Deliver | Dequeue | Written | Settle | Shutdown | Credit

  predicate Enabled(s: Stream, a: Action) {
    && !s.reset
    && match a
       case Read(chunk) => s.buffer == [] && s.hand == [] && !s.eof && chunk != []
       case ReadEof => s.buffer == [] && s.hand == [] && !s.eof
       case Take => s.buffer != [] && s.hand == [] && Grant(s.sender, |s.buffer|) > 0
       case Send => s.hand != []
       case Deliver => s.data != []
       case Dequeue => s.pump.Idle? && s.receiver.queue != []
       case Written => s.pump.Writing?
       case Settle => s.pump.Settling?
       case Shutdown => s.pump.Idle? && s.receiver.queue == [] && s.receiver.fin
       case Credit => s.wins != []
  }

  function DoRead(s: Stream, chunk: bytes): Stream {
    s.(source := s.source + chunk, buffer := chunk)
  }

  function DoReadEof(s: Stream): Stream {
    s.(eof := true, data := s.data + [Close])
  }

  function DoTake(s: Stream): Stream
    requires 0 <= Grant(s.sender, |s.buffer|)
  {
    var n := Grant(s.sender, |s.buffer|);
    s.(hand := s.buffer[..n], buffer := s.buffer[n..], sender := Taken(s.sender, |s.buffer|))
  }

  function DoSend(s: Stream): Stream {
    s.(data := s.data + [Data(s.hand)], hand := [])
  }

  function Received(f: Flow, r: Record): Option<Flow> {
    match r
    case Data(p) => Enqueued(f, p, false)
    case Close => Enqueued(f, [], true)
  }

  function DoDeliver(s: Stream): Stream
    requires s.data != []
  {
    match Received(s.receiver, s.data[0])
    case Some(f) => s.(data := s.data[1..], receiver := f)
    case None => s.(data := s.data[1..], reset := true)
  }

  function DoDequeue(s: Stream): Stream
    requires s.receiver.queue != []
  {
    s.(pump := Writing(s.receiver.queue[0]), receiver := s.receiver.(queue := s.receiver.queue[1..]))
  }

  function DoWritten(s: Stream): Stream
    requires s.pump.Writing?
  {
    var n := |s.pump.chunk|;
    s.(delivered := s.delivered + s.pump.chunk, receiver := ConsumedFlow(s.receiver, n),
       pending := s.pending + n, pump := Settling)
  }

  function DoSettle(s: Stream): Stream {
    if s.pending >= s.receiver.receiveLimit / 8 || s.receiver.queue == [] then
      match Published(s.receiver, s.pending)
      case Some(f) => s.(receiver := f, wins := s.wins + [Be32(s.pending)], pending := 0, pump := Idle)
      case None => s.(reset := true)
    else s.(pump := Idle)
  }

  function DoCredit(s: Stream): Stream
    requires s.wins != []
  {
    match Credited(s.sender, s.wins[0])
    case Some(f) => s.(sender := f, wins := s.wins[1..])
    case None => s.(wins := s.wins[1..], reset := true)
  }

  function Apply(s: Stream, a: Action): Stream
    requires Enabled(s, a)
  {
    match a
    case Read(chunk) => DoRead(s, chunk)
    case ReadEof => DoReadEof(s)
    case Take => DoTake(s)
    case Send => DoSend(s)
    case Deliver => DoDeliver(s)
    case Dequeue => DoDequeue(s)
    case Written => DoWritten(s)
    case Settle => DoSettle(s)
    case Shutdown => s.(pump := Finished)
    case Credit => DoCredit(s)
  }

  // ---------------------------------------------------------------------------
  // Conservation
  // ---------------------------------------------------------------------------

  function Payloads(data: seq<Record>): bytes {
    if data == [] then []
    else (match data[0] case Data(p) => p case Close => []) + Payloads(data[1..])
  }

  function WinValue(p: bytes): nat {
    if |p| == 4 then U32(p[0], p[1], p[2], p[3]) else 0
  }

  function WinTotal(wins: seq<bytes>): nat {
    if wins == [] then 0 else WinValue(wins[0]) + WinTotal(wins[1..])
  }

  function InPump(s: Stream): bytes {
    if s.pump.Writing? then s.pump.chunk else []
  }

  /** No byte is lost, duplicated or reordered between the two sockets. */
  ghost predicate BytesConserved(s: Stream) {
    s.source == s.delivered + Undelivered(s)
  }

  /** Everything read and not yet written, nearest to the receiving socket first. */
  function Undelivered(s: Stream): bytes {
    InPump(s) + (Concat(s.receiver.queue) + (Payloads(s.data) + (s.hand + s.buffer)))
  }

  /** The window is split between the sender, the wire, the receiver and the way back. */
  ghost predicate CreditConserved(s: Stream) {
    && s.sender.available + |s.hand| + |Payloads(s.data)| + WinTotal(s.wins) == s.receiver.credit
    && s.receiver.credit + s.receiver.queued + s.pending == s.window
    && s.receiver.queued == |Concat(s.receiver.queue)| + |InPump(s)|
    && 0 <= s.sender.available
  }

  /** CLOSE is the last record, is sent once, and stops the receive queue. */
  ghost predicate CloseOrdered(s: Stream) {
    && (forall i | 0 <= i < |s.data| - 1 :: s.data[i].Data?)
    && (s.receiver.fin ==> s.data == [] && s.eof)
    && (s.data != [] && s.data[|s.data| - 1].Close? ==> s.eof)
    && (s.eof ==> s.buffer == [] && s.hand == []
                  && (s.receiver.fin || (s.data != [] && s.data[|s.data| - 1].Close?)))
    && (s.pump.Finished? ==> s.receiver.fin && s.receiver.queue == [])
  }

  ghost predicate Shapes(s: Stream) {
    && 0 < s.window <= MAX_PEER_WINDOW
    && s.sender.negotiated && s.sender.sendLimit == s.window
    && s.receiver.negotiated && s.receiver.receiveLimit == s.window && !s.receiver.cancelled
    && (forall i | 0 <= i < |s.data| :: s.data[i].Data? ==> s.data[i].payload != [])
    && (forall i | 0 <= i < |s.receiver.queue| :: s.receiver.queue[i] != [])
    && (forall i | 0 <= i < |s.wins| :: |s.wins[i]| == 4 && WinValue(s.wins[i]) > 0)
    && (s.pump.Writing? ==> s.pump.chunk != [])
    && (s.pump.Settling? ==> s.pending > 0)
    && ((s.pump.Idle? || s.pump.Finished?) && s.pending > 0 ==> s.receiver.queue != [])
    && |s.receiver.queue| <= MAX_QUEUED_RECORDS
  }

  ghost predicate Inv(s: Stream) {
    Shapes(s) && BytesConserved(s) && CreditConserved(s) && CloseOrdered(s)
  }

  lemma {:induction false} PayloadsAppend(data: seq<Record>, r: Record)
    ensures Payloads(data + [r]) == Payloads(data) + match r case Data(p) => p case Close => []
  {
    if data == [] {
      assert data + [r] == [r];
    } else {
      PayloadsAppend(data[1..], r);
      assert (data + [r])[1..] == data[1..] + [r];
      var a := match data[0] case Data(p) => p case Close => [];
      var z := match r case Data(p) => p case Close => [];
      assert Payloads(data) == a + Payloads(data[1..]) && Payloads(data + [r]) == a + Payloads(data[1..] + [r]);
      hide Payloads;
      Assoc(a, Payloads(data[1..]), z);
    }
  }

  lemma {:induction false} WinTotalAppend(wins: seq<bytes>, p: bytes)
    ensures WinTotal(wins + [p]) == WinTotal(wins) + WinValue(p)
  {
    if wins == [] {
      assert wins + [p] == [p];
    } else {
      WinTotalAppend(wins[1..], p);
      assert (wins + [p])[1..] == wins[1..] + [p];
    }
  }

  lemma ReadKeepsInv(s: Stream, chunk: bytes)
    requires Inv(s) && s.buffer == [] && s.hand == [] && !s.eof
    ensures Inv(DoRead(s, chunk)) && DoRead(s, chunk).reset == s.reset
  {
    hide Payloads, Concat, WinTotal;
    var t := DoRead(s, chunk);
    assert t.hand + t.buffer == (s.hand + s.buffer) + chunk;
    Regroup4(InPump(s), Concat(s.receiver.queue), Payloads(s.data), s.hand + s.buffer, chunk);
    assert Undelivered(t) == Undelivered(s) + chunk;
    assert s.delivered + (Undelivered(s) + chunk) == (s.delivered + Undelivered(s)) + chunk;
  }

  lemma Regroup4(a: bytes, b: bytes, c: bytes, d: bytes, e: bytes)
    ensures a + (b + (c + (d + e))) == (a + (b + (c + d))) + e
  {
  }

  lemma Shift(a: bytes, p: bytes, b: bytes, rest: bytes)
    ensures (a + p) + (b + rest) == a + ((p + b) + rest)
  {
  }

  lemma ReadEofKeepsInv(s: Stream)
    requires Inv(s) && s.buffer == [] && s.hand == [] && !s.eof
    ensures Inv(DoReadEof(s)) && DoReadEof(s).reset == s.reset
  {
    PayloadsAppend(s.data, Close);
    hide Payloads, Concat, WinTotal;
    assert Payloads(s.data) + [] == Payloads(s.data);
  }

  lemma TakeKeepsInv(s: Stream)
    requires Inv(s) && s.buffer != [] && s.hand == [] && Grant(s.sender, |s.buffer|) > 0
    ensures Inv(DoTake(s)) && DoTake(s).reset == s.reset
  {
    hide Payloads, Concat, WinTotal;
    var n := Grant(s.sender, |s.buffer|);
    assert s.hand + s.buffer == s.buffer[..n] + s.buffer[n..];
  }

  lemma SendKeepsInv(s: Stream)
    requires Inv(s) && s.hand != []
    ensures Inv(DoSend(s)) && DoSend(s).reset == s.reset
  {
    PayloadsAppend(s.data, Data(s.hand));
    hide Payloads, Concat, WinTotal;
    assert (Payloads(s.data) + s.hand) + ([] + s.buffer) == Payloads(s.data) + (s.hand + s.buffer);
  }

  lemma DataHead(data: seq<Record>)
    requires data != []
    ensures Payloads(data) == (match data[0] case Data(p) => p case Close => []) + Payloads(data[1..])
  {
  }

  /** With the books balanced, only the record count of the queue can refuse a delivery. */
  lemma DeliverRefusedExactly(s: Stream)
    requires Inv(s) && s.data != []
    ensures Received(s.receiver, s.data[0]).None? <==>
            s.data[0].Data? && |s.receiver.queue| == MAX_QUEUED_RECORDS
  {
    DataHead(s.data);
    hide Payloads, Concat, WinTotal, BytesConserved;
    assert !s.receiver.fin;
  }

  lemma DeliverKeepsBytes(s: Stream)
    requires BytesConserved(s) && s.data != [] && Received(s.receiver, s.data[0]).Some?
    requires s.data[0].Data? ==> s.data[0].payload != []
    ensures BytesConserved(DoDeliver(s))
  {
    DataHead(s.data);
    var rest := s.hand + s.buffer;
    if s.data[0].Data? {
      ConcatAppend(s.receiver.queue, s.data[0].payload);
      hide Payloads, Concat;
      Shift(Concat(s.receiver.queue), s.data[0].payload, Payloads(s.data[1..]), rest);
    } else {
      hide Payloads, Concat;
      assert [] + Payloads(s.data[1..]) == Payloads(s.data[1..]);
    }
  }

  lemma DeliverKeepsCredit(s: Stream)
    requires CreditConserved(s) && s.data != [] && Received(s.receiver, s.data[0]).Some?
    requires s.data[0].Data? ==> s.data[0].payload != []
    ensures CreditConserved(DoDeliver(s))
  {
    DataHead(s.data);
    if s.data[0].Data? { ConcatAppend(s.receiver.queue, s.data[0].payload); }
    hide Payloads, Concat, WinTotal;
  }

  lemma DeliverKeepsShapes(s: Stream)
    requires Shapes(s) && CloseOrdered(s) && s.data != [] && Received(s.receiver, s.data[0]).Some?
    ensures Shapes(DoDeliver(s)) && CloseOrdered(DoDeliver(s))
  {
    var t := DoDeliver(s);
    assert forall i | 0 <= i < |t.data| :: t.data[i] == s.data[i + 1];
    assert s.data[|s.data| - 1].Close? && |s.data| > 1 ==> t.data[|t.data| - 1].Close?;
  }

  lemma DeliverKeepsInv(s: Stream)
    requires Inv(s) && s.data != [] && !s.reset
    ensures DoDeliver(s).reset <==> s.data[0].Data? && |s.receiver.queue| == MAX_QUEUED_RECORDS
    ensures !DoDeliver(s).reset ==> Inv(DoDeliver(s))
  {
    DeliverRefusedExactly(s);
    if Received(s.receiver, s.data[0]).Some? {
      DeliverKeepsBytes(s);
      DeliverKeepsCredit(s);
      DeliverKeepsShapes(s);
    }
    hide Shapes, BytesConserved, CreditConserved, CloseOrdered, Received;
  }

  lemma ShutdownKeepsInv(s: Stream)
    requires Inv(s) && s.pump.Idle? && s.receiver.queue == [] && s.receiver.fin
    ensures Inv(s.(pump := Finished))
  {
    hide Payloads, Concat, WinTotal;
    assert Undelivered(s.(pump := Finished)) == Undelivered(s);
  }

  lemma DequeueKeepsInv(s: Stream)
    requires Inv(s) && s.pump.Idle? && s.receiver.queue != []
    ensures Inv(DoDequeue(s)) && DoDequeue(s).reset == s.reset
  {
    var q := s.receiver.queue;
    assert Concat(q) == q[0] + Concat(q[1..]);
    var rest := Payloads(s.data) + (s.hand + s.buffer);
    hide Payloads, Concat, WinTotal;
    assert q[0] + (Concat(q[1..]) + rest) == [] + ((q[0] + Concat(q[1..])) + rest);
  }

  lemma WrittenKeepsInv(s: Stream)
    requires Inv(s) && s.pump.Writing?
    ensures Inv(DoWritten(s)) && DoWritten(s).reset == s.reset
  {
    var rest := Concat(s.receiver.queue) + (Payloads(s.data) + (s.hand + s.buffer));
    hide Payloads, Concat, WinTotal;
    assert s.delivered + (s.pump.chunk + rest) == (s.delivered + s.pump.chunk) + ([] + rest);
  }

  lemma SettlePays(s: Stream)
    requires 0 < s.pending <= MAX_PEER_WINDOW
    ensures |Be32(s.pending)| == 4 && WinValue(Be32(s.pending)) == s.pending
    ensures WinTotal(s.wins + [Be32(s.pending)]) == WinTotal(s.wins) + s.pending
  {
    hide Be32, U32;
    Be32Exact(s.pending);
    hide WinTotal;
    WinTotalAppend(s.wins, Be32(s.pending));
  }

  lemma SettleKeepsBytes(s: Stream)
    requires Inv(s) && s.pump.Settling?
    ensures DoSettle(s).reset == s.reset
    ensures BytesConserved(DoSettle(s)) && CloseOrdered(DoSettle(s))
  {
    hide Payloads, Concat, WinTotal, Be32;
    assert Undelivered(DoSettle(s)) == Undelivered(s);
  }

  lemma SettleKeepsCredit(s: Stream)
    requires Shapes(s) && CreditConserved(s) && s.pump.Settling?
    ensures CreditConserved(DoSettle(s))
  {
    hide Payloads, Concat, WinTotal, WinValue, Be32, U32;
    SettlePays(s);
  }

  lemma PendingBounded(s: Stream)
    requires Shapes(s) && CreditConserved(s)
    ensures s.pending <= MAX_PEER_WINDOW
  {
  }

  lemma SettleKeepsShapes(s: Stream)
    requires Shapes(s) && CreditConserved(s) && s.pump.Settling?
    ensures Shapes(DoSettle(s))
  {
    hide CreditConserved, WinTotal, WinValue, Be32;
    PendingBounded(s);
    SettlePays(s);
  }

  lemma SettleKeepsInv(s: Stream)
    requires Inv(s) && s.pump.Settling?
    ensures Inv(DoSettle(s)) && DoSettle(s).reset == s.reset
  {
    hide DoSettle, Shapes, BytesConserved, CreditConserved, CloseOrdered;
    SettleKeepsBytes(s);
    SettleKeepsCredit(s);
    SettleKeepsShapes(s);
  }

  /** The sender always accepts the credit it is given back. */
  lemma CreditKeepsInv(s: Stream)
    requires Inv(s) && s.wins != []
    ensures Inv(DoCredit(s)) && DoCredit(s).reset == s.reset
  {
    assert WinTotal(s.wins) == WinValue(s.wins[0]) + WinTotal(s.wins[1..]);
    hide Payloads, Concat, WinTotal;
  }

  // ---------------------------------------------------------------------------
  // Runs
  // ---------------------------------------------------------------------------

  ghost predicate Run(ss: seq<Stream>, acts: seq<Action>) {
    && |ss| == |acts| + 1 && Initial(ss[0])
    && forall i {:trigger acts[i]} | 0 <= i < |acts| :: Enabled(ss[i], acts[i]) && ss[i + 1] == Apply(ss[i], acts[i])
  }

  lemma StepKeepsInv(s: Stream, a: Action)
    requires Inv(s) && Enabled(s, a)
    ensures !Apply(s, a).reset ==> Inv(Apply(s, a))
    ensures Apply(s, a).reset <==> a.Deliver? && s.data[0].Data? && |s.receiver.queue| == MAX_QUEUED_RECORDS
  {
    hide Inv, DoRead, DoReadEof, DoTake, DoSend, DoDequeue, DoWritten, DoSettle, DoCredit;
    match a
    case Read(chunk) => ReadKeepsInv(s, chunk);
    case ReadEof => ReadEofKeepsInv(s);
    case Take => TakeKeepsInv(s);
    case Send => SendKeepsInv(s);
    case Deliver => DeliverKeepsInv(s);
    case Dequeue => DequeueKeepsInv(s);
    case Written => WrittenKeepsInv(s);
    case Settle => SettleKeepsInv(s);
    case Shutdown => ShutdownKeepsInv(s);
    case Credit => CreditKeepsInv(s);
  }

  lemma {:induction false} RunKeepsInv(ss: seq<Stream>, acts: seq<Action>, i: nat)
    requires Run(ss, acts) && i < |ss| && !ss[i].reset
    ensures Inv(ss[i])
  {
    hide Inv, Apply, Initial;
    if i == 0 {
      InitialInv(ss[0]);
    } else {
      assert Enabled(ss[i - 1], acts[i - 1]);
      RunKeepsInv(ss, acts, i - 1);
      StepKeepsInv(ss[i - 1], acts[i - 1]);
    }
  }

  lemma InitialInv(s: Stream)
    requires Initial(s)
    ensures Inv(s)
  {
  }

  /** In every interleaving of two honest ends, a stream is reset by flow control exactly
      when a DATA record meets a queue that already holds `MAX_QUEUED_RECORDS` records;
      the byte windows and the credit increments never disagree. */
  lemma ResetExactly(ss: seq<Stream>, acts: seq<Action>, i: nat)
    requires Run(ss, acts) && i < |acts|
    ensures ss[i + 1].reset <==>
            acts[i].Deliver? && ss[i].data[0].Data? && |ss[i].receiver.queue| == 8192
  {
    assert Enabled(ss[i], acts[i]);
    RunKeepsInv(ss, acts, i);
    StepKeepsInv(ss[i], acts[i]);
  }

  /** What the receiving socket gets is always a prefix of what the sending socket gave,
      and the whole of it once the receiver has shut its socket down. */
  lemma {:induction false} DeliveredInOrder(ss: seq<Stream>, acts: seq<Action>, i: nat)
    requires Run(ss, acts) && i < |ss|
    ensures ss[i].delivered <= ss[i].source
    ensures !ss[i].reset && ss[i].pump.Finished? ==> ss[i].eof && ss[i].delivered == ss[i].source
  {
    if !ss[i].reset {
      RunKeepsInv(ss, acts, i);
    } else {
      var s := ss[i - 1];
      assert Enabled(s, acts[i - 1]) && ss[i] == Apply(s, acts[i - 1]);
      DeliveredInOrder(ss, acts, i - 1);
    }
  }

  /** Credit is never lost: with nothing on the wire and an idle receiver, the sender
      holds the whole window again. */
  lemma QuiescentHasFullWindow(s: Stream)
    requires Inv(s) && s.hand == [] && s.data == [] && s.wins == []
    requires s.pump.Idle? && s.receiver.queue == []
    ensures s.sender.available == s.window > 0
  {
  }

  /** A sender with bytes to send never waits for ever on lost credit: some task of one of
      the two ends can move without reading more input. */
  lemma SenderNeverStuck(s: Stream) returns (a: Action)
    requires Inv(s) && !s.reset && (s.buffer != [] || s.hand != [])
    ensures Enabled(s, a) && !a.Read? && !a.ReadEof?
  {
    if s.hand != [] { return Send; }
    if s.sender.available > 0 { return Take; }
    if s.data != [] { return Deliver; }
    if s.wins != [] { return Credit; }
    match s.pump
    case Writing(_) => return Written;
    case Settling => return Settle;
    case Idle =>
      if s.receiver.queue == [] { QuiescentHasFullWindow(s); }
      return Dequeue;
    case Finished => assert false;
  }

  // ---------------------------------------------------------------------------
  // Delivery
  // ---------------------------------------------------------------------------

  function Closes(data: seq<Record>): nat {
    if data == [] then 0 else (if data[0].Close? then 1 else 0) + Closes(data[1..])
  }

  lemma {:induction false} ClosesAppend(data: seq<Record>, r: Record)
    ensures Closes(data + [r]) == Closes(data) + if r.Close? then 1 else 0
  {
    if data == [] {
      assert data + [r] == [r] && [r][1..] == [];
    } else {
      ClosesAppend(data[1..], r);
      assert (data + [r])[1..] == data[1..] + [r];
    }
  }

  function PumpWork(p: Pump): nat {
    match p
    case Idle => 1
    case Writing(chunk) => 4 * |chunk| + 1
    case Settling => 3
    case Finished => 0
  }

  /** The further a byte is from the receiving socket, the more steps it still costs. */
  function Work(s: Stream): nat {
    8 * |s.buffer| + 7 * |s.hand| + 6 * |Payloads(s.data)| + Closes(s.data) + 5 * |Concat(s.receiver.queue)|
    + PumpWork(s.pump) + |s.wins|
  }

  predicate Progress(a: Action) { !a.Read? && !a.ReadEof? }

  lemma SendDescends(s: Stream)
    requires Inv(s) && Enabled(s, Send)
    ensures Work(DoSend(s)) < Work(s)
  {
    PayloadsAppend(s.data, Data(s.hand));
    ClosesAppend(s.data, Data(s.hand));
    hide Payloads, Closes, Concat;
  }

  lemma DeliverDescends(s: Stream)
    requires Inv(s) && Enabled(s, Deliver) && !DoDeliver(s).reset
    ensures Work(DoDeliver(s)) < Work(s)
  {
    DataHead(s.data);
    assert Closes(s.data) == (if s.data[0].Close? then 1 else 0) + Closes(s.data[1..]);
    if s.data[0].Data? { ConcatAppend(s.receiver.queue, s.data[0].payload); }
    hide Payloads, Closes, Concat, BytesConserved, CreditConserved;
  }

  lemma DequeueDescends(s: Stream)
    requires Inv(s) && Enabled(s, Dequeue)
    ensures Work(DoDequeue(s)) < Work(s)
  {
    assert Concat(s.receiver.queue) == s.receiver.queue[0] + Concat(s.receiver.queue[1..]);
    hide Payloads, Closes, Concat, BytesConserved, CreditConserved;
  }

  /** Every step other than reading more input leaves less work. */
  lemma PumpDescends(s: Stream, a: Action)
    requires Shapes(s) && Enabled(s, a) && Progress(a) && (a.Written? || a.Shutdown? || a.Credit?)
    ensures Apply(s, a).reset || Work(Apply(s, a)) < Work(s)
  {
    hide Payloads, Closes, Concat;
  }

  lemma StepDescends(s: Stream, a: Action)
    requires Inv(s) && Enabled(s, a) && Progress(a) && !Apply(s, a).reset
    ensures Work(Apply(s, a)) < Work(s)
  {
    hide Inv, DoSend, DoDeliver, DoDequeue, DoTake, DoSettle, DoCredit, DoWritten, Work;
    match a {
      case Send => SendDescends(s);
      case Deliver => DeliverDescends(s);
      case Dequeue => DequeueDescends(s);
      case Take => TakeDescends(s);
      case Settle => SettleDescends(s);
      case _ => InvShapes(s); PumpDescends(s, a);
    }
  }

  lemma InvShapes(s: Stream)
    requires Inv(s)
    ensures Shapes(s)
  {
  }

  lemma TakeDescends(s: Stream)
    requires Enabled(s, Take)
    ensures Work(DoTake(s)) < Work(s)
  {
    hide Payloads, Closes, Concat;
  }

  lemma SettleDescends(s: Stream)
    requires Enabled(s, Settle) && !DoSettle(s).reset
    ensures Work(DoSettle(s)) < Work(s)
  {
    hide Payloads, Closes, Concat, Be32;
  }

  /** In every interleaving the steps since the last read are bounded by the work there was. */
  lemma {:induction false} DeliveryBounded(ss: seq<Stream>, acts: seq<Action>, i: nat, j: nat)
    requires Run(ss, acts) && i <= j < |ss| && !ss[j].reset
    requires forall k | i <= k < j :: Progress(acts[k])
    ensures j - i + Work(ss[j]) <= Work(ss[i])
    decreases j - i
  {
    hide Inv, Work, Apply, Initial, Progress;
    if i < j {
      assert Enabled(ss[j - 1], acts[j - 1]) && ss[j] == Apply(ss[j - 1], acts[j - 1]);
      assert !ss[j - 1].reset;
      DeliveryBounded(ss, acts, i, j - 1);
      RunKeepsInv(ss, acts, j - 1);
      StepDescends(ss[j - 1], acts[j - 1]);
    }
  }

  /** When no step is left but reading, everything read has been delivered, the window is
      whole, and after the end of input the receiver has shut down. */
  lemma RestMeansDelivered(s: Stream)
    requires Inv(s) && !s.reset && forall a | Progress(a) :: !Enabled(s, a)
    ensures s.delivered == s.source && s.sender.available == s.window
    ensures s.eof ==> s.pump.Finished?
  {
    assert !Enabled(s, Take) && !Enabled(s, Send) && !Enabled(s, Deliver) && !Enabled(s, Dequeue);
    assert !Enabled(s, Written) && !Enabled(s, Settle) && !Enabled(s, Shutdown) && !Enabled(s, Credit);
  }

  // ---------------------------------------------------------------------------
  // The record count: when it matters and when it does not
  // ---------------------------------------------------------------------------

  /** Every record that carries data carries at least `m` bytes. */
  ghost predicate Coarse(s: Stream, m: nat) {
    && (forall i | 0 <= i < |s.data| :: s.data[i].Data? ==> |s.data[i].payload| >= m)
    && (forall i | 0 <= i < |s.receiver.queue| :: |s.receiver.queue[i]| >= m)
  }

  lemma {:induction false} ConcatAtLeast(parts: seq<bytes>, m: nat)
    requires forall i | 0 <= i < |parts| :: |parts[i]| >= m
    ensures |Concat(parts)| >= |parts| * m
  {
    if parts != [] {
      ConcatAtLeast(parts[1..], m);
      assert |parts| * m == m + |parts[1..]| * m;
    }
  }

  lemma CoarseStep(s: Stream, a: Action, m: nat)
    requires Coarse(s, m) && Enabled(s, a) && (a.Send? ==> |s.hand| >= m)
    ensures Coarse(Apply(s, a), m)
  {
  }

  /** If every DATA record sent carries at least `m` bytes and the window is smaller than
      `(MAX_QUEUED_RECORDS + 1) * m`, no interleaving resets the stream. */
  lemma {:induction false} CoarseRecordsNeverReset(ss: seq<Stream>, acts: seq<Action>, m: nat, i: nat)
    requires Run(ss, acts) && i < |ss|
    requires ss[0].window < 8193 * m
    requires forall k | 0 <= k < |acts| && acts[k].Send? :: |ss[k].hand| >= m
    ensures !ss[i].reset && Coarse(ss[i], m) && ss[i].window == ss[0].window
  {
    hide Run, Apply, Inv, Coarse;
    RunAt(ss, acts, if i == 0 then 0 else i - 1);
    if i == 0 {
      CoarseStart(ss, acts, m);
    } else {
      var s := ss[i - 1];
      CoarseRecordsNeverReset(ss, acts, m, i - 1);
      RunKeepsInv(ss, acts, i - 1);
      CoarseStep(s, acts[i - 1], m);
      ResetExactly(ss, acts, i - 1);
      WindowFixed(ss, acts, i);
      if ss[i].reset { FullQueueFillsWindow(s, m); }
    }
  }

  lemma CoarseStart(ss: seq<Stream>, acts: seq<Action>, m: nat)
    requires Run(ss, acts)
    ensures !ss[0].reset && Coarse(ss[0], m)
  {
    hide Enabled, Apply;
  }

  lemma FullQueueFillsWindow(s: Stream, m: nat)
    requires Inv(s) && Coarse(s, m) && s.data != [] && s.data[0].Data?
    requires |s.receiver.queue| == MAX_QUEUED_RECORDS
    ensures s.window >= (MAX_QUEUED_RECORDS + 1) * m
  {
    ConcatAtLeast(s.receiver.queue, m);
    DataHead(s.data);
  }

  ghost predicate Reachable(s: Stream) {
    exists ss, acts :: Run(ss, acts) && ss[|ss| - 1] == s
  }

  lemma ReachableStep(s: Stream, a: Action)
    requires Reachable(s) && Enabled(s, a)
    ensures Reachable(Apply(s, a))
  {
    var ss, acts :| Run(ss, acts) && ss[|ss| - 1] == s;
    assert Run(ss + [Apply(s, a)], acts + [a]);
  }

  function Ones(n: nat): seq<bytes> {
    seq(n, _ => [1])
  }

  /** A receiver whose socket does not accept data, after `n` one-byte records. */
  function Stalled(w: nat, n: nat): Stream
    requires n <= w
  {
    var f := NewFlow(Some(w), w);
    Stream(w, seq(n, _ => 1), [], [], false, f.(available := w - n), [],
           f.(queue := Ones(n), queued := n, credit := w - n), Idle, 0, [], [], false)
  }

  /** Four steps put one more one-byte record into the queue. */
  lemma StalledGrows(w: nat, n: nat) returns (s1: Stream, s2: Stream, s3: Stream)
    requires MAX_QUEUED_RECORDS < w <= MAX_PEER_WINDOW && n < MAX_QUEUED_RECORDS
    ensures Enabled(Stalled(w, n), Read([1])) && s1 == Apply(Stalled(w, n), Read([1]))
    ensures Enabled(s1, Take) && s2 == Apply(s1, Take)
    ensures Enabled(s2, Send) && s3 == Apply(s2, Send)
    ensures Enabled(s3, Deliver) && Apply(s3, Deliver) == Stalled(w, n + 1)
  {
    s1 := Apply(Stalled(w, n), Read([1]));
    s2 := Apply(s1, Take);
    s3 := Apply(s2, Send);
    assert s2.hand == [1] && s2.buffer == [] && s3.data == [Data([1])];
    assert Ones(n) + [[1]] == Ones(n + 1);
    assert Apply(s3, Deliver).source == Stalled(w, n + 1).source;
  }

  lemma {:induction false} StalledReachable(w: nat, n: nat)
    requires MAX_QUEUED_RECORDS < w <= MAX_PEER_WINDOW && n <= MAX_QUEUED_RECORDS
    ensures Reachable(Stalled(w, n))
  {
    hide Enabled, Apply, Reachable, Stalled;
    if n == 0 {
      StartReachable(w);
    } else {
      StalledReachable(w, n - 1);
      var s1, s2, s3 := StalledGrows(w, n - 1);
      ReachableStep(Stalled(w, n - 1), Read([1]));
      ReachableStep(s1, Take);
      ReachableStep(s2, Send);
      ReachableStep(s3, Deliver);
    }
  }

  lemma StartReachable(w: nat)
    requires 0 < w <= MAX_PEER_WINDOW
    ensures Reachable(Stalled(w, 0))
  {
    assert Run([Stalled(w, 0)], []);
  }

  /** One more one-byte record after a full queue. */
  lemma StalledResets(w: nat) returns (s: Stream)
    requires MAX_QUEUED_RECORDS < w <= MAX_PEER_WINDOW
    ensures Reachable(s) && s.reset && s.window == w
    ensures s.sender.available == w - MAX_QUEUED_RECORDS - 1 && s.receiver.credit == w - MAX_QUEUED_RECORDS
  {
    var s0 := Stalled(w, MAX_QUEUED_RECORDS);
    StalledReachable(w, MAX_QUEUED_RECORDS);
    ReachableStep(s0, Read([1]));
    var s1 := Apply(s0, Read([1]));
    ReachableStep(s1, Take);
    var s2 := Apply(s1, Take);
    ReachableStep(s2, Send);
    var s3 := Apply(s2, Send);
    ReachableStep(s3, Deliver);
    s := Apply(s3, Deliver);
  }

  /** The record count does bite: one-byte writes to a slow reader reset a stream although
      both ends have credit left. */
  lemma TinyRecordsCanReset(w: nat)
    requires 8193 < w <= 0x100_0000
    ensures exists s :: Reachable(s) && s.reset && s.window == w
              && s.sender.available > 0 && s.receiver.credit > 0
  {
    var s := StalledResets(w);
  }

  /** The exact condition on the window: two honest ends can be reset by flow control if and
      only if the window exceeds `MAX_QUEUED_RECORDS` bytes. */
  lemma ResetPossibleExactly(w: nat)
    requires 0 < w <= 0x100_0000
    ensures (exists s :: Reachable(s) && s.reset && s.window == w) <==> w > 8192
  {
    if w > MAX_QUEUED_RECORDS {
      var s := StalledResets(w);
    }
    forall s | Reachable(s) && s.reset && s.window == w ensures w > MAX_QUEUED_RECORDS {
      var ss, acts :| Run(ss, acts) && ss[|ss| - 1] == s;
      SmallWindowNeverResets(ss, acts);
    }
  }

  lemma SmallWindowNeverResets(ss: seq<Stream>, acts: seq<Action>)
    requires Run(ss, acts) && ss[|ss| - 1].reset
    ensures ss[|ss| - 1].window > MAX_QUEUED_RECORDS
  {
    hide Inv, Apply;
    WindowFixed(ss, acts, |ss| - 1);
    if ss[0].window <= MAX_QUEUED_RECORDS {
      forall k | 0 <= k < |acts| && acts[k].Send? ensures |ss[k].hand| >= 1 { assert Enabled(ss[k], acts[k]); }
      CoarseRecordsNeverReset(ss, acts, 1, |ss| - 1);
    }
  }

  lemma {:induction false} WindowFixed(ss: seq<Stream>, acts: seq<Action>, i: nat)
    requires Run(ss, acts) && i < |ss|
    ensures ss[i].window == ss[0].window
  {
    if i > 0 {
      WindowFixed(ss, acts, i - 1);
      assert Enabled(ss[i - 1], acts[i - 1]) && ss[i] == Apply(ss[i - 1], acts[i - 1]);
    }
  }

  // ---------------------------------------------------------------------------
  // What the sockets see
  // ---------------------------------------------------------------------------

  /** What the sending socket gave, chunk by chunk. */
  function ReadBytes(acts: seq<Action>): bytes {
    if acts == [] then []
    else ReadBytes(acts[..|acts| - 1]) + if acts[|acts| - 1].Read? then acts[|acts| - 1].chunk else []
  }

  lemma ReadBytesSnoc(acts: seq<Action>, a: Action)
    ensures ReadBytes(acts + [a]) == ReadBytes(acts) + if a.Read? then a.chunk else []
  {
    assert (acts + [a])[..|acts|] == acts;
  }

  lemma SourceStep(s: Stream, a: Action)
    requires Enabled(s, a)
    ensures Apply(s, a).source == s.source + if a.Read? then a.chunk else []
    ensures Apply(s, a).eof == (s.eof || a.ReadEof?)
  {
    hide Enqueued, Published, Credited, Grant, Taken, ConsumedFlow, Be32;
    assert s.source + [] == s.source;
  }

  lemma RunAt(ss: seq<Stream>, acts: seq<Action>, i: nat)
    requires Run(ss, acts)
    ensures |ss| == |acts| + 1 && ss[0].source == [] && !ss[0].eof
    ensures i < |acts| ==> Enabled(ss[i], acts[i]) && ss[i + 1] == Apply(ss[i], acts[i])
  {
    hide Enabled, Apply;
  }

  lemma {:induction false} SourceIsReads(ss: seq<Stream>, acts: seq<Action>, i: nat)
    requires Run(ss, acts) && i < |ss| == |acts| + 1
    ensures ss[i].source == ReadBytes(acts[..i]) && (ss[i].eof <==> ReadEof in acts[..i])
  {
    hide Run, Apply, Enabled, ReadBytes;
    if i == 0 {
      RunAt(ss, acts, 0);
      NoReads(acts[..0]);
    } else {
      RunAt(ss, acts, i - 1);
      SourceIsReads(ss, acts, i - 1);
      SourceStep(ss[i - 1], acts[i - 1]);
      assert acts[..i] == acts[..i - 1] + [acts[i - 1]];
      ReadBytesSnoc(acts[..i - 1], acts[i - 1]);
    }
  }

  lemma NoReads(acts: seq<Action>)
    requires acts == []
    ensures ReadBytes(acts) == []
  {
  }

  /** End to end: what is written is a prefix of what the socket gave, and at the end all of it. */
  lemma SocketToSocket(ss: seq<Stream>, acts: seq<Action>, i: nat)
    requires Run(ss, acts) && i < |ss|
    ensures |ss| == |acts| + 1 && ss[i].delivered <= ReadBytes(acts[..i])
    ensures !ss[i].reset && ss[i].pump.Finished? ==>
              ReadEof in acts[..i] && ss[i].delivered == ReadBytes(acts[..i])
  {
    hide Run, ReadBytes;
    RunAt(ss, acts, 0);
    SourceIsReads(ss, acts, i);
    DeliveredInOrder(ss, acts, i);
  }

  // ---------------------------------------------------------------------------
  // When credit goes back
  // ---------------------------------------------------------------------------

  /** Between two records the reader keeps back less than an eighth of the window, and nothing
      once its queue is empty. */
  ghost predicate Thrifty(s: Stream) {
    && (!s.pump.Settling? ==> s.pending < s.window / 8 || s.pending == 0)
    && (s.pump.Idle? && s.receiver.queue == [] ==> s.pending == 0)
  }

  lemma ThriftyPump(s: Stream, a: Action)
    requires Thrifty(s) && Enabled(s, a) && s.receiver.receiveLimit == s.window && !Apply(s, a).reset
    requires a.Dequeue? || a.Written? || a.Settle? || a.Shutdown?
    ensures Thrifty(Apply(s, a))
  {
    hide Be32, ConsumedFlow;
  }

  lemma ThriftyWire(s: Stream, a: Action)
    requires Thrifty(s) && Enabled(s, a)
    requires a.Read? || a.ReadEof? || a.Take? || a.Send? || a.Deliver? || a.Credit?
    ensures Thrifty(Apply(s, a))
  {
    hide Grant, Taken, Credited;
  }

  lemma ThriftyStep(s: Stream, a: Action)
    requires Inv(s) && Thrifty(s) && Enabled(s, a) && !Apply(s, a).reset
    ensures Thrifty(Apply(s, a))
  {
    hide BytesConserved, CreditConserved, CloseOrdered, Apply, Thrifty, Enabled;
    if a.Dequeue? || a.Written? || a.Settle? || a.Shutdown? { ThriftyPump(s, a); } else { ThriftyWire(s, a); }
  }

  lemma {:induction false} RunThrifty(ss: seq<Stream>, acts: seq<Action>, i: nat)
    requires Run(ss, acts) && i < |ss| && !ss[i].reset
    ensures Thrifty(ss[i])
  {
    hide Inv, Apply, Enabled;
    if i > 0 {
      RunAt(ss, acts, i - 1);
      ResetStays(ss[i - 1], acts[i - 1]);
      RunKeepsInv(ss, acts, i - 1);
      RunThrifty(ss, acts, i - 1);
      ThriftyStep(ss[i - 1], acts[i - 1]);
    }
  }

  lemma ResetStays(s: Stream, a: Action)
    requires Enabled(s, a)
    ensures !s.reset
  {
  }

  /** A WIN goes back exactly when an eighth of the window was written or nothing is queued, and
      it grants all that was written since the last one. */
  lemma GrantsExactly(s: Stream)
    requires Inv(s) && Enabled(s, Settle)
    ensures var t := Apply(s, Settle);
            if s.pending >= s.window / 8 || s.receiver.queue == []
            then |t.wins| == |s.wins| + 1 && WinValue(t.wins[|s.wins|]) == s.pending && t.pending == 0
            else t.wins == s.wins && t.pending == s.pending
  {
    hide Be32, WinTotal, Payloads, Concat, WinValue, U32;
    PendingBounded(s);
    SettlePays(s);
  }
}
