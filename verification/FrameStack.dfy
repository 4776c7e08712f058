/** The layers together: mux record inside padded frame inside AEAD envelope. */
module FrameStack {
  import opened Prelude
  import opened Bytes
  import opened Frame
  import opened Crypto
  import opened Protocol

  /** What the receiving end does with one binary message of a sealed mux session. */
  function Unstack(a: Aead, wire: bytes): Option<MuxRecord> {
    match Opened(a, wire)
    case None => None
    case Some(raw) =>
      match ReadPadded(raw)
      case None => None
      case Some(inner) => DecodeMux(inner)
  }

  /** A record sealed as two parts, header and payload, with any nonce, decoy and padding,
      comes back whole at the other end. */
  lemma StackRoundTrip(a: Aead, nonce: bytes, decoy: bytes, pad: bytes, r: MuxRecord)
    requires a.Lawful() && |nonce| == 12 && |decoy| < 256 && |pad| < 256
    requires FitsMux(r) && |EncodeMux(r)| <= 0xFF_FFFF
    ensures Unstack(a, Sealed(a, nonce, decoy, FrameBytes(pad, Concat([MuxHeader(r), r.payload])))) == Some(r)
  {
    hide Sealed, FrameBytes, MuxHeader, Opened, ReadPadded, DecodeMux;
    ConcatAppend([MuxHeader(r)], r.payload);
    assert [MuxHeader(r)] + [r.payload] == [MuxHeader(r), r.payload];
    assert Concat([MuxHeader(r)]) == MuxHeader(r) + Concat([]) == MuxHeader(r);
    assert Concat([MuxHeader(r), r.payload]) == EncodeMux(r);
    OpenUndoesSeal(a, nonce, decoy, FrameBytes(pad, EncodeMux(r)));
    FrameReadBack(pad, EncodeMux(r));
    MuxReadBack(r);
  }

  /** A sealed frame starts with a zero byte and a plain one with the version byte, so
      neither is ever taken for a legacy OPEN_OK or OPEN_ERR. */
  lemma NeverLegacyStatus(a: Aead, c: u64, decoy: bytes, inner: bytes, pad: bytes, payload: bytes)
    requires a.Lawful()
    ensures var w := Sealed(a, Nonce(c), decoy, inner); !IsOpenOk(w) && DecodeOpenErr(w).None?
    ensures var f := FrameBytes(pad, payload); !IsOpenOk(f) && DecodeOpenErr(f).None?
  {
    NonceShape(c);
    SealedSize(a, Nonce(c), decoy, inner);
    hide Sealed, Nonce;
    var w := Sealed(a, Nonce(c), decoy, inner);
    assert w[0] == w[..12][0] == 0;
    NotStatus(w);
    NotStatus(FrameBytes(pad, payload));
  }

  lemma NotStatus(w: bytes)
    requires w != [] && w[0] != 66
    ensures !IsOpenOk(w) && DecodeOpenErr(w).None?
  {
    if |w| >= 10 { assert w[..10][0] == w[0] && OPEN_ERR_MAGIC[0] == 66; }
    assert OPEN_OK_MAGIC[0] == 66;
  }

  // ---------------------------------------------------------------------------
  // Size budget
  // ---------------------------------------------------------------------------

  /** Length of one WebSocket binary message. */
  function WireSize(v2: bool, decoyLen: nat, padLen: nat, n: nat): nat {
    (if v2 then 29 + decoyLen else 0) + 5 + padLen + n
  }

  lemma WireSizeExact(a: Aead, nonce: bytes, decoy: bytes, pad: bytes, payload: bytes)
    requires a.Lawful() && |nonce| == 12
    ensures |Sealed(a, nonce, decoy, FrameBytes(pad, payload))| == WireSize(true, |decoy|, |pad|, |payload|)
    ensures |FrameBytes(pad, payload)| == WireSize(false, 0, |pad|, |payload|)
  {
    Be24RoundTrip(|payload|);
    SealedSize(a, nonce, decoy, FrameBytes(pad, payload));
  }

  function Overhead(v2: bool, decoyMax: byte, maxPad: byte): nat {
    WireSize(v2, decoyMax, maxPad, 0)
  }

  /** Any payload within the budget, padded in any mode, fits one message; the budget is
      exact, since one byte more overflows it for some draw. */
  lemma BudgetExact(v2: bool, decoyMax: byte, maxPad: byte, maxWs: nat, n: nat)
    requires Overhead(v2, decoyMax, maxPad) <= maxWs && maxWs >= 48
    ensures n <= MaxPayload(v2, decoyMax, maxPad, maxWs) <==>
            forall d: nat, mode, count, draw: nat | d <= decoyMax && DrawOk(mode, maxPad, count, draw) ::
              WireSize(v2, d, PadLen(mode, maxPad, n, draw), n) <= maxWs
  {
    forall mode, count, draw: nat | DrawOk(mode, maxPad, count, draw) ensures PadLen(mode, maxPad, n, draw) <= maxPad {
      PadWithinMax(mode, maxPad, n, count, draw);
    }
    assert DrawOk(Random, maxPad, None, maxPad) && PadLen(Random, maxPad, n, maxPad) == maxPad;
    assert WireSize(v2, decoyMax, PadLen(Random, maxPad, n, maxPad), n) == Overhead(v2, decoyMax, maxPad) + n;
  }

  /** When there is no room at all. */
  lemma NoBudget(v2: bool, decoyMax: byte, maxPad: byte, maxWs: nat)
    ensures MaxPayload(v2, decoyMax, maxPad, maxWs) == 0 <==>
            maxWs < 48 || maxWs <= if v2 then 34 + decoyMax as int + maxPad as int else 5 + maxPad as int
  {
  }

  /** `max_chunk` of the bridge: at least 256 bytes whatever the budget says. */
  function MaxChunk(v2: bool, decoyMax: byte, maxPad: byte, maxWs: nat): nat {
    Max(MaxPayload(v2, decoyMax, maxPad, maxWs), 256)
  }
}
