/** Status messages of `protocol.rs` and mux records of `tcp_mux.rs`. */
module Protocol {
  import opened Prelude
  import opened Bytes
  import opened Text

  // "BIBA\x01OPOK\0" and "BIBA\x01OPER\0"
  const OPEN_OK_MAGIC: bytes := [66, 73, 66, 65, 1, 79, 80, 79, 75, 0]
  const OPEN_ERR_MAGIC: bytes := [66, 73, 66, 65, 1, 79, 80, 69, 82, 0]
  const V3_CTRL_OPEN_OK: byte := 0x10
  const V3_CTRL_OPEN_ERR: byte := 0x11

  predicate IsOpenOk(data: bytes) { data == OPEN_OK_MAGIC }

  /** A length-prefixed message after a fixed head; nothing may follow it. */
  function DecodeAfter(head: bytes, data: bytes): Option<bytes> {
    var i := |head|;
    if |data| < i + 2 || data[..i] != head then None else
    var n := U16(data[i], data[i + 1]);
    if |data| != i + 2 + n || !ValidUtf8(data[i + 2..]) then None
    else Some(data[i + 2..])
  }

  function EncodeAfter(head: bytes, msg: bytes): Option<bytes> {
    if |msg| > 0xFFFF then None else Some(head + Be16(|msg|) + msg)
  }

  function DecodeOpenErr(data: bytes): Option<bytes> { DecodeAfter(OPEN_ERR_MAGIC, data) }

  predicate IsV3OpenOk(data: bytes) { data == [V3_CTRL_OPEN_OK] }

  function DecodeV3OpenErr(data: bytes): Option<bytes> { DecodeAfter([V3_CTRL_OPEN_ERR], data) }

  datatype OpenWait = OpenOk | OpenErr(reason: bytes) | Payload(data: bytes)

  /** `classify_open_wait_inner`, and the same tests in `filter_client_downlink`. */
  function Classify(inner: bytes): OpenWait {
    if IsV3OpenOk(inner) then OpenOk
    else match DecodeV3OpenErr(inner)
         case Some(reason) => OpenErr(reason)
         case None => Payload(inner)
  }

  /** A status message decodes to `msg` exactly when it is the encoding of that UTF-8 text. */
  lemma StatusExactly(head: bytes, data: bytes, msg: bytes)
    ensures DecodeAfter(head, data) == Some(msg) <==>
            ValidUtf8(msg) && EncodeAfter(head, msg) == Some(data)
  {
    var i := |head|;
    if DecodeAfter(head, data) == Some(msg) {
      U16Inverse(data[i], data[i + 1]);
      assert data == data[..i] + [data[i], data[i + 1]] + data[i + 2..];
    }
    if |msg| <= 0xFFFF && data == head + Be16(|msg|) + msg {
      Be16Exact(|msg|);
      var be := Be16(|msg|);
      hide Be16, U16;
      assert data[..i] == head && data[i] == be[0] && data[i + 1] == be[1] && data[i + 2..] == msg;
    }
  }

  /** What a client reads in a sealed chunk: the one byte 10 is OPEN_OK; the byte 11, a length
      in two bytes and that much UTF-8 is OPEN_ERR; anything else is payload. */
  lemma ClassifyExactly(inner: bytes, reason: bytes)
    ensures Classify(inner) == OpenOk <==> inner == [0x10]
    ensures Classify(inner) == OpenErr(reason) <==>
            && ValidUtf8(reason) && |inner| == 3 + |reason| && inner[0] == 0x11 && inner[3..] == reason
            && 256 * (inner[1] as int) + inner[2] as int == |reason|
    ensures Classify(inner).Payload? ==> Classify(inner).data == inner
  {
    hide ValidUtf8;
    if |inner| >= 3 { assert inner[..1] == [inner[0]]; }
  }

  /** The legacy messages, spelled out. */
  lemma LegacyMagic(data: bytes)
    ensures IsOpenOk(data) ==> |data| == 10 && data[..4] == [66, 73, 66, 65] && data[4..] == [1, 79, 80, 79, 75, 0]
    ensures DecodeOpenErr(data).Some? ==>
              |data| >= 12 && data[..4] == [66, 73, 66, 65] && data[4..10] == [1, 79, 80, 69, 82, 0]
  {
    hide ValidUtf8;
    if DecodeOpenErr(data).Some? {
      assert data[..10][..4] == data[..4] && data[..10][4..] == data[4..10];
    }
  }

  // ---------------------------------------------------------------------------
  // Mux records: [stream u32][flags][len u32][payload]
  // ---------------------------------------------------------------------------

  datatype MuxRecord = MuxRecord(sid: nat, flags: byte, payload: bytes)

  function MuxHeader(r: MuxRecord): bytes {
    Be32(r.sid) + [r.flags] + Be32(|r.payload|)
  }

  function EncodeMux(r: MuxRecord): bytes {
    MuxHeader(r) + r.payload
  }

  function DecodeMux(data: bytes): Option<MuxRecord> {
    if |data| < 9 then None else
    var plen := U32(data[5], data[6], data[7], data[8]);
    if |data| != 9 + plen then None
    else Some(MuxRecord(U32(data[0], data[1], data[2], data[3]), data[4], data[9..]))
  }

  predicate FitsMux(r: MuxRecord) {
    r.sid < 0x1_0000_0000 && |r.payload| < 0x1_0000_0000
  }

  /** The decoder accepts exactly the encodings, truncation and trailing bytes refused. */
  lemma MuxExactly(data: bytes, r: MuxRecord)
    requires FitsMux(r)
    ensures DecodeMux(data) == Some(r) <==> data == EncodeMux(r)
  {
    if DecodeMux(data) == Some(r) {
      U32Inverse(data[0], data[1], data[2], data[3]);
      U32Inverse(data[5], data[6], data[7], data[8]);
      hide Be32, U32;
      assert data == [data[0], data[1], data[2], data[3]] + [data[4]] +
                     [data[5], data[6], data[7], data[8]] + data[9..];
    }
    if data == EncodeMux(r) { MuxReadBack(r); }
  }

  lemma MuxReadBack(r: MuxRecord)
    requires FitsMux(r)
    ensures DecodeMux(EncodeMux(r)) == Some(r)
  {
    Be32Exact(r.sid);
    Be32Exact(|r.payload|);
    var (a, b) := (Be32(r.sid), Be32(|r.payload|));
    var data := EncodeMux(r);
    hide Be32, U32;
    assert data == [a[0], a[1], a[2], a[3], r.flags, b[0], b[1], b[2], b[3]] + r.payload;
  }

  /** Byte by byte: stream, flags, length, payload. */
  lemma MuxLayout(r: MuxRecord)
    requires FitsMux(r)
    ensures var d := EncodeMux(r);
            && |d| == 9 + |r.payload| && d[4] == r.flags && d[9..] == r.payload
            && Number(d[..4]) == r.sid && Number(d[5..9]) == |r.payload|
  {
    hide Be32, Number;
    var (a, b) := (Be32(r.sid), Be32(|r.payload|));
    NumberOfBe32(r.sid);
    NumberOfBe32(|r.payload|);
    var d := EncodeMux(r);
    assert d[..4] == a && d[5..9] == b;
  }
}
