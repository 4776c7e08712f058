/** Inner padded frames of `frame.rs`: `[ver][len u24][pad_len][pad][payload]`. */
module Frame {
  import opened Prelude
  import opened Bytes

  const FRAME_VER: byte := 1
  const MAX_PAYLOAD: nat := 0x100_0000
  const HTTP_BUCKETS: seq<nat> := [128, 256, 512, 1024, 1460, 2048, 4096, 8192, 16384, 32768, 65536]

  datatype PadMode = Random | HttpBuckets | Adaptive

  /** The per-connection counter of adaptive padding. */
  class AdaptivePadState {
    var count: nat
    constructor () ensures count == 0 { count := 0; }
  }

  /** The range the code draws its one padding random from. `count` is the frame index, if
      a session counter is given. */
  predicate DrawOk(mode: PadMode, maxPad: byte, count: Option<nat>, draw: nat) {
    match mode
    case Random => draw <= maxPad
    case HttpBuckets => 95 <= draw <= 105
    case Adaptive =>
      if count.None? || count.value < 7 then 900 <= draw <= 1400 else 128 <= draw <= 512
  }

  /** The first bucket that holds `base`, or the last bucket. */
  function Bucket(base: nat, i: nat): nat
    requires i < |HTTP_BUCKETS|
    decreases |HTTP_BUCKETS| - i
  {
    if HTTP_BUCKETS[i] >= base || i == |HTTP_BUCKETS| - 1 then HTTP_BUCKETS[i] else Bucket(base, i + 1)
  }

  /** Padding length for a payload of `len` bytes, given the draw. */
  function PadLen(mode: PadMode, maxPad: byte, len: nat, draw: nat): nat {
    var base := 5 + len;
    if maxPad == 0 then 0 else
    match mode
    case Random => draw
    case HttpBuckets => Min(SatSub(Max(Bucket(base, 0) * draw / 100, base), base), maxPad)
    case Adaptive => Min(SatSub(draw, base), maxPad)
  }

  /** Padding never exceeds `max_pad`, in any of the three modes. */
  lemma PadWithinMax(mode: PadMode, maxPad: byte, len: nat, count: Option<nat>, draw: nat)
    requires DrawOk(mode, maxPad, count, draw)
    ensures PadLen(mode, maxPad, len, draw) <= maxPad
  {
  }

  /** What padding is for. A random pad is the draw itself. The other modes aim at a total: a
      draw of 95 to 105 percent of the bucket, or the draw; the frame has exactly that many
      bytes unless it is longer already or `max_pad` does not reach. */
  lemma PadHitsTarget(mode: PadMode, maxPad: byte, len: nat, draw: nat)
    requires maxPad > 0
    ensures var total := 5 + PadLen(mode, maxPad, len, draw) + len;
            match mode
            case Random => total == 5 + draw + len
            case HttpBuckets => Aims(total, 5 + len, maxPad, Bucket(5 + len, 0) * draw / 100)
            case Adaptive => Aims(total, 5 + len, maxPad, draw)
  {
    hide Bucket;
  }

  /** `total` is `target`, as near as padding `base` by at most `maxPad` can come. */
  predicate Aims(total: int, base: nat, maxPad: nat, target: int) {
    && (target <= base ==> total == base)
    && (base <= target <= base + maxPad ==> total == target)
    && (base + maxPad <= target ==> total == base + maxPad)
  }

  lemma NoPadding(mode: PadMode, len: nat, draw: nat)
    ensures PadLen(mode, 0, len, draw) == 0
  {
  }

  /** Buckets that are too small are passed over. */
  lemma {:induction false} BucketFrom(base: nat, i: nat)
    requires i < |HTTP_BUCKETS| && (forall k | 0 <= k < i :: HTTP_BUCKETS[k] < base)
    ensures Bucket(base, 0) == Bucket(base, i)
  {
    if i > 0 { BucketFrom(base, i - 1); }
  }

  /** The sizes double, but for one Ethernet payload, up to 64 KiB. */
  lemma BucketSizes(base: nat)
    ensures Bucket(base, 0) ==
            if base <= 128 then 128 else if base <= 256 then 256 else if base <= 512 then 512
            else if base <= 1024 then 1024 else if base <= 1460 then 1460 else if base <= 2048 then 2048
            else if base <= 4096 then 4096 else if base <= 8192 then 8192
            else if base <= 16384 then 16384 else if base <= 32768 then 32768 else 65536
  {
    var i := if base <= 128 then 0 else if base <= 256 then 1 else if base <= 512 then 2 else if base <= 1024 then 3
             else if base <= 1460 then 4 else if base <= 2048 then 5 else if base <= 4096 then 6
             else if base <= 8192 then 7
             else if base <= 16384 then 8 else if base <= 32768 then 9 else 10;
    BucketFrom(base, i);
  }

  datatype Prepared = Prepared(parts: seq<bytes>, len: nat, padLen: nat)

  /** `PreparedFrame::new`: refuses exactly the payloads whose length does not fit 24 bits. */
  method Prepare(parts: seq<bytes>, maxPad: byte, mode: PadMode, adaptive: AdaptivePadState?, draw: nat)
    returns (r: Option<Prepared>)
    requires forall i | 0 <= i < |parts| :: |parts[i]| <= U64_MAX
    requires DrawOk(mode, maxPad, if adaptive == null then None else Some(adaptive.count), draw)
    modifies adaptive
    ensures r.Some? <==> |Concat(parts)| <= 0xFF_FFFF
    ensures r.Some? ==> r.value == Prepared(parts, |Concat(parts)|, PadLen(mode, maxPad, |Concat(parts)|, draw))
    ensures r.Some? ==> r.value.padLen <= maxPad
    ensures adaptive != null ==>
              adaptive.count == old(adaptive.count)
              || (r.Some? && maxPad != 0 && mode.Adaptive? && adaptive.count == Min(old(adaptive.count) + 1, U32_MAX))
    ensures adaptive != null && r.Some? && maxPad != 0 && mode.Adaptive? ==>
              adaptive.count == Min(old(adaptive.count) + 1, U32_MAX)
  {
    var len := 0;
    var i := 0;
    while i < |parts|
      invariant 0 <= i <= |parts| && 0 <= len <= U64_MAX
      invariant len + |Concat(parts[i..])| == |Concat(parts)|
    {
      assert parts[i..][1..] == parts[i + 1..];
      if len + |parts[i]| > U64_MAX { return None; }
      len := len + |parts[i]|;
      i := i + 1;
    }
    if len > MAX_PAYLOAD || len > 0xFF_FFFF { return None; }
    var base := 5 + len;
    var padLen := 0;
    if maxPad != 0 {
      match mode {
        case Random => padLen := draw;
        case HttpBuckets =>
          var target := FindBucket(base);
          target := Max(target * draw / 100, base);
          padLen := Min(SatSub(target, base), maxPad);
        case Adaptive =>
          if adaptive != null { adaptive.count := Min(adaptive.count + 1, U32_MAX); }
          padLen := Min(SatSub(draw, base), maxPad);
      }
    }
    return Some(Prepared(parts, len, padLen));
  }

  method FindBucket(base: nat) returns (target: nat)
    ensures target == Bucket(base, 0)
    ensures target < base ==> target == 65536
    ensures target >= base ==> target in HTTP_BUCKETS && forall b | b in HTTP_BUCKETS && b >= base :: target <= b
  {
    var i := 0;
    while i < |HTTP_BUCKETS|
      invariant 0 <= i <= |HTTP_BUCKETS|
      invariant forall k | 0 <= k < i :: HTTP_BUCKETS[k] < base
      invariant i < |HTTP_BUCKETS| ==> Bucket(base, 0) == Bucket(base, i)
      invariant i == |HTTP_BUCKETS| ==> Bucket(base, 0) == 65536
    {
      if HTTP_BUCKETS[i] >= base {
        assert forall k | i <= k < |HTTP_BUCKETS| :: HTTP_BUCKETS[i] <= HTTP_BUCKETS[k];
        return HTTP_BUCKETS[i];
      }
      i := i + 1;
    }
    return 65536;
  }

  /** The frame on the wire. */
  function FrameBytes(pad: bytes, payload: bytes): bytes {
    [FRAME_VER] + Be24(|payload|) + [|pad| % 256] + pad + payload
  }

  /** Byte by byte: the version 1, the length in three bytes, the padding after its length, and
      the payload. */
  lemma FrameLayout(pad: bytes, payload: bytes)
    requires |pad| < 256
    ensures var f := FrameBytes(pad, payload);
            && |f| == 5 + |pad| + |payload| && f[0] == 1 && f[4] == |pad|
            && 256 * (256 * (f[1] as int) + f[2] as int) + f[3] as int == |payload| % 0x100_0000
            && f[5..5 + |pad|] == pad && f[5 + |pad|..] == payload
  {
    var be := Be24(|payload|);
    BigEndian(|payload|);
    assert |be| == 3;
    var f := FrameBytes(pad, payload);
    hide Be24;
    assert f == [1, be[0], be[1], be[2], |pad|] + (pad + payload);
  }

  /** `append_to`: the header, the random padding, then the parts one by one. */
  method AppendTo(buf: bytes, frame: Prepared, pad: bytes) returns (out: bytes)
    requires frame.len == |Concat(frame.parts)| && frame.padLen == |pad| < 256
    ensures out == buf + FrameBytes(pad, Concat(frame.parts))
  {
    out := buf + [FRAME_VER];
    out := out + [frame.len / 0x100 / 0x100 % 0x100];
    out := out + [frame.len / 0x100 % 0x100];
    out := out + [frame.len % 0x100];
    out := out + [frame.padLen];
    out := out + pad;
    ghost var head := out;
    assert head == buf + ([FRAME_VER] + Be24(frame.len) + [|pad| % 256] + pad);
    var i := 0;
    while i < |frame.parts|
      invariant 0 <= i <= |frame.parts|
      invariant out + Concat(frame.parts[i..]) == head + Concat(frame.parts)
    {
      assert frame.parts[i..][1..] == frame.parts[i + 1..];
      out := out + frame.parts[i];
      i := i + 1;
    }
    assert out == head + Concat(frame.parts);
  }

  /** Where the payload starts, or `None` for a frame that is refused. */
  function PayloadStart(raw: bytes): Option<nat> {
    if |raw| < 4 || raw[0] != FRAME_VER then None else
    var plen := U24(raw[1], raw[2], raw[3]);
    if plen > MAX_PAYLOAD || |raw| < 5 || |raw| != 5 + (raw[4] as int) + plen then None
    else Some(5 + (raw[4] as int))
  }

  /** All four readers take the same slice; they differ in who owns the bytes. */
  function ReadPadded(raw: bytes): Option<bytes> {
    match PayloadStart(raw)
    case None => None
    case Some(start) => if start <= |raw| then Some(raw[start..]) else None
  }

  /** What the readers accept is a frame around what they return. */
  lemma ReadIsFrame(raw: bytes, payload: bytes) returns (pad: bytes)
    requires ReadPadded(raw) == Some(payload)
    ensures |pad| < 256 && |payload| <= 0xFF_FFFF && raw == FrameBytes(pad, payload)
  {
    var n := raw[4] as int;
    pad := raw[5..5 + n];
    U24Inverse(raw[1], raw[2], raw[3]);
    assert payload == raw[5 + n..] && |payload| == U24(raw[1], raw[2], raw[3]);
    hide Be24, U24, ReadPadded, PayloadStart;
    assert raw == raw[..5] + pad + payload;
    assert raw[..5] == [raw[0], raw[1], raw[2], raw[3], raw[4]];
    assert raw[..5] == [FRAME_VER] + Be24(|payload|) + [|pad| % 256];
  }

  lemma FrameReadBack(pad: bytes, payload: bytes)
    requires |pad| < 256 && |payload| <= 0xFF_FFFF
    ensures ReadPadded(FrameBytes(pad, payload)) == Some(payload)
  {
    Be24Exact(|payload|);
    var raw := FrameBytes(pad, payload);
    var be := Be24(|payload|);
    hide Be24, U24;
    assert raw == [FRAME_VER, be[0], be[1], be[2], |pad|] + (pad + payload);
    hide FrameBytes;
    assert raw[1] == be[0] && raw[2] == be[1] && raw[3] == be[2] && raw[4] == |pad|;
    assert raw[5 + |pad|..] == payload;
  }

  /** The readers accept exactly what the writer can produce, and return its payload. */
  lemma ReadsExactlyFrames(raw: bytes, payload: bytes)
    ensures ReadPadded(raw) == Some(payload) <==>
            exists pad: bytes :: |pad| < 256 && |payload| <= 0xFF_FFFF && raw == FrameBytes(pad, payload)
  {
    hide FrameBytes, ReadPadded;
    if ReadPadded(raw) == Some(payload) {
      var pad := ReadIsFrame(raw, payload);
    }
    forall pad: bytes | |pad| < 256 && |payload| <= 0xFF_FFFF && raw == FrameBytes(pad, payload)
      ensures ReadPadded(raw) == Some(payload)
    {
      FrameReadBack(pad, payload);
    }
  }

  /** `max_tcp_payload_per_ws_message` */
  function MaxPayload(v2: bool, decoyMax: byte, maxPad: byte, maxWsBinary: nat): nat {
    if maxWsBinary < 48 then 0
    else if !v2 then SatSub(maxWsBinary, 5 + maxPad)
    else SatSub(maxWsBinary, 29 + decoyMax + 5 + maxPad)
  }
}
