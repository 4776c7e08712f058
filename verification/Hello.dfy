/** ClientHello specs of `biba`: extensions, GREASE and the wire writer. */
module Hello {
  import opened Prelude
  import opened Bytes
  import opened Text

  type u16 = x: int | 0 <= x < 0x1_0000

  const GREASE_PLACEHOLDER: u16 := 0x0A0A
  const VERSION_TLS12: u16 := 0x0303
  const VERSION_TLS13: u16 := 0x0304

  const EXT_SERVER_NAME: u16 := 0
  const EXT_STATUS_REQUEST: u16 := 5
  const EXT_SUPPORTED_GROUPS: u16 := 10
  const EXT_EC_POINT_FORMATS: u16 := 11
  const EXT_SIGNATURE_ALGORITHMS: u16 := 13
  const EXT_ALPN: u16 := 16
  const EXT_SCT: u16 := 18
  const EXT_PADDING: u16 := 21
  const EXT_EXTENDED_MASTER_SECRET: u16 := 23
  const EXT_COMPRESS_CERTIFICATE: u16 := 27
  const EXT_RECORD_SIZE_LIMIT: u16 := 28
  const EXT_SESSION_TICKET: u16 := 35
  const EXT_SUPPORTED_VERSIONS: u16 := 43
  const EXT_PSK_KEY_EXCHANGE_MODES: u16 := 45
  const EXT_KEY_SHARE: u16 := 51
  const EXT_RENEGOTIATION_INFO: u16 := 0xFF01
  const EXT_CHANNEL_ID: u16 := 30032
  const EXT_OLD_CHANNEL_ID: u16 := 30031

  datatype PaddingStyle = Boring | PadRecordTo(target: nat) | FixedPayloadLen(n: nat)

  datatype KeyShareEntry = KeyShareEntry(group: u16, key: bytes)

  datatype Extension =
    | Grease(value: u16, body: bytes)
    | ServerName(host: bytes)
    | ExtendedMasterSecret
    | RenegotiationInfo(renegotiation: byte)
    | SessionTicket(ticket: bytes)
    | SignatureAlgorithms(schemes: seq<u16>)
    | StatusRequest
    | SignedCertificateTimestamp
    | Alpn(protocols: seq<bytes>)
    | FakeChannelId(oldId: bool)
    | SupportedPoints(formats: bytes)
    | KeyShare(entries: seq<KeyShareEntry>)
    | PskKeyExchangeModes(modes: bytes)
    | SupportedVersions(versions: seq<u16>)
    | SupportedCurves(curves: seq<u16>)
    | CompressCertificate(algorithms: seq<u16>)
    | Padding(style: PaddingStyle)
    | RecordSizeLimit(limit: u16)
    | Generic(id: u16, data: bytes)

  datatype Spec = Spec(ciphers: seq<u16>, compression: bytes, extensions: seq<Extension>, vmin: u16, vmax: u16)
  {
    predicate HasTls13() {
      vmax == VERSION_TLS13 ||
      exists i | 0 <= i < |extensions| :: extensions[i].SupportedVersions? && VERSION_TLS13 in extensions[i].versions
    }
  }

  datatype Params = Params(serverName: bytes, sessionId: bytes, random: bytes, seed: seq<u16>)

  predicate ParamsOk(p: Params) { |p.random| == 32 && |p.seed| == 5 }

  // ---------------------------------------------------------------------------
  // GREASE
  // ---------------------------------------------------------------------------

  const GREASE_CIPHER: nat := 0
  const GREASE_GROUP: nat := 1
  const GREASE_EXTENSION1: nat := 2
  const GREASE_EXTENSION2: nat := 3
  const GREASE_VERSION: nat := 4

  /** Both bytes equal, low nibble 0xA. */
  predicate IsGrease(v: u16) { v / 0x100 == v % 0x100 && v % 0x10 == 0xA }

  function Ungrease(v: u16): u16 { if IsGrease(v) then GREASE_PLACEHOLDER else v }

  /** Bits 4 to 7 of the seed, with low nibble 0xA, in both bytes. */
  function GreaseByte(seed: u16): byte { seed / 0x10 % 0x10 * 0x10 + 0xA }

  function BoringGrease(p: Params, index: nat): u16
    requires ParamsOk(p) && index < 5
  {
    GreaseByte(p.seed[index]) * 0x101
  }

  function Resolve(p: Params, v: u16, index: nat): u16
    requires ParamsOk(p) && index < 5
  {
    if v == GREASE_PLACEHOLDER then BoringGrease(p, index) else v
  }

  lemma BoringIsGrease(p: Params, index: nat)
    requires ParamsOk(p) && index < 5
    ensures IsGrease(BoringGrease(p, index))
  {
    var b: int := GreaseByte(p.seed[index]);
    assert b * 0x101 == b * 0x100 + b;
    assert b % 0x10 == 0xA;
  }

  /** The fill-in of a placeholder cannot be seen after normalisation. */
  lemma ResolveInvisible(p: Params, v: u16, index: nat)
    requires ParamsOk(p) && index < 5
    ensures Ungrease(Resolve(p, v, index)) == Ungrease(v)
  {
    BoringIsGrease(p, index);
    hide BoringGrease;
  }

  function ResolveAll(p: Params, vs: seq<u16>, index: nat): seq<u16>
    requires ParamsOk(p) && index < 5
  {
    if vs == [] then [] else [Resolve(p, vs[0], index)] + ResolveAll(p, vs[1..], index)
  }

  function UngreaseAll(vs: seq<u16>): seq<u16> {
    if vs == [] then [] else [Ungrease(vs[0])] + UngreaseAll(vs[1..])
  }

  lemma {:induction false} ResolveAllInvisible(p: Params, vs: seq<u16>, index: nat)
    requires ParamsOk(p) && index < 5
    ensures |ResolveAll(p, vs, index)| == |vs| && UngreaseAll(ResolveAll(p, vs, index)) == UngreaseAll(vs)
  {
    hide Resolve, Ungrease;
    if vs != [] {
      ResolveInvisible(p, vs[0], index);
      ResolveAllInvisible(p, vs[1..], index);
    }
  }

  function ResolveShares(p: Params, es: seq<KeyShareEntry>): seq<KeyShareEntry>
    requires ParamsOk(p)
  {
    if es == [] then []
    else [KeyShareEntry(Resolve(p, es[0].group, GREASE_GROUP), es[0].key)] + ResolveShares(p, es[1..])
  }

  function UngreaseShares(es: seq<KeyShareEntry>): seq<KeyShareEntry> {
    if es == [] then [] else [KeyShareEntry(Ungrease(es[0].group), es[0].key)] + UngreaseShares(es[1..])
  }

  lemma {:induction false} ResolveSharesInvisible(p: Params, es: seq<KeyShareEntry>)
    requires ParamsOk(p)
    ensures |ResolveShares(p, es)| == |es| && UngreaseShares(ResolveShares(p, es)) == UngreaseShares(es)
    ensures |Shares(ResolveShares(p, es))| == |Shares(es)|
    ensures forall i | 0 <= i < |es| :: ResolveShares(p, es)[i].key == es[i].key
  {
    hide Resolve, Ungrease;
    if es != [] {
      ResolveInvisible(p, es[0].group, GREASE_GROUP);
      ResolveSharesInvisible(p, es[1..]);
    }
  }

  // ---------------------------------------------------------------------------
  // Extension payloads
  // ---------------------------------------------------------------------------

  function U16s(vs: seq<u16>): bytes {
    if vs == [] then [] else Be16(vs[0]) + U16s(vs[1..])
  }

  /** A list after its length, which is truncated to one or two bytes. */
  function Len8(b: bytes): bytes { [|b| % 0x100] + b }

  function Len16(b: bytes): bytes { Be16(|b|) + b }

  function Names(protocols: seq<bytes>): bytes {
    if protocols == [] then [] else Len8(protocols[0]) + Names(protocols[1..])
  }

  function Shares(entries: seq<KeyShareEntry>): bytes {
    if entries == [] then [] else Be16(entries[0].group) + (Len16(entries[0].key) + Shares(entries[1..]))
  }

  function Zeros(n: nat): (r: bytes)
    ensures |r| == n
  {
    if n == 0 then [] else [0] + Zeros(n - 1)
  }

  const COLON: byte := 58

  /** `hostname_for_sni`: nothing for IPv4 literals and whatever holds a colon. */
  function HostForSni(host: bytes): bytes {
    var h := TrimEndDots(host);
    if h == [] || IsIpv4(h) || COLON in h then [] else Lower(h)
  }

  function SniPayload(h: bytes): bytes {
    if h == [] then [] else Be16(|h| + 3) + ([0] + Len16(h))
  }

  function WireType(e: Extension): u16 {
    match e
    case Grease(value, _) => value
    case ServerName(_) => EXT_SERVER_NAME
    case ExtendedMasterSecret => EXT_EXTENDED_MASTER_SECRET
    case RenegotiationInfo(_) => EXT_RENEGOTIATION_INFO
    case SessionTicket(_) => EXT_SESSION_TICKET
    case SignatureAlgorithms(_) => EXT_SIGNATURE_ALGORITHMS
    case StatusRequest => EXT_STATUS_REQUEST
    case SignedCertificateTimestamp => EXT_SCT
    case Alpn(_) => EXT_ALPN
    case FakeChannelId(oldId) => if oldId then EXT_OLD_CHANNEL_ID else EXT_CHANNEL_ID
    case SupportedPoints(_) => EXT_EC_POINT_FORMATS
    case KeyShare(_) => EXT_KEY_SHARE
    case PskKeyExchangeModes(_) => EXT_PSK_KEY_EXCHANGE_MODES
    case SupportedVersions(_) => EXT_SUPPORTED_VERSIONS
    case SupportedCurves(_) => EXT_SUPPORTED_GROUPS
    case CompressCertificate(_) => EXT_COMPRESS_CERTIFICATE
    case Padding(_) => EXT_PADDING
    case RecordSizeLimit(_) => EXT_RECORD_SIZE_LIMIT
    case Generic(id, _) => id
  }

  function Payload(e: Extension): bytes {
    match e
    case Grease(_, body) => body
    case ServerName(host) => SniPayload(HostForSni(host))
    case RenegotiationInfo(r) => [r]
    case SessionTicket(ticket) => ticket
    case SignatureAlgorithms(schemes) => Len16(U16s(schemes))
    case StatusRequest => [1, 0, 0, 0, 0]
    case Alpn(protocols) => Len16(Names(protocols))
    case SupportedPoints(formats) => Len8(formats)
    case KeyShare(entries) => Len16(Shares(entries))
    case PskKeyExchangeModes(modes) => Len8(modes)
    case SupportedVersions(versions) => Len8(U16s(versions))
    case SupportedCurves(curves) => Len16(U16s(curves))
    case CompressCertificate(algorithms) => Len8(U16s(algorithms))
    case Padding(FixedPayloadLen(n)) => Zeros(n)
    case RecordSizeLimit(limit) => Be16(limit)
    case Generic(_, data) => data
    case _ => []
  }

  predicate IsBoring(e: Extension) { e.Padding? && e.style.Boring? }

  /** One extension on the wire; unresolved Boring padding is not written. */
  function Wire(e: Extension): bytes {
    if IsBoring(e) then [] else Be16(WireType(e)) + Len16(Payload(e))
  }

  function WireAll(es: seq<Extension>): bytes {
    if es == [] then [] else Wire(es[0]) + WireAll(es[1..])
  }

  // ---------------------------------------------------------------------------
  // Filling in GREASE, the server name and the padding
  // ---------------------------------------------------------------------------

  /** `apply_grease_to_extension` and `inject_sni`; `slot` counts GREASE placeholders. */
  function Filled(p: Params, e: Extension, slot: nat): Extension
    requires ParamsOk(p)
  {
    match e
    case Grease(value, body) =>
      if value != GREASE_PLACEHOLDER then e
      else if slot == 0 then Grease(BoringGrease(p, GREASE_EXTENSION1), [])
      else Grease(BoringGrease(p, GREASE_EXTENSION2), [0])
    case SupportedCurves(curves) => SupportedCurves(ResolveAll(p, curves, GREASE_GROUP))
    case SupportedVersions(versions) => SupportedVersions(ResolveAll(p, versions, GREASE_VERSION))
    case KeyShare(entries) => KeyShare(ResolveShares(p, entries))
    case ServerName(host) => if host == [] then ServerName(p.serverName) else e
    case _ => e
  }

  function NextSlot(e: Extension, slot: nat): nat {
    if e.Grease? && e.value == GREASE_PLACEHOLDER then Min(slot + 1, 255) else slot
  }

  function FilledAll(p: Params, es: seq<Extension>, slot: nat): (r: seq<Extension>)
    requires ParamsOk(p)
    ensures |r| == |es|
    decreases |es|
  {
    if es == [] then [] else [Filled(p, es[0], slot)] + FilledAll(p, es[1..], NextSlot(es[0], slot))
  }

  /** The last Boring padding; earlier ones are written as nothing. */
  function LastBoring(es: seq<Extension>): (r: Option<nat>)
    ensures r.Some? ==> r.value < |es| && IsBoring(es[r.value])
    ensures r.None? ==> forall i | 0 <= i < |es| :: !IsBoring(es[i])
  {
    if es == [] then None
    else if IsBoring(es[|es| - 1]) then Some(|es| - 1)
    else LastBoring(es[..|es| - 1])
  }

  /** Payload length of Boring padding, or none (`boring_padding_len`). */
  function BoringPaddingLen(u: nat): Option<nat> {
    if 0xFF < u < 0x200 then Some(if 0x200 - u >= 5 then 0x200 - u - 4 else 1) else None
  }

  /** Length of a body whose extensions take `n` bytes. */
  function BodyLen(s: Spec, p: Params, n: nat): nat {
    2 + 32 + 1 + |p.sessionId| + 2 + |s.ciphers| * 2 + 1 + Max(|s.compression|, 1) + 2 + n
  }

  /** The extensions as they go on the wire. */
  function Final(s: Spec, p: Params): (r: seq<Extension>)
    requires ParamsOk(p)
    ensures |r| == |s.extensions|
  {
    var es := FilledAll(p, s.extensions, 0);
    match LastBoring(s.extensions)
    case None => es
    case Some(bi) =>
      match BoringPaddingLen(BodyLen(s, p, |WireAll(es)|))
      case None => es
      case Some(n) => es[bi := Padding(FixedPayloadLen(n))]
  }

  // ---------------------------------------------------------------------------
  // Messages
  // ---------------------------------------------------------------------------

  function LegacyVersion(s: Spec): u16 {
    if s.HasTls13() then VERSION_TLS12 else Max(s.vmax, s.vmin)
  }

  function Compression(s: Spec): bytes { if s.compression == [] then [0] else s.compression }

  /** Version, random, session id, cipher suites, compression methods, extensions. */
  function Layout(v: u16, random: bytes, sid: bytes, suites: bytes, comp: bytes, ext: bytes): bytes {
    Be16(v) + (random + (Len8(sid) + (Len16(suites) + (Len8(comp) + Len16(ext)))))
  }

  /** `None` is the error for a session id over 255 bytes. */
  function Body(s: Spec, p: Params): Option<bytes>
    requires ParamsOk(p)
  {
    if |p.sessionId| > 255 then None
    else Some(Layout(LegacyVersion(s), p.random, p.sessionId, U16s(ResolveAll(p, s.ciphers, GREASE_CIPHER)),
                     Compression(s), WireAll(Final(s, p))))
  }

  function Handshake(body: bytes): bytes { [1] + (Be24(|body|) + body) }

  /** A TLS record: handshake, legacy version 0x0301, length truncated to 16 bits. */
  function Record(hs: bytes): bytes { [22, 3, 1] + Len16(hs) }
}
