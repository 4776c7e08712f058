/** The ClientHello reader of `extensions.rs` and `parse.rs`, cursor by cursor. */
module HelloReader {
  import opened Prelude
  import opened Bytes
  import opened Text
  import opened Hello

  datatype Error = UnexpectedEof | InvalidRecord | InvalidClientHello | UnsupportedExtension(id: u16) | ParseError

  datatype Result<+T> = Ok(value: T) | Err(error: Error)

  // ---------------------------------------------------------------------------
  // Lists inside extensions
  // ---------------------------------------------------------------------------

  function ReadU16s(b: bytes): seq<u16> {
    if |b| < 2 then [] else [U16(b[0], b[1])] + ReadU16s(b[2..])
  }

  /** Host of the first `host_name` entry, or nothing. */
  function ReadHost(rest: bytes): bytes
    decreases |rest|
  {
    if |rest| < 3 then [] else
    var n := U16(rest[1], rest[2]);
    if |rest| - 3 < n then []
    else if rest[0] == 0 then Lossy(rest[3..3 + n])
    else ReadHost(rest[3 + n..])
  }

  function ReadNames(rest: bytes): seq<bytes>
    decreases |rest|
  {
    if rest == [] then [] else
    var n := rest[0];
    if |rest| - 1 < n then [] else [Lossy(rest[1..1 + n])] + ReadNames(rest[1 + n..])
  }

  function ReadShares(rest: bytes): seq<KeyShareEntry>
    decreases |rest|
  {
    if |rest| < 4 then [] else
    var n := U16(rest[2], rest[3]);
    if |rest| - 4 < n then []
    else [KeyShareEntry(U16(rest[0], rest[1]), rest[4..4 + n])] + ReadShares(rest[4 + n..])
  }

  /** `data.get(i..i + n)`, or nothing if that is out of range. */
  function Get(data: bytes, i: nat, n: nat): bytes {
    if i + n <= |data| then data[i..i + n] else []
  }

  /** At most `n` bytes from `i` on. */
  function Upto(data: bytes, i: nat, n: nat): bytes
    requires i <= |data|
  {
    data[i..Min(i + n, |data|)]
  }

  function Listed16(data: bytes): seq<u16> {
    if |data| < 2 then [] else ReadU16s(Upto(data, 2, U16(data[0], data[1])))
  }

  function Listed8(data: bytes): seq<u16> {
    if data == [] then [] else ReadU16s(Upto(data, 1, data[0]))
  }

  function Bytes8(data: bytes): bytes {
    if data == [] then [] else Get(data, 1, data[0])
  }

  function SniHost(data: bytes): bytes {
    if |data| < 2 then [] else
    var n := U16(data[0], data[1]);
    if n == 0 || |data| < 2 + n then [] else ReadHost(data[2..2 + n])
  }

  /** `extension_from_wire` */
  function FromWire(id: u16, data: bytes): Result<Extension> {
    if IsGrease(id) then Ok(Grease(id, data))
    else if id == EXT_SERVER_NAME then Ok(ServerName(SniHost(data)))
    else if id == EXT_EXTENDED_MASTER_SECRET then Ok(ExtendedMasterSecret)
    else if id == EXT_RENEGOTIATION_INFO then Ok(RenegotiationInfo(if data == [] then 0 else data[0]))
    else if id == EXT_SESSION_TICKET then Ok(SessionTicket(data))
    else if id == EXT_SIGNATURE_ALGORITHMS then Ok(SignatureAlgorithms(Listed16(data)))
    else if id == EXT_STATUS_REQUEST then Ok(StatusRequest)
    else if id == EXT_SCT then Ok(SignedCertificateTimestamp)
    else if id == EXT_ALPN then
      Ok(Alpn(if |data| < 2 then [] else ReadNames(Get(data, 2, U16(data[0], data[1])))))
    else if id == EXT_CHANNEL_ID || id == EXT_OLD_CHANNEL_ID then Ok(FakeChannelId(id == EXT_OLD_CHANNEL_ID))
    else if id == EXT_EC_POINT_FORMATS then Ok(SupportedPoints(Bytes8(data)))
    else if id == EXT_KEY_SHARE then
      Ok(KeyShare(if |data| < 2 then [] else ReadShares(Get(data, 2, U16(data[0], data[1])))))
    else if id == EXT_PSK_KEY_EXCHANGE_MODES then Ok(PskKeyExchangeModes(Bytes8(data)))
    else if id == EXT_SUPPORTED_VERSIONS then Ok(SupportedVersions(Listed8(data)))
    else if id == EXT_SUPPORTED_GROUPS then Ok(SupportedCurves(Listed16(data)))
    else if id == EXT_COMPRESS_CERTIFICATE then Ok(CompressCertificate(Listed8(data)))
    else if id == EXT_PADDING then Ok(Padding(FixedPayloadLen(|data|)))
    else if id == EXT_RECORD_SIZE_LIMIT then
      (if |data| < 2 then Err(ParseError) else Ok(RecordSizeLimit(U16(data[0], data[1]))))
    else Err(UnsupportedExtension(id))
  }

  /** One extension, opaque if it is unknown and mimicry is blunt. */
  function One(id: u16, data: bytes, blunt: bool): Result<Extension> {
    match FromWire(id, data)
    case Ok(e) => Ok(e)
    case Err(error) => if error.UnsupportedExtension? && blunt then Ok(Generic(id, data)) else Err(error)
  }

  /** `parse_extension_block` */
  function Block(buf: bytes, blunt: bool): Result<seq<Extension>>
    decreases |buf|
  {
    if buf == [] then Ok([])
    else if |buf| < 4 then Err(UnexpectedEof)
    else
      var n := U16(buf[2], buf[3]);
      if |buf| - 4 < n then Err(UnexpectedEof)
      else match One(U16(buf[0], buf[1]), buf[4..4 + n], blunt)
           case Err(error) => Err(error)
           case Ok(e) => Cons(e, Block(buf[4 + n..], blunt))
  }

  function Cons(e: Extension, rest: Result<seq<Extension>>): Result<seq<Extension>> {
    if rest.Ok? then Ok([e] + rest.value) else rest
  }

  function UngreaseExt(e: Extension): Extension {
    match e
    case SupportedVersions(versions) => SupportedVersions(UngreaseAll(versions))
    case SupportedCurves(curves) => SupportedCurves(UngreaseAll(curves))
    case KeyShare(entries) => KeyShare(UngreaseShares(entries))
    case _ => e
  }

  function UngreaseExts(es: seq<Extension>): seq<Extension> {
    if es == [] then [] else [UngreaseExt(es[0])] + UngreaseExts(es[1..])
  }

  predicate HasVersions(es: seq<Extension>) {
    exists i | 0 <= i < |es| :: es[i].SupportedVersions?
  }

  // ---------------------------------------------------------------------------
  // Messages
  // ---------------------------------------------------------------------------

  function Short(b: bytes, i: nat): u16
    requires i + 2 <= |b|
  {
    U16(b[i], b[i + 1])
  }

  /** From the extensions on, at `o`. */
  function Tail(ch: bytes, o: nat, legacy: u16, ciphers: seq<u16>, compression: bytes, blunt: bool): Result<Spec>
    requires o + 2 <= |ch|
  {
    var n := Short(ch, o);
    if |ch| < o + 2 + n then Err(UnexpectedEof)
    else match Block(ch[o + 2..o + 2 + n], blunt)
         case Err(error) => Err(error)
         case Ok(es) =>
           var v: u16 := if HasVersions(es) then 0 else legacy;
           Ok(Spec(ciphers, compression, UngreaseExts(es), v, v))
  }

  function ReadBody(ch: bytes, blunt: bool): Result<Spec> {
    if |ch| < 35 then Err(UnexpectedEof) else
    var sid := 35 + ch[34] as nat;
    if |ch| < sid + 2 then Err(UnexpectedEof) else
    var cs := Short(ch, sid);
    if cs % 2 != 0 then Err(InvalidClientHello)
    else if |ch| < sid + 2 + cs + 1 then Err(UnexpectedEof) else
    var comp := sid + 2 + cs;
    var o := comp + 1 + ch[comp] as nat;
    if |ch| < o + 2 then Err(UnexpectedEof)
    else Tail(ch, o, Short(ch, 0), UngreaseAll(ReadU16s(ch[sid + 2..comp])), ch[comp + 1..o], blunt)
  }

  /** `parse_client_hello_handshake` */
  function ReadHandshake(data: bytes, blunt: bool): Result<Spec> {
    if |data| < 4 then Err(UnexpectedEof)
    else if data[0] != 1 then Err(InvalidClientHello)
    else
      var n := U24(data[1], data[2], data[3]);
      if |data| < 4 + n then Err(UnexpectedEof) else ReadBody(data[4..4 + n], blunt)
  }

  /** `client_hello_spec_from_tls_record` */
  function ReadRecord(raw: bytes, blunt: bool): Result<Spec> {
    if |raw| < 5 then Err(UnexpectedEof)
    else if raw[0] != 22 then Err(InvalidRecord)
    else if |raw| < 5 + Short(raw, 3) then Err(UnexpectedEof)
    else ReadHandshake(raw[5..5 + Short(raw, 3)], blunt)
  }

  // ---------------------------------------------------------------------------
  // The loops
  // ---------------------------------------------------------------------------

  lemma PairStep(data: bytes, i: nat, end: nat)
    requires i + 2 <= end <= |data|
    ensures ReadU16s(data[i..end]) == [Short(data, i)] + ReadU16s(data[i + 2..end])
  {
    hide U16;
    var b := data[i..end];
    assert b[0] == data[i] && b[1] == data[i + 1] && b[2..] == data[i + 2..end];
  }

  /** The loop shared by four list parsers. */
  method PairLoop(data: bytes, start: nat, n: nat) returns (vs: seq<u16>)
    requires start <= |data|
    ensures vs == ReadU16s(Upto(data, start, n))
  {
    hide Short;
    vs := [];
    var i := start;
    ghost var end := Min(start + n, |data|);
    ghost var all := ReadU16s(data[start..end]);
    while i + 2 <= start + n && i + 2 <= |data|
      invariant start <= i <= end
      invariant vs + ReadU16s(data[i..end]) == all
    {
      PairStep(data, i, end);
      hide ReadU16s;
      vs := vs + [Short(data, i)];
      i := i + 2;
    }
    assert ReadU16s(data[i..end]) == [];
  }

  method HostLoop(list: bytes) returns (host: bytes)
    ensures host == ReadHost(list)
  {
    var rest := list;
    while rest != []
      invariant ReadHost(rest) == ReadHost(list)
      decreases |rest|
    {
      if |rest| < 3 { return []; }
      var kind := rest[0];
      var n := U16(rest[1], rest[2]);
      ghost var was := rest;
      rest := rest[3..];
      if |rest| < n { return []; }
      assert rest[..n] == was[3..3 + n] && rest[n..] == was[3 + n..];
      if kind == 0 { return Lossy(rest[..n]); }
      rest := rest[n..];
    }
    return [];
  }

  method NameLoop(list: bytes) returns (names: seq<bytes>)
    ensures names == ReadNames(list)
  {
    names := [];
    var rest := list;
    while rest != []
      invariant names + ReadNames(rest) == ReadNames(list)
      decreases |rest|
    {
      ghost var was := rest;
      var n := rest[0];
      rest := rest[1..];
      if |rest| < n { return; }
      assert rest[..n] == was[1..1 + n] && rest[n..] == was[1 + n..];
      names := names + [Lossy(rest[..n])];
      rest := rest[n..];
    }
  }

  method ShareLoop(list: bytes) returns (entries: seq<KeyShareEntry>)
    ensures entries == ReadShares(list)
  {
    entries := [];
    var rest := list;
    while |rest| >= 4
      invariant entries + ReadShares(rest) == ReadShares(list)
      decreases |rest|
    {
      ghost var was := rest;
      var group := U16(rest[0], rest[1]);
      var n := U16(rest[2], rest[3]);
      rest := rest[4..];
      if |rest| < n { return; }
      assert rest[..n] == was[4..4 + n] && rest[n..] == was[4 + n..];
      entries := entries + [KeyShareEntry(group, rest[..n])];
      rest := rest[n..];
    }
  }

  /** `extension_from_wire` with its sub-parsers. */
  method ParseExtension(id: u16, data: bytes) returns (r: Result<Extension>)
    ensures r == FromWire(id, data)
  {
    hide ReadU16s, ReadHost, ReadNames, ReadShares, U16;
    if IsGrease(id) { return Ok(Grease(id, data)); }
    if id == EXT_SERVER_NAME {
      var host := ParseSni(data);
      return Ok(ServerName(host));
    } else if id == EXT_EXTENDED_MASTER_SECRET {
      return Ok(ExtendedMasterSecret);
    } else if id == EXT_RENEGOTIATION_INFO {
      var r := 0;
      if data != [] { r := data[0]; }
      return Ok(RenegotiationInfo(r));
    } else if id == EXT_SESSION_TICKET {
      return Ok(SessionTicket(data));
    } else if id == EXT_SIGNATURE_ALGORITHMS || id == EXT_SUPPORTED_GROUPS {
      var vs := ParseList16(data);
      return Ok(if id == EXT_SIGNATURE_ALGORITHMS then SignatureAlgorithms(vs) else SupportedCurves(vs));
    } else if id == EXT_STATUS_REQUEST {
      return Ok(StatusRequest);
    } else if id == EXT_SCT {
      return Ok(SignedCertificateTimestamp);
    } else if id == EXT_ALPN {
      if |data| < 2 { return Ok(Alpn([])); }
      var names := NameLoop(Get(data, 2, U16(data[0], data[1])));
      return Ok(Alpn(names));
    } else if id == EXT_CHANNEL_ID || id == EXT_OLD_CHANNEL_ID {
      return Ok(FakeChannelId(id == EXT_OLD_CHANNEL_ID));
    } else if id == EXT_EC_POINT_FORMATS || id == EXT_PSK_KEY_EXCHANGE_MODES {
      var list: bytes := [];
      if data != [] && 1 + data[0] as int <= |data| { list := data[1..1 + data[0] as int]; }
      return Ok(if id == EXT_EC_POINT_FORMATS then SupportedPoints(list) else PskKeyExchangeModes(list));
    } else if id == EXT_KEY_SHARE {
      if |data| < 2 { return Ok(KeyShare([])); }
      var entries := ShareLoop(Get(data, 2, U16(data[0], data[1])));
      return Ok(KeyShare(entries));
    } else if id == EXT_SUPPORTED_VERSIONS || id == EXT_COMPRESS_CERTIFICATE {
      var vs: seq<u16> := [];
      if data != [] { vs := PairLoop(data, 1, data[0]); }
      return Ok(if id == EXT_SUPPORTED_VERSIONS then SupportedVersions(vs) else CompressCertificate(vs));
    } else if id == EXT_PADDING {
      return Ok(Padding(FixedPayloadLen(|data|)));
    } else if id == EXT_RECORD_SIZE_LIMIT {
      if |data| < 2 { return Err(ParseError); }
      return Ok(RecordSizeLimit(Short(data, 0)));
    }
    return Err(UnsupportedExtension(id));
  }

  method ParseList16(data: bytes) returns (vs: seq<u16>)
    ensures vs == Listed16(data)
  {
    if |data| < 2 { return []; }
    vs := PairLoop(data, 2, U16(data[0], data[1]));
  }

  method ParseSni(data: bytes) returns (host: bytes)
    ensures host == SniHost(data)
  {
    if |data| < 2 { return []; }
    var n := U16(data[0], data[1]);
    if n == 0 || |data| < 2 + n { return []; }
    host := HostLoop(data[2..2 + n]);
  }

  method ParseBlock(block: bytes, blunt: bool) returns (r: Result<seq<Extension>>)
    ensures r == Block(block, blunt)
  {
    hide FromWire;
    var out: seq<Extension> := [];
    var buf := block;
    PrependNothing(Block(block, blunt));
    while buf != []
      invariant Prepend(out, Block(buf, blunt)) == Block(block, blunt)
      decreases |buf|
    {
      if |buf| < 4 { return Err(UnexpectedEof); }
      ghost var was := buf;
      var id := U16(buf[0], buf[1]);
      var n := U16(buf[2], buf[3]);
      buf := buf[4..];
      if |buf| < n { return Err(UnexpectedEof); }
      var data := buf[..n];
      buf := buf[n..];
      assert data == was[4..4 + n] && buf == was[4 + n..];
      var e := ParseExtension(id, data);
      var next: Extension;
      if e.Ok? {
        next := e.value;
      } else if e.error.UnsupportedExtension? && blunt {
        next := Generic(id, data);
      } else {
        return Err(e.error);
      }
      PrependCons(out, next, Block(buf, blunt));
      out := out + [next];
    }
    assert out + [] == out;
    return Ok(out);
  }

  function Prepend(es: seq<Extension>, rest: Result<seq<Extension>>): Result<seq<Extension>> {
    if rest.Ok? then Ok(es + rest.value) else rest
  }

  lemma PrependNothing(rest: Result<seq<Extension>>)
    ensures Prepend([], rest) == rest
  {
    if rest.Ok? { assert [] + rest.value == rest.value; }
  }

  lemma PrependCons(es: seq<Extension>, e: Extension, rest: Result<seq<Extension>>)
    ensures Prepend(es, Cons(e, rest)) == Prepend(es + [e], rest)
  {
    if rest.Ok? { assert es + ([e] + rest.value) == (es + [e]) + rest.value; }
  }

  /** The suites from offset `i` on. */
  ghost function SuitesFrom(list: bytes, i: nat): seq<u16> {
    if i <= |list| && (|list| - i) % 2 == 0 then UngreaseAll(ReadU16s(list[i..])) else []
  }

  lemma SuiteStep(list: bytes, i: nat)
    requires |list| % 2 == 0 && i % 2 == 0 && i < |list|
    ensures i + 1 < |list| && (i + 2) % 2 == 0
    ensures SuitesFrom(list, i) == [Ungrease(U16(list[i], list[i + 1]))] + SuitesFrom(list, i + 2)
  {
    hide Ungrease;
    assert list[i..][2..] == list[i + 2..];
    var rest := ReadU16s(list[i + 2..]);
    assert ReadU16s(list[i..]) == [U16(list[i], list[i + 1])] + rest;
    assert ReadU16s(list[i..])[1..] == rest;
  }

  lemma SuiteEnds(list: bytes)
    requires |list| % 2 == 0
    ensures SuitesFrom(list, 0) == UngreaseAll(ReadU16s(list)) && SuitesFrom(list, |list|) == []
  {
    assert list[0..] == list;
  }

  /** The cipher loop: each suite is read and ungreased. */
  method SuiteLoop(list: bytes) returns (suites: seq<u16>)
    requires |list| % 2 == 0
    ensures suites == UngreaseAll(ReadU16s(list))
  {
    hide Ungrease, UngreaseAll, ReadU16s, SuitesFrom;
    suites := [];
    var i := 0;
    SuiteEnds(list);
    while i < |list|
      invariant 0 <= i <= |list| && i % 2 == 0
      invariant suites + SuitesFrom(list, i) == SuitesFrom(list, 0)
    {
      SuiteStep(list, i);
      suites := suites + [Ungrease(U16(list[i], list[i + 1]))];
      i := i + 2;
    }
  }

  /** The pass over the parsed extensions. */
  method UngreaseLoop(es: seq<Extension>, legacy: u16) returns (out: seq<Extension>, v: u16)
    ensures out == UngreaseExts(es)
    ensures v == if HasVersions(es) then 0 else legacy
  {
    hide UngreaseExt;
    out, v := [], legacy;
    var i := 0;
    while i < |es|
      invariant 0 <= i <= |es|
      invariant out + UngreaseExts(es[i..]) == UngreaseExts(es)
      invariant v == if HasVersions(es[..i]) then 0 else legacy
    {
      assert es[i..][1..] == es[i + 1..];
      assert forall k | 0 <= k < i :: es[..i + 1][k] == es[..i][k];
      if es[i].SupportedVersions? {
        v := 0;
        assert es[..i + 1][i].SupportedVersions?;
      }
      out := out + [UngreaseExt(es[i])];
      i := i + 1;
    }
    assert es[..i] == es;
  }

  /** `parse_client_hello_handshake`, with its cursor `o`. */
  method ParseHandshake(data: bytes, blunt: bool) returns (r: Result<Spec>)
    ensures r == ReadHandshake(data, blunt)
  {
    hide ReadBody;
    if |data| < 4 { return Err(UnexpectedEof); }
    if data[0] != 1 { return Err(InvalidClientHello); }
    var hsLen := U24(data[1], data[2], data[3]);
    if |data| < 4 + hsLen { return Err(UnexpectedEof); }
    r := ParseBody(data[4..4 + hsLen], blunt);
  }

  /** From the extensions on. */
  method ParseTail(ch: bytes, start: nat, legacy: u16, suites: seq<u16>, compression: bytes, blunt: bool)
    returns (r: Result<Spec>)
    requires start + 2 <= |ch|
    ensures r == Tail(ch, start, legacy, suites, compression, blunt)
  {
    hide U16, Block, UngreaseExts, HasVersions;
    var o := start;
    var extLen := U16(ch[o], ch[o + 1]);
    o := o + 2;
    if |ch| < o + extLen { return Err(UnexpectedEof); }
    var es := ParseBlock(ch[o..o + extLen], blunt);
    if es.Err? { return Err(es.error); }
    var out, v := UngreaseLoop(es.value, legacy);
    return Ok(Spec(suites, compression, out, v, v));
  }

  method ParseBody(ch: bytes, blunt: bool) returns (r: Result<Spec>)
    ensures r == ReadBody(ch, blunt)
  {
    hide Short, ReadU16s, UngreaseAll, Tail;
    if |ch| < 2 + 32 + 1 { return Err(UnexpectedEof); }
    var o: nat := 0;
    var legacy := Short(ch, o);
    o := o + 2;
    o := o + 32;
    var sidLen: nat := ch[o];
    o := o + 1;
    if |ch| < o + sidLen + 2 { return Err(UnexpectedEof); }
    o := o + sidLen;
    var csLen := Short(ch, o);
    o := o + 2;
    if csLen % 2 != 0 { return Err(InvalidClientHello); }
    if |ch| < o + csLen + 1 { return Err(UnexpectedEof); }
    var suites := SuiteLoop(ch[o..o + csLen]);
    o := o + csLen;
    var compLen: nat := ch[o];
    o := o + 1;
    if |ch| < o + compLen + 2 { return Err(UnexpectedEof); }
    var compression := ch[o..o + compLen];
    o := o + compLen;
    r := ParseTail(ch, o, legacy, suites, compression, blunt);
  }

  method ParseRecord(raw: bytes, blunt: bool) returns (r: Result<Spec>)
    ensures r == ReadRecord(raw, blunt)
  {
    hide ReadHandshake;
    if |raw| < 5 { return Err(UnexpectedEof); }
    if raw[0] != 22 { return Err(InvalidRecord); }
    var n := U16(raw[3], raw[4]);
    if |raw| < 5 + n { return Err(UnexpectedEof); }
    r := ParseHandshake(raw[5..5 + n], blunt);
  }
}
