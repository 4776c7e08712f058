/** Reading back what the writer writes. */
module HelloRoundTrip {
  import opened Bytes
  import opened Text
  import opened Hello
  import opened HelloReader

  // ---------------------------------------------------------------------------
  // Lists
  // ---------------------------------------------------------------------------

  lemma {:induction false} U16sRead(vs: seq<u16>)
    ensures ReadU16s(U16s(vs)) == vs && |U16s(vs)| == 2 * |vs|
  {
    if vs != [] {
      U16sRead(vs[1..]);
      Be16Exact(vs[0]);
      var (b, rest) := (Be16(vs[0]), U16s(vs[1..]));
      assert U16s(vs) == b + rest;
      hide Be16, U16, U16s;
      assert (b + rest)[0] == b[0] && (b + rest)[1] == b[1] && (b + rest)[2..] == rest;
    }
  }

  predicate GoodName(n: bytes) { |n| <= 255 && ValidUtf8(n) }

  lemma NameSlices(all: bytes, n: bytes, rest: bytes)
    requires all == Len8(n) + rest && |n| <= 255
    ensures all[0] == |n| && |all| - 1 >= |n| && all[1..1 + |n|] == n && all[1 + |n|..] == rest
  {
    assert all == [|n|] + (n + rest);
  }

  lemma {:induction false} NamesRead(ps: seq<bytes>)
    requires forall i | 0 <= i < |ps| :: GoodName(ps[i])
    ensures ReadNames(Names(ps)) == ps
  {
    hide Lossy, ValidUtf8, Len8;
    if ps != [] {
      var (all, rest) := (Names(ps), Names(ps[1..]));
      assert all == Len8(ps[0]) + rest;
      hide Names;
      NamesRead(ps[1..]);
      assert GoodName(ps[0]);
      LossyOfValid(ps[0]);
      NameSlices(all, ps[0], rest);
      assert ReadNames(all) == [ps[0]] + ReadNames(rest);
    }
  }

  lemma ShareSlices(all: bytes, g: u16, k: bytes, rest: bytes)
    requires all == Be16(g) + (Len16(k) + rest) && |k| < 0x1_0000
    ensures |all| - 4 >= |k| && U16(all[0], all[1]) == g && U16(all[2], all[3]) == |k|
    ensures all[4..4 + |k|] == k && all[4 + |k|..] == rest
  {
    Be16Exact(g);
    Be16Exact(|k|);
    var (gb, kb) := (Be16(g), Be16(|k|));
    hide Be16, U16;
    assert all == [gb[0], gb[1], kb[0], kb[1]] + (k + rest);
  }

  lemma ReadSharesStep(all: bytes, g: u16, k: bytes, rest: bytes)
    requires |all| - 4 >= |k| && U16(all[0], all[1]) == g && U16(all[2], all[3]) == |k|
    requires all[4..4 + |k|] == k && all[4 + |k|..] == rest
    ensures ReadShares(all) == [KeyShareEntry(g, k)] + ReadShares(rest)
  {
    hide U16;
  }

  lemma {:induction false} SharesRead(es: seq<KeyShareEntry>)
    requires |Shares(es)| < 0x1_0000
    ensures ReadShares(Shares(es)) == es
  {
    hide Be16, U16;
    if es != [] {
      var (g, k, rest, all) := (es[0].group, es[0].key, Shares(es[1..]), Shares(es));
      assert all == Be16(g) + (Len16(k) + rest);
      assert |Len16(k)| >= |k|;
      hide Shares, Len16, ReadShares;
      SharesRead(es[1..]);
      ShareSlices(all, g, k, rest);
      ReadSharesStep(all, g, k, rest);
    }
  }

  lemma Len16Read(b: bytes)
    requires |b| < 0x1_0000
    ensures var d := Len16(b); |d| == 2 + |b| && U16(d[0], d[1]) == |b| && Get(d, 2, |b|) == b && Upto(d, 2, |b|) == b
  {
    Be16Exact(|b|);
    hide Be16, U16;
    assert Len16(b)[2..2 + |b|] == b;
  }

  lemma Len8Read(b: bytes)
    requires |b| < 0x100
    ensures var d := Len8(b); |d| == 1 + |b| && d[0] == |b| && Get(d, 1, |b|) == b && Upto(d, 1, |b|) == b
  {
    assert Len8(b)[1..1 + |b|] == b;
  }

  lemma SniSlices(d: bytes, a: bytes, b: bytes, h: bytes)
    requires |a| == 2 && |b| == 2 && d == a + ([0] + (b + h))
    ensures |d| == |h| + 5 && d[0] == a[0] && d[1] == a[1] && d[2] == 0 && d[3] == b[0] && d[4] == b[1] && d[5..] == h
    ensures var list := d[2..2 + (|h| + 3)];
            |list| == |h| + 3 && list[0] == 0 && list[1] == b[0] && list[2] == b[1] && list[3..3 + |h|] == h
  {
    assert d == [a[0], a[1], 0, b[0], b[1]] + h;
  }

  lemma ReadHostFirst(list: bytes, h: bytes)
    requires |list| == |h| + 3 && list[0] == 0 && U16(list[1], list[2]) == |h| && list[3..3 + |h|] == h && Lossy(h) == h
    ensures ReadHost(list) == h
  {
    hide U16, Lossy;
  }

  /** The list length, the name type and the name length come back, and then the name. */
  lemma SniRead(h: bytes)
    requires h != [] && ValidUtf8(h) && |h| + 5 < 0x1_0000
    ensures var d := SniPayload(h);
            && |d| == |h| + 5 && U16(d[0], d[1]) == |h| + 3 && d[2] == 0
            && U16(d[3], d[4]) == |h| && d[5..] == h && SniHost(d) == h
  {
    hide Be16, U16, Lossy, ValidUtf8, ReadHost;
    LossyOfValid(h);
    Be16Exact(|h| + 3);
    Be16Exact(|h|);
    var d := SniPayload(h);
    SniSlices(d, Be16(|h| + 3), Be16(|h|), h);
    hide SniPayload;
    ReadHostFirst(d[2..2 + (|h| + 3)], h);
  }

  lemma HostForSniGood(host: bytes)
    requires ValidUtf8(host)
    ensures ValidUtf8(HostForSni(host)) && |HostForSni(host)| <= |host|
  {
    TrimEndDotsExact(host);
    TrimEndDotsValid(host);
    LowerValid(TrimEndDots(host));
  }

  // ---------------------------------------------------------------------------
  // One extension
  // ---------------------------------------------------------------------------

  predicate Known(id: u16) {
    id in [EXT_SERVER_NAME, EXT_EXTENDED_MASTER_SECRET, EXT_RENEGOTIATION_INFO, EXT_SESSION_TICKET,
           EXT_SIGNATURE_ALGORITHMS, EXT_STATUS_REQUEST, EXT_SCT, EXT_ALPN, EXT_CHANNEL_ID, EXT_OLD_CHANNEL_ID,
           EXT_EC_POINT_FORMATS, EXT_KEY_SHARE, EXT_PSK_KEY_EXCHANGE_MODES, EXT_SUPPORTED_VERSIONS,
           EXT_SUPPORTED_GROUPS, EXT_COMPRESS_CERTIFICATE, EXT_PADDING, EXT_RECORD_SIZE_LIMIT]
  }

  /** One-byte counts fit, strings are UTF-8, GREASE is GREASE, opaque ids are unknown. */
  predicate WellFormed(e: Extension) {
    match e
    case Grease(value, _) => IsGrease(value)
    case ServerName(host) => ValidUtf8(host)
    case Alpn(protocols) => forall i | 0 <= i < |protocols| :: GoodName(protocols[i])
    case SupportedPoints(formats) => |formats| <= 255
    case PskKeyExchangeModes(modes) => |modes| <= 255
    case SupportedVersions(versions) => |versions| <= 127
    case CompressCertificate(algorithms) => |algorithms| <= 127
    case Padding(style) => !style.PadRecordTo?
    case Generic(id, _) => !Known(id) && !IsGrease(id)
    case _ => true
  }

  /** What reading makes of it: the host is normalised. */
  function Plain(e: Extension): Extension {
    if e.ServerName? then ServerName(HostForSni(e.host)) else e
  }

  /** Extensions that carry lists. */
  predicate IsList(e: Extension) {
    e.SignatureAlgorithms? || e.Alpn? || e.SupportedPoints? || e.KeyShare? || e.PskKeyExchangeModes?
    || e.SupportedVersions? || e.SupportedCurves? || e.CompressCertificate?
  }

  lemma List16Read(e: Extension)
    requires (e.SignatureAlgorithms? || e.SupportedCurves?) && |Payload(e)| < 0x1_0000
    ensures FromWire(WireType(e), Payload(e)) == Ok(e)
  {
    var vs := if e.SignatureAlgorithms? then e.schemes else e.curves;
    U16sRead(vs);
    assert Payload(e) == Len16(U16s(vs)) && |U16s(vs)| < 0x1_0000;
    Len16Read(U16s(vs));
    hide U16s, ReadU16s, U16, Upto, Len16, Payload;
  }

  lemma List8Read(e: Extension)
    requires (e.SupportedVersions? || e.CompressCertificate?) && WellFormed(e)
    ensures FromWire(WireType(e), Payload(e)) == Ok(e)
  {
    var vs := if e.SupportedVersions? then e.versions else e.algorithms;
    U16sRead(vs);
    assert Payload(e) == Len8(U16s(vs));
    Len8Read(U16s(vs));
    hide U16s, ReadU16s, U16, Upto, Len8, Payload;
  }

  lemma FromWireNested(data: bytes)
    requires |data| >= 2
    ensures FromWire(EXT_ALPN, data) == Ok(Alpn(ReadNames(Get(data, 2, U16(data[0], data[1])))))
    ensures FromWire(EXT_KEY_SHARE, data) == Ok(KeyShare(ReadShares(Get(data, 2, U16(data[0], data[1])))))
  {
    hide U16, Get, ReadNames, ReadShares;
  }

  lemma AlpnRead(e: Extension)
    requires e.Alpn? && WellFormed(e) && |Payload(e)| < 0x1_0000
    ensures FromWire(WireType(e), Payload(e)) == Ok(e)
  {
    hide FromWire, Names, ReadNames, U16, Get;
    var list := Names(e.protocols);
    assert Payload(e) == Len16(list) && |list| < 0x1_0000;
    NamesRead(e.protocols);
    Len16Read(list);
    hide Len16;
    FromWireNested(Payload(e));
  }

  lemma KeyShareRead(e: Extension)
    requires e.KeyShare? && |Payload(e)| < 0x1_0000
    ensures FromWire(WireType(e), Payload(e)) == Ok(e)
  {
    hide FromWire, Shares, ReadShares, U16, Get;
    var list := Shares(e.entries);
    assert Payload(e) == Len16(list) && |list| < 0x1_0000;
    SharesRead(e.entries);
    Len16Read(list);
    hide Len16;
    FromWireNested(Payload(e));
  }

  lemma Bytes8Read(e: Extension)
    requires (e.SupportedPoints? || e.PskKeyExchangeModes?) && WellFormed(e)
    ensures FromWire(WireType(e), Payload(e)) == Ok(e)
  {
    var b := if e.SupportedPoints? then e.formats else e.modes;
    assert Payload(e) == Len8(b);
    Len8Read(b);
    hide Get, Len8, Payload;
  }

  lemma ListRead(e: Extension)
    requires IsList(e) && WellFormed(e) && |Payload(e)| < 0x1_0000
    ensures FromWire(WireType(e), Payload(e)) == Ok(e)
  {
    hide FromWire, Payload, WireType, WellFormed;
    if e.SignatureAlgorithms? || e.SupportedCurves? { List16Read(e); }
    else if e.SupportedVersions? || e.CompressCertificate? { List8Read(e); }
    else if e.Alpn? { AlpnRead(e); }
    else if e.KeyShare? { KeyShareRead(e); }
    else { Bytes8Read(e); }
  }

  lemma ServerNameRead(e: Extension)
    requires e.ServerName? && WellFormed(e) && |Payload(e)| < 0x1_0000
    ensures FromWire(WireType(e), Payload(e)) == Ok(Plain(e))
  {
    hide HostForSni, ValidUtf8, U16;
    var h := HostForSni(e.host);
    HostForSniGood(e.host);
    assert Payload(e) == SniPayload(h);
    if h != [] {
      assert |SniPayload(h)| == |h| + 5 by { Be16Exact(|h| + 3); }
      hide SniHost, SniPayload;
      SniRead(h);
    }
  }

  lemma LimitRead(e: Extension)
    requires e.RecordSizeLimit?
    ensures FromWire(WireType(e), Payload(e)) == Ok(e)
  {
    Be16Exact(e.limit);
    hide Be16, U16;
  }

  lemma OpaqueRead(e: Extension)
    requires e.Generic? && WellFormed(e)
    ensures FromWire(WireType(e), Payload(e)) == Err(UnsupportedExtension(e.id))
  {
    hide U16, IsGrease;
  }

  lemma SimpleRead(e: Extension)
    requires WellFormed(e) && !IsBoring(e)
    requires !IsList(e) && !e.ServerName? && !e.RecordSizeLimit? && !e.Generic?
    ensures FromWire(WireType(e), Payload(e)) == Ok(Plain(e))
  {
    hide U16, ReadU16s;
  }

  /** Reading one extension gives it back; an opaque one is reported as unsupported. */
  lemma ExtensionRead(e: Extension)
    requires WellFormed(e) && !IsBoring(e) && |Payload(e)| < 0x1_0000
    ensures FromWire(WireType(e), Payload(e)) == if e.Generic? then Err(UnsupportedExtension(e.id)) else Ok(Plain(e))
  {
    hide FromWire, WireType, Payload, WellFormed, IsBoring;
    if IsList(e) { ListRead(e); }
    else if e.ServerName? { ServerNameRead(e); }
    else if e.RecordSizeLimit? { LimitRead(e); }
    else if e.Generic? { OpaqueRead(e); }
    else { SimpleRead(e); }
  }

  // ---------------------------------------------------------------------------
  // The extension block
  // ---------------------------------------------------------------------------

  /** What reading makes of a list: Boring padding that was not resolved leaves no trace. */
  function Plains(es: seq<Extension>, blunt: bool): Result<seq<Extension>> {
    if es == [] then Ok([])
    else if IsBoring(es[0]) then Plains(es[1..], blunt)
    else if es[0].Generic? && !blunt then Err(UnsupportedExtension(es[0].id))
    else Cons(Plain(es[0]), Plains(es[1..], blunt))
  }

  lemma WireSlices(e: Extension, rest: bytes)
    requires !IsBoring(e) && |Payload(e)| < 0x1_0000
    ensures var buf := Wire(e) + rest;
            && |buf| >= 4 && U16(buf[0], buf[1]) == WireType(e) && U16(buf[2], buf[3]) == |Payload(e)|
            && |buf| - 4 >= |Payload(e)| && buf[4..4 + |Payload(e)|] == Payload(e) && buf[4 + |Payload(e)|..] == rest
  {
    var (t, d) := (WireType(e), Payload(e));
    var buf := Wire(e) + rest;
    Assoc(Be16(t), Len16(d), rest);
    hide WireType, Payload, Wire;
    ShareSlices(buf, t, d, rest);
  }

  lemma OneRead(e: Extension, blunt: bool)
    requires WellFormed(e) && !IsBoring(e) && |Payload(e)| < 0x1_0000
    ensures One(WireType(e), Payload(e), blunt) ==
            if e.Generic? && !blunt then Err(UnsupportedExtension(e.id)) else Ok(Plain(e))
  {
    hide FromWire;
    ExtensionRead(e);
  }

  lemma {:induction false} BlockRead(es: seq<Extension>, blunt: bool)
    requires (forall i | 0 <= i < |es| :: WellFormed(es[i])) && |WireAll(es)| < 0x1_0000
    ensures Block(WireAll(es), blunt) == Plains(es, blunt)
  {
    hide WellFormed, Payload, WireType, One, U16, Plain;
    if es != [] {
      var (e, rest) := (es[0], WireAll(es[1..]));
      assert WireAll(es) == Wire(e) + rest;
      if IsBoring(e) {
        assert Wire(e) == [];
        hide Wire;
        assert [] + rest == rest;
        BlockRead(es[1..], blunt);
      } else {
        assert |Wire(e)| >= |Payload(e)|;
        hide Wire, WireAll;
        BlockRead(es[1..], blunt);
        WireSlices(e, rest);
        OneRead(e, blunt);
      }
    }
  }

  // ---------------------------------------------------------------------------
  // The whole message
  // ---------------------------------------------------------------------------

  /** A spec from parts that are already apart. */
  function Assembled(v: u16, ciphers: seq<u16>, comp: bytes, es: Result<seq<Extension>>): Result<Spec> {
    match es
    case Err(error) => Err(error)
    case Ok(list) =>
      var w: u16 := if HasVersions(list) then 0 else v;
      Ok(Spec(ciphers, comp, UngreaseExts(list), w, w))
  }

  lemma Len8Stands(ch: bytes, pos: nat, b: bytes)
    requires At(ch, pos, Len8(b)) && |b| < 0x100
    ensures pos + 1 + |b| <= |ch| && ch[pos] == |b| && ch[pos + 1..pos + 1 + |b|] == b
  {
    AtSplit(ch, pos, [|b| % 0x100], b);
    AtIndex(ch, pos, [|b| % 0x100], 0);
  }

  lemma Len16Stands(ch: bytes, pos: nat, b: bytes)
    requires At(ch, pos, Len16(b)) && |b| < 0x1_0000
    ensures pos + 2 + |b| <= |ch| && U16(ch[pos], ch[pos + 1]) == |b| && ch[pos + 2..pos + 2 + |b|] == b
  {
    assert |Be16(|b|)| == 2;
    AtSplit(ch, pos, Be16(|b|), b);
    Be16Stands(ch, pos, |b|);
    hide Be16, U16;
  }

  lemma LayoutParts(ch: bytes, v: u16, random: bytes, sid: bytes, suites: bytes, comp: bytes, ext: bytes)
    requires ch == Layout(v, random, sid, suites, comp, ext) && |random| == 32
    ensures |ch| == 40 + |sid| + |suites| + |comp| + |ext|
    ensures At(ch, 0, Be16(v)) && At(ch, 34, Len8(sid)) && At(ch, 35 + |sid|, Len16(suites))
    ensures At(ch, 37 + |sid| + |suites|, Len8(comp)) && At(ch, 38 + |sid| + |suites| + |comp|, Len16(ext))
  {
    var (vb, s8, c16, m8, e16) := (Be16(v), Len8(sid), Len16(suites), Len8(comp), Len16(ext));
    assert |vb| == 2 && |s8| == 1 + |sid| && |c16| == 2 + |suites| && |m8| == 1 + |comp| && |e16| == 2 + |ext|;
    assert ch == vb + (random + (s8 + (c16 + (m8 + e16))));
    hide Be16, Len8, Len16, Layout;
    assert At(ch, 0, ch) by { assert ch[0..|ch|] == ch; }
    hide At;
    AtSplit(ch, 0, vb, random + (s8 + (c16 + (m8 + e16))));
    AtSplit(ch, 2, random, s8 + (c16 + (m8 + e16)));
    AtSplit(ch, 34, s8, c16 + (m8 + e16));
    AtSplit(ch, 35 + |sid|, c16, m8 + e16);
    AtSplit(ch, 37 + |sid| + |suites|, m8, e16);
  }

  lemma BodyParts(ch: bytes, v: u16, random: bytes, sid: bytes, suites: bytes, comp: bytes, ext: bytes)
    requires ch == Layout(v, random, sid, suites, comp, ext)
    requires |random| == 32 && |sid| < 0x100 && |suites| < 0x1_0000 && |comp| < 0x100
    ensures |ch| == 40 + |sid| + |suites| + |comp| + |ext|
    ensures U16(ch[0], ch[1]) == v && ch[34] == |sid|
    ensures var o := 35 + |sid|;
            && U16(ch[o], ch[o + 1]) == |suites| && ch[o + 2..o + 2 + |suites|] == suites
            && var c := o + 2 + |suites|; ch[c] == |comp| && ch[c + 1..c + 1 + |comp|] == comp
    ensures At(ch, 38 + |sid| + |suites| + |comp|, Len16(ext))
  {
    hide Be16, U16, Len8, Len16, Layout, At;
    LayoutParts(ch, v, random, sid, suites, comp, ext);
    Be16Stands(ch, 0, v);
    Len8Stands(ch, 34, sid);
    Len16Stands(ch, 35 + |sid|, suites);
    Len8Stands(ch, 37 + |sid| + |suites|, comp);
  }

  lemma TailRead(ch: bytes, o: nat, v: u16, ciphers: seq<u16>, comp: bytes, ext: bytes, blunt: bool)
    requires |ch| >= o + 2 + |ext| && U16(ch[o], ch[o + 1]) == |ext| && ch[o + 2..o + 2 + |ext|] == ext
    ensures Tail(ch, o, v, ciphers, comp, blunt) == Assembled(v, ciphers, comp, Block(ext, blunt))
  {
    hide U16, Block, UngreaseExts, HasVersions;
  }

  /** The cursor of the reader lands on each part. */
  lemma CursorRead(ch: bytes, v: u16, n: nat, suites: bytes, comp: bytes, o: nat, blunt: bool)
    requires |ch| >= o + 2 && o == 38 + n + |suites| + |comp| && n < 0x100 && |suites| % 2 == 0
    requires Short(ch, 0) == v && ch[34] == n
    requires Short(ch, 35 + n) == |suites| && ch[37 + n..37 + n + |suites|] == suites
    requires var c := 37 + n + |suites|; ch[c] == |comp| && ch[c + 1..o] == comp
    ensures ReadBody(ch, blunt) == Tail(ch, o, v, UngreaseAll(ReadU16s(suites)), comp, blunt)
  {
    hide Short, Tail, UngreaseAll, ReadU16s;
    var sid := 35 + ch[34] as nat;
    assert sid == 35 + n;
    var c := sid + 2 + |suites|;
    assert c + 1 + ch[c] as nat == o;
  }

  lemma BodyRead(ch: bytes, v: u16, random: bytes, sid: bytes, suites: bytes, comp: bytes, ext: bytes, blunt: bool)
    requires ch == Layout(v, random, sid, suites, comp, ext)
    requires |random| == 32 && |sid| < 0x100 && |suites| < 0x1_0000 && |suites| % 2 == 0
             && |comp| < 0x100 && |ext| < 0x1_0000
    ensures ReadBody(ch, blunt) == Assembled(v, UngreaseAll(ReadU16s(suites)), comp, Block(ext, blunt))
  {
    hide Layout, U16, Len16, At, Block, UngreaseAll, ReadU16s, ReadBody, Assembled, Tail;
    var o := 38 + |sid| + |suites| + |comp|;
    BodyParts(ch, v, random, sid, suites, comp, ext);
    Len16Stands(ch, o, ext);
    CursorRead(ch, v, |sid|, suites, comp, o, blunt);
    TailRead(ch, o, v, UngreaseAll(ReadU16s(suites)), comp, ext, blunt);
  }

  /** The length in the handshake header is the low 24 bits. */
  lemma HandshakeSlices(body: bytes)
    ensures var hs := Handshake(body);
            |hs| == 4 + |body| && hs[0] == 1 && U24(hs[1], hs[2], hs[3]) == |body| % 0x100_0000 && hs[4..] == body
  {
    var n := Be24(|body|);
    Be24RoundTrip(|body|);
    hide Be24, U24;
    assert Handshake(body) == [1, n[0], n[1], n[2]] + body;
  }

  /** The length on the record is the low 16 bits. */
  lemma RecordSlices(hs: bytes)
    ensures var raw := Record(hs);
            |raw| == 5 + |hs| && raw[0] == 22 && U16(raw[3], raw[4]) == |hs| % 0x1_0000 && raw[5..] == hs
  {
    var m := Be16(|hs|);
    Be16RoundTrip(|hs|);
    hide Be16, U16;
    assert Record(hs) == [22, 3, 1, m[0], m[1]] + hs;
  }

  lemma LowBits(n: nat)
    ensures (n + 4) % 0x1_0000 == (n % 0x100_0000 + 4) % 0x1_0000
  {
    var q := n / 0x100_0000;
    var h := n % 0x100_0000;
    assert n + 4 == h + 4 + 0x1_0000 * (0x100 * q);
    Shifted(h + 4, 0x100 * q);
  }

  lemma {:induction false} Shifted(a: nat, k: nat)
    ensures (a + 0x1_0000 * k) % 0x1_0000 == a % 0x1_0000
  {
    if k > 0 { Shifted(a, k - 1); }
  }

  /** The reader sees the body up to its length modulo 2^24, and refuses the record unless that
      fits a record; so every body that fits is read whole, and longer ones are refused or cut. */
  lemma RecordReadExactly(body: bytes, blunt: bool)
    ensures var h := |body| % 0x100_0000;
            ReadRecord(Record(Handshake(body)), blunt) ==
            if h + 4 < 0x1_0000 then ReadBody(body[..h], blunt) else Err(UnexpectedEof)
  {
    hide Handshake, Record, U16, U24, ReadBody;
    HandshakeSlices(body);
    var hs := Handshake(body);
    RecordSlices(hs);
    var raw := Record(hs);
    var (h, k) := (|body| % 0x100_0000, |hs| % 0x1_0000);
    LowBits(|body|);
    assert k <= |hs| && k <= h + 4;
    var inner := raw[5..5 + k];
    assert inner == hs[..k];
    if h + 4 < 0x1_0000 {
      assert k == h + 4 && inner[4..4 + h] == hs[4..][..h];
    }
  }

  lemma RecordRead(body: bytes, blunt: bool)
    requires |body| + 4 < 0x1_0000
    ensures ReadRecord(Record(Handshake(body)), blunt) == ReadBody(body, blunt)
  {
    hide Handshake, Record, ReadBody, ReadRecord;
    RecordReadExactly(body, blunt);
    assert body[..|body|] == body;
  }
}
