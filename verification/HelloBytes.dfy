/** A ClientHello byte by byte: what stands where, in numbers, without the functions that
    write it. */
module HelloBytes {
  import opened Prelude
  import opened Bytes
  import opened Text
  import opened TextLaws
  import opened Hello
  import opened HelloReader
  import opened HelloRoundTrip
  import opened HelloNormal

  // ---------------------------------------------------------------------------
  // GREASE
  // ---------------------------------------------------------------------------

  /** The sixteen values of section 2 of RFC 8701. */
  lemma GreaseExactly(v: u16)
    ensures IsGrease(v) <==> exists k: nat :: k < 16 && v == 0x0A0A + 0x1010 * k
  {
    if IsGrease(v) {
      var k: nat := v % 0x100 / 0x10;
      assert v == 0x100 * (v / 0x100) + v % 0x100;
      assert v % 0x100 == 0x10 * k + 0xA;
      assert k < 16 && v == 0x0A0A + 0x1010 * k;
    }
    forall k: nat | k < 16 && v == 0x0A0A + 0x1010 * k ensures IsGrease(v) {
      assert v == 0x100 * (0x10 * k + 0xA) + (0x10 * k + 0xA);
    }
  }

  /** The value a seed gives: its bits 4 to 7 choose one of the sixteen. */
  function Chosen(p: Params, index: nat): nat
    requires ParamsOk(p) && index < 5
  {
    0x0A0A + 0x1010 * (p.seed[index] / 16 % 16)
  }

  lemma BoringGreaseExactly(p: Params, index: nat)
    requires ParamsOk(p) && index < 5
    ensures BoringGrease(p, index) == Chosen(p, index)
  {
  }

  /** Placeholders become the chosen value; all else stays. */
  ghost predicate FilledIn(p: Params, index: nat, before: seq<u16>, after: seq<u16>)
    requires ParamsOk(p) && index < 5
  {
    |after| == |before| && forall k | 0 <= k < |before| ::
                             after[k] == if before[k] == 0x0A0A then Chosen(p, index) else before[k]
  }

  lemma {:induction false} ResolveAllExactly(p: Params, vs: seq<u16>, index: nat)
    requires ParamsOk(p) && index < 5
    ensures FilledIn(p, index, vs, ResolveAll(p, vs, index))
  {
    hide BoringGrease;
    BoringGreaseExactly(p, index);
    if vs != [] {
      ResolveAllExactly(p, vs[1..], index);
      hide Chosen;
      assert forall k | 1 <= k < |vs| :: vs[k] == vs[1..][k - 1];
    }
  }

  ghost predicate SharesFilledIn(p: Params, before: seq<KeyShareEntry>, after: seq<KeyShareEntry>)
    requires ParamsOk(p)
  {
    |after| == |before| && forall k | 0 <= k < |before| ::
                             && after[k].group == (if before[k].group == 0x0A0A then Chosen(p, 1) else before[k].group)
                             && after[k].key == before[k].key
  }

  lemma {:induction false} ResolveSharesExactly(p: Params, es: seq<KeyShareEntry>)
    requires ParamsOk(p)
    ensures SharesFilledIn(p, es, ResolveShares(p, es))
  {
    hide BoringGrease;
    BoringGreaseExactly(p, 1);
    if es != [] {
      ResolveSharesExactly(p, es[1..]);
      hide Chosen;
      assert forall k | 1 <= k < |es| :: es[k] == es[1..][k - 1];
    }
  }

  // ---------------------------------------------------------------------------
  // Extensions as they are written
  // ---------------------------------------------------------------------------

  predicate Placeholder(e: Extension) { e.Grease? && e.value == 0x0A0A }

  /** `w` goes on the wire for `e`. The first placeholder extension is empty and uses the third
      seed, later ones carry a zero byte and use the fourth; groups and key shares use the same
      seed, the second, so that they agree; versions use the fifth; an empty server name is
      replaced by the one of the connection. */
  ghost predicate OnWire(p: Params, e: Extension, first: bool, w: Extension)
    requires ParamsOk(p)
  {
    match e
    case Grease(value, _) =>
      w.Grease? &&
      (if value != 0x0A0A then w == e
       else if first then w.value == Chosen(p, 2) && w.body == []
       else w.value == Chosen(p, 3) && w.body == [0])
    case SupportedCurves(curves) => w.SupportedCurves? && FilledIn(p, 1, curves, w.curves)
    case SupportedVersions(versions) => w.SupportedVersions? && FilledIn(p, 4, versions, w.versions)
    case KeyShare(entries) => w.KeyShare? && SharesFilledIn(p, entries, w.entries)
    case ServerName(host) => w == ServerName(if host == [] then p.serverName else host)
    case _ => w == e
  }

  lemma FilledIsOnWire(p: Params, e: Extension, slot: nat)
    requires ParamsOk(p)
    ensures OnWire(p, e, slot == 0, Filled(p, e, slot))
  {
    BoringGreaseExactly(p, 2);
    BoringGreaseExactly(p, 3);
    match e {
      case SupportedCurves(curves) => ResolveAllExactly(p, curves, 1);
      case SupportedVersions(versions) => ResolveAllExactly(p, versions, 4);
      case KeyShare(entries) => ResolveSharesExactly(p, entries);
      case _ =>
    }
    hide ResolveAll, ResolveShares, FilledIn, SharesFilledIn, BoringGrease, Chosen;
  }

  ghost predicate FirstPlaceholder(es: seq<Extension>, i: nat)
    requires i <= |es|
  {
    forall j | 0 <= j < i :: !Placeholder(es[j])
  }

  lemma {:induction false} FilledExactly(p: Params, es: seq<Extension>, slot: nat, i: nat)
    requires ParamsOk(p) && i < |es|
    ensures OnWire(p, es[i], slot == 0 && FirstPlaceholder(es, i), FilledAll(p, es, slot)[i])
    decreases |es|
  {
    hide OnWire, Filled;
    if i == 0 {
      FilledIsOnWire(p, es[0], slot);
    } else {
      FilledExactly(p, es[1..], NextSlot(es[0], slot), i - 1);
      assert FirstPlaceholder(es, i) <==> !Placeholder(es[0]) && FirstPlaceholder(es[1..], i - 1) by {
        assert forall j | 1 <= j < i :: es[j] == es[1..][j - 1];
        assert forall j | 0 <= j < i - 1 :: es[1..][j] == es[j + 1];
      }
    }
  }

  /** Every extension of the spec but Boring padding goes on the wire in its place. */
  lemma FinalExactly(s: Spec, p: Params, i: nat)
    requires ParamsOk(p) && i < |s.extensions| && !IsBoring(s.extensions[i])
    ensures OnWire(p, s.extensions[i], FirstPlaceholder(s.extensions, i), Final(s, p)[i])
  {
    FilledExactly(p, s.extensions, 0, i);
    hide OnWire, FilledAll, WireAll;
  }

  // ---------------------------------------------------------------------------
  // The body
  // ---------------------------------------------------------------------------

  /** Two bytes as a number. */
  function Pair(b: bytes, i: nat): int
    requires i + 2 <= |b|
  {
    256 * (b[i] as int) + b[i + 1] as int
  }

  ghost predicate OffersTls13(s: Spec) {
    s.vmax == 0x0304 || exists e :: e in s.extensions && e.SupportedVersions? && 0x0304 in e.versions
  }

  lemma Tls13Exactly(s: Spec)
    ensures s.HasTls13() <==> OffersTls13(s)
  {
    if s.HasTls13() && s.vmax != 0x0304 {
      var i :| 0 <= i < |s.extensions| && s.extensions[i].SupportedVersions?
               && VERSION_TLS13 in s.extensions[i].versions;
      assert s.extensions[i] in s.extensions;
    }
  }

  lemma LayoutVersion(b: bytes, v: u16, random: bytes, sid: bytes, suites: bytes, comp: bytes, ext: bytes)
    requires b == Layout(v, random, sid, suites, comp, ext) && |random| == 32
    ensures |b| >= 2 && Pair(b, 0) == v
  {
    hide Layout, Be16, At, Len8, Len16;
    LayoutParts(b, v, random, sid, suites, comp, ext);
    Be16Stands(b, 0, v);
  }

  lemma Pair33(b: bytes)
    requires |b| >= 2
    ensures Pair(b, 0) == 0x0303 <==> b[..2] == [3, 3]
  {
    assert b[..2] == [b[0], b[1]];
  }

  /** The version field (section 4.1.2 of RFC 8446): TLS 1.2 whenever TLS 1.3 is offered. */
  lemma VersionBytes(s: Spec, p: Params)
    requires ParamsOk(p) && |p.sessionId| <= 255
    ensures var b := Body(s, p).value;
            && Body(s, p).Some? && |b| >= 2
            && (OffersTls13(s) ==> b[..2] == [3, 3])
            && (!OffersTls13(s) ==> Pair(b, 0) == if s.vmin >= s.vmax then s.vmin else s.vmax)
  {
    hide Body, LegacyVersion, WireAll, Final, OffersTls13, Layout, Pair, ResolveAll, U16s, Compression;
    BodyIsLayout(s, p);
    var b := Body(s, p).value;
    LayoutVersion(b, LegacyVersion(s), p.random, p.sessionId, U16s(ResolveAll(p, s.ciphers, 0)), Compression(s),
                  WireAll(Final(s, p)));
    Tls13Exactly(s);
    LegacyIs(s);
    Pair33(b);
  }

  lemma LegacyIs(s: Spec)
    ensures LegacyVersion(s) == if s.HasTls13() then 0x0303 else if s.vmin >= s.vmax then s.vmin else s.vmax
  {
  }

  lemma BodyIsLayout(s: Spec, p: Params)
    requires ParamsOk(p) && |p.sessionId| <= 255
    ensures Body(s, p) == Some(Layout(LegacyVersion(s), p.random, p.sessionId, U16s(ResolveAll(p, s.ciphers, 0)),
                                      Compression(s), WireAll(Final(s, p))))
  {
    hide Layout, LegacyVersion, ResolveAll, U16s, WireAll, Final;
  }

  lemma {:induction false} SuiteAt(vs: seq<u16>, k: nat)
    requires k < |vs|
    ensures |U16s(vs)| == 2 * |vs| && Pair(U16s(vs), 2 * k) == vs[k]
  {
    BigEndian(vs[0]);
    if k > 0 {
      SuiteAt(vs[1..], k - 1);
      hide Be16;
      assert U16s(vs) == Be16(vs[0]) + U16s(vs[1..]);
      assert |Be16(vs[0])| == 2;
    } else if |vs| > 1 {
      SuiteAt(vs[1..], 0);
    }
  }

  lemma NoSuites()
    ensures U16s([]) == []
  {
  }

  lemma SuiteStands(b: bytes, o: nat, r: seq<u16>, k: nat)
    requires At(b, o, Len16(U16s(r))) && k < |r|
    ensures |b| >= o + 2 + 2 * |r| && Pair(b, o) == 2 * |r| % 0x1_0000 && Pair(b, o + 2 + 2 * k) == r[k]
  {
    hide U16s, Len16;
    SuiteAt(r, k);
    var list := U16s(r);
    Len16At(b, o, list);
    assert b[o + 2..o + 2 + |list|][2 * k] == b[o + 2 + 2 * k];
    assert b[o + 2..o + 2 + |list|][2 * k + 1] == b[o + 2 + 2 * k + 1];
  }

  /** The suites stand after the session id, placeholders filled from the first seed. */
  lemma SuiteBytes(s: Spec, p: Params, k: nat)
    requires ParamsOk(p) && |p.sessionId| <= 255 && k < |s.ciphers|
    ensures var b := Body(s, p).value; var o := 35 + |p.sessionId|;
            && Body(s, p).Some? && |b| >= o + 2 + 2 * |s.ciphers|
            && Pair(b, o) == 2 * |s.ciphers| % 0x1_0000
            && Pair(b, o + 2 + 2 * k) == if s.ciphers[k] == 0x0A0A then Chosen(p, 0) else s.ciphers[k]
  {
    hide Body, WireAll, Final, Layout, ResolveAll, Chosen, LegacyVersion, U16s, Pair, At, Len16, Compression;
    ResolveAllExactly(p, s.ciphers, 0);
    var r := ResolveAll(p, s.ciphers, 0);
    BodyIsLayout(s, p);
    LayoutParts(Body(s, p).value, LegacyVersion(s), p.random, p.sessionId, U16s(r), Compression(s),
                WireAll(Final(s, p)));
    SuiteStands(Body(s, p).value, 35 + |p.sessionId|, r, k);
  }

  lemma SuitesLength(p: Params, ciphers: seq<u16>)
    requires ParamsOk(p)
    ensures |U16s(ResolveAll(p, ciphers, 0))| == 2 * |ciphers|
  {
    ResolveAllExactly(p, ciphers, 0);
    var r := ResolveAll(p, ciphers, 0);
    hide ResolveAll, U16s;
    if r == [] { NoSuites(); } else { SuiteAt(r, 0); }
  }

  /** Random, session id, compression methods (the null method if the spec has none) and the
      extensions. */
  lemma PartBytes(s: Spec, p: Params)
    requires ParamsOk(p) && |p.sessionId| <= 255
    ensures var b := Body(s, p).value;
            var comp := if s.compression == [] then [0] else s.compression;
            var c := 37 + |p.sessionId| + 2 * |s.ciphers|; var o := c + 1 + |comp|;
            var ext := WireAll(Final(s, p));
            && Body(s, p).Some? && |b| == o + 2 + |ext|
            && b[2..34] == p.random && b[34] == |p.sessionId| && b[35..35 + |p.sessionId|] == p.sessionId
            && b[c] as int == |comp| % 256 && b[c + 1..o] == comp
            && Pair(b, o) == |ext| % 0x1_0000 && b[o + 2..] == ext
  {
    hide Body, WireAll, Final, ResolveAll, LegacyVersion, U16s, Layout, Pair;
    BodyIsLayout(s, p);
    SuitesLength(p, s.ciphers);
    LayoutBytes(Body(s, p).value, LegacyVersion(s), p.random, p.sessionId, U16s(ResolveAll(p, s.ciphers, 0)),
                Compression(s), WireAll(Final(s, p)));
  }

  lemma LayoutBytes(b: bytes, v: u16, random: bytes, sid: bytes, suites: bytes, comp: bytes, ext: bytes)
    requires b == Layout(v, random, sid, suites, comp, ext) && |random| == 32 && |sid| <= 255
    ensures var c := 37 + |sid| + |suites|; var o := c + 1 + |comp|;
            && |b| == o + 2 + |ext|
            && b[2..34] == random && b[34] == |sid| && b[35..35 + |sid|] == sid
            && b[c] as int == |comp| % 256 && b[c + 1..o] == comp
            && Pair(b, o) == |ext| % 0x1_0000 && b[o + 2..] == ext
  {
    hide Layout, Len8, Len16, At, Pair, Be16;
    LayoutParts(b, v, random, sid, suites, comp, ext);
    RandomAt(b, v, random, sid, suites, comp, ext);
    var c := 37 + |sid| + |suites|;
    Len8At(b, 34, sid);
    Len8At(b, c, comp);
    Len16At(b, c + 1 + |comp|, ext);
    assert b[c + 3 + |comp|..c + 3 + |comp| + |ext|] == b[c + 3 + |comp|..];
  }

  lemma RandomAt(b: bytes, v: u16, random: bytes, sid: bytes, suites: bytes, comp: bytes, ext: bytes)
    requires b == Layout(v, random, sid, suites, comp, ext) && |random| == 32
    ensures b[2..34] == random
  {
    var rest := Len8(sid) + (Len16(suites) + (Len8(comp) + Len16(ext)));
    hide Len8, Len16;
    assert b == Be16(v) + (random + rest);
  }

  lemma Len8At(b: bytes, i: nat, part: bytes)
    requires At(b, i, Len8(part))
    ensures i + 1 + |part| <= |b| && b[i] as int == |part| % 256 && b[i + 1..i + 1 + |part|] == part
  {
    AtSplit(b, i, [|part| % 256], part);
    AtIndex(b, i, [|part| % 256], 0);
  }

  lemma Len16At(b: bytes, i: nat, part: bytes)
    requires At(b, i, Len16(part))
    ensures i + 2 + |part| <= |b| && Pair(b, i) == |part| % 0x1_0000 && b[i + 2..i + 2 + |part|] == part
  {
    AtSplit(b, i, Be16(|part|), part);
    AtIndex(b, i, Be16(|part|), 0);
    AtIndex(b, i, Be16(|part|), 1);
    BigEndian(|part|);
    hide Be16;
  }

  /** Record and handshake headers, in numbers. */
  lemma RecordBytes(body: bytes)
    ensures var r := Record(Handshake(body));
            && |r| == 9 + |body| && r[..3] == [22, 3, 1] && r[5] == 1 && r[9..] == body
            && Pair(r, 3) == (4 + |body|) % 0x1_0000
            && 256 * Pair(r, 6) + r[8] as int == |body| % 0x100_0000
  {
    var hs := Handshake(body);
    var n := Be24(|body|);
    BigEndian(|body|);
    assert hs == [1, n[0], n[1], n[2]] + body;
    var m := Be16(|hs|);
    BigEndian(|hs|);
    assert Record(hs) == [22, 3, 1, m[0], m[1]] + hs;
    hide Be24, Be16, Record, Handshake;
  }

  lemma HeadedBytes(t: u16, payload: bytes)
    ensures var w := Be16(t) + Len16(payload);
            |w| == 4 + |payload| && Pair(w, 0) == t && Pair(w, 2) == |payload| % 0x1_0000 && w[4..] == payload
  {
    var (a, n) := (Be16(t), Be16(|payload|));
    BigEndian(t);
    BigEndian(|payload|);
    assert |a| == 2 && |n| == 2;
    var w := a + Len16(payload);
    hide Be16;
    assert w == [a[0], a[1], n[0], n[1]] + payload;
  }

  /** One extension: its type, its length, its payload. */
  lemma WireBytes(e: Extension)
    requires !IsBoring(e)
    ensures var w := Wire(e);
            && |w| == 4 + |Payload(e)| && Pair(w, 0) == WireType(e) && Pair(w, 2) == |Payload(e)| % 0x1_0000
            && w[4..] == Payload(e)
  {
    hide WireType, Payload, Be16, Len16, Pair;
    HeadedBytes(WireType(e), Payload(e));
  }

  /** The types assigned by IANA, and those of the two channel id drafts. */
  lemma TypeNumbers(e: Extension)
    ensures match e
            case ServerName(_) => WireType(e) == 0
            case StatusRequest => WireType(e) == 5
            case SupportedCurves(_) => WireType(e) == 10
            case SupportedPoints(_) => WireType(e) == 11
            case SignatureAlgorithms(_) => WireType(e) == 13
            case Alpn(_) => WireType(e) == 16
            case SignedCertificateTimestamp => WireType(e) == 18
            case Padding(_) => WireType(e) == 21
            case ExtendedMasterSecret => WireType(e) == 23
            case CompressCertificate(_) => WireType(e) == 27
            case RecordSizeLimit(_) => WireType(e) == 28
            case SessionTicket(_) => WireType(e) == 35
            case SupportedVersions(_) => WireType(e) == 43
            case PskKeyExchangeModes(_) => WireType(e) == 45
            case KeyShare(_) => WireType(e) == 51
            case FakeChannelId(oldId) => WireType(e) == if oldId then 30031 else 30032
            case RenegotiationInfo(_) => WireType(e) == 65281
            case Grease(value, _) => WireType(e) == value
            case Generic(id, _) => WireType(e) == id
  {
  }

  /** A list of numbers after a length in bytes, of one or two bytes. */
  lemma ListBytes(vs: seq<u16>, k: nat)
    requires k < |vs|
    ensures |Len16(U16s(vs))| == 2 + 2 * |vs| && Pair(Len16(U16s(vs)), 0) == 2 * |vs| % 0x1_0000
    ensures Pair(Len16(U16s(vs)), 2 + 2 * k) == vs[k]
    ensures |Len8(U16s(vs))| == 1 + 2 * |vs| && Len8(U16s(vs))[0] as int == 2 * |vs| % 256
    ensures Pair(Len8(U16s(vs)), 1 + 2 * k) == vs[k]
  {
    SuiteAt(vs, k);
    BigEndian(2 * |vs|);
    hide U16s, Be16;
    assert |Be16(2 * |vs|)| == 2 by { Be16RoundTrip(2 * |vs|); }
  }

  lemma WireIs(e: Extension, t: nat, payload: bytes)
    requires !IsBoring(e) && WireType(e) == t && Payload(e) == payload && |payload| < 256
    ensures Wire(e) == [t / 256, t % 256, 0, |payload|] + payload
  {
    hide WireType, Payload;
  }

  lemma PlainVectors()
    ensures Wire(RenegotiationInfo(0)) == [0xFF, 1, 0, 1, 0] && Wire(StatusRequest) == [0, 5, 0, 5, 1, 0, 0, 0, 0]
    ensures Wire(RecordSizeLimit(0x4001)) == [0, 28, 0, 2, 0x40, 1] && Wire(SupportedPoints([0])) == [0, 11, 0, 2, 1, 0]
  {
    hide Wire;
    WireIs(RenegotiationInfo(0), 65281, [0]);
    WireIs(StatusRequest, 5, [1, 0, 0, 0, 0]);
    WireIs(RecordSizeLimit(0x4001), 28, [0x40, 1]);
    WireIs(SupportedPoints([0]), 11, [1, 0]);
  }

  lemma NestedPayloads()
    ensures Payload(Alpn([[104, 50]])) == [0, 3, 2, 104, 50]
    ensures Payload(KeyShare([KeyShareEntry(29, [7])])) == [0, 5, 0, 29, 0, 1, 7]
  {
    var names: seq<bytes> := [[104, 50]];
    assert names[1..] == [] && Names([]) == [] && Names(names) == Len8([104, 50]) + Names([]) == [2, 104, 50];
    var shares := [KeyShareEntry(29, [7])];
    assert shares[1..] == [] && Shares([]) == [];
    assert Shares(shares) == Be16(29) + (Len16([7]) + Shares([])) == [0, 29, 0, 1, 7];
    hide Names, Shares;
  }

  lemma ServerNamePayload()
    ensures Payload(ServerName([97])) == [0, 4, 0, 0, 1, 97]
  {
    SplitOfLabel([97]);
    assert HostForSni([97]) == [97];
    hide HostForSni, Split;
  }

  /** Two protocols' worth of nesting: ALPN `h2`, one key share, and the server name `a`. */
  lemma NestedVectors()
    ensures Wire(Alpn([[104, 50]])) == [0, 16, 0, 5, 0, 3, 2, 104, 50]
    ensures Wire(KeyShare([KeyShareEntry(29, [7])])) == [0, 51, 0, 7, 0, 5, 0, 29, 0, 1, 7]
    ensures Wire(ServerName([97])) == [0, 0, 0, 6, 0, 4, 0, 0, 1, 97]
  {
    hide Wire, Payload;
    NestedPayloads();
    ServerNamePayload();
    WireIs(Alpn([[104, 50]]), 16, [0, 3, 2, 104, 50]);
    WireIs(KeyShare([KeyShareEntry(29, [7])]), 51, [0, 5, 0, 29, 0, 1, 7]);
    WireIs(ServerName([97]), 0, [0, 4, 0, 0, 1, 97]);
  }

  // ---------------------------------------------------------------------------
  // The normal form
  // ---------------------------------------------------------------------------

  /** GREASE becomes the placeholder; all else stays. */
  ghost predicate Ungreased(before: seq<u16>, after: seq<u16>) {
    |after| == |before| && forall k | 0 <= k < |before| ::
                             after[k] == if IsGrease(before[k]) then 0x0A0A else before[k]
  }

  lemma {:induction false} UngreaseAllExactly(vs: seq<u16>)
    ensures Ungreased(vs, UngreaseAll(vs))
  {
    hide IsGrease;
    if vs != [] {
      UngreaseAllExactly(vs[1..]);
      assert forall k | 1 <= k < |vs| :: vs[k] == vs[1..][k - 1];
    }
  }

  lemma {:induction false} UngreaseSharesExactly(es: seq<KeyShareEntry>)
    ensures |UngreaseShares(es)| == |es|
    ensures forall k | 0 <= k < |es| ::
              UngreaseShares(es)[k] == KeyShareEntry(if IsGrease(es[k].group) then 0x0A0A else es[k].group, es[k].key)
  {
    hide IsGrease;
    if es != [] {
      UngreaseSharesExactly(es[1..]);
      assert forall k | 1 <= k < |es| :: es[k] == es[1..][k - 1];
    }
  }

  /** What comes back of a spec besides its extensions. */
  lemma NormalExactly(s: Spec, p: Params)
    requires ParamsOk(p)
    ensures var n := Normal(s, p);
            && Ungreased(s.ciphers, n.ciphers)
            && n.compression == (if s.compression == [] then [0] else s.compression)
            && n.vmin == n.vmax
            && n.vmin == if HasVersions(s.extensions) then 0 else if s.vmax == 0x0304 then 0x0303
                         else if s.vmin >= s.vmax then s.vmin else s.vmax
  {
    UngreaseAllExactly(s.ciphers);
    Tls13Exactly(s);
    LegacyIs(s);
    assert OffersTls13(s) && s.vmax != 0x0304 ==> HasVersions(s.extensions) by { OffersHasVersions(s); }
    hide UngreaseAll, NormAll, Padded, LegacyVersion, HasVersions, OffersTls13;
  }

  lemma OffersHasVersions(s: Spec)
    ensures OffersTls13(s) && s.vmax != 0x0304 ==> HasVersions(s.extensions)
  {
  }

  /** The host that is written: nothing for an empty name, an IPv4 literal or a colon, else the
      name without trailing dots in small letters. */
  lemma HostExactly(host: bytes)
    ensures var h := TrimEndDots(host); var w := HostForSni(host);
            var none := h == [] || 58 in h || exists a: byte, b: byte, c: byte, d: byte :: h == Dotted(a, b, c, d);
            && (none ==> w == [])
            && (!none ==> |w| == |h| > 0 && forall i | 0 <= i < |h| :: w[i] == LowerByte(h[i]))
  {
    Ipv4Exactly(TrimEndDots(host));
    hide IsIpv4, TrimEndDots, Dotted, LowerByte;
  }
}
