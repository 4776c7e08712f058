/** The independent SNI reader of `domain_route.rs`, and its agreement with the writer. */
module HelloSni {
  import opened Prelude
  import opened Bytes
  import opened Text
  import opened Hello
  import opened HelloReader
  import opened HelloRoundTrip
  import opened HelloNormal
  import opened HelloAccept

  /** `parse::<IpAddr>().is_ok()`; `v6` is the IPv6 literal syntax. */
  predicate IsIp(v6: bytes -> bool, host: bytes) { IsIpv4(host) || v6(host) }

  /** The name list of a server_name extension: only the first host name is looked at. */
  function SniOfList(v6: bytes -> bool, rest: bytes): Option<bytes>
    decreases |rest|
  {
    if |rest| < 3 then None else
    var n := U16(rest[1], rest[2]);
    if 3 + n > |rest| then None
    else if rest[0] == 0 then
      var host := TrimEndDots(Lossy(rest[3..3 + n]));
      if host == [] || IsIp(v6, host) then None else Some(Lower(host))
    else SniOfList(v6, rest[3 + n..])
  }

  function SniOfExtension(v6: bytes -> bool, data: bytes): Option<bytes> {
    if |data| < 2 then None else
    var n := U16(data[0], data[1]);
    if 2 + n > |data| then None else SniOfList(v6, data[2..2 + n])
  }

  function SniOfBlock(v6: bytes -> bool, exts: bytes): Option<bytes>
    decreases |exts|
  {
    if |exts| < 4 then None else
    var n := U16(exts[2], exts[3]);
    if 4 + n > |exts| then None
    else
      var sni := SniOfExtension(v6, exts[4..4 + n]);
      if U16(exts[0], exts[1]) == EXT_SERVER_NAME && sni.Some? then sni
      else SniOfBlock(v6, exts[4 + n..])
  }

  function SniOfBody(v6: bytes -> bool, body: bytes): Option<bytes> {
    if 34 >= |body| then None else
    var cs := 35 + body[34] as nat;
    if cs + 2 > |body| then None else
    var comp := cs + 2 + U16(body[cs], body[cs + 1]);
    if comp >= |body| then None else
    var o := comp + 1 + body[comp] as nat;
    if o + 2 > |body| then None else
    var n := U16(body[o], body[o + 1]);
    if o + 2 + n > |body| then None else SniOfBlock(v6, body[o + 2..o + 2 + n])
  }

  function SniOfHandshake(v6: bytes -> bool, hs: bytes): Option<bytes> {
    if |hs| < 4 || hs[0] != 1 then None else
    var n := U24(hs[1], hs[2], hs[3]);
    if |hs| < 4 + n then None else SniOfBody(v6, hs[4..4 + n])
  }

  /** `extract_client_hello_sni` */
  function SniOfRecord(v6: bytes -> bool, record: bytes): Option<bytes> {
    if |record| < 5 || record[0] != 0x16 then None else
    var n := U16(record[3], record[4]);
    if |record| < 5 + n then None else SniOfHandshake(v6, record[5..5 + n])
  }

  // ---------------------------------------------------------------------------
  // The loops
  // ---------------------------------------------------------------------------

  method ParseSniExtension(v6: bytes -> bool, data: bytes) returns (r: Option<bytes>)
    ensures r == SniOfExtension(v6, data)
  {
    if |data| < 2 { return None; }
    var listEnd: nat := 2 + U16(data[0], data[1]);
    if listEnd > |data| { return None; }
    var pos: nat := 2;
    while pos + 3 <= listEnd
      invariant 2 <= pos <= listEnd <= |data|
      invariant SniOfList(v6, data[pos..listEnd]) == SniOfExtension(v6, data)
    {
      ghost var rest := data[pos..listEnd];
      var kind := data[pos];
      var n := U16(data[pos + 1], data[pos + 2]);
      assert rest[0] == kind && U16(rest[1], rest[2]) == n;
      pos := pos + 3;
      var end: nat := pos + n;
      if end > listEnd { return None; }
      assert rest[3..3 + n] == data[pos..end] && rest[3 + n..] == data[end..listEnd];
      hide U16;
      if kind == 0 {
        var name := Lossy(data[pos..end]);
        var host := TrimEndDots(name);
        if host == [] || IsIp(v6, host) { return None; }
        return Some(Lower(host));
      }
      pos := end;
    }
    return None;
  }

  method ParseExtensionsSni(v6: bytes -> bool, exts: bytes) returns (r: Option<bytes>)
    ensures r == SniOfBlock(v6, exts)
  {
    hide SniOfExtension;
    var pos: nat := 0;
    assert exts[0..] == exts;
    while pos + 4 <= |exts|
      invariant pos <= |exts|
      invariant SniOfBlock(v6, exts[pos..]) == SniOfBlock(v6, exts)
    {
      ghost var rest := exts[pos..];
      var etype := U16(exts[pos], exts[pos + 1]);
      var elen := U16(exts[pos + 2], exts[pos + 3]);
      assert U16(rest[0], rest[1]) == etype && U16(rest[2], rest[3]) == elen;
      pos := pos + 4;
      var end: nat := pos + elen;
      if end > |exts| { return None; }
      assert rest[4..4 + elen] == exts[pos..end] && rest[4 + elen..] == exts[end..];
      hide U16;
      if etype == EXT_SERVER_NAME {
        var sni := ParseSniExtension(v6, exts[pos..end]);
        if sni.Some? { return sni; }
      }
      pos := end;
    }
    return None;
  }

  /** `parse_client_hello_body_sni`, with its position. */
  method ParseBodySni(v6: bytes -> bool, body: bytes) returns (r: Option<bytes>)
    ensures r == SniOfBody(v6, body)
  {
    hide SniOfBlock;
    var pos: nat := 2;
    pos := pos + 32;
    if pos >= |body| { return None; }
    var sidLen: nat := body[pos];
    pos := pos + 1 + sidLen;
    if pos + 2 > |body| { return None; }
    var csLen := U16(body[pos], body[pos + 1]);
    pos := pos + 2 + csLen;
    if pos >= |body| { return None; }
    var compLen: nat := body[pos];
    pos := pos + 1 + compLen;
    if pos + 2 > |body| { return None; }
    var extLen := U16(body[pos], body[pos + 1]);
    pos := pos + 2;
    var end: nat := pos + extLen;
    if end > |body| { return None; }
    r := ParseExtensionsSni(v6, body[pos..end]);
  }

  // ---------------------------------------------------------------------------
  // Agreement
  // ---------------------------------------------------------------------------

  /** The host the writer puts into a server_name extension. */
  function HostOf(p: Params, e: Extension): bytes
    requires e.ServerName?
  {
    HostForSni(if e.host == [] then p.serverName else e.host)
  }

  /** The first host that is not empty. */
  function FirstHost(p: Params, es: seq<Extension>): Option<bytes> {
    if es == [] then None
    else if es[0].ServerName? && HostOf(p, es[0]) != [] then Some(HostOf(p, es[0]))
    else FirstHost(p, es[1..])
  }

  lemma {:induction false} LowerKeepsColon(h: bytes)
    ensures COLON in Lower(h) ==> COLON in h
  {
    if COLON in Lower(h) {
      var i :| 0 <= i < |Lower(h)| && Lower(h)[i] == COLON;
      assert h[i] == COLON;
    }
  }

  /** A written host is in normal form already, and is no address. */
  lemma WrittenHostStable(v6: bytes -> bool, host: bytes)
    requires ValidUtf8(host) && HostForSni(host) != [] && forall x :: v6(x) ==> COLON in x
    ensures var h := HostForSni(host);
            ValidUtf8(h) && TrimEndDots(h) == h && Lower(h) == h && !IsIp(v6, h)
  {
    var t := TrimEndDots(host);
    HostForSniGood(host);
    TrimEndDotsExact(host);
    LowerTrimEnd(t);
    LowerIdempotent(t);
    LowerIpv4(t);
    LowerKeepsColon(t);
    hide TrimEndDots, IsIpv4, ValidUtf8;
  }

  lemma ListRead(v6: bytes -> bool, list: bytes, h: bytes)
    requires h != [] && Lossy(h) == h && TrimEndDots(h) == h && Lower(h) == h && !IsIp(v6, h)
    requires |list| == 3 + |h| && list[0] == 0 && U16(list[1], list[2]) == |h| && list[3..3 + |h|] == h
    ensures SniOfList(v6, list) == Some(h)
  {
    hide U16, Lossy, TrimEndDots, IsIp;
  }

  lemma StableHostRead(v6: bytes -> bool, h: bytes)
    requires h != [] && ValidUtf8(h) && |h| + 5 < 0x1_0000
    requires TrimEndDots(h) == h && Lower(h) == h && !IsIp(v6, h)
    ensures SniOfExtension(v6, SniPayload(h)) == Some(h)
  {
    hide SniPayload, U16, Lossy, TrimEndDots, ValidUtf8, SniHost, IsIp, SniOfList;
    LossyOfValid(h);
    SniRead(h);
    var d := SniPayload(h);
    var list := d[2..2 + (|h| + 3)];
    assert list[0] == d[2] && list[1] == d[3] && list[2] == d[4];
    assert list[3..3 + |h|] == d[5..];
    ListRead(v6, list, h);
  }

  lemma SniExtensionRead(v6: bytes -> bool, host: bytes)
    requires ValidUtf8(host) && |SniPayload(HostForSni(host))| < 0x1_0000 && forall x :: v6(x) ==> COLON in x
    ensures SniOfExtension(v6, SniPayload(HostForSni(host))) ==
            if HostForSni(host) == [] then None else Some(HostForSni(host))
  {
    hide HostForSni, ValidUtf8, TrimEndDots, IsIp, Be16;
    var h := HostForSni(host);
    if h != [] {
      assert |SniPayload(h)| == |h| + 5 by { SniLen(h); }
      WrittenHostStable(v6, host);
      hide SniPayload, SniOfExtension;
      StableHostRead(v6, h);
    }
  }

  lemma SniLen(h: bytes)
    requires h != []
    ensures |SniPayload(h)| == |h| + 5
  {
  }

  /** The first non-empty host of extensions that are filled in. */
  function FirstWritten(es: seq<Extension>): Option<bytes> {
    if es == [] then None
    else if es[0].ServerName? && HostForSni(es[0].host) != [] then Some(HostForSni(es[0].host))
    else FirstWritten(es[1..])
  }

  lemma OnlyServerName(e: Extension)
    requires WellFormed(e) && WireType(e) == EXT_SERVER_NAME
    ensures e.ServerName?
  {
  }

  lemma {:induction false} BlockSni(v6: bytes -> bool, es: seq<Extension>)
    requires (forall i | 0 <= i < |es| :: WellFormed(es[i])) && |WireAll(es)| < 0x1_0000
    requires forall x :: v6(x) ==> COLON in x
    ensures SniOfBlock(v6, WireAll(es)) == FirstWritten(es)
  {
    hide WellFormed, Payload, U16, HostForSni, SniOfExtension, SniPayload;
    if es != [] {
      var (e, rest) := (es[0], WireAll(es[1..]));
      assert WireAll(es) == Wire(e) + rest;
      if IsBoring(e) {
        assert Wire(e) == [] && [] + rest == rest;
        hide Wire;
        BlockSni(v6, es[1..]);
      } else {
        assert |Wire(e)| >= |Payload(e)|;
        hide Wire, WireAll;
        BlockSni(v6, es[1..]);
        WireSlices(e, rest);
        ServerNameWire(v6, e);
        hide WireType;
      }
    }
  }

  lemma ServerNameWire(v6: bytes -> bool, e: Extension)
    requires WellFormed(e) && |Payload(e)| < 0x1_0000 && forall x :: v6(x) ==> COLON in x
    ensures WireType(e) == EXT_SERVER_NAME <==> e.ServerName?
    ensures e.ServerName? ==>
              SniOfExtension(v6, Payload(e)) == if HostForSni(e.host) == [] then None else Some(HostForSni(e.host))
  {
    if e.ServerName? {
      assert Payload(e) == SniPayload(HostForSni(e.host));
      SniExtensionRead(v6, e.host);
    } else if WireType(e) == EXT_SERVER_NAME {
      OnlyServerName(e);
    }
    hide HostForSni, SniOfExtension, SniPayload, Payload;
  }

  lemma {:induction false} FirstHostWritten(p: Params, es: seq<Extension>, slot: nat)
    requires ParamsOk(p)
    ensures FirstWritten(FilledAll(p, es, slot)) == FirstHost(p, es)
    decreases |es|
  {
    hide HostForSni, ResolveAll, ResolveShares, BoringGrease, NextSlot;
    if es != [] {
      FirstHostWritten(p, es[1..], NextSlot(es[0], slot));
      assert FilledAll(p, es, slot)[1..] == FilledAll(p, es[1..], NextSlot(es[0], slot));
    }
  }

  lemma {:induction false} FirstHostUpdate(p: Params, es: seq<Extension>, i: nat, e: Extension)
    requires i < |es| && es[i].Padding? && e.Padding?
    ensures FirstHost(p, es[i := e]) == FirstHost(p, es)
    decreases |es|
  {
    hide HostOf;
    if i == 0 {
      assert es[i := e][1..] == es[1..];
    } else {
      FirstHostUpdate(p, es[1..], i - 1, e);
      assert es[i := e][1..] == es[1..][i - 1 := e];
    }
  }

  lemma FinalFirstHost(s: Spec, p: Params)
    requires ParamsOk(p)
    ensures FirstWritten(Final(s, p)) == FirstHost(p, s.extensions)
  {
    hide FilledAll, WireAll, FirstHost, FirstWritten;
    FinalIsFilled(s, p);
    FirstHostWritten(p, Padded(s, p), 0);
    if LastBoring(s.extensions).Some? {
      var n := BoringPaddingLen(BodyLen(s, p, |WireAll(FilledAll(p, s.extensions, 0))|));
      if n.Some? {
        FirstHostUpdate(p, s.extensions, LastBoring(s.extensions).value, Padding(FixedPayloadLen(n.value)));
      }
    }
  }

  /** The reader's positions in a body. */
  lemma BodySni(v6: bytes -> bool, ch: bytes, v: u16, random: bytes, sid: bytes, suites: bytes, comp: bytes, ext: bytes)
    requires ch == Layout(v, random, sid, suites, comp, ext)
    requires |random| == 32 && |sid| < 0x100 && |suites| < 0x1_0000 && |comp| < 0x100 && |ext| < 0x1_0000
    ensures SniOfBody(v6, ch) == SniOfBlock(v6, ext)
  {
    hide Layout, U16, Len16, At, SniOfBlock, SniOfBody;
    var o := 38 + |sid| + |suites| + |comp|;
    BodyParts(ch, v, random, sid, suites, comp, ext);
    Len16Stands(ch, o, ext);
    PositionRead(v6, ch, |sid|, suites, comp, o, ext);
  }

  lemma PositionRead(v6: bytes -> bool, ch: bytes, n: nat, suites: bytes, comp: bytes, o: nat, ext: bytes)
    requires |ch| >= o + 2 + |ext| && o == 38 + n + |suites| + |comp| && ch[34] == n
    requires U16(ch[35 + n], ch[36 + n]) == |suites| && ch[37 + n + |suites|] == |comp|
    requires U16(ch[o], ch[o + 1]) == |ext| && ch[o + 2..o + 2 + |ext|] == ext
    ensures SniOfBody(v6, ch) == SniOfBlock(v6, ext)
  {
    hide U16, SniOfBlock;
    var cs := 35 + ch[34] as nat;
    assert cs == 35 + n;
    var c := cs + 2 + |suites|;
    assert c + 1 + ch[c] as nat == o;
  }

  /** Two independent implementations agree: on every written record the SNI reader returns
      the first non-empty normalised host, and nothing exactly if there is none. */
  lemma SniAgrees(v6: bytes -> bool, s: Spec, p: Params)
    requires ParamsOk(p) && WellSized(s, p) && forall x :: v6(x) ==> COLON in x
    ensures SniOfRecord(v6, Record(Handshake(Body(s, p).value))) == FirstHost(p, s.extensions)
  {
    hide Record, Handshake, SniOfBody, U16, U24, Layout, WireAll, Final, SniOfBlock, U16s, ResolveAll,
      LegacyVersion, FirstHost, FirstWritten, WellFormed, ValidUtf8, FilledAll, Padded;
    var body := Body(s, p).value;
    BodyLength(s, p);
    SuitesRead(p, s.ciphers);
    BodySni(v6, body, LegacyVersion(s), p.random, p.sessionId, U16s(ResolveAll(p, s.ciphers, GREASE_CIPHER)),
            Compression(s), WireAll(Final(s, p)));
    hide Body;
    RecordSni(v6, body);
    FinalIsFilled(s, p);
    PaddedKeeps(s, p);
    FilledAllWell(p, Padded(s, p), 0);
    BlockSni(v6, Final(s, p));
    FinalFirstHost(s, p);
  }

  lemma RecordSni(v6: bytes -> bool, body: bytes)
    requires |body| + 4 < 0x1_0000
    ensures SniOfRecord(v6, Record(Handshake(body))) == SniOfBody(v6, body)
  {
    hide Handshake, Record, U16, U24, SniOfBody;
    HandshakeSlices(body);
    var hs := Handshake(body);
    RecordSlices(hs);
    var raw := Record(hs);
    assert raw[5..5 + |hs|] == hs && hs[4..4 + |body|] == body;
  }

  /** With one server_name extension, its host alone decides. */
  lemma OneServerName(v6: bytes -> bool, s: Spec, p: Params, i: nat)
    requires ParamsOk(p) && WellSized(s, p) && forall x :: v6(x) ==> COLON in x
    requires i < |s.extensions| && s.extensions[i].ServerName?
    requires forall k | 0 <= k < |s.extensions| && s.extensions[k].ServerName? :: k == i
    ensures SniOfRecord(v6, Record(Handshake(Body(s, p).value))) ==
            if HostOf(p, s.extensions[i]) == [] then None else Some(HostOf(p, s.extensions[i]))
  {
    hide SniOfRecord, Record, Handshake, Body, HostOf, WellSized;
    SniAgrees(v6, s, p);
    OneHost(p, s.extensions, i);
  }

  lemma {:induction false} OneHost(p: Params, es: seq<Extension>, i: nat)
    requires i < |es| && es[i].ServerName?
    requires forall k | 0 <= k < |es| && es[k].ServerName? :: k == i
    ensures FirstHost(p, es) == if HostOf(p, es[i]) == [] then None else Some(HostOf(p, es[i]))
    decreases |es|
  {
    hide HostOf;
    if i > 0 {
      assert forall k | 0 <= k < |es[1..]| :: es[1..][k] == es[k + 1];
      OneHost(p, es[1..], i - 1);
    } else {
      NoHost(p, es[1..]);
    }
  }

  lemma {:induction false} NoHost(p: Params, es: seq<Extension>)
    requires forall k | 0 <= k < |es| :: !es[k].ServerName?
    ensures FirstHost(p, es) == None
  {
    if es != [] { NoHost(p, es[1..]); }
  }

  // ---------------------------------------------------------------------------
  // Agreement on every record
  // ---------------------------------------------------------------------------

  /** What the routing side makes of a host: nothing for an address literal or no name. */
  function Usable(v6: bytes -> bool, host: bytes): Option<bytes> {
    var h := TrimEndDots(host);
    if h == [] || IsIp(v6, h) then None else Some(Lower(h))
  }

  /** The first server name the other reader returned that is usable. */
  function FirstUsable(v6: bytes -> bool, es: seq<Extension>): Option<bytes> {
    if es == [] then None
    else if es[0].ServerName? && Usable(v6, es[0].host).Some? then Usable(v6, es[0].host)
    else FirstUsable(v6, es[1..])
  }

  lemma EmptyUnusable(v6: bytes -> bool)
    ensures Usable(v6, []) == None
  {
  }

  lemma {:induction false} ListsAgree(v6: bytes -> bool, rest: bytes)
    ensures SniOfList(v6, rest) == Usable(v6, ReadHost(rest))
    decreases |rest|
  {
    hide U16, Lossy, Usable;
    EmptyUnusable(v6);
    if |rest| >= 3 {
      var n := U16(rest[1], rest[2]);
      if n <= |rest| - 3 {
        if rest[0] == 0 { UsableIs(v6, Lossy(rest[3..3 + n])); } else { ListsAgree(v6, rest[3 + n..]); }
      }
    }
  }

  lemma UsableIs(v6: bytes -> bool, host: bytes)
    ensures var h := TrimEndDots(host);
            Usable(v6, host) == if h == [] || IsIp(v6, h) then None else Some(Lower(h))
  {
  }

  lemma ExtensionsAgree(v6: bytes -> bool, data: bytes)
    ensures SniOfExtension(v6, data) == Usable(v6, SniHost(data))
  {
    hide U16, Usable, ReadHost, SniOfList;
    EmptyUnusable(v6);
    if |data| >= 2 {
      var n := U16(data[0], data[1]);
      if 2 + n <= |data| {
        ListsAgree(v6, data[2..2 + n]);
        if n == 0 {
          EmptyList(v6, data[2..2 + n]);
        }
      }
    }
  }

  lemma EmptyList(v6: bytes -> bool, rest: bytes)
    requires rest == []
    ensures SniOfList(v6, rest) == None
  {
  }

  /** A server name is read as one, and only it. */
  lemma ServerNameRead(id: u16, data: bytes, e: Extension)
    requires One(id, data, true) == Ok(e)
    ensures e.ServerName? <==> id == EXT_SERVER_NAME
    ensures e.ServerName? ==> e.host == SniHost(data)
  {
    hide Listed16, Listed8, Bytes8, SniHost, Get, ReadNames, ReadShares, U16;
  }

  lemma SniOfCons(v6: bytes -> bool, r: Raw, rest: bytes)
    requires |r.data| < 0x1_0000
    ensures SniOfBlock(v6, Be16(r.id) + (Len16(r.data) + rest)) ==
            if r.id == EXT_SERVER_NAME && SniOfExtension(v6, r.data).Some? then SniOfExtension(v6, r.data)
            else SniOfBlock(v6, rest)
  {
    hide SniOfExtension;
    ShareSlices(Be16(r.id) + (Len16(r.data) + rest), r.id, r.data, rest);
    hide Be16, U16, Len16;
  }

  lemma {:induction false} BlocksAgree(v6: bytes -> bool, rs: seq<Raw>, es: seq<Extension>)
    requires Reads(rs, es, true)
    ensures SniOfBlock(v6, Laid(rs)) == FirstUsable(v6, es)
  {
    hide One, SniOfBlock, SniOfExtension, Be16, Len16, Usable, SniHost;
    if rs == [] {
      EmptyBlock(v6);
    } else {
      BlocksAgree(v6, rs[1..], es[1..]);
      SniOfCons(v6, rs[0], Laid(rs[1..]));
      ServerNameRead(rs[0].id, rs[0].data, es[0]);
      ExtensionsAgree(v6, rs[0].data);
    }
  }

  lemma EmptyBlock(v6: bytes -> bool)
    ensures SniOfBlock(v6, []) == None
  {
  }

  lemma {:induction false} UngreaseKeepsHosts(v6: bytes -> bool, es: seq<Extension>)
    ensures FirstUsable(v6, UngreaseExts(es)) == FirstUsable(v6, es)
  {
    hide Usable, UngreaseAll, UngreaseShares;
    if es != [] {
      UngreaseKeepsHosts(v6, es[1..]);
      assert UngreaseExts(es)[1..] == UngreaseExts(es[1..]);
    }
  }

  lemma BodiesAgree(v6: bytes -> bool, p: Parts, tail: bytes)
    requires p.Fits()
    ensures SniOfBody(v6, p.Bytes() + tail) == SniOfBlock(v6, p.ext)
  {
    hide At, Layout, Be16, Len8, Len16, U16, SniOfBody, SniOfBlock;
    var ch := p.Bytes() + tail;
    var o := 38 + |p.sid| + |p.suites| + |p.comp|;
    PartsStand(p, tail);
    Len8Stands(ch, 34, p.sid);
    Len16Stands(ch, 35 + |p.sid|, p.suites);
    Len8Stands(ch, 37 + |p.sid| + |p.suites|, p.comp);
    Len16Stands(ch, o, p.ext);
    PositionRead(v6, ch, |p.sid|, p.suites, p.comp, o, p.ext);
  }

  lemma RecordsAgree(v6: bytes -> bool, raw: bytes, body: bytes, more: bytes, after: bytes)
    requires |body| < 0x100_0000 && 4 + |body| + |more| < 0x1_0000 && |raw| >= 3 && raw[0] == 22
    requires raw == raw[..3] + (Len16([1] + (Be24(|body|) + (body + more))) + after)
    ensures SniOfRecord(v6, raw) == SniOfBody(v6, body)
  {
    hide Be24, U24, SniOfBody, Len16, U16;
    HeadedHandshake(body, more);
    HeadedRecord(raw, [1] + (Be24(|body|) + (body + more)), after);
  }

  /** The two readers are independent code, and they agree on every byte string that the full
      reader accepts with blunt mimicry: the routing side finds exactly the first server name the
      full reader returns that is neither empty nor an address. */
  lemma TwoReadersAgree(v6: bytes -> bool, raw: bytes)
    requires ReadRecord(raw, true).Ok?
    ensures SniOfRecord(v6, raw) == FirstUsable(v6, ReadRecord(raw, true).value.extensions)
  {
    hide ReadRecord, ReadBody, SniOfRecord, SniOfBody, SniOfBlock, Block, FirstUsable, UngreaseExts, Be24, Len16,
      Layout, Laid, Reads;
    var body, more, after := ReadRecordParts(raw, true);
    RecordsAgree(v6, raw, body, more, after);
    var s := ReadRecord(raw, true).value;
    BodyExactly(body, s, true);
    var p: Parts, tail, es :|
      p.Fits() && body == p.Bytes() + tail && Block(p.ext, true) == Ok(es) && s == SpecOf(p, es);
    BodiesAgree(v6, p, tail);
    var rs := BlockIsLaid(p.ext, true);
    BlocksAgree(v6, rs, es);
    UngreaseKeepsHosts(v6, es);
  }
}
