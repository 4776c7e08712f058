/** The ClientHello writer of `extensions.rs` and `marshal.rs`, buffer by buffer. */
module HelloWriter {
  import opened Prelude
  import opened Bytes
  import opened Hello

  method PutU16s(out: bytes, vs: seq<u16>) returns (r: bytes)
    ensures r == out + U16s(vs)
  {
    r := out;
    var i := 0;
    while i < |vs|
      invariant 0 <= i <= |vs|
      invariant r + U16s(vs[i..]) == out + U16s(vs)
    {
      assert vs[i..][1..] == vs[i + 1..];
      r := r + Be16(vs[i]);
      i := i + 1;
    }
  }

  method PutNames(protocols: seq<bytes>) returns (r: bytes)
    ensures r == Names(protocols)
  {
    r := [];
    var i := 0;
    while i < |protocols|
      invariant 0 <= i <= |protocols|
      invariant r + Names(protocols[i..]) == Names(protocols)
    {
      assert protocols[i..][1..] == protocols[i + 1..];
      Assoc(r, Len8(protocols[i]), Names(protocols[i + 1..]));
      Assoc(r, [|protocols[i]| % 0x100], protocols[i]);
      r := r + [|protocols[i]| % 0x100];
      r := r + protocols[i];
      i := i + 1;
      hide Len8;
    }
  }

  method PutShares(entries: seq<KeyShareEntry>) returns (r: bytes)
    ensures r == Shares(entries)
  {
    hide Be16;
    r := [];
    var i := 0;
    while i < |entries|
      invariant 0 <= i <= |entries|
      invariant r + Shares(entries[i..]) == Shares(entries)
    {
      assert entries[i..][1..] == entries[i + 1..];
      var e := entries[i];
      ghost var (g, l, rest) := (Be16(e.group), Len16(e.key), Shares(entries[i + 1..]));
      assert Shares(entries[i..]) == g + (l + rest);
      ghost var was := r;
      r := r + Be16(e.group);
      Assoc(r, Be16(|e.key|), e.key);
      r := r + Be16(|e.key|);
      r := r + e.key;
      assert r == (was + g) + l;
      hide Len16;
      Assoc(was + g, l, rest);
      Assoc(was, g, l + rest);
      i := i + 1;
    }
  }

  method PutServerName(h: bytes) returns (b: bytes)
    ensures b == SniPayload(h)
  {
    if h == [] { return []; }
    b := Be16(|h| + 3);
    b := b + [0];
    b := b + Be16(|h|);
    b := b + h;
  }

  /** `marshal_payload` */
  method MarshalPayload(e: Extension) returns (b: bytes)
    ensures b == Payload(e)
  {
    hide U16s, Names, Shares, HostForSni, Zeros, SniPayload;
    match e {
      case ServerName(host) =>
        b := PutServerName(HostForSni(host));
      case SignatureAlgorithms(schemes) =>
        LenU16s(schemes);
        b := PutU16s(Be16(|schemes| * 2), schemes);
      case Alpn(protocols) =>
        var inner := PutNames(protocols);
        b := Be16(|inner|);
        b := b + inner;
      case KeyShare(entries) =>
        var inner := PutShares(entries);
        b := Be16(|inner|);
        b := b + inner;
      case SupportedVersions(versions) =>
        LenU16s(versions);
        b := PutU16s([|versions| * 2 % 0x100], versions);
      case SupportedCurves(curves) =>
        var inner := PutU16s([], curves);
        assert inner == U16s(curves);
        b := Be16(|inner|);
        b := b + inner;
      case CompressCertificate(algorithms) =>
        LenU16s(algorithms);
        b := PutU16s([|algorithms| * 2 % 0x100], algorithms);
      case Grease(_, body) => b := body;
      case ExtendedMasterSecret => b := [];
      case RenegotiationInfo(renegotiation) => b := [renegotiation];
      case SessionTicket(ticket) => b := ticket;
      case StatusRequest => b := [0x01, 0x00, 0x00, 0x00, 0x00];
      case SignedCertificateTimestamp => b := [];
      case FakeChannelId(_) => b := [];
      case SupportedPoints(formats) =>
        b := [|formats| % 0x100];
        b := b + formats;
      case PskKeyExchangeModes(modes) =>
        b := [|modes| % 0x100];
        b := b + modes;
      case Padding(style) => b := if style.FixedPayloadLen? then Zeros(style.n) else [];
      case RecordSizeLimit(limit) => b := [limit / 0x100, limit % 0x100];
      case Generic(_, data) => b := data;
    }
  }

  lemma {:induction false} LenU16s(vs: seq<u16>)
    ensures |U16s(vs)| == 2 * |vs|
  {
    if vs != [] { LenU16s(vs[1..]); }
  }

  /** `Extension::marshal`, which panics on unresolved padding. */
  method MarshalExtension(e: Extension) returns (out: bytes)
    requires e.Padding? ==> e.style.FixedPayloadLen?
    ensures out == Wire(e)
  {
    var payload := MarshalPayload(e);
    hide Payload, WireType;
    out := Be16(WireType(e));
    out := out + Be16(|payload|);
    out := out + payload;
    assert out == Be16(WireType(e)) + Len16(payload);
  }

  method ResolveInPlace(p: Params, a: array<u16>, index: nat)
    requires ParamsOk(p) && index < 5
    modifies a
    ensures a[..] == ResolveAll(p, old(a[..]), index)
  {
    ghost var was := a[..];
    hide Resolve;
    var i := 0;
    while i < a.Length
      invariant 0 <= i <= a.Length && a[i..] == was[i..]
      invariant a[..i] + ResolveAll(p, was[i..], index) == ResolveAll(p, was, index)
    {
      assert was[i..][1..] == was[i + 1..];
      ghost var done := a[..i];
      assert a[i] == was[i];
      a[i] := Resolve(p, a[i], index);
      assert a[..i + 1] == done + [Resolve(p, was[i], index)];
      i := i + 1;
    }
    assert a[..] == a[..i];
  }

  method ResolvedU16s(p: Params, vs: seq<u16>, index: nat) returns (r: seq<u16>)
    requires ParamsOk(p) && index < 5
    ensures r == ResolveAll(p, vs, index)
  {
    var a := new u16[|vs|](i requires 0 <= i < |vs| => vs[i]);
    assert a[..] == vs;
    ResolveInPlace(p, a, index);
    r := a[..];
  }

  method ResolvedShares(p: Params, es: seq<KeyShareEntry>) returns (r: seq<KeyShareEntry>)
    requires ParamsOk(p)
    ensures r == ResolveShares(p, es)
  {
    hide Resolve;
    r := [];
    var i := 0;
    while i < |es|
      invariant 0 <= i <= |es|
      invariant r + ResolveShares(p, es[i..]) == ResolveShares(p, es)
    {
      assert es[i..][1..] == es[i + 1..];
      r := r + [KeyShareEntry(Resolve(p, es[i].group, GREASE_GROUP), es[i].key)];
      i := i + 1;
    }
  }

  /** `apply_grease_to_extension` on the clone of an extension, then `inject_sni`. */
  method Fill(p: Params, e: Extension, slot: nat) returns (e': Extension, slot': nat)
    requires ParamsOk(p)
    ensures e' == Filled(p, e, slot) && slot' == NextSlot(e, slot)
  {
    hide ResolveAll, ResolveShares, BoringGrease;
    e', slot' := e, slot;
    match e {
      case Grease(value, body) =>
        if value == GREASE_PLACEHOLDER {
          var idx := if slot == 0 then GREASE_EXTENSION1 else GREASE_EXTENSION2;
          e' := Grease(BoringGrease(p, idx), if slot == 0 then [] else [0]);
          slot' := Min(slot + 1, 255);
        }
      case SupportedCurves(curves) =>
        var r := ResolvedU16s(p, curves, GREASE_GROUP);
        e' := SupportedCurves(r);
      case SupportedVersions(versions) =>
        var r := ResolvedU16s(p, versions, GREASE_VERSION);
        e' := SupportedVersions(r);
      case KeyShare(entries) =>
        var r := ResolvedShares(p, entries);
        e' := KeyShare(r);
      case ServerName(host) =>
        if host == [] && p.serverName != [] { e' := ServerName(p.serverName); }
      case _ =>
    }
  }

  function Wires(es: seq<Extension>): (r: seq<bytes>)
    ensures |r| == |es|
  {
    if es == [] then [] else [Wire(es[0])] + Wires(es[1..])
  }

  lemma {:induction false} WiresAt(es: seq<Extension>)
    ensures forall i | 0 <= i < |es| :: Wires(es)[i] == Wire(es[i])
  {
    hide Wire;
    if es != [] { WiresAt(es[1..]); }
  }

  lemma {:induction false} WiresConcat(es: seq<Extension>)
    ensures Concat(Wires(es)) == WireAll(es)
  {
    hide Wire;
    if es != [] {
      WiresConcat(es[1..]);
      assert Wires(es)[1..] == Wires(es[1..]);
    }
  }

  lemma WiresUpdate(es: seq<Extension>, i: nat, e: Extension)
    requires i < |es|
    ensures Wires(es)[i := Wire(e)] == Wires(es[i := e])
  {
    hide Wire;
    WiresAt(es);
    WiresAt(es[i := e]);
  }

  method TotalLen(parts: seq<bytes>) returns (n: nat)
    ensures n == |Concat(parts)|
  {
    n := 0;
    var i := 0;
    while i < |parts|
      invariant 0 <= i <= |parts| && n + |Concat(parts[i..])| == |Concat(parts)|
    {
      assert parts[i..][1..] == parts[i + 1..];
      n := n + |parts[i]|;
      i := i + 1;
    }
  }

  method Flatten(parts: seq<bytes>) returns (out: bytes)
    ensures out == Concat(parts)
  {
    out := [];
    var i := 0;
    while i < |parts|
      invariant 0 <= i <= |parts| && out + Concat(parts[i..]) == Concat(parts)
    {
      assert parts[i..][1..] == parts[i + 1..];
      Assoc(out, parts[i], Concat(parts[i + 1..]));
      out := out + parts[i];
      i := i + 1;
    }
  }

  predicate NoRecordPadding(s: Spec) {
    forall i | 0 <= i < |s.extensions| :: s.extensions[i].Padding? ==> !s.extensions[i].style.PadRecordTo?
  }

  lemma PartsStep(p: Params, es: seq<Extension>, i: nat, slot: nat, parts: seq<bytes>, all: seq<bytes>)
    requires ParamsOk(p) && i < |es| && parts + Wires(FilledAll(p, es[i..], slot)) == all
    ensures (parts + [Wire(Filled(p, es[i], slot))]) + Wires(FilledAll(p, es[i + 1..], NextSlot(es[i], slot))) == all
  {
    hide Wire, Filled, NextSlot;
    var (e, rest) := (Filled(p, es[i], slot), FilledAll(p, es[i + 1..], NextSlot(es[i], slot)));
    assert es[i..][0] == es[i] && es[i..][1..] == es[i + 1..];
    assert FilledAll(p, es[i..], slot) == [e] + rest;
    hide FilledAll;
    WiresCons(e, rest);
    assert parts + ([Wire(e)] + Wires(rest)) == (parts + [Wire(e)]) + Wires(rest);
  }

  lemma LastBoringStep(es: seq<Extension>, i: nat)
    requires i < |es|
    ensures LastBoring(es[..i + 1]) == if IsBoring(es[i]) then Some(i) else LastBoring(es[..i])
  {
    assert es[..i + 1][..i] == es[..i];
  }

  lemma NoParts(p: Params, es: seq<Extension>, slot: nat)
    requires ParamsOk(p) && es == []
    ensures Wires(FilledAll(p, es, slot)) == [] && LastBoring(es) == None
  {
  }

  /** The loop of `marshal_extensions`: one part per extension, Boring padding left empty. */
  method MarshalParts(p: Params, es: seq<Extension>) returns (parts: seq<bytes>, boring: Option<nat>)
    requires ParamsOk(p)
    requires forall i | 0 <= i < |es| :: es[i].Padding? ==> !es[i].style.PadRecordTo?
    ensures parts == Wires(FilledAll(p, es, 0)) && boring == LastBoring(es)
  {
    hide Wire, Filled, Wires, FilledAll, LastBoring;
    parts, boring := [], None;
    var slot := 0;
    var i := 0;
    assert es[0..] == es;
    NoParts(p, es[..0], slot);
    while i < |es|
      invariant 0 <= i <= |es| && boring == LastBoring(es[..i]) && slot >= 0
      invariant parts + Wires(FilledAll(p, es[i..], slot)) == Wires(FilledAll(p, es, 0))
    {
      PartsStep(p, es, i, slot, parts, Wires(FilledAll(p, es, 0)));
      LastBoringStep(es, i);
      FilledShape(p, es[i], slot);
      if IsBoring(es[i]) {
        boring := Some(i);
        parts := parts + [[]];
      } else {
        var filled, slot' := Fill(p, es[i], slot);
        slot := slot';
        var one := MarshalExtension(filled);
        parts := parts + [one];
      }
      i := i + 1;
    }
    assert es[..i] == es;
    NoParts(p, es[i..], slot);
  }

  /** A padding extension of `n` zero bytes. */
  method PaddingPart(n: nat) returns (pad: bytes)
    ensures pad == Wire(Padding(FixedPayloadLen(n)))
  {
    pad := Be16(EXT_PADDING);
    pad := PutLen16(pad, Zeros(n));
  }

  /** `marshal_extensions` */
  method MarshalExtensions(s: Spec, p: Params) returns (out: bytes)
    requires ParamsOk(p) && NoRecordPadding(s)
    ensures out == WireAll(Final(s, p))
  {
    hide FilledAll, WireAll, Wire, Wires;
    ghost var es := FilledAll(p, s.extensions, 0);
    var parts, boring := MarshalParts(p, s.extensions);
    WiresConcat(es);
    if boring.Some? {
      var bi := boring.value;
      var unpadded := TotalLen(parts);
      var plen := BoringPaddingLen(2 + 32 + 1 + |p.sessionId| + 2 + |s.ciphers| * 2 + 1
                                   + Max(|s.compression|, 1) + 2 + unpadded);
      if plen.Some? {
        var pad := PaddingPart(plen.value);
        ghost var e := Padding(FixedPayloadLen(plen.value));
        WiresUpdate(es, bi, e);
        WiresConcat(es[bi := e]);
        parts := parts[bi := pad];
      } else {
        BoringStays(p, s.extensions, 0, bi);
        BoringWire(es[bi]);
        WiresAt(es);
        parts := parts[bi := []];
        assert parts == Wires(es);
      }
    }
    out := Flatten(parts);
  }

  lemma BoringWire(e: Extension)
    requires IsBoring(e)
    ensures Wire(e) == []
  {
  }

  lemma {:induction false} BoringStays(p: Params, es: seq<Extension>, slot: nat, i: nat)
    requires ParamsOk(p) && i < |es|
    ensures IsBoring(es[i]) ==> IsBoring(FilledAll(p, es, slot)[i])
    decreases |es|
  {
    if i == 0 {
      FilledShape(p, es[0], slot);
    } else {
      BoringStays(p, es[1..], NextSlot(es[0], slot), i - 1);
    }
  }

  lemma RegroupBody(a: bytes, b: bytes, c: bytes, d: bytes, e: bytes, f: bytes)
    ensures (((a + (b + c)) + d) + e) + f == a + (b + (c + (d + (e + f))))
  {
    Assoc((a + (b + c)) + d, e, f);
    Assoc(a + (b + c), d, e + f);
    Assoc(a, b + c, d + (e + f));
    Assoc(b, c, d + (e + f));
  }

  method PutLen8(out: bytes, b: bytes) returns (r: bytes)
    ensures r == out + Len8(b)
  {
    r := out + [|b| % 0x100];
    r := r + b;
  }

  method PutLen16(out: bytes, b: bytes) returns (r: bytes)
    ensures r == out + Len16(b)
  {
    r := out + Be16(|b|);
    r := r + b;
  }

  /** The cipher list: its length, then each suite with GREASE filled in. */
  method PutSuites(p: Params, out: bytes, ciphers: seq<u16>) returns (r: bytes)
    requires ParamsOk(p)
    ensures r == out + Len16(U16s(ResolveAll(p, ciphers, GREASE_CIPHER)))
  {
    var suites := ResolvedU16s(p, ciphers, GREASE_CIPHER);
    hide ResolveAll, U16s;
    LenU16s(suites);
    r := out + Be16(|suites| * 2);
    r := PutU16s(r, suites);
  }

  /** `marshal_client_hello_body` */
  method MarshalBody(s: Spec, p: Params) returns (r: Option<bytes>)
    requires ParamsOk(p) && NoRecordPadding(s)
    ensures r == Body(s, p)
  {
    var tls13 := HasTls13(s);
    var legacy: u16 := if tls13 then VERSION_TLS12 else Max(s.vmax, s.vmin);
    assert legacy == LegacyVersion(s);
    hide WireAll, Final, ResolveAll, U16s, Len8, Len16, LegacyVersion, Be16;
    var out := Be16(legacy);
    out := out + p.random;
    if |p.sessionId| > 255 { return None; }
    out := PutLen8(out, p.sessionId);
    Assoc(Be16(legacy), p.random, Len8(p.sessionId));
    out := PutSuites(p, out, s.ciphers);
    out := PutLen8(out, if s.compression == [] then [0] else s.compression);
    var exts := MarshalExtensions(s, p);
    out := PutLen16(out, exts);
    RegroupBody(Be16(legacy), p.random, Len8(p.sessionId), Len16(U16s(ResolveAll(p, s.ciphers, GREASE_CIPHER))),
                Len8(Compression(s)), Len16(exts));
    return Some(out);
  }

  method HasTls13(s: Spec) returns (r: bool)
    ensures r == s.HasTls13()
  {
    if s.vmax == VERSION_TLS13 { return true; }
    var i := 0;
    while i < |s.extensions|
      invariant 0 <= i <= |s.extensions|
      invariant forall k | 0 <= k < i ::
                  !(s.extensions[k].SupportedVersions? && VERSION_TLS13 in s.extensions[k].versions)
    {
      if s.extensions[i].SupportedVersions? && VERSION_TLS13 in s.extensions[i].versions { return true; }
      i := i + 1;
    }
    return false;
  }

  /** `marshal_handshake_client_hello`, after the body. */
  method WrapHandshake(body: bytes) returns (hs: bytes)
    ensures hs == Handshake(body)
  {
    hs := [1];
    hs := hs + [|body| / 0x100 / 0x100 % 0x100];
    hs := hs + [|body| / 0x100 % 0x100];
    hs := hs + [|body| % 0x100];
    assert hs == [1] + Be24(|body|);
    hide Be24;
    hs := hs + body;
  }

  /** `marshal_tls_client_hello_record` */
  method MarshalRecord(s: Spec, p: Params) returns (r: Option<bytes>)
    requires ParamsOk(p) && NoRecordPadding(s)
    ensures r == match Body(s, p) case None => None case Some(body) => Some(Record(Handshake(body)))
  {
    hide Body, Handshake, Be16;
    var b := MarshalBody(s, p);
    if b.None? { return None; }
    var hs := WrapHandshake(b.value);
    var rec := [22];
    rec := rec + [3, 1];
    assert rec == [22, 3, 1];
    rec := PutLen16(rec, hs);
    return Some(rec);
  }

  lemma WiresCons(e: Extension, rest: seq<Extension>)
    ensures Wires([e] + rest) == [Wire(e)] + Wires(rest)
  {
    hide Wire;
    assert ([e] + rest)[1..] == rest;
  }

  /** Filling in keeps padding as it is. */
  lemma FilledShape(p: Params, e: Extension, slot: nat)
    requires ParamsOk(p)
    ensures var f := Filled(p, e, slot);
            f.Padding? == e.Padding? && (e.Padding? ==> f == e && NextSlot(e, slot) == slot)
            && (IsBoring(e) ==> Wire(f) == [])
  {
  }
}
