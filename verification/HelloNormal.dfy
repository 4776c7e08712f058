/** The round trip of a whole ClientHello spec, stated on the spec itself. */
module HelloNormal {
  import opened Prelude
  import opened Bytes
  import opened Text
  import opened Hello
  import opened HelloReader
  import opened HelloWriter
  import opened HelloRoundTrip

  // ---------------------------------------------------------------------------
  // Padding
  // ---------------------------------------------------------------------------

  /** The extensions with the last Boring padding resolved, if it is written at all. */
  function Padded(s: Spec, p: Params): (r: seq<Extension>)
    requires ParamsOk(p)
    ensures |r| == |s.extensions|
  {
    match LastBoring(s.extensions)
    case None => s.extensions
    case Some(bi) =>
      match BoringPaddingLen(BodyLen(s, p, |WireAll(FilledAll(p, s.extensions, 0))|))
      case None => s.extensions
      case Some(n) => s.extensions[bi := Padding(FixedPayloadLen(n))]
  }

  lemma {:induction false} FilledUpdate(p: Params, es: seq<Extension>, slot: nat, i: nat, e: Extension)
    requires ParamsOk(p) && i < |es| && es[i].Padding? && e.Padding?
    ensures FilledAll(p, es[i := e], slot) == FilledAll(p, es, slot)[i := e]
    decreases |es|
  {
    hide ResolveAll, ResolveShares, BoringGrease;
    if i == 0 {
      assert es[i := e][1..] == es[1..];
    } else {
      FilledUpdate(p, es[1..], NextSlot(es[0], slot), i - 1, e);
      assert es[i := e][1..] == es[1..][i - 1 := e];
    }
  }

  lemma FinalIsFilled(s: Spec, p: Params)
    requires ParamsOk(p)
    ensures Final(s, p) == FilledAll(p, Padded(s, p), 0)
  {
    hide FilledAll, WireAll;
    if LastBoring(s.extensions).Some? {
      var u := BodyLen(s, p, |WireAll(FilledAll(p, s.extensions, 0))|);
      var n := BoringPaddingLen(u);
      if n.Some? {
        FilledUpdate(p, s.extensions, 0, LastBoring(s.extensions).value, Padding(FixedPayloadLen(n.value)));
      }
    }
  }

  lemma {:induction false} WireUpdate(es: seq<Extension>, i: nat, e: Extension)
    requires i < |es|
    ensures |WireAll(es[i := e])| == |WireAll(es)| - |Wire(es[i])| + |Wire(e)|
    decreases |es|
  {
    hide Wire;
    if i == 0 {
      assert es[i := e][1..] == es[1..];
    } else {
      WireUpdate(es[1..], i - 1, e);
      assert es[i := e][1..] == es[1..][i - 1 := e];
    }
  }

  lemma BodyLength(s: Spec, p: Params)
    requires ParamsOk(p) && |p.sessionId| <= 255
    ensures Body(s, p).Some? && |Body(s, p).value| == BodyLen(s, p, |WireAll(Final(s, p))|)
  {
    hide WireAll, Final;
    ResolveAllInvisible(p, s.ciphers, GREASE_CIPHER);
    U16sRead(ResolveAll(p, s.ciphers, GREASE_CIPHER));
    hide ResolveAll, U16s, LegacyVersion;
    assert |Be16(LegacyVersion(s))| == 2;
  }

  /** With Boring padding (section 3 of RFC 7685) the body is never 256 to 511 bytes long: an
      unpadded length of 256 to 507 becomes 512, one of 508 to 511 grows by five, and any
      other stays. */
  lemma BoringLength(s: Spec, p: Params)
    requires ParamsOk(p) && |p.sessionId| <= 255 && LastBoring(s.extensions).Some?
    ensures var u := BodyLen(s, p, |WireAll(FilledAll(p, s.extensions, 0))|);
            var n := |Body(s, p).value|;
            && Body(s, p).Some? && !(256 <= n <= 511)
            && n == if 256 <= u <= 507 then 512 else if 508 <= u <= 511 then u + 5 else u
  {
    hide Body, FilledAll, WireAll;
    BodyLength(s, p);
    var es := FilledAll(p, s.extensions, 0);
    var bi := LastBoring(s.extensions).value;
    var u := BodyLen(s, p, |WireAll(es)|);
    FilledBoring(p, s.extensions, 0, bi);
    if BoringPaddingLen(u).Some? {
      var n := BoringPaddingLen(u).value;
      var e := Padding(FixedPayloadLen(n));
      PaddingWire(es[bi], n);
      hide Wire;
      WireUpdate(es, bi, e);
    }
  }

  lemma PaddingWire(boring: Extension, n: nat)
    requires IsBoring(boring)
    ensures Wire(boring) == [] && |Wire(Padding(FixedPayloadLen(n)))| == 4 + n
  {
  }

  lemma {:induction false} FilledBoring(p: Params, es: seq<Extension>, slot: nat, i: nat)
    requires ParamsOk(p) && i < |es|
    ensures IsBoring(FilledAll(p, es, slot)[i]) == IsBoring(es[i])
    decreases |es|
  {
    hide ResolveAll, ResolveShares, BoringGrease;
    if i > 0 { FilledBoring(p, es[1..], NextSlot(es[0], slot), i - 1); }
  }

  // ---------------------------------------------------------------------------
  // Normal form
  // ---------------------------------------------------------------------------

  /** What a reader sees of one extension: GREASE placeholders among extensions are filled in,
      those inside lists are placeholders again, and the host is normalised. */
  function NormOne(p: Params, e: Extension, slot: nat): Extension
    requires ParamsOk(p)
  {
    match e
    case Grease(_, _) => Filled(p, e, slot)
    case ServerName(host) => ServerName(HostForSni(if host == [] then p.serverName else host))
    case SupportedVersions(versions) => SupportedVersions(UngreaseAll(versions))
    case SupportedCurves(curves) => SupportedCurves(UngreaseAll(curves))
    case KeyShare(entries) => KeyShare(UngreaseShares(entries))
    case _ => e
  }

  function NormAll(p: Params, es: seq<Extension>, slot: nat): seq<Extension>
    requires ParamsOk(p)
    decreases |es|
  {
    if es == [] then []
    else (if IsBoring(es[0]) then [] else [NormOne(p, es[0], slot)]) + NormAll(p, es[1..], NextSlot(es[0], slot))
  }

  /** Without blunt mimicry the first opaque extension is an error. */
  function FirstGeneric(es: seq<Extension>): Option<u16> {
    if es == [] then None else if es[0].Generic? then Some(es[0].id) else FirstGeneric(es[1..])
  }

  function Normal(s: Spec, p: Params): Spec
    requires ParamsOk(p)
  {
    var v: u16 := if HasVersions(s.extensions) then 0 else LegacyVersion(s);
    Spec(UngreaseAll(s.ciphers), Compression(s), NormAll(p, Padded(s, p), 0), v, v)
  }

  predicate WellSized(s: Spec, p: Params)
    requires ParamsOk(p)
  {
    && (forall i | 0 <= i < |s.extensions| :: WellFormed(s.extensions[i]))
    && ValidUtf8(p.serverName) && |p.sessionId| <= 255 && |s.compression| <= 255
    && Body(s, p).Some? && |Body(s, p).value| + 4 < 0x1_0000
  }

  lemma NormFilled(p: Params, e: Extension, slot: nat)
    requires ParamsOk(p)
    ensures UngreaseExt(Plain(Filled(p, e, slot))) == NormOne(p, e, slot)
  {
    match e {
      case SupportedVersions(vs) => ResolveAllInvisible(p, vs, GREASE_VERSION);
      case SupportedCurves(vs) => ResolveAllInvisible(p, vs, GREASE_GROUP);
      case KeyShare(entries) => ResolveSharesInvisible(p, entries);
      case _ =>
    }
    hide ResolveAll, ResolveShares, UngreaseAll, UngreaseShares, BoringGrease, HostForSni;
  }

  lemma FilledWell(p: Params, e: Extension, slot: nat)
    requires ParamsOk(p) && WellFormed(e) && ValidUtf8(p.serverName)
    ensures WellFormed(Filled(p, e, slot))
    ensures Filled(p, e, slot).Generic? == e.Generic? && (e.Generic? ==> Filled(p, e, slot) == e)
    ensures Filled(p, e, slot).SupportedVersions? == e.SupportedVersions? && IsBoring(Filled(p, e, slot)) == IsBoring(e)
  {
    BoringIsGrease(p, GREASE_EXTENSION1);
    BoringIsGrease(p, GREASE_EXTENSION2);
    if e.SupportedVersions? { ResolveAllInvisible(p, e.versions, GREASE_VERSION); }
    hide ResolveAll, ResolveShares, BoringGrease, ValidUtf8, IsGrease, Known;
  }

  lemma {:induction false} FilledAllWell(p: Params, es: seq<Extension>, slot: nat)
    requires ParamsOk(p) && ValidUtf8(p.serverName) && forall i | 0 <= i < |es| :: WellFormed(es[i])
    ensures forall i | 0 <= i < |es| :: WellFormed(FilledAll(p, es, slot)[i])
    decreases |es|
  {
    hide Filled, WellFormed, ValidUtf8, NextSlot;
    if es != [] {
      FilledWell(p, es[0], slot);
      FilledAllWell(p, es[1..], NextSlot(es[0], slot));
    }
  }

  lemma VersionsCons(e: Extension, rest: seq<Extension>)
    ensures HasVersions([e] + rest) == (e.SupportedVersions? || HasVersions(rest))
  {
    var es := [e] + rest;
    assert es[0] == e;
    if HasVersions(rest) {
      var i :| 0 <= i < |rest| && rest[i].SupportedVersions?;
      assert es[i + 1].SupportedVersions?;
    }
    if HasVersions(es) && !e.SupportedVersions? {
      var i :| 0 <= i < |es| && es[i].SupportedVersions?;
      assert rest[i - 1].SupportedVersions?;
    }
  }

  /** The list the reader builds, ungreased, is the normal form of the list written. */
  lemma {:induction false} PlainsNormal(p: Params, es: seq<Extension>, slot: nat, blunt: bool)
    requires ParamsOk(p) && ValidUtf8(p.serverName) && forall i | 0 <= i < |es| :: WellFormed(es[i])
    ensures var r := Plains(FilledAll(p, es, slot), blunt);
            if blunt || FirstGeneric(es).None? then
              r.Ok? && UngreaseExts(r.value) == NormAll(p, es, slot) && HasVersions(r.value) == HasVersions(es)
            else r == Err(UnsupportedExtension(FirstGeneric(es).value))
    decreases |es|
  {
    hide Filled, WellFormed, ValidUtf8, NextSlot, Plain, UngreaseExt, NormOne, HasVersions;
    if es == [] {
      assert !HasVersions([]) by { NoVersions(); }
    } else {
      var (f, fs) := (Filled(p, es[0], slot), FilledAll(p, es[1..], NextSlot(es[0], slot)));
      var all := FilledAll(p, es, slot);
      assert all == [f] + fs && all[0] == f && all[1..] == fs;
      hide FilledAll;
      FilledWell(p, es[0], slot);
      PlainsNormal(p, es[1..], NextSlot(es[0], slot), blunt);
      NormFilled(p, es[0], slot);
      PlainVersions(f);
      assert es == [es[0]] + es[1..];
      VersionsCons(es[0], es[1..]);
      var rest := Plains(fs, blunt);
      if rest.Ok? {
        VersionsCons(Plain(f), rest.value);
        assert ([Plain(f)] + rest.value)[1..] == rest.value;
      }
    }
  }

  lemma NoVersions()
    ensures !HasVersions([])
  {
  }

  lemma PlainVersions(e: Extension)
    ensures Plain(e).SupportedVersions? == e.SupportedVersions?
  {
  }

  lemma {:induction false} FirstGenericUpdate(es: seq<Extension>, i: nat, e: Extension)
    requires i < |es| && es[i].Padding? && e.Padding?
    ensures FirstGeneric(es[i := e]) == FirstGeneric(es)
    decreases |es|
  {
    if i == 0 {
      assert es[i := e][1..] == es[1..];
    } else {
      FirstGenericUpdate(es[1..], i - 1, e);
      assert es[i := e][1..] == es[1..][i - 1 := e];
    }
  }

  lemma VersionsUpdate(es: seq<Extension>, i: nat, e: Extension)
    requires i < |es| && es[i].Padding? && e.Padding?
    ensures HasVersions(es[i := e]) == HasVersions(es)
  {
    var u := es[i := e];
    assert forall k | 0 <= k < |es| :: u[k].SupportedVersions? == es[k].SupportedVersions?;
  }

  lemma PaddedKeeps(s: Spec, p: Params)
    requires ParamsOk(p) && forall i | 0 <= i < |s.extensions| :: WellFormed(s.extensions[i])
    ensures forall i | 0 <= i < |s.extensions| :: WellFormed(Padded(s, p)[i])
    ensures FirstGeneric(Padded(s, p)) == FirstGeneric(s.extensions)
    ensures HasVersions(Padded(s, p)) == HasVersions(s.extensions)
  {
    hide FilledAll, WireAll, HasVersions, FirstGeneric;
    if LastBoring(s.extensions).Some? {
      var bi := LastBoring(s.extensions).value;
      var n := BoringPaddingLen(BodyLen(s, p, |WireAll(FilledAll(p, s.extensions, 0))|));
      if n.Some? {
        var e := Padding(FixedPayloadLen(n.value));
        assert WellFormed(e);
        FirstGenericUpdate(s.extensions, bi, e);
        VersionsUpdate(s.extensions, bi, e);
      }
    }
    hide WellFormed;
  }

  /** The extension part: reading the written block. */
  lemma ExtensionsRoundTrip(s: Spec, p: Params, blunt: bool)
    requires ParamsOk(p) && WellSized(s, p) && |WireAll(Final(s, p))| < 0x1_0000
    ensures var r := Block(WireAll(Final(s, p)), blunt);
            if blunt || FirstGeneric(s.extensions).None? then
              r.Ok? && UngreaseExts(r.value) == NormAll(p, Padded(s, p), 0)
              && HasVersions(r.value) == HasVersions(s.extensions)
            else r == Err(UnsupportedExtension(FirstGeneric(s.extensions).value))
  {
    hide Block, WireAll, Plains, FilledAll, NormAll, WellFormed, HasVersions, FirstGeneric, UngreaseExts, Body, Padded;
    FinalIsFilled(s, p);
    hide Final;
    PaddedKeeps(s, p);
    FilledAllWell(p, Padded(s, p), 0);
    BlockRead(FilledAll(p, Padded(s, p), 0), blunt);
    PlainsNormal(p, Padded(s, p), 0, blunt);
  }

  lemma SuitesRead(p: Params, ciphers: seq<u16>)
    requires ParamsOk(p)
    ensures var b := U16s(ResolveAll(p, ciphers, GREASE_CIPHER));
            |b| == 2 * |ciphers| && UngreaseAll(ReadU16s(b)) == UngreaseAll(ciphers)
  {
    hide U16s, ReadU16s, ResolveAll, UngreaseAll;
    ResolveAllInvisible(p, ciphers, GREASE_CIPHER);
    U16sRead(ResolveAll(p, ciphers, GREASE_CIPHER));
  }

  lemma BodyRoundTrip(s: Spec, p: Params, blunt: bool)
    requires ParamsOk(p) && WellSized(s, p)
    ensures |WireAll(Final(s, p))| < 0x1_0000
    ensures ReadBody(Body(s, p).value, blunt) ==
            Assembled(LegacyVersion(s), UngreaseAll(s.ciphers), Compression(s), Block(WireAll(Final(s, p)), blunt))
  {
    hide ReadBody, WireAll, Final, U16s, ResolveAll, Block, Layout, LegacyVersion, UngreaseAll, ReadU16s, Assembled,
      WellFormed, ValidUtf8;
    BodyLength(s, p);
    SuitesRead(p, s.ciphers);
    BodyRead(Body(s, p).value, LegacyVersion(s), p.random, p.sessionId, U16s(ResolveAll(p, s.ciphers, GREASE_CIPHER)),
             Compression(s), WireAll(Final(s, p)), blunt);
  }

  /** Reading a written ClientHello gives the normal form of the spec; without blunt mimicry
      it does so exactly when the spec has no opaque extension. */
  lemma RoundTrip(s: Spec, p: Params, blunt: bool)
    requires ParamsOk(p) && WellSized(s, p)
    ensures ReadRecord(Record(Handshake(Body(s, p).value)), blunt) ==
            if blunt || FirstGeneric(s.extensions).None? then Ok(Normal(s, p))
            else Err(UnsupportedExtension(FirstGeneric(s.extensions).value))
  {
    hide Record, Handshake, Body, ReadRecord, ReadBody, WireAll, Final, Block, LegacyVersion, UngreaseAll, HasVersions,
      UngreaseExts, NormAll, Padded, FirstGeneric, Compression, WellFormed, ValidUtf8;
    BodyRoundTrip(s, p, blunt);
    ExtensionsRoundTrip(s, p, blunt);
    RecordRead(Body(s, p).value, blunt);
  }

  /** The two programs one after the other: the writer's buffer, then the reader's cursor. */
  method WriteThenRead(s: Spec, p: Params, blunt: bool) returns (r: Result<Spec>)
    requires ParamsOk(p) && WellSized(s, p)
    ensures r == if blunt || FirstGeneric(s.extensions).None? then Ok(Normal(s, p))
                 else Err(UnsupportedExtension(FirstGeneric(s.extensions).value))
  {
    hide Record, Handshake, Body, ReadRecord, Normal, FirstGeneric, ValidUtf8;
    var record := MarshalRecord(s, p);
    r := ParseRecord(record.value, blunt);
    RoundTrip(s, p, blunt);
  }
}
