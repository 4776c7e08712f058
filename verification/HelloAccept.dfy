/** What the ClientHello reader accepts, for every byte string: exactly the inputs laid out as a
    record, and what it returns is what stands there. */
module HelloAccept {
  import opened Bytes
  import opened Text
  import opened Hello
  import opened HelloReader
  import opened HelloRoundTrip
  import opened HelloBytes

  // ---------------------------------------------------------------------------
  // Lists
  // ---------------------------------------------------------------------------

  /** Every whole pair, in order; an odd last byte is ignored. */
  lemma {:induction false} PairsExactly(b: bytes, k: nat)
    requires k < |b| / 2
    ensures |ReadU16s(b)| == |b| / 2 && ReadU16s(b)[k] == Pair(b, 2 * k)
  {
    if k > 0 {
      PairsExactly(b[2..], k - 1);
    } else {
      PairsCount(b);
    }
  }

  lemma {:induction false} PairsCount(b: bytes)
    ensures |ReadU16s(b)| == |b| / 2
  {
    if |b| >= 2 { PairsCount(b[2..]); }
  }

  /** `tail` does not hold a whole name after its length byte. */
  predicate Cut8(tail: bytes) { tail == [] || |tail| - 1 < tail[0] as int }

  /** `tail` does not hold a whole key share entry. */
  predicate CutShare(tail: bytes) { |tail| < 4 || |tail| - 4 < Pair(tail, 2) }

  function Texts(raws: seq<bytes>): seq<bytes> {
    if raws == [] then [] else [Lossy(raws[0])] + Texts(raws[1..])
  }

  lemma NamesCons(n: bytes, more: seq<bytes>, tail: bytes)
    ensures Names([n] + more) + tail == Len8(n) + (Names(more) + tail) && Texts([n] + more) == [Lossy(n)] + Texts(more)
  {
    hide Lossy, Len8;
    assert ([n] + more)[1..] == more;
    Assoc(Len8(n), Names(more), tail);
  }

  lemma NameSlice(rest: bytes, n: nat)
    requires 1 + n <= |rest| && rest[0] == n
    ensures rest == Len8(rest[1..1 + n]) + rest[1 + n..]
  {
  }

  lemma ReadNamesMore(rest: bytes, n: nat)
    requires 1 + n <= |rest| && rest[0] == n
    ensures ReadNames(rest) == [Lossy(rest[1..1 + n])] + ReadNames(rest[1 + n..])
  {
    hide Lossy;
  }

  lemma NoNames(rest: bytes)
    requires Cut8(rest)
    ensures ReadNames(rest) == [] && Names([]) == [] && Texts([]) == []
  {
  }

  lemma {:induction false} NamesFound(rest: bytes) returns (raws: seq<bytes>, tail: bytes)
    ensures rest == Names(raws) + tail && Cut8(tail) && (forall i | 0 <= i < |raws| :: |raws[i]| < 256)
    ensures ReadNames(rest) == Texts(raws)
    decreases |rest|
  {
    hide Lossy, ReadNames, Names, Texts, Len8;
    if Cut8(rest) {
      NoNames(rest);
      raws, tail := [], rest;
    } else {
      var n := rest[0] as nat;
      NameSlice(rest, n);
      ReadNamesMore(rest, n);
      var more;
      more, tail := NamesFound(rest[1 + n..]);
      raws := [rest[1..1 + n]] + more;
      NamesCons(rest[1..1 + n], more, tail);
    }
  }

  lemma {:induction false} NamesAreFound(raws: seq<bytes>, tail: bytes)
    requires Cut8(tail) && forall i | 0 <= i < |raws| :: |raws[i]| < 256
    ensures ReadNames(Names(raws) + tail) == Texts(raws)
    decreases |raws|
  {
    hide Lossy;
    if raws == [] {
      assert Names(raws) + tail == tail;
    } else {
      var all := Names(raws) + tail;
      Assoc(Len8(raws[0]), Names(raws[1..]), tail);
      NamesAreFound(raws[1..], tail);
      NameSlices(all, raws[0], Names(raws[1..]) + tail);
    }
  }

  /** The names are those that stand whole before the first truncation. */
  lemma NamesExactly(rest: bytes, names: seq<bytes>)
    ensures ReadNames(rest) == names <==>
            exists raws, tail :: && rest == Names(raws) + tail && Cut8(tail) && names == Texts(raws)
                                 && forall i | 0 <= i < |raws| :: |raws[i]| < 256
  {
    hide ReadNames, Texts, Names, Cut8;
    if ReadNames(rest) == names { var raws, tail := NamesFound(rest); }
    forall raws, tail | && rest == Names(raws) + tail && Cut8(tail) && names == Texts(raws)
                        && (forall i | 0 <= i < |raws| :: |raws[i]| < 256)
      ensures ReadNames(rest) == names
    {
      NamesAreFound(raws, tail);
    }
  }

  lemma ShareParts(rest: bytes)
    requires !CutShare(rest)
    ensures var n := Pair(rest, 2);
            && U16(rest[0], rest[1]) < 0x1_0000 && n == U16(rest[2], rest[3]) < 0x1_0000
            && rest == Be16(U16(rest[0], rest[1])) + (Len16(rest[4..4 + n]) + rest[4 + n..])
  {
    var n := Pair(rest, 2);
    U16Inverse(rest[0], rest[1]);
    U16Inverse(rest[2], rest[3]);
    assert n == U16(rest[2], rest[3]);
    hide Be16, U16;
    assert rest == [rest[0], rest[1]] + (([rest[2], rest[3]] + rest[4..4 + n]) + rest[4 + n..]);
  }

  lemma PairIsU16(b: bytes, i: nat)
    requires i + 2 <= |b|
    ensures Pair(b, i) == U16(b[i], b[i + 1]) < 0x1_0000
  {
  }

  lemma ReadSharesCut(rest: bytes)
    requires CutShare(rest)
    ensures ReadShares(rest) == []
  {
    if |rest| >= 4 { PairIsU16(rest, 2); }
    hide U16, Pair;
  }

  lemma ReadSharesMore(rest: bytes, g: u16, n: nat)
    requires 4 + n <= |rest| && n == U16(rest[2], rest[3]) && g == U16(rest[0], rest[1])
    ensures ReadShares(rest) == [KeyShareEntry(g, rest[4..4 + n])] + ReadShares(rest[4 + n..])
  {
    hide U16;
  }

  lemma {:induction false} SharesFound(rest: bytes) returns (es: seq<KeyShareEntry>, tail: bytes)
    ensures rest == Shares(es) + tail && CutShare(tail) && (forall i | 0 <= i < |es| :: |es[i].key| < 0x1_0000)
    ensures ReadShares(rest) == es
    decreases |rest|
  {
    hide Be16, ReadShares, Len16, U16, Shares;
    if CutShare(rest) {
      ReadSharesCut(rest);
      NoShares();
      es, tail := [], rest;
    } else {
      ShareParts(rest);
      var n := Pair(rest, 2);
      var e := KeyShareEntry(U16(rest[0], rest[1]), rest[4..4 + n]);
      var more;
      ReadSharesMore(rest, e.group, n);
      more, tail := SharesFound(rest[4 + n..]);
      es := [e] + more;
      SharesCons(e, more, tail);
    }
  }

  lemma NoShares()
    ensures Shares([]) == []
  {
  }

  lemma SharesCons(e: KeyShareEntry, more: seq<KeyShareEntry>, tail: bytes)
    ensures Shares([e] + more) + tail == Be16(e.group) + (Len16(e.key) + (Shares(more) + tail))
  {
    assert ([e] + more)[1..] == more;
    Assoc(Be16(e.group), Len16(e.key) + Shares(more), tail);
    Assoc(Len16(e.key), Shares(more), tail);
  }

  lemma {:induction false} SharesAreFound(es: seq<KeyShareEntry>, tail: bytes)
    requires CutShare(tail) && forall i | 0 <= i < |es| :: |es[i].key| < 0x1_0000
    ensures ReadShares(Shares(es) + tail) == es
    decreases |es|
  {
    if es == [] {
      assert Shares(es) + tail == tail;
    } else {
      var all := Shares(es) + tail;
      assert es == [es[0]] + es[1..];
      SharesCons(es[0], es[1..], tail);
      SharesAreFound(es[1..], tail);
      ShareSlices(all, es[0].group, es[0].key, Shares(es[1..]) + tail);
      hide Be16, U16;
    }
  }

  /** The key shares are those that stand whole before the first truncation. */
  lemma SharesExactly(rest: bytes, es: seq<KeyShareEntry>)
    ensures ReadShares(rest) == es <==>
            exists tail :: rest == Shares(es) + tail && CutShare(tail)
                           && forall i | 0 <= i < |es| :: |es[i].key| < 0x1_0000
  {
    hide ReadShares, Shares, CutShare;
    if ReadShares(rest) == es { var found, tail := SharesFound(rest); }
    forall tail | rest == Shares(es) + tail && CutShare(tail) && (forall i | 0 <= i < |es| :: |es[i].key| < 0x1_0000)
      ensures ReadShares(rest) == es
    {
      SharesAreFound(es, tail);
    }
  }

  // ---------------------------------------------------------------------------
  // One extension
  // ---------------------------------------------------------------------------

  /** Which types are known; a record size limit needs its two bytes. */
  lemma AcceptedTypes(id: u16, data: bytes)
    ensures FromWire(id, data).Ok? <==>
            || IsGrease(id)
            || id in {0, 5, 10, 11, 13, 16, 18, 21, 23, 27, 35, 43, 45, 51, 30031, 30032, 65281}
            || (id == 28 && |data| >= 2)
    ensures FromWire(id, data).Err? ==>
              FromWire(id, data).error == if id == 28 then ParseError else UnsupportedExtension(id)
  {
    hide IsGrease, Listed16, Listed8, Bytes8, SniHost, Get, ReadNames, ReadShares, U16;
  }

  /** What extensions without lists hold. */
  lemma PlainTypes(id: u16, data: bytes)
    requires !IsGrease(id)
    ensures id == 5 ==> FromWire(id, data) == Ok(StatusRequest)
    ensures id == 18 ==> FromWire(id, data) == Ok(SignedCertificateTimestamp)
    ensures id == 21 ==> FromWire(id, data) == Ok(Padding(FixedPayloadLen(|data|)))
    ensures id == 23 ==> FromWire(id, data) == Ok(ExtendedMasterSecret)
    ensures id == 28 && |data| >= 2 ==> FromWire(id, data).value == RecordSizeLimit(Pair(data, 0))
    ensures id == 35 ==> FromWire(id, data) == Ok(SessionTicket(data))
    ensures id == 30031 ==> FromWire(id, data) == Ok(FakeChannelId(true))
    ensures id == 30032 ==> FromWire(id, data) == Ok(FakeChannelId(false))
    ensures id == 65281 ==> FromWire(id, data) == Ok(RenegotiationInfo(if data == [] then 0 else data[0]))
  {
    hide IsGrease, Listed16, Listed8, Bytes8, SniHost, Get, ReadNames, ReadShares;
  }

  /** Lists of numbers: as many whole pairs as both the declared length and the data allow. */
  lemma NumberLists(id: u16, data: bytes)
    requires !IsGrease(id) && |data| >= 2 && id in {10, 13, 27, 43}
    ensures var (skip, declared) := if id == 10 || id == 13 then (2, Pair(data, 0)) else (1, data[0] as int);
            var n := if declared <= |data| - skip then declared else |data| - skip;
            var list := ReadU16s(data[skip..skip + n]);
            FromWire(id, data) ==
            Ok(if id == 10 then SupportedCurves(list) else if id == 13 then SignatureAlgorithms(list)
               else if id == 27 then CompressCertificate(list) else SupportedVersions(list))
  {
    hide IsGrease, Bytes8, SniHost, Get, ReadNames, ReadShares, ReadU16s;
  }

  /** Lists that must be whole: one byte short and they are taken as empty. */
  lemma WholeLists(id: u16, data: bytes)
    requires !IsGrease(id) && |data| >= 2 && id in {11, 16, 45, 51}
    ensures var (skip, n) := if id == 11 || id == 45 then (1, data[0] as int) else (2, Pair(data, 0));
            var part := if skip + n <= |data| then data[skip..skip + n] else [];
            FromWire(id, data) ==
            Ok(if id == 11 then SupportedPoints(part) else if id == 45 then PskKeyExchangeModes(part)
               else if id == 16 then Alpn(ReadNames(part)) else KeyShare(ReadShares(part)))
  {
    hide IsGrease, Listed16, Listed8, SniHost, ReadNames, ReadShares;
  }

  /** GREASE of any value is kept with its data; unknown types are kept only under blunt mimicry. */
  lemma OneExactly(id: u16, data: bytes, blunt: bool)
    ensures IsGrease(id) ==> One(id, data, blunt) == Ok(Grease(id, data))
    ensures FromWire(id, data).Ok? ==> One(id, data, blunt) == FromWire(id, data)
    ensures FromWire(id, data) == Err(UnsupportedExtension(id)) && blunt ==>
              One(id, data, blunt) == Ok(Generic(id, data))
    ensures FromWire(id, data).Err? && !(blunt && id != 28) ==> One(id, data, blunt) == Err(FromWire(id, data).error)
  {
    hide IsGrease, Listed16, Listed8, Bytes8, SniHost, Get, ReadNames, ReadShares, U16;
  }

  // ---------------------------------------------------------------------------
  // The block
  // ---------------------------------------------------------------------------

  datatype Raw = Raw(id: u16, data: bytes)

  /** Extensions one after the other: type, length, data. */
  function Laid(rs: seq<Raw>): bytes {
    if rs == [] then [] else Be16(rs[0].id) + (Len16(rs[0].data) + Laid(rs[1..]))
  }

  /** Each extension is read by itself. */
  predicate Reads(rs: seq<Raw>, es: seq<Extension>, blunt: bool) {
    && |rs| == |es|
    && (rs != [] ==>
          && |rs[0].data| < 0x1_0000 && One(rs[0].id, rs[0].data, blunt) == Ok(es[0])
          && Reads(rs[1..], es[1..], blunt))
  }

  lemma BlockStep(buf: bytes, blunt: bool)
    requires buf != [] && Block(buf, blunt).Ok?
    ensures !CutShare(buf) && U16(buf[0], buf[1]) < 0x1_0000
    ensures var n := Pair(buf, 2); var one := One(U16(buf[0], buf[1]), buf[4..4 + n], blunt);
            && one.Ok? && Block(buf[4 + n..], blunt).Ok?
            && Block(buf, blunt).value == [one.value] + Block(buf[4 + n..], blunt).value
  {
    hide U16, Pair, One;
    if |buf| >= 4 {
      PairIsU16(buf, 0);
      PairIsU16(buf, 2);
    }
  }

  lemma {:induction false} BlockIsLaid(buf: bytes, blunt: bool) returns (rs: seq<Raw>)
    requires Block(buf, blunt).Ok?
    ensures buf == Laid(rs) && Reads(rs, Block(buf, blunt).value, blunt)
    decreases |buf|
  {
    hide One, Be16, Block, Len16, U16;
    rs := [];
    if buf == [] {
      NoBlock(blunt);
    } else {
      BlockStep(buf, blunt);
      ShareParts(buf);
      var n := Pair(buf, 2);
      var r := Raw(U16(buf[0], buf[1]), buf[4..4 + n]);
      var more := BlockIsLaid(buf[4 + n..], blunt);
      rs := [r] + more;
      assert rs[1..] == more && Block(buf, blunt).value[1..] == Block(buf[4 + n..], blunt).value;
    }
  }

  lemma BlockCons(r: Raw, rest: bytes, blunt: bool)
    requires |r.data| < 0x1_0000
    ensures var one := One(r.id, r.data, blunt);
            Block(Be16(r.id) + (Len16(r.data) + rest), blunt) ==
            if one.Err? then Err(one.error) else Cons(one.value, Block(rest, blunt))
  {
    hide One, Cons;
    ShareSlices(Be16(r.id) + (Len16(r.data) + rest), r.id, r.data, rest);
    hide Be16, U16, Len16;
  }

  lemma {:induction false} LaidIsBlock(rs: seq<Raw>, es: seq<Extension>, blunt: bool)
    requires Reads(rs, es, blunt)
    ensures Block(Laid(rs), blunt) == Ok(es)
    decreases |rs|
  {
    hide One, Block, Be16, Len16;
    if rs == [] {
      NoBlock(blunt);
    } else {
      LaidIsBlock(rs[1..], es[1..], blunt);
      BlockCons(rs[0], Laid(rs[1..]), blunt);
      assert es == [es[0]] + es[1..];
    }
  }

  lemma NoBlock(blunt: bool)
    ensures Block([], blunt) == Ok([])
  {
  }

  /** A block is accepted exactly if it is a sequence of extensions each of which is. */
  lemma BlockExactly(buf: bytes, es: seq<Extension>, blunt: bool)
    ensures Block(buf, blunt) == Ok(es) <==> exists rs :: buf == Laid(rs) && Reads(rs, es, blunt)
  {
    hide Block, Laid, Reads;
    if Block(buf, blunt) == Ok(es) { var rs := BlockIsLaid(buf, blunt); }
    forall rs | buf == Laid(rs) && Reads(rs, es, blunt) ensures Block(buf, blunt) == Ok(es) {
      LaidIsBlock(rs, es, blunt);
    }
  }

  // ---------------------------------------------------------------------------
  // Body and record
  // ---------------------------------------------------------------------------

  /** The parts of a body. */
  datatype Parts = Parts(v: u16, random: bytes, sid: bytes, suites: bytes, comp: bytes, ext: bytes)
  {
    predicate Fits() {
      && |random| == 32 && |sid| < 256 && |suites| < 0x1_0000 && |suites| % 2 == 0 && |comp| < 256
      && |ext| < 0x1_0000
    }

    function Bytes(): bytes { Layout(v, random, sid, suites, comp, ext) }
  }

  lemma AtAppend(msg: bytes, tail: bytes, pos: nat, part: bytes)
    requires At(msg, pos, part)
    ensures At(msg + tail, pos, part)
  {
    assert (msg + tail)[pos..pos + |part|] == msg[pos..pos + |part|];
  }

  lemma PartsStand(p: Parts, tail: bytes)
    requires p.Fits()
    ensures var ch := p.Bytes() + tail; var n := |p.sid|;
            && At(ch, 0, Be16(p.v)) && At(ch, 34, Len8(p.sid)) && At(ch, 35 + n, Len16(p.suites))
            && At(ch, 37 + n + |p.suites|, Len8(p.comp)) && At(ch, 38 + n + |p.suites| + |p.comp|, Len16(p.ext))
  {
    hide At, Layout, Be16, Len8, Len16;
    var (ch, n) := (p.Bytes(), |p.sid|);
    LayoutParts(ch, p.v, p.random, p.sid, p.suites, p.comp, p.ext);
    AtAppend(ch, tail, 0, Be16(p.v));
    AtAppend(ch, tail, 34, Len8(p.sid));
    AtAppend(ch, tail, 35 + n, Len16(p.suites));
    AtAppend(ch, tail, 37 + n + |p.suites|, Len8(p.comp));
    AtAppend(ch, tail, 38 + n + |p.suites| + |p.comp|, Len16(p.ext));
  }

  /** Whatever follows a body is ignored. */
  lemma PartsRead(p: Parts, tail: bytes, blunt: bool)
    requires p.Fits()
    ensures ReadBody(p.Bytes() + tail, blunt) ==
            Assembled(p.v, UngreaseAll(ReadU16s(p.suites)), p.comp, Block(p.ext, blunt))
  {
    hide At, Layout, Be16, Len8, Len16, U16, Block, UngreaseAll, ReadU16s, ReadBody, Assembled, Tail;
    var ch := p.Bytes() + tail;
    var o := 38 + |p.sid| + |p.suites| + |p.comp|;
    PartsStand(p, tail);
    Be16Stands(ch, 0, p.v);
    Len8Stands(ch, 34, p.sid);
    Len16Stands(ch, 35 + |p.sid|, p.suites);
    Len8Stands(ch, 37 + |p.sid| + |p.suites|, p.comp);
    Len16Stands(ch, o, p.ext);
    CursorRead(ch, p.v, |p.sid|, p.suites, p.comp, o, blunt);
    TailRead(ch, o, p.v, UngreaseAll(ReadU16s(p.suites)), p.comp, p.ext, blunt);
  }

  lemma Slice8(ch: bytes, i: nat, n: nat)
    requires i + 1 + n <= |ch| && ch[i] == n
    ensures ch[i..] == Len8(ch[i + 1..i + 1 + n]) + ch[i + 1 + n..]
  {
  }

  lemma Slice16(ch: bytes, i: nat, n: nat)
    requires i + 2 + n <= |ch| && Short(ch, i) == n
    ensures ch[i..] == Len16(ch[i + 2..i + 2 + n]) + ch[i + 2 + n..]
  {
    U16Inverse(ch[i], ch[i + 1]);
    hide Be16, U16;
    assert ch[i..] == [ch[i], ch[i + 1]] + ch[i + 2..i + 2 + n] + ch[i + 2 + n..];
  }

  lemma SliceVersion(ch: bytes)
    requires |ch| >= 34
    ensures ch == Be16(Short(ch, 0)) + (ch[2..34] + ch[34..])
  {
    U16Inverse(ch[0], ch[1]);
    hide Be16, U16;
    assert ch == [ch[0], ch[1]] + (ch[2..34] + ch[34..]);
  }

  lemma RegroupTail(v: bytes, r: bytes, a: bytes, b: bytes, c: bytes, d: bytes, t: bytes)
    ensures v + (r + (a + (b + (c + (d + t))))) == (v + (r + (a + (b + (c + d))))) + t
  {
    Assoc(c, d, t);
    Assoc(b, c + d, t);
    Assoc(a, b + (c + d), t);
    Assoc(r, a + (b + (c + d)), t);
    Assoc(v, r + (a + (b + (c + d))), t);
  }

  /** Where the cursor lands: session id end, compression methods, extensions, end. */
  ghost predicate Lands(ch: bytes, sid: nat, comp: nat, o: nat, end: nat) {
    && 35 <= sid && sid + 2 <= comp < o && o + 2 <= end <= |ch|
    && ch[34] == sid - 35 && Short(ch, sid) == comp - sid - 2 && ch[comp] == o - comp - 1 && Short(ch, o) == end - o - 2
    && (comp - sid - 2) % 2 == 0
  }

  lemma CursorLands(ch: bytes, blunt: bool) returns (sid: nat, comp: nat, o: nat, end: nat)
    requires ReadBody(ch, blunt).Ok?
    ensures Lands(ch, sid, comp, o, end)
  {
    hide Block, UngreaseAll, ReadU16s, UngreaseExts, HasVersions, U16;
    sid := 35 + ch[34] as nat;
    comp := sid + 2 + Short(ch, sid);
    o := comp + 1 + ch[comp] as nat;
    end := o + 2 + Short(ch, o);
  }

  lemma Glue(ch: bytes, v: bytes, r: bytes, a: bytes, b: bytes, c: bytes, d: bytes, t: bytes,
             x1: bytes, x2: bytes, x3: bytes, x4: bytes)
    requires ch == v + (r + x1) && x1 == a + x2 && x2 == b + x3 && x3 == c + x4 && x4 == d + t
    ensures ch == (v + (r + (a + (b + (c + d))))) + t
  {
    RegroupTail(v, r, a, b, c, d, t);
  }

  lemma LandedJoin(ch: bytes, sid: nat, comp: nat, o: nat, end: nat)
    requires Lands(ch, sid, comp, o, end)
    ensures ch == Layout(Short(ch, 0), ch[2..34], ch[35..sid], ch[sid + 2..comp], ch[comp + 1..o], ch[o + 2..end])
                  + ch[end..]
  {
    hide Short, Len8, Len16, Be16;
    SliceVersion(ch);
    Slice8(ch, 34, sid - 35);
    Slice16(ch, sid, comp - sid - 2);
    Slice8(ch, comp, o - comp - 1);
    Slice16(ch, o, end - o - 2);
    Glue(ch, Be16(Short(ch, 0)), ch[2..34], Len8(ch[35..sid]), Len16(ch[sid + 2..comp]), Len8(ch[comp + 1..o]),
         Len16(ch[o + 2..end]), ch[end..], ch[34..], ch[sid..], ch[comp..], ch[o..]);
  }

  lemma LandedParts(ch: bytes, sid: nat, comp: nat, o: nat, end: nat) returns (p: Parts, tail: bytes)
    requires Lands(ch, sid, comp, o, end)
    ensures p.Fits() && ch == p.Bytes() + tail
  {
    hide U16, Layout;
    LandedJoin(ch, sid, comp, o, end);
    p := Parts(Short(ch, 0), ch[2..34], ch[35..sid], ch[sid + 2..comp], ch[comp + 1..o], ch[o + 2..end]);
    tail := ch[end..];
  }

  /** Every body the cursor passes is a layout, perhaps with more behind it. */
  lemma CursorParts(ch: bytes, blunt: bool) returns (p: Parts, tail: bytes)
    requires ReadBody(ch, blunt).Ok?
    ensures p.Fits() && ch == p.Bytes() + tail
  {
    hide *;
    var sid, comp, o, end := CursorLands(ch, blunt);
    p, tail := LandedParts(ch, sid, comp, o, end);
  }

  /** A body is accepted exactly if it is version, random, session id, an even number of suite
      bytes, compression methods and an acceptable block, whatever follows; and the spec is read
      off those parts. */
  lemma BodyExactly(ch: bytes, s: Spec, blunt: bool)
    ensures ReadBody(ch, blunt) == Ok(s) <==>
            exists p: Parts, tail, es ::
              && p.Fits() && ch == p.Bytes() + tail && Block(p.ext, blunt) == Ok(es)
              && s == SpecOf(p, es)
  {
    hide ReadBody, Block;
    if ReadBody(ch, blunt) == Ok(s) {
      var p, tail := CursorParts(ch, blunt);
      PartsRead(p, tail, blunt);
      AssembledIs(p, Block(p.ext, blunt));
      assert p.Fits() && ch == p.Bytes() + tail && Block(p.ext, blunt) == Ok(Block(p.ext, blunt).value);
    }
    forall p: Parts, tail, es |
      p.Fits() && ch == p.Bytes() + tail && Block(p.ext, blunt) == Ok(es) && s == SpecOf(p, es)
      ensures ReadBody(ch, blunt) == Ok(s)
    {
      PartsRead(p, tail, blunt);
      AssembledIs(p, Block(p.ext, blunt));
    }
  }

  /** The spec of the parts: no version of its own where an extension lists versions. */
  function SpecOf(p: Parts, es: seq<Extension>): Spec {
    var v: u16 := if HasVersions(es) then 0 else p.v;
    Spec(UngreaseAll(ReadU16s(p.suites)), p.comp, UngreaseExts(es), v, v)
  }

  lemma AssembledIs(p: Parts, r: Result<seq<Extension>>)
    ensures Assembled(p.v, UngreaseAll(ReadU16s(p.suites)), p.comp, r) ==
            if r.Err? then Err(r.error) else Ok(SpecOf(p, r.value))
  {
    hide UngreaseAll, ReadU16s, UngreaseExts, HasVersions;
  }

  lemma HeadedHandshake(body: bytes, more: bytes)
    requires |body| < 0x100_0000
    ensures var hs := [1] + (Be24(|body|) + (body + more));
            && |hs| == 4 + |body| + |more| && hs[0] == 1 && U24(hs[1], hs[2], hs[3]) == |body|
            && hs[4..4 + |body|] == body
  {
    Be24Exact(|body|);
    var be := Be24(|body|);
    var hs := [1] + (be + (body + more));
    hide Be24, U24;
    assert hs == [1, be[0], be[1], be[2]] + (body + more);
  }

  lemma RecordIsRead(raw: bytes, body: bytes, more: bytes, after: bytes, blunt: bool)
    requires |body| < 0x100_0000 && 4 + |body| + |more| < 0x1_0000 && |raw| >= 3 && raw[0] == 22
    requires raw == raw[..3] + (Len16([1] + (Be24(|body|) + (body + more))) + after)
    ensures ReadRecord(raw, blunt) == ReadBody(body, blunt)
  {
    hide Be24, U24, ReadBody, Len16, U16;
    HeadedHandshake(body, more);
    HeadedRecord(raw, [1] + (Be24(|body|) + (body + more)), after);
  }

  lemma HeadedRecord(raw: bytes, hs: bytes, after: bytes)
    requires |raw| >= 3 && |hs| < 0x1_0000 && raw == raw[..3] + (Len16(hs) + after)
    ensures |raw| >= 5 + |hs| && Short(raw, 3) == |hs| && raw[5..5 + |hs|] == hs
  {
    Be16Exact(|hs|);
    var be := Be16(|hs|);
    hide Be16, U16;
    var rest := [be[0], be[1]] + (hs + after);
    assert raw == raw[..3] + rest;
    assert raw[3] == rest[0] && raw[4] == rest[1] && raw[5..] == hs + after;
  }

  lemma HandshakeParts(hs: bytes, m: nat)
    requires |hs| >= 4 + m && hs[0] == 1 && m == U24(hs[1], hs[2], hs[3])
    ensures hs == [1] + (Be24(m) + (hs[4..4 + m] + hs[4 + m..])) && m < 0x100_0000
  {
    U24Inverse(hs[1], hs[2], hs[3]);
    U24Fits(hs[1], hs[2], hs[3]);
    hide Be24, U24;
    assert hs == [1] + ([hs[1], hs[2], hs[3]] + (hs[4..4 + m] + hs[4 + m..]));
  }

  lemma U24Fits(a: byte, b: byte, c: byte)
    ensures U24(a, b, c) < 0x100_0000
  {
  }

  lemma ReadRecordParts(raw: bytes, blunt: bool) returns (body: bytes, more: bytes, after: bytes)
    requires ReadRecord(raw, blunt).Ok?
    ensures |body| < 0x100_0000 && 4 + |body| + |more| < 0x1_0000 && |raw| >= 3 && raw[0] == 22
    ensures raw == raw[..3] + (Len16([1] + (Be24(|body|) + (body + more))) + after)
    ensures ReadRecord(raw, blunt) == ReadBody(body, blunt)
  {
    hide ReadBody, Be24, U24, U16, Len16;
    var n := Short(raw, 3);
    var hs := raw[5..5 + n];
    after := raw[5 + n..];
    Slice16(raw, 3, n);
    assert raw == raw[..3] + raw[3..];
    var m := U24(hs[1], hs[2], hs[3]);
    body, more := hs[4..4 + m], hs[4 + m..];
    HandshakeParts(hs, m);
  }

  /** A record is accepted exactly if it has type 22, any version, a length, and in it a handshake
      of type 1 with a length and an acceptable body; what follows either is ignored. */
  lemma RecordExactly(raw: bytes, s: Spec, blunt: bool)
    ensures ReadRecord(raw, blunt) == Ok(s) <==>
            exists body, more, after ::
              && |raw| >= 3 && raw[0] == 22 && |body| < 0x100_0000 && 4 + |body| + |more| < 0x1_0000
              && raw == raw[..3] + (Len16([1] + (Be24(|body|) + (body + more))) + after)
              && ReadBody(body, blunt) == Ok(s)
  {
    hide ReadRecord, ReadBody, Be24, Len16;
    if ReadRecord(raw, blunt) == Ok(s) { var body, more, after := ReadRecordParts(raw, blunt); }
    forall body, more, after |
      && |raw| >= 3 && raw[0] == 22 && |body| < 0x100_0000 && 4 + |body| + |more| < 0x1_0000
      && raw == raw[..3] + (Len16([1] + (Be24(|body|) + (body + more))) + after)
      && ReadBody(body, blunt) == Ok(s)
      ensures ReadRecord(raw, blunt) == Ok(s)
    {
      RecordIsRead(raw, body, more, after, blunt);
    }
  }
}
