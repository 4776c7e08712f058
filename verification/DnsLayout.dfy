/** What `parse_dns_answers` accepts, for every message: exactly the byte strings laid out as a
    response, wherever their names point. */
module DnsLayout {
  import opened Prelude
  import opened Bytes
  import opened Dns

  /** The fields of a resource record after its owner name. */
  datatype Fields = Fields(rtype: nat, rclass: nat, ttl: nat, rdata: bytes)

  predicate Fits(f: Fields) {
    f.rtype < 0x1_0000 && f.rclass < 0x1_0000 && f.ttl < 0x1_0000_0000 && |f.rdata| < 0x1_0000
  }

  /** Some name within the caps stands at `pos`. */
  ghost predicate Named(msg: bytes, pos: nat) {
    exists name :: HasName(msg, pos, name)
  }

  /** `n` questions from `pos` to `end`: a name, then four bytes of type and class. */
  ghost predicate QuestionsAt(msg: bytes, pos: nat, n: nat, end: nat)
    decreases n
  {
    if n == 0 then end == pos
    else Named(msg, pos) && NameEnd(msg, pos) + 4 <= |msg| && QuestionsAt(msg, NameEnd(msg, pos) + 4, n - 1, end)
  }

  ghost predicate RecordAt(msg: bytes, pos: nat, f: Fields) {
    Named(msg, pos) && Fits(f) && At(msg, NameEnd(msg, pos), Fixed(f.rtype, f.rclass, f.ttl, f.rdata))
  }

  /** The records `fs` from `pos` on, one after the other; anything may follow. */
  ghost predicate RecordsAt(msg: bytes, pos: nat, fs: seq<Fields>)
    decreases |fs|
  {
    fs != [] ==>
      RecordAt(msg, pos, fs[0]) && RecordsAt(msg, NameEnd(msg, pos) + 10 + |fs[0].rdata|, fs[1..])
  }

  /** A response with this identifier, first name and answer records. Flags, the counts of the
      other sections, question types and whatever follows the answers are free. */
  ghost predicate IsResponse(msg: bytes, id: nat, name: bytes, n: nat, end: nat, fs: seq<Fields>) {
    && id < 0x1_0000 && 0 < n < 0x1_0000 && |fs| < 0x1_0000 && |msg| >= 12
    && At(msg, 0, Be16(id)) && At(msg, 4, Be16(n)) && At(msg, 6, Be16(|fs|))
    && HasName(msg, 12, name) && QuestionsAt(msg, 12, n, end) && RecordsAt(msg, end, fs)
  }

  /** The A and AAAA records among them, in order. */
  function AddressesOf(fs: seq<Fields>): seq<(Ip, nat)> {
    if fs == [] then [] else Address(fs[0].rtype, fs[0].ttl, fs[0].rdata) + AddressesOf(fs[1..])
  }

  // ---------------------------------------------------------------------------
  // Which records give addresses
  // ---------------------------------------------------------------------------

  /** An A record with 4 bytes of data, or an AAAA record with 16 (section 3.2.2 of RFC 1035,
      section 2.1 of RFC 3596). */
  predicate Carries(f: Fields) {
    (f.rtype == 1 && |f.rdata| == 4) || (f.rtype == 28 && |f.rdata| == 16)
  }

  ghost predicate Increasing(places: seq<nat>) {
    forall j, k | 0 <= j < k < |places| :: places[j] < places[k]
  }

  ghost predicate AllCarry(fs: seq<Fields>, places: seq<nat>) {
    forall i | i in places :: i < |fs| && Carries(fs[i])
  }

  ghost predicate NoneMissing(fs: seq<Fields>, places: seq<nat>) {
    forall i: nat | i < |fs| && Carries(fs[i]) :: i in places
  }

  /** `places` lists the address records in order and leaves none out. */
  ghost predicate Selects(fs: seq<Fields>, places: seq<nat>) {
    Increasing(places) && AllCarry(fs, places) && NoneMissing(fs, places)
  }

  /** The k-th answer is the data and the time to live of the k-th address record. */
  ghost predicate AnswersAre(fs: seq<Fields>, answers: seq<(Ip, nat)>, places: seq<nat>) {
    && Selects(fs, places) && |answers| == |places|
    && forall k | 0 <= k < |places| :: places[k] < |fs| && answers[k] == AnswerOf(fs[places[k]])
  }

  function AnswerOf(f: Fields): (Ip, nat) {
    (if f.rtype == 1 then V4(f.rdata) else V6(f.rdata), f.ttl)
  }

  lemma {:induction false} AddressesSnoc(fs: seq<Fields>, f: Fields)
    ensures AddressesOf(fs + [f]) == AddressesOf(fs) + Address(f.rtype, f.ttl, f.rdata)
  {
    hide Address;
    if fs == [] {
      assert [] + [f] == [f] && [f][1..] == [];
    } else {
      AddressesSnoc(fs[1..], f);
      assert (fs + [f])[1..] == fs[1..] + [f];
    }
  }

  lemma IncreasingSnoc(fs: seq<Fields>, places: seq<nat>)
    requires Increasing(places) && AllCarry(fs, places)
    ensures Increasing(places + [|fs|])
  {
    hide Carries;
    assert forall k | 0 <= k < |places| :: places[k] in places;
  }

  lemma AllCarrySnoc(fs: seq<Fields>, f: Fields, places: seq<nat>)
    requires AllCarry(fs, places)
    ensures AllCarry(fs + [f], places) && (Carries(f) ==> AllCarry(fs + [f], places + [|fs|]))
  {
    hide Carries;
    assert (fs + [f])[|fs|] == f && forall i | i in places + [|fs|] :: i in places || i == |fs|;
  }

  lemma NoneMissingSnoc(fs: seq<Fields>, f: Fields, places: seq<nat>)
    requires NoneMissing(fs, places)
    ensures NoneMissing(fs + [f], places + [|fs|]) && (!Carries(f) ==> NoneMissing(fs + [f], places))
  {
    hide Carries;
    assert (places + [|fs|])[|places|] == |fs| && forall i | i in places :: i in places + [|fs|];
  }

  lemma SelectsSnoc(fs: seq<Fields>, f: Fields, places: seq<nat>)
    requires Selects(fs, places)
    ensures Selects(fs + [f], if Carries(f) then places + [|fs|] else places)
  {
    hide Carries, Increasing, AllCarry, NoneMissing;
    IncreasingSnoc(fs, places);
    AllCarrySnoc(fs, f, places);
    NoneMissingSnoc(fs, f, places);
  }

  lemma AddressIs(f: Fields)
    ensures Address(f.rtype, f.ttl, f.rdata) == if Carries(f) then [AnswerOf(f)] else []
  {
  }

  lemma AnswersSnoc(fs: seq<Fields>, f: Fields, answers: seq<(Ip, nat)>, places: seq<nat>)
    requires AnswersAre(fs, answers, places)
    ensures AnswersAre(fs + [f], answers + Address(f.rtype, f.ttl, f.rdata),
                       if Carries(f) then places + [|fs|] else places)
  {
    hide Carries, Selects, AnswerOf, Address;
    SelectsSnoc(fs, f, places);
    AddressIs(f);
    assert (fs + [f])[|fs|] == f && forall i: nat | i < |fs| :: (fs + [f])[i] == fs[i];
  }

  lemma {:induction false} AddressesSelected(fs: seq<Fields>) returns (places: seq<nat>)
    ensures AnswersAre(fs, AddressesOf(fs), places)
  {
    hide Carries, Address;
    places := [];
    if fs != [] {
      var (init, last) := (fs[..|fs| - 1], fs[|fs| - 1]);
      var rest := AddressesSelected(init);
      assert fs == init + [last];
      AddressesSnoc(init, last);
      AnswersSnoc(init, last, AddressesOf(init), rest);
      places := if Carries(last) then rest + [|init|] else rest;
    }
  }

  /** Two increasing lists of the same numbers are the same list. */
  lemma SelectionUnique(fs: seq<Fields>, a: seq<nat>, b: seq<nat>)
    requires Selects(fs, a) && Selects(fs, b)
    ensures a == b
  {
    hide Selects;
    SelectionCovers(fs, a, b, |a|);
    SelectionCovers(fs, b, a, |b|);
  }

  /** The k-th place of one list is not before the k-th of the other, if those before agree. */
  lemma NotBefore(a: seq<nat>, b: seq<nat>, k: nat)
    requires Increasing(a) && Increasing(b)
    requires k < |a| && k <= |b| && a[k] in b && forall i | 0 <= i < k :: a[i] == b[i]
    ensures k < |b| && b[k] <= a[k]
  {
    var j :| 0 <= j < |b| && b[j] == a[k];
    assert j >= k;
  }

  lemma {:induction false} SelectionCovers(fs: seq<Fields>, a: seq<nat>, b: seq<nat>, n: nat)
    requires Selects(fs, a) && Selects(fs, b) && n <= |a|
    ensures n <= |b| && forall k | 0 <= k < n :: a[k] == b[k]
  {
    hide Selects;
    if n > 0 {
      SelectionCovers(fs, a, b, n - 1);
      PlacesShared(fs, a, b, n - 1);
      NotBefore(a, b, n - 1);
      PlacesShared(fs, b, a, n - 1);
      NotBefore(b, a, n - 1);
    }
  }

  lemma PlacesShared(fs: seq<Fields>, a: seq<nat>, b: seq<nat>, k: nat)
    requires Selects(fs, a) && Selects(fs, b) && k < |a|
    ensures a[k] in b && Increasing(a) && Increasing(b)
  {
    hide Carries;
    assert a[k] in a;
  }

  /** The parser's answers are those of the address records, and nothing else is. */
  lemma AnswersExactly(fs: seq<Fields>, answers: seq<(Ip, nat)>)
    ensures answers == AddressesOf(fs) <==> exists places :: AnswersAre(fs, answers, places)
  {
    var own := AddressesSelected(fs);
    forall places | AnswersAre(fs, answers, places) ensures answers == AddressesOf(fs) {
      SelectionUnique(fs, places, own);
      assert forall k | 0 <= k < |own| :: answers[k] == AddressesOf(fs)[k];
    }
  }

  lemma NamedExactly(msg: bytes, pos: nat)
    ensures Named(msg, pos) <==> NameOf(msg, pos).Some?
    ensures NameOf(msg, pos).Some? ==> NameOf(msg, pos).value.1 == NameEnd(msg, pos)
  {
    hide Walk, HasName, NameEnd;
    if Named(msg, pos) {
      var name :| HasName(msg, pos, name);
      ReadsExactlyNames(msg, pos, name);
    } else {
      ReadsExactlyNames(msg, pos, []);
    }
  }

  lemma {:induction false} SkipsExactly(msg: bytes, pos: nat, n: nat, end: nat)
    ensures SkipQuestions(msg, pos, n) == Some(end) <==> QuestionsAt(msg, pos, n, end)
    decreases n
  {
    hide NameOf, Named, NameEnd;
    if n > 0 {
      NamedExactly(msg, pos);
      SkipsExactly(msg, NameEnd(msg, pos) + 4, n - 1, end);
    }
  }

  // ---------------------------------------------------------------------------
  // Fixed parts
  // ---------------------------------------------------------------------------

  lemma StandsBe16(msg: bytes, pos: nat)
    requires pos + 2 <= |msg|
    ensures At(msg, pos, Be16(Short(msg, pos))) && Short(msg, pos) < 0x1_0000
  {
    hide U16, Be16;
    U16Inverse(msg[pos], msg[pos + 1]);
    assert msg[pos..pos + 2] == [msg[pos], msg[pos + 1]];
  }

  lemma StandsBe32(msg: bytes, pos: nat)
    requires pos + 4 <= |msg|
    ensures var n := U32(msg[pos], msg[pos + 1], msg[pos + 2], msg[pos + 3]);
            At(msg, pos, Be32(n)) && n < 0x1_0000_0000 && |Be32(n)| == 4
  {
    U32Inverse(msg[pos], msg[pos + 1], msg[pos + 2], msg[pos + 3]);
    Bound32(msg[pos], msg[pos + 1], msg[pos + 2], msg[pos + 3]);
    hide U32, Be32;
    assert msg[pos..pos + 4] == [msg[pos], msg[pos + 1], msg[pos + 2], msg[pos + 3]];
  }

  lemma Bound32(a: byte, b: byte, c: byte, d: byte)
    ensures U32(a, b, c, d) < 0x1_0000_0000
  {
  }

  /** Whatever bytes stand at `p`, they are the fields read there. */
  function FieldsAt(msg: bytes, p: nat): Fields
    requires p + 10 <= |msg| && p + 10 + Short(msg, p + 8) <= |msg|
  {
    Fields(Short(msg, p), Short(msg, p + 2), U32(msg[p + 4], msg[p + 5], msg[p + 6], msg[p + 7]),
           msg[p + 10..p + 10 + Short(msg, p + 8)])
  }

  lemma FieldsStand(msg: bytes, p: nat)
    requires p + 10 <= |msg| && p + 10 + Short(msg, p + 8) <= |msg|
    ensures var f := FieldsAt(msg, p);
            Fits(f) && |f.rdata| == Short(msg, p + 8) && At(msg, p, Fixed(f.rtype, f.rclass, f.ttl, f.rdata))
  {
    hide U16, U32, Be32;
    var f := FieldsAt(msg, p);
    StandsBe16(msg, p);
    StandsBe16(msg, p + 2);
    StandsBe32(msg, p + 4);
    StandsBe16(msg, p + 8);
    var (t, c, l, n) := (Be16(f.rtype), Be16(f.rclass), Be32(f.ttl), Be16(|f.rdata|));
    assert At(msg, p + 10, f.rdata);
    AtSplit(msg, p + 8, n, f.rdata);
    AtSplit(msg, p + 4, l, n + f.rdata);
    AtSplit(msg, p + 2, c, l + (n + f.rdata));
    AtSplit(msg, p, t, c + (l + (n + f.rdata)));
  }

  // ---------------------------------------------------------------------------
  // Records
  // ---------------------------------------------------------------------------

  lemma RecordIsRead(msg: bytes, pos: nat, f: Fields)
    requires RecordAt(msg, pos, f)
    ensures Record(msg, pos) == Some((Address(f.rtype, f.ttl, f.rdata), NameEnd(msg, pos) + 10 + |f.rdata|))
  {
    hide NameOf, Named, U16, U32, Fixed, At, NameEnd, Address;
    NamedExactly(msg, pos);
    FixedPart(msg, NameEnd(msg, pos), f.rtype, f.rclass, f.ttl, f.rdata);
  }

  lemma ReadIsRecord(msg: bytes, pos: nat) returns (f: Fields)
    requires Record(msg, pos).Some?
    ensures RecordAt(msg, pos, f)
  {
    hide NameOf, Named, U16, U32, Fixed, At, NameEnd, Address, Fits;
    NamedExactly(msg, pos);
    var p := NameEnd(msg, pos);
    f := FieldsAt(msg, p);
    FieldsStand(msg, p);
  }

  lemma {:induction false} RecordsAreRead(msg: bytes, pos: nat, fs: seq<Fields>)
    requires RecordsAt(msg, pos, fs)
    ensures Answers(msg, pos, |fs|) == Some(AddressesOf(fs))
    decreases |fs|
  {
    hide Record, RecordAt, NameEnd, Address;
    if fs != [] {
      RecordIsRead(msg, pos, fs[0]);
      RecordsAreRead(msg, NameEnd(msg, pos) + 10 + |fs[0].rdata|, fs[1..]);
    }
  }

  lemma {:induction false} ReadAreRecords(msg: bytes, pos: nat, n: nat) returns (fs: seq<Fields>)
    requires Answers(msg, pos, n).Some?
    ensures |fs| == n && RecordsAt(msg, pos, fs)
    decreases n
  {
    hide Record, RecordAt, NameEnd, Address;
    fs := [];
    if n > 0 {
      var f := ReadIsRecord(msg, pos);
      RecordIsRead(msg, pos, f);
      var rest := ReadAreRecords(msg, NameEnd(msg, pos) + 10 + |f.rdata|, n - 1);
      fs := [f] + rest;
      assert fs[1..] == rest;
    }
  }

  // ---------------------------------------------------------------------------
  // Messages
  // ---------------------------------------------------------------------------

  /** The parser's first question is one of the questions. */
  lemma ParsedSections(msg: bytes, r: Response)
    ensures Parsed(msg) == Some(r) <==>
            && |msg| >= 12 && Short(msg, 4) > 0 && r.id == Short(msg, 0)
            && NameOf(msg, 12).Some? && r.qname == NameOf(msg, 12).value.0
            && SkipQuestions(msg, 12, Short(msg, 4)).Some?
            && Answers(msg, SkipQuestions(msg, 12, Short(msg, 4)).value, Short(msg, 6)) == Some(r.answers)
  {
    hide NameOf, Answers, U16;
  }

  lemma NameIsRead(msg: bytes, name: bytes)
    ensures HasName(msg, 12, name) <==> NameOf(msg, 12).Some? && NameOf(msg, 12).value.0 == name
  {
    hide HasName, Walk, NameEnd;
    ReadsExactlyNames(msg, 12, name);
  }

  lemma LayoutParses(msg: bytes, r: Response, n: nat, end: nat, fs: seq<Fields>)
    requires IsResponse(msg, r.id, r.qname, n, end, fs) && r.answers == AddressesOf(fs)
    ensures Parsed(msg) == Some(r)
  {
    hide Parsed, NameOf, SkipQuestions, Answers, HasName, QuestionsAt, RecordsAt, At, U16, Be16;
    ParsedSections(msg, r);
    Be16At(msg, 0, r.id);
    Be16At(msg, 4, n);
    Be16At(msg, 6, |fs|);
    NameIsRead(msg, r.qname);
    SkipsExactly(msg, 12, n, end);
    RecordsAreRead(msg, end, fs);
  }

  lemma ParseIsLayout(msg: bytes, r: Response) returns (n: nat, end: nat, fs: seq<Fields>)
    requires Parsed(msg) == Some(r)
    ensures IsResponse(msg, r.id, r.qname, n, end, fs) && r.answers == AddressesOf(fs)
  {
    hide Parsed, NameOf, SkipQuestions, Answers, HasName, QuestionsAt, RecordsAt, At, U16, Be16;
    ParsedSections(msg, r);
    StandsBe16(msg, 0);
    StandsBe16(msg, 4);
    StandsBe16(msg, 6);
    n := Short(msg, 4);
    end := SkipQuestions(msg, 12, n).value;
    SkipsExactly(msg, 12, n, end);
    NameIsRead(msg, r.qname);
    fs := ReadAreRecords(msg, end, Short(msg, 6));
    RecordsAreRead(msg, end, fs);
  }

  /** For every byte string: the parser returns a response exactly if the message is laid out
      as one, and then it returns its identifier, the text of its first name and, in order, the
      data and time to live of all its A and AAAA records, whatever compression, padding or
      further sections the message uses. */
  lemma ParsesExactlyResponses(msg: bytes, r: Response)
    ensures Parsed(msg) == Some(r) <==>
            exists n, end, fs, places ::
              IsResponse(msg, r.id, r.qname, n, end, fs) && AnswersAre(fs, r.answers, places)
  {
    hide Parsed, IsResponse, AddressesOf, AnswersAre;
    if Parsed(msg) == Some(r) {
      var n, end, fs := ParseIsLayout(msg, r);
      AnswersExactly(fs, r.answers);
    }
    forall n, end, fs, places | IsResponse(msg, r.id, r.qname, n, end, fs) && AnswersAre(fs, r.answers, places)
      ensures Parsed(msg) == Some(r)
    {
      AnswersExactly(fs, r.answers);
      LayoutParses(msg, r, n, end, fs);
    }
  }

  function FieldsOf(answers: seq<Answer>): seq<Fields> {
    if answers == [] then []
    else [Fields(answers[0].rtype, answers[0].rclass, answers[0].ttl, answers[0].rdata)] + FieldsOf(answers[1..])
  }

  lemma {:induction false} SameAddresses(answers: seq<Answer>)
    ensures Addresses(answers) == AddressesOf(FieldsOf(answers))
  {
    hide Address;
    if answers != [] { SameAddresses(answers[1..]); }
  }

  /** What comes back of an encoded message: the data of its address records, in order. */
  lemma EncodedAnswersComeBack(id: nat, flags: nat, qs: seq<Question>, answers: seq<Answer>)
    requires id < 0x1_0000 && 0 < |qs| < 0x1_0000 && |answers| < 0x1_0000
    requires forall i | 0 <= i < |qs| :: GoodQuestion(qs[i])
    requires forall i | 0 <= i < |answers| :: GoodAnswer(answers[i])
    ensures var r := Parsed(Encode(id, flags, qs, answers));
            r.Some? && exists places :: AnswersAre(FieldsOf(answers), r.value.answers, places)
  {
    hide Parsed, Encode, AddressesOf, AnswersAre, GoodQuestion, GoodAnswer;
    ParseInvertsEncode(id, flags, qs, answers);
    SameAddresses(answers);
    AnswersExactly(FieldsOf(answers), Addresses(answers));
  }
}
