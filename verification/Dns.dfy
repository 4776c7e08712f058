/** The DNS reader of `domain_route.rs`: names with compression pointers, and answers. */
module Dns {
  import opened Prelude
  import opened Bytes
  import opened Text

  const MAX_JUMPS: nat := 32
  const MAX_LABELS: nat := 128

  datatype Ip = V4(octets: bytes) | V6(octets: bytes)

  // ---------------------------------------------------------------------------
  // Names
  // ---------------------------------------------------------------------------

  predicate IsPointer(b: byte) { b >= 0xC0 }

  function Target(b: byte, c: byte): nat
    requires IsPointer(b)
  {
    (b - 0xC0) * 0x100 + c
  }

  /** What `read_name` keeps of a raw label. */
  function LabelText(raw: bytes): bytes { Lower(Lossy(raw)) }

  function Texts(raws: seq<bytes>): (r: seq<bytes>)
    ensures |r| == |raws| && forall i | 0 <= i < |raws| :: r[i] == Lower(Lossy(raws[i]))
  {
    seq(|raws|, i requires 0 <= i < |raws| => LabelText(raws[i]))
  }

  /** The name at `pos` in the sense of section 4.1.4 of RFC 1035, without caps: its raw
      labels, and the number of pointers followed. Lengths 0x40 to 0xBF are plain labels. */
  predicate NameAt(msg: bytes, pos: nat, raws: seq<bytes>, jumps: nat)
    decreases jumps, |raws|
  {
    && pos < |msg|
    && if msg[pos] >= 192 then
         && jumps > 0 && pos + 1 < |msg|
         && var target := 256 * (msg[pos] as int - 192) + msg[pos + 1] as int;
            target < |msg| && NameAt(msg, target, raws, jumps - 1)
       else if msg[pos] == 0 then
         raws == [] && jumps == 0
       else
         var e := pos + 1 + msg[pos];
         raws != [] && e <= |msg| && raws[0] == msg[pos + 1..e] && NameAt(msg, e, raws[1..], jumps)
  }

  /** Where the record stream goes on: after the first pointer, or after the final zero. */
  function NameEnd(msg: bytes, pos: nat): nat
    decreases |msg| - pos
  {
    if pos >= |msg| then pos
    else if IsPointer(msg[pos]) then pos + 2
    else if msg[pos] == 0 then pos + 1
    else NameEnd(msg, pos + 1 + msg[pos])
  }

  /** The loop of `read_name` from a state with these labels and jumps. */
  function Walk(msg: bytes, pos: nat, labels: seq<bytes>, jumps: nat): Option<seq<bytes>>
    decreases MAX_JUMPS + 1 - jumps, |msg| - pos
  {
    if pos >= |msg| then None
    else if IsPointer(msg[pos]) then
      if pos + 1 >= |msg| || jumps + 1 > MAX_JUMPS || Target(msg[pos], msg[pos + 1]) >= |msg| then None
      else Walk(msg, Target(msg[pos], msg[pos + 1]), labels, jumps + 1)
    else if msg[pos] == 0 then Some(labels)
    else
      var e := pos + 1 + msg[pos];
      if e > |msg| || |labels| + 1 > MAX_LABELS then None
      else Walk(msg, e, labels + [LabelText(msg[pos + 1..e])], jumps)
  }

  function NameOf(msg: bytes, start: nat): Option<(bytes, nat)> {
    match Walk(msg, start, [], 0)
    case None => None
    case Some(labels) => Some((Join(labels), NameEnd(msg, start)))
  }

  /** `read_name`: terminates on every byte string, and stays inside it. */
  method ReadName(msg: bytes, start: nat) returns (r: Option<(bytes, nat)>)
    ensures r == NameOf(msg, start)
    ensures r.Some? ==> r.value.1 <= |msg|
  {
    var labels: seq<bytes> := [];
    var pos: nat := start;
    var jumps: nat := 0;
    var afterPtr: Option<nat> := None;
    while true
      invariant jumps <= MAX_JUMPS && |labels| <= MAX_LABELS
      invariant Walk(msg, pos, labels, jumps) == Walk(msg, start, [], 0)
      invariant NameEnd(msg, start) == if afterPtr.Some? then afterPtr.value else NameEnd(msg, pos)
      invariant afterPtr.Some? ==> afterPtr.value <= |msg|
      decreases MAX_JUMPS - jumps, |msg| - pos
    {
      if pos >= |msg| { return None; }
      var len := msg[pos];
      if IsPointer(len) {
        if pos + 1 >= |msg| { return None; }
        var ptr := Target(len, msg[pos + 1]);
        if afterPtr.None? { afterPtr := Some(pos + 2); }
        jumps := jumps + 1;
        if jumps > MAX_JUMPS || ptr >= |msg| { return None; }
        pos := ptr;
        continue;
      }
      if len == 0 {
        var end := if afterPtr.Some? then afterPtr.value else pos + 1;
        return Some((Join(labels), end));
      }
      var e := pos + 1 + len;
      if e > |msg| { return None; }
      labels := labels + [LabelText(msg[pos + 1..e])];
      pos := e;
      if |labels| > MAX_LABELS { return None; }
    }
  }

  lemma TextsCons(labels: seq<bytes>, raws: seq<bytes>)
    requires raws != []
    ensures (labels + [LabelText(raws[0])]) + Texts(raws[1..]) == labels + Texts(raws)
  {
    hide LabelText;
  }

  lemma {:induction false} WalkFollows(msg: bytes, pos: nat, labels: seq<bytes>, jumps: nat,
                                       raws: seq<bytes>, more: nat)
    requires NameAt(msg, pos, raws, more) && jumps <= MAX_JUMPS && |labels| <= MAX_LABELS
    ensures Walk(msg, pos, labels, jumps) ==
            if jumps + more <= MAX_JUMPS && |labels| + |raws| <= MAX_LABELS then Some(labels + Texts(raws)) else None
    decreases more, |raws|
  {
    hide LabelText;
    if IsPointer(msg[pos]) {
      hide Texts;
      if jumps + 1 <= MAX_JUMPS { WalkFollows(msg, Target(msg[pos], msg[pos + 1]), labels, jumps + 1, raws, more - 1); }
    } else if msg[pos] == 0 {
      assert labels + Texts([]) == labels;
    } else {
      hide Texts;
      var next := labels + [LabelText(raws[0])];
      var e := pos + 1 + msg[pos];
      assert NameAt(msg, e, raws[1..], more);
      assert |next| <= MAX_LABELS ==> Walk(msg, pos, labels, jumps) == Walk(msg, e, next, jumps);
      if |next| <= MAX_LABELS {
        hide Walk, NameAt;
        WalkFollows(msg, e, next, jumps, raws[1..], more);
        TextsCons(labels, raws);
      }
    }
  }

  lemma {:induction false} WalkMeansName(msg: bytes, pos: nat, labels: seq<bytes>, jumps: nat)
    returns (raws: seq<bytes>, more: nat)
    requires Walk(msg, pos, labels, jumps).Some?
    ensures NameAt(msg, pos, raws, more)
    decreases MAX_JUMPS + 1 - jumps, |msg| - pos
  {
    if IsPointer(msg[pos]) {
      raws, more := WalkMeansName(msg, Target(msg[pos], msg[pos + 1]), labels, jumps + 1);
      more := more + 1;
    } else if msg[pos] == 0 {
      raws, more := [], 0;
    } else {
      var e := pos + 1 + msg[pos];
      raws, more := WalkMeansName(msg, e, labels + [LabelText(msg[pos + 1..e])], jumps);
      raws := [msg[pos + 1..e]] + raws;
    }
  }

  /** There is a name within the caps, with this text. */
  ghost predicate HasName(msg: bytes, start: nat, name: bytes) {
    exists raws, jumps: nat ::
      NameAt(msg, start, raws, jumps) && jumps <= 32 && |raws| <= 128 && name == Join(Texts(raws))
  }

  /** The reader finds a name exactly where there is one within the caps, whatever loops and
      truncations the message holds. */
  lemma ReadsExactlyNames(msg: bytes, start: nat, name: bytes)
    ensures NameOf(msg, start) == Some((name, NameEnd(msg, start))) <==> HasName(msg, start, name)
    ensures NameOf(msg, start).Some? ==> HasName(msg, start, NameOf(msg, start).value.0)
  {
    hide Walk, NameAt, Join, NameEnd;
    if NameOf(msg, start).Some? {
      var raws, jumps := WalkMeansName(msg, start, [], 0);
      WalkFollows(msg, start, [], 0, raws, jumps);
      assert [] + Texts(raws) == Texts(raws);
      assert NameOf(msg, start).value.0 == Join(Texts(raws));
    }
    if HasName(msg, start, name) {
      var raws, jumps: nat :| NameAt(msg, start, raws, jumps) && jumps <= MAX_JUMPS && |raws| <= MAX_LABELS &&
                              name == Join(Texts(raws));
      WalkFollows(msg, start, [], 0, raws, jumps);
      assert [] + Texts(raws) == Texts(raws);
    }
  }

  /** A name is read one way only. */
  lemma {:induction false} NameUnique(msg: bytes, pos: nat, a: seq<bytes>, j: nat, b: seq<bytes>, k: nat)
    requires NameAt(msg, pos, a, j) && NameAt(msg, pos, b, k)
    ensures a == b && j == k
    decreases j, |a|
  {
    if IsPointer(msg[pos]) {
      NameUnique(msg, Target(msg[pos], msg[pos + 1]), a, j - 1, b, k - 1);
    } else if msg[pos] != 0 {
      NameUnique(msg, pos + 1 + msg[pos], a[1..], j, b[1..], k);
      assert a == [a[0]] + a[1..] && b == [b[0]] + b[1..];
    }
  }

  // ---------------------------------------------------------------------------
  // Responses
  // ---------------------------------------------------------------------------

  datatype Response = Response(id: nat, qname: bytes, answers: seq<(Ip, nat)>)

  function Short(msg: bytes, i: nat): nat
    requires i + 2 <= |msg|
  {
    U16(msg[i], msg[i + 1])
  }

  /** After `n` more questions. */
  function SkipQuestions(msg: bytes, pos: nat, n: nat): Option<nat>
    decreases n
  {
    if n == 0 then Some(pos)
    else match NameOf(msg, pos)
         case None => None
         case Some((_, p)) => if p + 4 > |msg| then None else SkipQuestions(msg, p + 4, n - 1)
  }

  /** The address in one record: A with 4 bytes, AAAA with 16; anything else is passed over. */
  function Address(rtype: nat, ttl: nat, rdata: bytes): seq<(Ip, nat)> {
    if rtype == 1 && |rdata| == 4 then [(V4(rdata), ttl)]
    else if rtype == 28 && |rdata| == 16 then [(V6(rdata), ttl)]
    else []
  }

  /** One resource record: the address in it, and where the next one starts. */
  function Record(msg: bytes, pos: nat): Option<(seq<(Ip, nat)>, nat)> {
    match NameOf(msg, pos)
    case None => None
    case Some((_, p)) =>
      if p + 10 > |msg| then None else
      var rdend := p + 10 + Short(msg, p + 8);
      if rdend > |msg| then None
      else Some((Address(Short(msg, p), U32(msg[p + 4], msg[p + 5], msg[p + 6], msg[p + 7]),
                         msg[p + 10..rdend]), rdend))
  }

  function Answers(msg: bytes, pos: nat, n: nat): Option<seq<(Ip, nat)>>
    decreases n
  {
    if n == 0 then Some([])
    else match Record(msg, pos)
         case None => None
         case Some((found, next)) => After(found, Answers(msg, next, n - 1))
  }

  function After(found: seq<(Ip, nat)>, rest: Option<seq<(Ip, nat)>>): Option<seq<(Ip, nat)>> {
    match rest case None => None case Some(more) => Some(found + more)
  }

  lemma AfterNothing(a: seq<(Ip, nat)>, rest: Option<seq<(Ip, nat)>>)
    ensures After([], rest) == rest && After(a, Some([])) == Some(a)
  {
    if rest.Some? { assert [] + rest.value == rest.value; }
    assert a + [] == a;
  }

  lemma AfterTwice(a: seq<(Ip, nat)>, b: seq<(Ip, nat)>, rest: Option<seq<(Ip, nat)>>)
    ensures After(a, After(b, rest)) == After(a + b, rest)
  {
    if rest.Some? { assert a + (b + rest.value) == (a + b) + rest.value; }
  }

  function Parsed(msg: bytes): Option<Response> {
    if |msg| < 12 || Short(msg, 4) == 0 then None else
    match NameOf(msg, 12)
    case None => None
    case Some((qname, p)) =>
      if p + 4 > |msg| then None else
      match SkipQuestions(msg, p + 4, Short(msg, 4) - 1)
      case None => None
      case Some(pos) =>
        match Answers(msg, pos, Short(msg, 6))
        case None => None
        case Some(answers) => Some(Response(Short(msg, 0), qname, answers))
  }

  /** `parse_dns_answers` */
  method ParseDnsAnswers(msg: bytes) returns (r: Option<Response>)
    ensures r == Parsed(msg)
  {
    hide NameOf;
    if |msg| < 12 { return None; }
    var id := U16(msg[0], msg[1]);
    var qdcount := U16(msg[4], msg[5]);
    var ancount := U16(msg[6], msg[7]);
    if qdcount == 0 { return None; }
    var first := ReadName(msg, 12);
    if first.None? { return None; }
    var (qname, np) := first.value;
    var pos: nat := np + 4;
    if pos > |msg| { return None; }
    ghost var p0 := pos;
    var k := 1;
    while k < qdcount
      invariant 1 <= k <= qdcount && pos <= |msg|
      invariant SkipQuestions(msg, p0, qdcount - 1) == SkipQuestions(msg, pos, qdcount - k)
    {
      var n := ReadName(msg, pos);
      if n.None? { return None; }
      pos := n.value.1 + 4;
      if pos > |msg| { return None; }
      k := k + 1;
    }
    assert SkipQuestions(msg, p0, qdcount - 1) == Some(pos);
    var out := ReadAnswers(msg, pos, ancount);
    if out.None? { return None; }
    return Some(Response(id, qname, out.value));
  }

  /** The answer loop of `parse_dns_answers`. */
  method ReadAnswers(msg: bytes, start: nat, ancount: nat) returns (r: Option<seq<(Ip, nat)>>)
    requires start <= |msg|
    ensures r == Answers(msg, start, ancount)
  {
    hide Record;
    var out: seq<(Ip, nat)> := [];
    var pos: nat := start;
    var k := 0;
    AfterNothing([], Answers(msg, start, ancount));
    while k < ancount
      invariant 0 <= k <= ancount && pos <= |msg|
      invariant Answers(msg, start, ancount) == After(out, Answers(msg, pos, ancount - k))
    {
      var one := ReadRecord(msg, pos);
      if one.None? { return None; }
      var (found, next) := one.value;
      AfterTwice(out, found, Answers(msg, next, ancount - k - 1));
      out := out + found;
      pos := next;
      k := k + 1;
    }
    AfterNothing(out, None);
    return Some(out);
  }

  /** One turn of that loop. */
  method ReadRecord(msg: bytes, start: nat) returns (r: Option<(seq<(Ip, nat)>, nat)>)
    ensures r == Record(msg, start)
    ensures r.Some? ==> r.value.1 <= |msg|
  {
    hide NameOf, U32;
    var n := ReadName(msg, start);
    if n.None? { return None; }
    var pos := n.value.1;
    if pos + 10 > |msg| { return None; }
    var rtype := U16(msg[pos], msg[pos + 1]);
    var ttl := U32(msg[pos + 4], msg[pos + 5], msg[pos + 6], msg[pos + 7]);
    var rdlen := U16(msg[pos + 8], msg[pos + 9]);
    pos := pos + 10;
    var rdend := pos + rdlen;
    if rdend > |msg| { return None; }
    if rtype == 1 && rdlen == 4 {
      return Some(([(V4(msg[pos..pos + 4]), ttl)], rdend));
    } else if rtype == 28 && rdlen == 16 {
      return Some(([(V6(msg[pos..pos + 16]), ttl)], rdend));
    }
    return Some(([], rdend));
  }

  // ---------------------------------------------------------------------------
  // A reference encoder
  // ---------------------------------------------------------------------------

  /** Labels as section 3.1 of RFC 1035 allows them. */
  predicate GoodLabels(labels: seq<bytes>) {
    |labels| <= MAX_LABELS && forall i | 0 <= i < |labels| :: 1 <= |labels[i]| <= 63
  }

  function EncodeName(labels: seq<bytes>): bytes
    requires forall i | 0 <= i < |labels| :: 1 <= |labels[i]| <= 63
  {
    if labels == [] then [0] else [|labels[0]|] + (labels[0] + EncodeName(labels[1..]))
  }

  datatype Question = Question(labels: seq<bytes>, qtype: nat, qclass: nat)

  /** The owner name of an answer: a pointer to the first question, or spelled out. */
  datatype Owner = Compressed | Spelled(labels: seq<bytes>)

  datatype Answer = Answer(owner: Owner, rtype: nat, rclass: nat, ttl: nat, rdata: bytes)

  predicate GoodQuestion(q: Question) { GoodLabels(q.labels) }

  predicate GoodAnswer(a: Answer) {
    (a.owner.Spelled? ==> GoodLabels(a.owner.labels))
    && a.rtype < 0x1_0000 && a.ttl < 0x1_0000_0000 && |a.rdata| < 0x1_0000
  }

  function EncodeQuestion(q: Question): bytes
    requires GoodQuestion(q)
  {
    EncodeName(q.labels) + (Be16(q.qtype) + Be16(q.qclass))
  }

  function EncodeQuestions(qs: seq<Question>): bytes
    requires forall i | 0 <= i < |qs| :: GoodQuestion(qs[i])
  {
    if qs == [] then [] else EncodeQuestion(qs[0]) + EncodeQuestions(qs[1..])
  }

  function EncodeOwner(o: Owner): bytes
    requires o.Spelled? ==> GoodLabels(o.labels)
  {
    if o.Compressed? then [0xC0, 12] else EncodeName(o.labels)
  }

  /** Type, class, time to live, length and data of a record. */
  function Fixed(rtype: nat, rclass: nat, ttl: nat, rdata: bytes): bytes {
    Be16(rtype) + (Be16(rclass) + (Be32(ttl) + (Be16(|rdata|) + rdata)))
  }

  function EncodeAnswer(a: Answer): bytes
    requires GoodAnswer(a)
  {
    EncodeOwner(a.owner) + Fixed(a.rtype, a.rclass, a.ttl, a.rdata)
  }

  function EncodeAnswers(answers: seq<Answer>): bytes
    requires forall i | 0 <= i < |answers| :: GoodAnswer(answers[i])
  {
    if answers == [] then [] else EncodeAnswer(answers[0]) + EncodeAnswers(answers[1..])
  }

  function Encode(id: nat, flags: nat, qs: seq<Question>, answers: seq<Answer>): bytes
    requires forall i | 0 <= i < |qs| :: GoodQuestion(qs[i])
    requires forall i | 0 <= i < |answers| :: GoodAnswer(answers[i])
  {
    Be16(id) + (Be16(flags) + (Be16(|qs|) + (Be16(|answers|) +
    ([0, 0, 0, 0] + (EncodeQuestions(qs) + EncodeAnswers(answers))))))
  }

  /** The A and AAAA records, in order. */
  function Addresses(answers: seq<Answer>): seq<(Ip, nat)> {
    if answers == [] then []
    else Address(answers[0].rtype, answers[0].ttl, answers[0].rdata) + Addresses(answers[1..])
  }

  lemma NameAtCons(msg: bytes, pos: nat, l: bytes, labels: seq<bytes>)
    requires 1 <= |l| <= 63 && pos + 1 + |l| <= |msg| && msg[pos] == |l| && msg[pos + 1..pos + 1 + |l|] == l
    requires NameAt(msg, pos + 1 + |l|, labels, 0)
    ensures NameAt(msg, pos, [l] + labels, 0) && NameEnd(msg, pos) == NameEnd(msg, pos + 1 + |l|)
  {
    assert ([l] + labels)[1..] == labels;
  }

  lemma EncodeNameParts(labels: seq<bytes>)
    requires forall i | 0 <= i < |labels| :: 1 <= |labels[i]| <= 63
    ensures labels == [] ==> EncodeName(labels) == [0]
    ensures labels != [] ==> EncodeName(labels) == [|labels[0]|] + (labels[0] + EncodeName(labels[1..]))
  {
  }

  lemma NameAtNil(msg: bytes, pos: nat)
    requires pos < |msg| && msg[pos] == 0
    ensures NameAt(msg, pos, [], 0) && NameEnd(msg, pos) == pos + 1
  {
  }

  lemma {:induction false} EncodedNameAt(msg: bytes, pos: nat, labels: seq<bytes>)
    requires (forall i | 0 <= i < |labels| :: 1 <= |labels[i]| <= 63) && At(msg, pos, EncodeName(labels))
    ensures NameAt(msg, pos, labels, 0) && NameEnd(msg, pos) == pos + |EncodeName(labels)|
    decreases |labels|
  {
    hide EncodeName, NameAt, NameEnd;
    EncodeNameParts(labels);
    if labels == [] {
      NameAtNil(msg, pos);
    } else {
      var (l, rest) := (labels[0], EncodeName(labels[1..]));
      AtSplit(msg, pos, [|l|], l + rest);
      AtSplit(msg, pos + 1, l, rest);
      EncodedNameAt(msg, pos + 1 + |l|, labels[1..]);
      NameAtCons(msg, pos, l, labels[1..]);
      assert labels == [l] + labels[1..];
    }
  }

  /** A name within the caps is what the reader returns. */
  lemma NameRead(msg: bytes, pos: nat, raws: seq<bytes>, jumps: nat)
    requires NameAt(msg, pos, raws, jumps) && jumps <= MAX_JUMPS && |raws| <= MAX_LABELS
    ensures NameOf(msg, pos) == Some((Join(Texts(raws)), NameEnd(msg, pos)))
  {
    WalkFollows(msg, pos, [], 0, raws, jumps);
    assert [] + Texts(raws) == Texts(raws);
    hide Walk, NameAt, NameEnd, Join;
  }

  lemma EncodedNameRead(msg: bytes, pos: nat, labels: seq<bytes>)
    requires GoodLabels(labels) && At(msg, pos, EncodeName(labels))
    ensures NameOf(msg, pos) == Some((Join(Texts(labels)), pos + |EncodeName(labels)|))
  {
    hide NameOf, NameAt, NameEnd, Join, At, EncodeName;
    EncodedNameAt(msg, pos, labels);
    NameRead(msg, pos, labels, 0);
  }

  /** An owner name, compressed or not, is read and passed. */
  lemma OwnerRead(msg: bytes, pos: nat, o: Owner, first: seq<bytes>)
    requires (o.Spelled? ==> GoodLabels(o.labels)) && At(msg, pos, EncodeOwner(o))
    requires GoodLabels(first) && At(msg, 12, EncodeName(first))
    ensures NameOf(msg, pos).Some? && NameOf(msg, pos).value.1 == pos + |EncodeOwner(o)|
    ensures o.Compressed? ==> NameOf(msg, pos).value.0 == Join(Texts(first))
  {
    if o.Spelled? {
      EncodedNameRead(msg, pos, o.labels);
    } else {
      AtIndex(msg, pos, [0xC0, 12], 0);
      AtIndex(msg, pos, [0xC0, 12], 1);
      EncodedNameAt(msg, 12, first);
      assert NameAt(msg, pos, first, 1);
      WalkFollows(msg, pos, [], 0, first, 1);
      assert [] + Texts(first) == Texts(first);
    }
  }

  lemma Be16At(msg: bytes, pos: nat, n: nat)
    requires At(msg, pos, Be16(n)) && n < 0x1_0000
    ensures pos + 2 <= |msg| && Short(msg, pos) == n
  {
    Be16Stands(msg, pos, n);
    hide U16;
  }

  lemma Be32At(msg: bytes, pos: nat, n: nat)
    requires At(msg, pos, Be32(n)) && n < 0x1_0000_0000
    ensures pos + 4 <= |msg| && U32(msg[pos], msg[pos + 1], msg[pos + 2], msg[pos + 3]) == n
  {
    Be32Exact(n);
    var b := Be32(n);
    AtIndex(msg, pos, b, 0);
    AtIndex(msg, pos, b, 1);
    AtIndex(msg, pos, b, 2);
    AtIndex(msg, pos, b, 3);
    hide Be32, U32;
  }

  /** The fixed part of a record, at `p`. */
  lemma FixedPart(msg: bytes, p: nat, rtype: nat, rclass: nat, ttl: nat, rdata: bytes)
    requires rtype < 0x1_0000 && ttl < 0x1_0000_0000 && |rdata| < 0x1_0000
    requires At(msg, p, Fixed(rtype, rclass, ttl, rdata))
    ensures |Fixed(rtype, rclass, ttl, rdata)| == 10 + |rdata| && p + 10 + |rdata| <= |msg|
    ensures Short(msg, p) == rtype && U32(msg[p + 4], msg[p + 5], msg[p + 6], msg[p + 7]) == ttl
    ensures Short(msg, p + 8) == |rdata| && msg[p + 10..p + 10 + |rdata|] == rdata
  {
    Be32Exact(ttl);
    var (t, c, l, n) := (Be16(rtype), Be16(rclass), Be32(ttl), Be16(|rdata|));
    assert |t| == 2 && |c| == 2 && |l| == 4 && |n| == 2;
    hide Be16, Be32, U16, U32;
    AtSplit(msg, p, t, c + (l + (n + rdata)));
    AtSplit(msg, p + 2, c, l + (n + rdata));
    AtSplit(msg, p + 4, l, n + rdata);
    AtSplit(msg, p + 8, n, rdata);
    Be16At(msg, p, rtype);
    Be32At(msg, p + 4, ttl);
    Be16At(msg, p + 8, |rdata|);
  }

  lemma RecordRead(msg: bytes, pos: nat, a: Answer, first: seq<bytes>)
    requires GoodAnswer(a) && At(msg, pos, EncodeAnswer(a))
    requires GoodLabels(first) && At(msg, 12, EncodeName(first))
    ensures Record(msg, pos) == Some((Address(a.rtype, a.ttl, a.rdata), pos + |EncodeAnswer(a)|))
  {
    hide NameOf, U16, U32, EncodeOwner, EncodeName, At, Fixed, GoodLabels;
    var (o, fixed) := (EncodeOwner(a.owner), Fixed(a.rtype, a.rclass, a.ttl, a.rdata));
    assert EncodeAnswer(a) == o + fixed;
    AtSplit(msg, pos, o, fixed);
    OwnerRead(msg, pos, a.owner, first);
    FixedPart(msg, pos + |o|, a.rtype, a.rclass, a.ttl, a.rdata);
    hide EncodeAnswer;
  }

  lemma {:induction false} AnswersRead(msg: bytes, pos: nat, answers: seq<Answer>, first: seq<bytes>)
    requires (forall i | 0 <= i < |answers| :: GoodAnswer(answers[i])) && At(msg, pos, EncodeAnswers(answers))
    requires GoodLabels(first) && At(msg, 12, EncodeName(first))
    ensures Answers(msg, pos, |answers|) == Some(Addresses(answers))
    decreases |answers|
  {
    hide Record, EncodeAnswer, EncodeName, At, Address, GoodAnswer, GoodLabels;
    if answers != [] {
      var (one, rest) := (EncodeAnswer(answers[0]), EncodeAnswers(answers[1..]));
      assert EncodeAnswers(answers) == one + rest;
      hide EncodeAnswers;
      AtSplit(msg, pos, one, rest);
      RecordRead(msg, pos, answers[0], first);
      assert Answers(msg, pos, |answers|)
          == After(Address(answers[0].rtype, answers[0].ttl, answers[0].rdata),
                   Answers(msg, pos + |one|, |answers| - 1));
      hide Answers;
      AnswersRead(msg, pos + |one|, answers[1..], first);
    }
  }

  lemma QuestionRead(msg: bytes, pos: nat, q: Question)
    requires GoodQuestion(q) && At(msg, pos, EncodeQuestion(q))
    ensures NameOf(msg, pos) == Some((Join(Texts(q.labels)), pos + |EncodeQuestion(q)| - 4))
    ensures pos + |EncodeQuestion(q)| <= |msg| && At(msg, pos, EncodeName(q.labels))
  {
    AtSplit(msg, pos, EncodeName(q.labels), Be16(q.qtype) + Be16(q.qclass));
    EncodedNameRead(msg, pos, q.labels);
  }

  lemma {:induction false} QuestionsSkipped(msg: bytes, pos: nat, qs: seq<Question>)
    requires (forall i | 0 <= i < |qs| :: GoodQuestion(qs[i])) && At(msg, pos, EncodeQuestions(qs))
    ensures SkipQuestions(msg, pos, |qs|) == Some(pos + |EncodeQuestions(qs)|)
    decreases |qs|
  {
    hide NameOf, EncodeQuestion, At, GoodQuestion;
    if qs != [] {
      var (one, rest) := (EncodeQuestion(qs[0]), EncodeQuestions(qs[1..]));
      assert EncodeQuestions(qs) == one + rest;
      hide EncodeQuestions;
      AtSplit(msg, pos, one, rest);
      QuestionRead(msg, pos, qs[0]);
      assert SkipQuestions(msg, pos, |qs|) == SkipQuestions(msg, pos + |one|, |qs| - 1);
      hide SkipQuestions;
      QuestionsSkipped(msg, pos + |one|, qs[1..]);
    }
  }

  lemma HeaderRead(msg: bytes, id: nat, flags: nat, qd: nat, an: nat, body: bytes)
    requires id < 0x1_0000 && qd < 0x1_0000 && an < 0x1_0000
    requires msg == Be16(id) + (Be16(flags) + (Be16(qd) + (Be16(an) + ([0, 0, 0, 0] + body))))
    ensures |msg| >= 12 && Short(msg, 0) == id && Short(msg, 4) == qd && Short(msg, 6) == an
    ensures At(msg, 12, body)
  {
    var (a, b, c, d) := (Be16(id), Be16(flags), Be16(qd), Be16(an));
    assert |a| == 2 && |b| == 2 && |c| == 2 && |d| == 2;
    hide Be16, U16;
    assert At(msg, 0, msg) by { assert msg[0..|msg|] == msg; }
    hide At;
    var z: bytes := [0, 0, 0, 0];
    AtSplit(msg, 0, a, b + (c + (d + (z + body))));
    AtSplit(msg, 2, b, c + (d + (z + body)));
    AtSplit(msg, 4, c, d + (z + body));
    AtSplit(msg, 6, d, z + body);
    AtSplit(msg, 8, z, body);
    Be16At(msg, 0, id);
    Be16At(msg, 4, qd);
    Be16At(msg, 6, an);
  }

  lemma EncodedParts(id: nat, flags: nat, qs: seq<Question>, answers: seq<Answer>)
    requires id < 0x1_0000 && |qs| < 0x1_0000 && |answers| < 0x1_0000
    requires forall i | 0 <= i < |qs| :: GoodQuestion(qs[i])
    requires forall i | 0 <= i < |answers| :: GoodAnswer(answers[i])
    ensures var msg := Encode(id, flags, qs, answers);
            && |msg| >= 12 && Short(msg, 0) == id && Short(msg, 4) == |qs| && Short(msg, 6) == |answers|
            && At(msg, 12, EncodeQuestions(qs)) && At(msg, 12 + |EncodeQuestions(qs)|, EncodeAnswers(answers))
  {
    hide At, EncodeQuestions, EncodeAnswers, GoodQuestion, GoodAnswer, Be16, U16;
    var msg := Encode(id, flags, qs, answers);
    HeaderRead(msg, id, flags, |qs|, |answers|, EncodeQuestions(qs) + EncodeAnswers(answers));
    AtSplit(msg, 12, EncodeQuestions(qs), EncodeAnswers(answers));
  }

  lemma QuestionsParts(qs: seq<Question>)
    requires qs != [] && forall i | 0 <= i < |qs| :: GoodQuestion(qs[i])
    ensures EncodeQuestions(qs) == EncodeQuestion(qs[0]) + EncodeQuestions(qs[1..])
  {
  }

  /** The parser inverts the encoder: the identifier, the text of the first question's name,
      and exactly the A and AAAA records, in order. */
  lemma ParseInvertsEncode(id: nat, flags: nat, qs: seq<Question>, answers: seq<Answer>)
    requires id < 0x1_0000 && 0 < |qs| < 0x1_0000 && |answers| < 0x1_0000
    requires forall i | 0 <= i < |qs| :: GoodQuestion(qs[i])
    requires forall i | 0 <= i < |answers| :: GoodAnswer(answers[i])
    ensures Parsed(Encode(id, flags, qs, answers)) ==
            Some(Response(id, Join(Texts(qs[0].labels)), Addresses(answers)))
  {
    hide At, Encode, EncodeQuestion, EncodeQuestions, EncodeName, EncodeAnswers, GoodAnswer, Addresses, Answers,
      NameOf, Join, Texts, U16, SkipQuestions, GoodLabels;
    EncodedParts(id, flags, qs, answers);
    var msg := Encode(id, flags, qs, answers);
    var (one, rest) := (EncodeQuestion(qs[0]), EncodeQuestions(qs[1..]));
    QuestionsParts(qs);
    AtSplit(msg, 12, one, rest);
    QuestionRead(msg, 12, qs[0]);
    QuestionsSkipped(msg, 12 + |one|, qs[1..]);
    AnswersRead(msg, 12 + |one| + |rest|, answers, qs[0].labels);
  }
}
