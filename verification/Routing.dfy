/** The learned IP-to-domain map and the routing decision of `domain_route.rs`. */
module Routing {
  import opened Prelude
  import opened Bytes
  import opened Text
  import opened TextLaws
  import opened Bypass
  import opened Dns

  const MIN_TTL_SECS: nat := 30
  const MAX_TTL_SECS: nat := 3600
  const MAX_ENTRIES: nat := 20000

  datatype Entry = Entry(domain: bytes, expires: u64)

  type Table = map<Ip, Entry>

  /** `saturating_add` of `u64`, after clamping the time to live. */
  function Expiry(now: u64, ttl: nat): u64 {
    Min(now + Min(Max(ttl, MIN_TTL_SECS), MAX_TTL_SECS), U64_MAX)
  }

  function Live(t: Table, now: u64): Table {
    map ip | ip in t && t[ip].expires > now :: t[ip]
  }

  /** A full table is pruned before it learns. */
  function Trimmed(t: Table, now: u64): Table {
    if |t| >= MAX_ENTRIES then Live(t, now) else t
  }

  /** A live mapping to another name, or a full table without this address, skips an answer. */
  predicate Skipped(t: Table, ip: Ip, domain: bytes, now: u64) {
    || (ip in t && t[ip].expires > now && Norm(t[ip].domain) != domain)
    || (|t| >= MAX_ENTRIES && ip !in t)
  }

  /** The table after these answers, and how many were taken. */
  function Learn(t: Table, domain: bytes, answers: seq<(Ip, nat)>, now: u64): (Table, nat)
    decreases |answers|
  {
    if answers == [] then (t, 0)
    else
      var (ip, ttl) := answers[0];
      if Skipped(t, ip, domain, now) then Learn(t, domain, answers[1..], now)
      else
        var (t', n) := Learn(t[ip := Entry(domain, Expiry(now, ttl))], domain, answers[1..], now);
        (t', n + 1)
  }

  /** A response is used only if it answers the pending query and its name is bypassed. */
  predicate Accepted(r: Response, id: nat, qname: bytes, bypass: seq<bytes>) {
    && r.id == id && Norm(r.qname) == Norm(qname) && Matches(r.qname, bypass)
    && r.qname != [] && r.answers != []
  }

  function Recorded(t: Table, msg: bytes, id: nat, qname: bytes, bypass: seq<bytes>, now: u64): (Table, nat) {
    if bypass == [] then (t, 0) else
    match Parsed(msg)
    case None => (t, 0)
    case Some(r) =>
      if !Accepted(r, id, qname, bypass) then (t, 0)
      else Learn(Trimmed(t, now), Norm(r.qname), r.answers, now)
  }

  function Found(t: Table, ip: Ip, now: u64): Option<bytes> {
    if ip in t && t[ip].expires > now then Some(t[ip].domain) else None
  }

  class DomainRouteMap {
    var inner: Table

    constructor ()
      ensures inner == map[]
    {
      inner := map[];
    }

    /** `record_dns_response` */
    method RecordDnsResponse(msg: bytes, id: nat, qname: bytes, bypass: seq<bytes>, now: u64) returns (n: nat)
      modifies this
      ensures (inner, n) == Recorded(old(inner), msg, id, qname, bypass, now)
    {
      hide Parsed, Norm, Matches, Expiry, Learn;
      if bypass == [] { return 0; }
      var r := ParseDnsAnswers(msg);
      if r.None? { return 0; }
      var resp := r.value;
      var hit := MatchesBypass(resp.qname, bypass);
      if resp.id != id || Norm(resp.qname) != Norm(qname) || !hit || resp.qname == [] || resp.answers == [] {
        return 0;
      }
      if |inner| >= MAX_ENTRIES { Prune(now); }
      n := LearnAnswers(Norm(resp.qname), resp.answers, now);
    }

    /** The loop over the answers. */
    method LearnAnswers(domain: bytes, answers: seq<(Ip, nat)>, now: u64) returns (n: nat)
      modifies this
      ensures (inner, n) == Learn(old(inner), domain, answers, now)
    {
      hide Norm, Expiry;
      n := 0;
      var i := 0;
      while i < |answers|
        invariant 0 <= i <= |answers|
        invariant var rest := Learn(inner, domain, answers[i..], now);
                  Learn(old(inner), domain, answers, now) == (rest.0, n + rest.1)
      {
        var (ip, ttl) := answers[i];
        assert answers[i..][0] == (ip, ttl) && answers[i..][1..] == answers[i + 1..];
        i := i + 1;
        if ip in inner {
          var existing := inner[ip];
          if existing.expires > now && Norm(existing.domain) != domain { continue; }
        }
        if |inner| >= MAX_ENTRIES && ip !in inner { continue; }
        inner := inner[ip := Entry(domain, Expiry(now, ttl))];
        n := n + 1;
      }
    }

    method Prune(now: u64)
      modifies this
      ensures inner == Live(old(inner), now)
      ensures forall ip :: ip in inner <==> ip in old(inner) && now < old(inner)[ip].expires
      ensures forall ip | ip in inner :: inner[ip] == old(inner)[ip]
    {
      inner := map ip | ip in inner && inner[ip].expires > now :: inner[ip];
    }
  }

  // ---------------------------------------------------------------------------
  // The decision
  // ---------------------------------------------------------------------------

  predicate PrivateV4(o: bytes)
    requires |o| == 4
  {
    || o[0] == 127 || o[0] == 10
    || (o[0] == 172 && 16 <= o[1] <= 31)
    || (o[0] == 192 && o[1] == 168)
    || (o[0] == 169 && o[1] == 254)
    || (o[0] == 100 && 64 <= o[1] <= 127)
  }

  const V6_LOOPBACK: bytes := [0, 0, 0, 0, 0, 0, 0, 0, 0, 0, 0, 0, 0, 0, 0, 1]

  predicate PrivateV6(o: bytes)
    requires |o| == 16
  {
    if o == V6_LOOPBACK then true
    else if o[..10] == [0, 0, 0, 0, 0, 0, 0, 0, 0, 0] && o[10] == 0xFF && o[11] == 0xFF then PrivateV4(o[12..])
    else 0xFC <= o[0] <= 0xFD || (o[0] == 0xFE && 0x80 <= o[1] <= 0xBF)
  }

  predicate PrivateIp(ip: Ip) {
    match ip
    case V4(o) => |o| == 4 && PrivateV4(o)
    case V6(o) => |o| == 16 && PrivateV6(o)
  }

  function OctetValue(l: bytes): byte
    requires IsOctet(l)
  {
    DecimalNonNegative(l); DecimalValue(l)
  }

  lemma {:induction false} DecimalNonNegative(l: bytes)
    requires forall i | 0 <= i < |l| :: IsDigit(l[i])
    ensures DecimalValue(l) >= 0
  {
    if l != [] { DecimalNonNegative(l[..|l| - 1]); }
  }

  /** `parse::<IpAddr>()`; `v6` is the IPv6 literal syntax. */
  function ParseIp(v6: bytes -> Option<bytes>, host: bytes): Option<Ip> {
    if IsIpv4(host) then
      var l := Split(host);
      Some(V4([OctetValue(l[0]), OctetValue(l[1]), OctetValue(l[2]), OctetValue(l[3])]))
    else match v6(host) case None => None case Some(o) => Some(V6(o))
  }

  const LOCALHOST: bytes := [108, 111, 99, 97, 108, 104, 111, 115, 116]

  /** `host_is_local_or_private`: trailing dots are ignored here, but not by `decide`. */
  predicate LocalHost(v6: bytes -> Option<bytes>, host: bytes) {
    var h := TrimEndDots(host);
    Lower(h) == LOCALHOST || (ParseIp(v6, h).Some? && PrivateIp(ParseIp(v6, h).value))
  }

  datatype Route = Tunnel | Direct

  function Decide(v6: bytes -> Option<bytes>, host: bytes, bypass: seq<bytes>, t: Table, now: u64): Route {
    if LocalHost(v6, host) then Direct
    else if bypass == [] then Tunnel
    else match ParseIp(v6, host)
         case None => if Matches(host, bypass) then Direct else Tunnel
         case Some(ip) =>
           match Found(t, ip, now)
           case None => Tunnel
           case Some(domain) => if Matches(domain, bypass) then Direct else Tunnel
  }

  // ---------------------------------------------------------------------------
  // Runs
  // ---------------------------------------------------------------------------

  datatype Event =
    | Dns(msg: bytes, id: nat, qname: bytes, bypass: seq<bytes>, now: u64)
    | Sweep(now: u64)

  function Step(t: Table, e: Event): Table {
    match e
    case Dns(msg, id, qname, bypass, now) => Recorded(t, msg, id, qname, bypass, now).0
    case Sweep(now) => Live(t, now)
  }

  ghost predicate Run(ts: seq<Table>, es: seq<Event>) {
    && |ts| == |es| + 1 && ts[0] == map[]
    && forall i {:trigger es[i]} | 0 <= i < |es| :: ts[i + 1] == Step(ts[i], es[i])
  }

  /** This response was accepted and listed the address with this time to live. */
  predicate Listed(e: Event, ip: Ip, ttl: nat, domain: bytes) {
    && e.Dns? && e.bypass != [] && Parsed(e.msg).Some?
    && var r := Parsed(e.msg).value;
       Accepted(r, e.id, e.qname, e.bypass) && (ip, ttl) in r.answers && domain == Norm(r.qname)
  }

  /** Every entry was put there by some earlier response. */
  ghost predicate Caused(es: seq<Event>, ip: Ip, entry: Entry) {
    exists k, ttl | 0 <= k < |es| && Listed(es[k], ip, ttl, entry.domain) :: entry.expires == Expiry(es[k].now, ttl)
  }

  lemma {:induction false} LearnSources(t: Table, domain: bytes, answers: seq<(Ip, nat)>, now: u64, ip: Ip)
    requires ip in Learn(t, domain, answers, now).0
    ensures var entry := Learn(t, domain, answers, now).0[ip];
            (ip in t && t[ip] == entry) || exists ttl | (ip, ttl) in answers :: entry == Entry(domain, Expiry(now, ttl))
    decreases |answers|
  {
    if answers != [] {
      var (ip0, ttl0) := answers[0];
      if Skipped(t, ip0, domain, now) {
        LearnSources(t, domain, answers[1..], now, ip);
      } else {
        LearnSources(t[ip0 := Entry(domain, Expiry(now, ttl0))], domain, answers[1..], now, ip);
      }
    }
  }

  lemma {:induction false} LearnWithinCap(t: Table, domain: bytes, answers: seq<(Ip, nat)>, now: u64)
    requires |t| <= MAX_ENTRIES
    ensures |Learn(t, domain, answers, now).0| <= MAX_ENTRIES
    decreases |answers|
  {
    if answers != [] {
      var (ip, ttl) := answers[0];
      if Skipped(t, ip, domain, now) {
        LearnWithinCap(t, domain, answers[1..], now);
      } else {
        LearnWithinCap(t[ip := Entry(domain, Expiry(now, ttl))], domain, answers[1..], now);
      }
    }
  }

  /** A live mapping keeps its name through a whole batch of answers. */
  lemma {:induction false} LearnKeepsLive(t: Table, domain: bytes, answers: seq<(Ip, nat)>, now: u64, ip: Ip)
    requires ip in t && t[ip].expires > now && Norm(t[ip].domain) == t[ip].domain
    ensures var t' := Learn(t, domain, answers, now).0;
            ip in t' && t'[ip].domain == t[ip].domain && t'[ip].expires > now
    decreases |answers|
  {
    if answers != [] {
      var (ip0, ttl) := answers[0];
      if Skipped(t, ip0, domain, now) {
        LearnKeepsLive(t, domain, answers[1..], now, ip);
      } else {
        LearnKeepsLive(t[ip0 := Entry(domain, Expiry(now, ttl))], domain, answers[1..], now, ip);
      }
    }
  }

  lemma LiveSmaller(t: Table, now: u64)
    ensures |Live(t, now)| <= |t|
  {
    SubsetSize(Live(t, now).Keys, t.Keys);
  }

  lemma NormIdempotent(d: bytes)
    ensures Norm(Norm(d)) == Norm(d)
  {
    var e := TrimEndDots(d);
    TrimEndDotsExact(d);
    LowerTrimEnd(e);
    LowerIdempotent(e);
  }

  /** What one event can add to the table. */
  lemma StepSources(t: Table, e: Event, ip: Ip)
    requires ip in Step(t, e)
    ensures (ip in t && t[ip] == Step(t, e)[ip]) ||
            exists ttl | Listed(e, ip, ttl, Step(t, e)[ip].domain) :: Step(t, e)[ip].expires == Expiry(e.now, ttl)
  {
    hide Parsed, Norm, Matches, Expiry;
    if e.Dns? && e.bypass != [] && Parsed(e.msg).Some? {
      var r := Parsed(e.msg).value;
      if Accepted(r, e.id, e.qname, e.bypass) {
        LearnSources(Trimmed(t, e.now), Norm(r.qname), r.answers, e.now, ip);
      }
    }
  }

  lemma {:induction false} EveryEntryCaused(ts: seq<Table>, es: seq<Event>, i: nat, ip: Ip)
    requires Run(ts, es) && i < |ts| && ip in ts[i]
    ensures Caused(es[..i], ip, ts[i][ip])
  {
    hide Listed, Expiry, Step;
    if i > 0 {
      assert ts[i] == Step(ts[i - 1], es[i - 1]);
      StepSources(ts[i - 1], es[i - 1], ip);
      var entry := ts[i][ip];
      assert es[..i][i - 1] == es[i - 1];
      if ip in ts[i - 1] && ts[i - 1][ip] == entry {
        EveryEntryCaused(ts, es, i - 1, ip);
        var k, ttl :| 0 <= k < i - 1 && Listed(es[..i - 1][k], ip, ttl, entry.domain)
                         && entry.expires == Expiry(es[..i - 1][k].now, ttl);
        assert es[..i - 1][k] == es[..i][k];
      }
    }
  }

  /** A response to the pending query, for a bypassed name, lists the address with this time
      to live: what an event must be to count, in plain terms. */
  ghost predicate Attributed(e: Event, ip: Ip, ttl: nat, qname: bytes) {
    && e.Dns? && Parsed(e.msg).Some?
    && var r := Parsed(e.msg).value;
       && r.id == e.id && r.qname == qname && SameName(qname, e.qname) && Bypassed(qname, e.bypass)
       && (ip, ttl) in r.answers
  }

  lemma ListedExactly(e: Event, ip: Ip, ttl: nat, domain: bytes)
    ensures Listed(e, ip, ttl, domain) <==>
            exists qname :: Attributed(e, ip, ttl, qname) && domain == Norm(qname)
  {
    hide Norm, Matches, SameName, Bypassed, Parsed;
    if e.Dns? && Parsed(e.msg).Some? {
      var r := Parsed(e.msg).value;
      SameNameExactly(r.qname, e.qname);
      MatchesExactly(r.qname, e.bypass);
      if Bypassed(r.qname, e.bypass) { BypassedNotEmpty(r.qname, e.bypass); }
      assert Listed(e, ip, ttl, domain) <==> Attributed(e, ip, ttl, r.qname) && domain == Norm(r.qname);
    }
  }

  lemma BypassedNotEmpty(name: bytes, bypass: seq<bytes>)
    requires Bypassed(name, bypass)
    ensures name != [] && bypass != []
  {
    hide Stripped, Split, LabelSuffix;
  }

  lemma NormMatches(name: bytes, bypass: seq<bytes>)
    ensures Matches(Norm(name), bypass) <==> Bypassed(name, bypass)
  {
    hide Norm, HitsEntry, Bypassed;
    NormIdempotent(name);
    MatchesExactly(name, bypass);
  }

  /** Lifetimes in plain arithmetic: between 30 and 3600 seconds, and the record's own in
      between, up to the largest time there is. */
  lemma ExpiryExactly(now: u64, ttl: nat)
    ensures ttl < 30 ==> Expiry(now, ttl) == Min(now + 30, U64_MAX)
    ensures 30 <= ttl <= 3600 ==> Expiry(now, ttl) == Min(now + ttl, U64_MAX)
    ensures ttl > 3600 ==> Expiry(now, ttl) == Min(now + 3600, U64_MAX)
  {
  }

  /** An address that is not local goes direct only if an earlier response to a pending query,
      for a name bypassed then and now, listed it, and less than the listed time to live, taken
      between 30 and 3600 seconds, has passed. */
  lemma RoutingSound(v6: bytes -> Option<bytes>, ts: seq<Table>, es: seq<Event>, i: nat,
                     host: bytes, bypass: seq<bytes>, now: u64)
    requires Run(ts, es) && i < |ts|
    requires !LocalHost(v6, host) && ParseIp(v6, host).Some? && Decide(v6, host, bypass, ts[i], now) == Direct
    ensures exists k, ttl: nat, qname | 0 <= k < i && Attributed(es[k], ParseIp(v6, host).value, ttl, qname) ::
              now < es[k].now + Min(Max(ttl, 30), 3600) && Bypassed(qname, bypass)
  {
    hide Listed, LocalHost, ParseIp, Matches, Step, Attributed, Norm, Bypassed;
    var ip := ParseIp(v6, host).value;
    EveryEntryCaused(ts, es, i, ip);
    var entry := ts[i][ip];
    var k, ttl :| 0 <= k < i && Listed(es[..i][k], ip, ttl, entry.domain)
                     && entry.expires == Expiry(es[..i][k].now, ttl);
    assert es[..i][k] == es[k];
    ListedExactly(es[k], ip, ttl, entry.domain);
    var qname :| Attributed(es[k], ip, ttl, qname) && entry.domain == Norm(qname);
    NormMatches(qname, bypass);
  }

  lemma {:induction false} TableWithinCap(ts: seq<Table>, es: seq<Event>, i: nat)
    requires Run(ts, es) && i < |ts|
    ensures |ts[i]| <= 20000
  {
    hide Step;
    if i > 0 {
      TableWithinCap(ts, es, i - 1);
      assert ts[i] == Step(ts[i - 1], es[i - 1]);
      StepWithinCap(ts[i - 1], es[i - 1]);
    }
  }

  lemma StepWithinCap(t: Table, e: Event)
    requires |t| <= MAX_ENTRIES
    ensures |Step(t, e)| <= MAX_ENTRIES
  {
    hide Parsed, Accepted, Norm, Learn;
    LiveSmaller(t, e.now);
    hide Live;
    if e.Dns? && Parsed(e.msg).Some? {
      var r := Parsed(e.msg).value;
      LearnWithinCap(Trimmed(t, e.now), Norm(r.qname), r.answers, e.now);
    }
  }

  lemma StepKeepsLive(t: Table, e: Event, ip: Ip)
    requires ip in t && t[ip].expires > e.now && Norm(t[ip].domain) == t[ip].domain
    ensures ip in Step(t, e) && Step(t, e)[ip].domain == t[ip].domain
  {
    hide Parsed, Accepted, Norm, Learn;
    if e.Dns? && Parsed(e.msg).Some? {
      var r := Parsed(e.msg).value;
      LearnKeepsLive(Trimmed(t, e.now), Norm(r.qname), r.answers, e.now, ip);
    }
  }

  lemma CausedNormal(es: seq<Event>, ip: Ip, entry: Entry)
    requires Caused(es, ip, entry)
    ensures Norm(entry.domain) == entry.domain
  {
    hide Parsed, Accepted, Norm, Expiry;
    var k, ttl :| 0 <= k < |es| && Listed(es[k], ip, ttl, entry.domain) && entry.expires == Expiry(es[k].now, ttl);
    NormIdempotent(Parsed(es[k].msg).value.qname);
  }

  /** As long as a mapping is live when events come, no event changes its name or drops it. */
  lemma {:induction false} LiveNameKept(ts: seq<Table>, es: seq<Event>, i: nat, j: nat, ip: Ip)
    requires Run(ts, es) && i <= j < |ts| && ip in ts[i]
    requires forall k | i <= k < j :: ip in ts[k] ==> ts[k][ip].expires > es[k].now
    ensures ip in ts[j] && ts[j][ip].domain == ts[i][ip].domain
    decreases j
  {
    hide Step, Norm, Caused;
    if i < j {
      LiveNameKept(ts, es, i, j - 1, ip);
      EveryEntryCaused(ts, es, j - 1, ip);
      CausedNormal(es[..j - 1], ip, ts[j - 1][ip]);
      assert ts[j] == Step(ts[j - 1], es[j - 1]);
      StepKeepsLive(ts[j - 1], es[j - 1], ip);
    }
  }

  /** Answers for other addresses leave an entry alone. */
  lemma {:induction false} LearnLeaves(t: Table, domain: bytes, answers: seq<(Ip, nat)>, now: u64, ip: Ip)
    requires ip in t && forall j | 0 <= j < |answers| :: answers[j].0 != ip
    ensures var t' := Learn(t, domain, answers, now).0; ip in t' && t'[ip] == t[ip]
    decreases |answers|
  {
    if answers != [] {
      hide Norm, Expiry;
      var (ip0, ttl0) := answers[0];
      var t1 := if Skipped(t, ip0, domain, now) then t else t[ip0 := Entry(domain, Expiry(now, ttl0))];
      LearnLeaves(t1, domain, answers[1..], now, ip);
    }
  }

  /** With room for the answers and no live mapping to another name, an address is learned with
      the lifetime of the last answer that lists it. */
  lemma {:induction false} LearnTakes(t: Table, domain: bytes, answers: seq<(Ip, nat)>, now: u64, ip: Ip, k: nat)
    requires Norm(domain) == domain && (ip in t && t[ip].expires > now ==> Norm(t[ip].domain) == domain)
    requires ip in t || |t| + |answers| <= MAX_ENTRIES
    requires k < |answers| && answers[k].0 == ip && forall j | k < j < |answers| :: answers[j].0 != ip
    ensures var t' := Learn(t, domain, answers, now).0;
            ip in t' && t'[ip] == Entry(domain, Expiry(now, answers[k].1))
    decreases |answers|
  {
    hide Norm, Expiry;
    var (ip0, ttl0) := answers[0];
    var t1 := if Skipped(t, ip0, domain, now) then t else t[ip0 := Entry(domain, Expiry(now, ttl0))];
    assert Learn(t, domain, answers, now).0 == Learn(t1, domain, answers[1..], now).0;
    if k == 0 {
      LearnLeaves(t1, domain, answers[1..], now, ip);
    } else {
      LearnTakes(t1, domain, answers[1..], now, ip, k - 1);
    }
  }

  /** With room and no live mapping to another name, all answers are counted as taken. */
  lemma {:induction false} LearnCounts(t: Table, domain: bytes, answers: seq<(Ip, nat)>, now: u64)
    requires Norm(domain) == domain && |t| + |answers| <= MAX_ENTRIES
    requires forall j | 0 <= j < |answers| ::
               answers[j].0 in t && t[answers[j].0].expires > now ==> Norm(t[answers[j].0].domain) == domain
    ensures Learn(t, domain, answers, now).1 == |answers|
    decreases |answers|
  {
    if answers != [] {
      hide Norm, Expiry;
      var (ip0, ttl0) := answers[0];
      LearnCounts(t[ip0 := Entry(domain, Expiry(now, ttl0))], domain, answers[1..], now);
    }
  }

  /** A table of 20000 entries is rid of the expired ones before it learns; others are not. */
  lemma TrimmedExactly(t: Table, now: u64, ip: Ip)
    ensures ip in Trimmed(t, now) <==> ip in t && (|t| < 20000 || now < t[ip].expires)
    ensures ip in Trimmed(t, now) ==> Trimmed(t, now)[ip] == t[ip]
  {
  }

  /** The partner of soundness: an accepted response makes each address it lists go direct
      exactly until its time to live, taken between 30 and 3600 seconds, has passed. */
  lemma ListedGoesDirect(v6: bytes -> Option<bytes>, t: Table, e: Event, k: nat, qname: bytes,
                         host: bytes, bypass: seq<bytes>, now: u64)
    requires ParseIp(v6, host).Some? && !LocalHost(v6, host) && Bypassed(qname, bypass)
    requires e.Dns? && Parsed(e.msg).Some? && k < |Parsed(e.msg).value.answers|
    requires var (ip, base, answers) := (ParseIp(v6, host).value, Trimmed(t, e.now), Parsed(e.msg).value.answers);
             && Attributed(e, ip, answers[k].1, qname) && answers[k].0 == ip
             && (forall j | k < j < |answers| :: answers[j].0 != ip)
             && (ip in base && base[ip].expires > e.now ==> SameName(base[ip].domain, qname))
             && (ip in base || |base| + |answers| <= 20000)
    ensures Decide(v6, host, bypass, Step(t, e), now) == Direct <==>
            now < Min(e.now + Min(Max(Parsed(e.msg).value.answers[k].1, 30), 3600), U64_MAX)
  {
    hide Parsed, Norm, Matches, LocalHost, ParseIp, Learn, SameName, Bypassed;
    var (r, ip, base) := (Parsed(e.msg).value, ParseIp(v6, host).value, Trimmed(t, e.now));
    ListedExactly(e, ip, r.answers[k].1, Norm(qname));
    NormIdempotent(qname);
    NormMatches(qname, bypass);
    BypassedNotEmpty(qname, bypass);
    if ip in base && base[ip].expires > e.now { SameNameExactly(base[ip].domain, qname); }
    LearnTakes(base, Norm(qname), r.answers, e.now, ip, k);
  }

  // ---------------------------------------------------------------------------
  // The decision in plain terms
  // ---------------------------------------------------------------------------

  /** 10/8, 127/8, 172.16/12, 192.168/16, 169.254/16 and 100.64/10, as numbers. */
  predicate PrivateRange(n: nat) {
    || 0x0A00_0000 <= n <= 0x0AFF_FFFF || 0x7F00_0000 <= n <= 0x7FFF_FFFF
    || 0xAC10_0000 <= n <= 0xAC1F_FFFF || 0xC0A8_0000 <= n <= 0xC0A8_FFFF
    || 0xA9FE_0000 <= n <= 0xA9FE_FFFF || 0x6440_0000 <= n <= 0x647F_FFFF
  }

  lemma PrivateV4Exactly(o: bytes)
    requires |o| == 4
    ensures PrivateV4(o) <==> PrivateRange(Number(o))
  {
    NumberOfFour(o);
    hide Number;
  }

  lemma NumberOfSixteen(o: bytes)
    requires |o| == 16
    ensures Number(o) == 0x1_0000_0000_0000_0000_0000_0000 * Number(o[..4]) + 0x1_0000_0000_0000_0000 * Number(o[4..8])
                         + 0x1_0000_0000 * Number(o[8..12]) + Number(o[12..])
  {
    hide Number;
    assert o == o[..12] + o[12..] && o[..12] == o[..8] + o[8..12] && o[..8] == o[..4] + o[4..8];
    NumberSplits(o[..12], o[12..]);
    NumberSplits(o[..8], o[8..12]);
    NumberSplits(o[..4], o[4..8]);
  }

  /** Loopback, mapped private IPv4, fc00::/7 and fe80::/10, as numbers. */
  predicate PrivateRange6(n: nat) {
    || n == 1
    || (0xFFFF_0000_0000 <= n <= 0xFFFF_FFFF_FFFF && PrivateRange(n - 0xFFFF_0000_0000))
    || 0xFC00_0000_0000_0000_0000_0000_0000_0000 <= n <= 0xFDFF_FFFF_FFFF_FFFF_FFFF_FFFF_FFFF_FFFF
    || 0xFE80_0000_0000_0000_0000_0000_0000_0000 <= n <= 0xFEBF_FFFF_FFFF_FFFF_FFFF_FFFF_FFFF_FFFF
  }

  /** The same by 32-bit words. */
  lemma RangeByWords(a: nat, b: nat, c: nat, d: nat)
    requires a < 0x1_0000_0000 && b < 0x1_0000_0000 && c < 0x1_0000_0000 && d < 0x1_0000_0000
    ensures var n := 0x1_0000_0000_0000_0000_0000_0000 * a + 0x1_0000_0000_0000_0000 * b + 0x1_0000_0000 * c + d;
            PrivateRange6(n) <==>
            || (a == 0 && b == 0 && c == 0 && d == 1)
            || (a == 0 && b == 0 && c == 0xFFFF && PrivateRange(d))
            || 0xFC00_0000 <= a <= 0xFDFF_FFFF || 0xFE80_0000 <= a <= 0xFEBF_FFFF
  {
    hide PrivateRange;
    var n := 0x1_0000_0000_0000_0000_0000_0000 * a + 0x1_0000_0000_0000_0000 * b + 0x1_0000_0000 * c + d;
    if 0xFFFF_0000_0000 <= n <= 0xFFFF_FFFF_FFFF { assert a == 0 && b == 0 && c == 0xFFFF; }
  }

  lemma PrivateV6ByWords(o: bytes)
    requires |o| == 16
    ensures var (a, b, c, d) := (Number(o[..4]), Number(o[4..8]), Number(o[8..12]), Number(o[12..]));
            PrivateV6(o) <==>
            || (a == 0 && b == 0 && c == 0 && d == 1)
            || (a == 0 && b == 0 && c == 0xFFFF && PrivateRange(d))
            || 0xFC00_0000 <= a <= 0xFDFF_FFFF || 0xFE80_0000 <= a <= 0xFEBF_FFFF
  {
    hide Number, PrivateRange, PrivateV4;
    PrivateV4Exactly(o[12..]);
    LoopbackWords(o);
    MappedWords(o);
    FirstWord(o);
  }

  lemma FirstWord(o: bytes)
    requires |o| == 16
    ensures 0xFC <= o[0] <= 0xFD <==> 0xFC00_0000 <= Number(o[..4]) <= 0xFDFF_FFFF
    ensures o[0] == 0xFE && 0x80 <= o[1] <= 0xBF <==> 0xFE80_0000 <= Number(o[..4]) <= 0xFEBF_FFFF
  {
    hide Number;
    NumberOfFour(o[..4]);
  }

  lemma LoopbackWords(o: bytes)
    requires |o| == 16
    ensures o == V6_LOOPBACK <==>
            Number(o[..4]) == 0 && Number(o[4..8]) == 0 && Number(o[8..12]) == 0 && Number(o[12..]) == 1
  {
    hide Number;
    NumberOfFour(o[..4]);
    NumberOfFour(o[4..8]);
    NumberOfFour(o[8..12]);
    NumberOfFour(o[12..]);
    Loopback(o);
  }

  lemma MappedWords(o: bytes)
    requires |o| == 16
    ensures o[..10] == [0, 0, 0, 0, 0, 0, 0, 0, 0, 0] && o[10] == 0xFF && o[11] == 0xFF <==>
            Number(o[..4]) == 0 && Number(o[4..8]) == 0 && Number(o[8..12]) == 0xFFFF
  {
    hide Number;
    NumberOfFour(o[..4]);
    NumberOfFour(o[4..8]);
    NumberOfFour(o[8..12]);
    ZeroTen(o);
  }

  lemma ZeroTen(o: bytes)
    requires |o| == 16
    ensures o[..10] == [0, 0, 0, 0, 0, 0, 0, 0, 0, 0] <==> forall i | 0 <= i < 10 :: o[i] == 0
  {
    assert forall i | 0 <= i < 10 :: o[..10][i] == o[i];
  }

  lemma Loopback(o: bytes)
    requires |o| == 16
    ensures o == V6_LOOPBACK <==> (forall i | 0 <= i < 15 :: o[i] == 0) && o[15] == 1
  {
  }

  lemma PrivateV6Exactly(o: bytes)
    requires |o| == 16
    ensures PrivateV6(o) <==> PrivateRange6(Number(o))
  {
    hide Number, PrivateRange6, PrivateRange, PrivateV6;
    NumberOfSixteen(o);
    PrivateV6ByWords(o);
    WordFits(o[..4]);
    WordFits(o[4..8]);
    WordFits(o[8..12]);
    WordFits(o[12..]);
    RangeByWords(Number(o[..4]), Number(o[4..8]), Number(o[8..12]), Number(o[12..]));
  }

  lemma WordFits(o: bytes)
    requires |o| == 4
    ensures Number(o) < 0x1_0000_0000
  {
    NumberOfFour(o);
    hide Number;
  }

  /** An address literal: four printed numbers, or what the IPv6 syntax takes. */
  lemma ParseIpExactly(v6: bytes -> Option<bytes>, host: bytes, ip: Ip)
    ensures ParseIp(v6, host) == Some(ip) <==>
            || (exists a: byte, b: byte, c: byte, d: byte :: host == Dotted(a, b, c, d) && ip == V4([a, b, c, d]))
            || (!IsIpv4(host) && v6(host).Some? && ip == V6(v6(host).value))
  {
    hide IsIpv4, Split, Dotted, OctetValue;
    Ipv4Exactly(host);
    forall a: byte, b: byte, c: byte, d: byte | host == Dotted(a, b, c, d)
      ensures IsIpv4(host) && ParseIp(v6, host) == Some(V4([a, b, c, d]))
    {
      DottedParses(v6, a, b, c, d);
    }
  }

  lemma DottedParses(v6: bytes -> Option<bytes>, a: byte, b: byte, c: byte, d: byte)
    ensures IsIpv4(Dotted(a, b, c, d)) && ParseIp(v6, Dotted(a, b, c, d)) == Some(V4([a, b, c, d]))
  {
    DottedIsIpv4(a, b, c, d);
    DottedSplits(a, b, c, d);
    OctetExactly(Printed(a), a);
    OctetExactly(Printed(b), b);
    OctetExactly(Printed(c), c);
    OctetExactly(Printed(d), d);
    hide Split, Join, IsOctet, Printed, DecimalValue, Dotted;
  }

  /** `localhost` in any case, or a private address, trailing dots ignored. */
  ghost predicate Local(v6: bytes -> Option<bytes>, host: bytes) {
    var h := TrimEndDots(host);
    || (|h| == 9 && forall i | 0 <= i < 9 :: LowerByte(h[i]) == "localhost"[i] as int)
    || (exists a: byte, b: byte, c: byte, d: byte :: h == Dotted(a, b, c, d) && PrivateRange(Number([a, b, c, d])))
    || (!IsIpv4(h) && v6(h).Some? && |v6(h).value| == 16 && PrivateRange6(Number(v6(h).value)))
  }

  lemma LocalExactly(v6: bytes -> Option<bytes>, host: bytes)
    ensures LocalHost(v6, host) <==> Local(v6, host)
  {
    var h := TrimEndDots(host);
    hide TrimEndDots, ParseIp, PrivateRange, PrivateRange6, Number, PrivateV4, PrivateV6, IsIpv4, Dotted;
    assert Lower(h) == LOCALHOST <==> |h| == 9 && forall i | 0 <= i < 9 :: LowerByte(h[i]) == "localhost"[i] as int by {
      LocalhostExactly(h);
    }
    if ParseIp(v6, h).Some? { ParseIpExactly(v6, h, ParseIp(v6, h).value); }
    forall a: byte, b: byte, c: byte, d: byte | h == Dotted(a, b, c, d)
      ensures IsIpv4(h) && ParseIp(v6, h) == Some(V4([a, b, c, d]))
      ensures PrivateIp(V4([a, b, c, d])) <==> PrivateRange(Number([a, b, c, d]))
    {
      DottedParses(v6, a, b, c, d);
      PrivateV4Exactly([a, b, c, d]);
    }
    if !IsIpv4(h) && v6(h).Some? {
      ParseIpExactly(v6, h, V6(v6(h).value));
      if |v6(h).value| == 16 { PrivateV6Exactly(v6(h).value); }
    }
  }

  lemma LocalhostExactly(h: bytes)
    ensures Lower(h) == LOCALHOST <==> |h| == 9 && forall i | 0 <= i < 9 :: LowerByte(h[i]) == "localhost"[i] as int
  {
    assert forall i | 0 <= i < 9 :: LOCALHOST[i] == "localhost"[i] as int;
  }

  /** The whole decision: direct exactly for a local host, for a name that is bypassed, and for
      an address with a live mapping to a bypassed name. An empty list bypasses nothing. */
  lemma DecideExactly(v6: bytes -> Option<bytes>, host: bytes, bypass: seq<bytes>, t: Table, now: u64)
    ensures Decide(v6, host, bypass, t, now) == Direct <==>
            || Local(v6, host)
            || (ParseIp(v6, host).None? && Bypassed(host, bypass))
            || (exists ip :: ParseIp(v6, host) == Some(ip) && ip in t && now < t[ip].expires
                             && Bypassed(t[ip].domain, bypass))
  {
    hide Local, LocalHost, ParseIp, Matches, Bypassed;
    LocalExactly(v6, host);
    MatchesExactly(host, bypass);
    if Bypassed(host, bypass) { BypassedNotEmpty(host, bypass); }
    match ParseIp(v6, host) {
      case None =>
      case Some(ip) =>
        if ip in t {
          MatchesExactly(t[ip].domain, bypass);
          if Bypassed(t[ip].domain, bypass) { BypassedNotEmpty(t[ip].domain, bypass); }
        }
    }
  }
}
