/** The per-source authentication rate limiter of `server_limits.rs`.

    Time is a `nat` read under the table lock. The operations are functions on a
    value (`Limiter`); the class `AuthRateLimiter` performs them in place and is
    proved equal to them. The guarantees range over whole timed runs. */
module AuthLimiter {
  import opened Prelude

  /** Addresses as numbers: 32 and 128 bits wide. */
  datatype Ip = V4(bits: nat) | V6(bits: nat)

  const MAX_TRACKED_IPS: nat := 100_000
  const TWO_32: nat := 0x1_0000_0000
  const TWO_64: nat := 0x1_0000_0000_0000_0000

  /** Bucket of an address: IPv4 as is, IPv4-mapped IPv6 as that IPv4 address,
      any other IPv6 masked to its /64. */
  function AuthLimitKey(ip: Ip): Ip {
    match ip
    case V4(_) => ip
    case V6(b) =>
      if b / TWO_32 == 0xFFFF then V4(b % TWO_32)
      else V6(b / TWO_64 * TWO_64)
  }

  predicate Mapped(ip: Ip) { ip.V6? && ip.bits / TWO_32 == 0xFFFF }

  /** Two addresses share a bucket exactly when they are the same IPv4 address, mapped or
      not, or two proper IPv6 addresses of one /64. */
  lemma SameBucketExactly(a: Ip, b: Ip)
    ensures AuthLimitKey(a) == AuthLimitKey(b) <==>
            if a.V4? || Mapped(a) then
              (b.V4? || Mapped(b)) &&
              (if a.V4? then a.bits else a.bits % TWO_32) == (if b.V4? then b.bits else b.bits % TWO_32)
            else b.V6? && !Mapped(b) && a.bits / TWO_64 == b.bits / TWO_64
    ensures AuthLimitKey(AuthLimitKey(a)) == AuthLimitKey(a)
  {
    if a.V6? && !Mapped(a) {
      var q := a.bits / TWO_64;
      assert q * TWO_64 / TWO_32 == q * TWO_32;
      assert q * TWO_32 != 0xFFFF;
      assert q * TWO_64 / TWO_64 == q;
    }
  }

  datatype Config = Config(enabled: bool, maxFailures: nat, window: nat, ban: nat)

  datatype Bucket = Bucket(failures: nat, windowStart: nat, bannedUntil: Option<nat>)

  type Table = map<Ip, Bucket>

  datatype Limiter = Limiter(table: Table, bansActive: u64, failuresTotal: u64, bansIssued: u64)

  const INITIAL := Limiter(map[], 0, 0, 0)

  predicate Banned(b: Bucket, now: nat) {
    b.bannedUntil.Some? && now < b.bannedUntil.value
  }

  /** Which entries `prune_locked` keeps. */
  predicate Keep(cfg: Config, b: Bucket, now: nat) {
    match b.bannedUntil
    case Some(until) => now < until
    case None => SatSub(now, b.windowStart) <= cfg.window
  }

  function WithBan(t: Table): set<Ip> {
    set k | k in t && t[k].bannedUntil.Some?
  }

  function ExpiredBans(t: Table, now: nat): set<Ip> {
    set k | k in t && t[k].bannedUntil.Some? && !Banned(t[k], now)
  }

  function Pruned(cfg: Config, s: Limiter, now: nat): Limiter {
    s.(table := map k | k in s.table && Keep(cfg, s.table[k], now) :: s.table[k],
       bansActive := WrapSub64(s.bansActive, |ExpiredBans(s.table, now)|))
  }

  /** The eviction choice: an oldest entry that is not banned now, if there is one. */
  ghost predicate VictimChoice(t: Table, now: nat, victim: Option<Ip>) {
    match victim
    case None => forall k | k in t :: Banned(t[k], now)
    case Some(v) =>
      && v in t && !Banned(t[v], now)
      && forall k | k in t && !Banned(t[k], now) :: t[v].windowStart <= t[k].windowStart
  }

  predicate NeedsRoom(t: Table, key: Ip) {
    |t| >= MAX_TRACKED_IPS && key !in t
  }

  /** Admission of a new key: prune when full, then evict. The boolean says whether the
      failure is recorded at all. */
  function MakeRoom(cfg: Config, s: Limiter, key: Ip, now: nat, victim: Option<Ip>): (Limiter, bool) {
    if !NeedsRoom(s.table, key) then (s, true) else
    var p := Pruned(cfg, s, now);
    if |p.table| < MAX_TRACKED_IPS then (p, true) else
    match victim
    case None => (p, false)
    case Some(v) => (p.(table := p.table - {v}), true)
  }

  /** One failure counted against an admitted key. */
  function Count(cfg: Config, s: Limiter, key: Ip, now: nat): Limiter {
    var b := if key in s.table then s.table[key] else Bucket(0, now, None);
    if Banned(b, now) then s else
    var bans := if b.bannedUntil.Some? then WrapSub64(s.bansActive, 1) else s.bansActive;
    var restart := SatSub(now, b.windowStart) > cfg.window;
    var start := if restart then now else b.windowStart;
    var failures := Min((if restart then 0 else b.failures) + 1, U32_MAX);
    if failures >= cfg.maxFailures then
      Limiter(s.table[key := Bucket(0, now, Some(now + cfg.ban))],
              WrapAdd64(bans, 1), WrapAdd64(s.failuresTotal, 1), WrapAdd64(s.bansIssued, 1))
    else
      Limiter(s.table[key := Bucket(failures, start, None)], bans, WrapAdd64(s.failuresTotal, 1), s.bansIssued)
  }

  function AfterFailure(cfg: Config, s: Limiter, ip: Ip, now: nat, victim: Option<Ip>): Limiter {
    if !cfg.enabled then s else
    var key := AuthLimitKey(ip);
    var (roomy, admitted) := MakeRoom(cfg, s, key, now, victim);
    if admitted then Count(cfg, roomy, key, now) else roomy
  }

  function Checked(cfg: Config, s: Limiter, ip: Ip, now: nat): (Limiter, bool) {
    var key := AuthLimitKey(ip);
    if !cfg.enabled || key !in s.table || s.table[key].bannedUntil.None? then (s, true)
    else if Banned(s.table[key], now) then (s, false)
    else
      (s.(table := s.table[key := s.table[key].(bannedUntil := None, failures := 0)],
          bansActive := WrapSub64(s.bansActive, 1)), true)
  }

  function AfterSuccess(cfg: Config, s: Limiter, ip: Ip, now: nat): Limiter {
    var key := AuthLimitKey(ip);
    if !cfg.enabled || key !in s.table || Banned(s.table[key], now) then s
    else
      s.(table := s.table - {key},
         bansActive := if s.table[key].bannedUntil.Some? then WrapSub64(s.bansActive, 1) else s.bansActive)
  }

  lemma WrapSubSmall(a: u64, n: nat)
    requires n <= a
    ensures WrapSub64(a, n) == a - n
  {
  }

  lemma WrapSubStep(a: u64, n: nat)
    ensures WrapSub64(WrapSub64(a, n), 1) == WrapSub64(a, n + 1)
  {
  }

  /** Where `retain` is when the keys `todo` are still to be visited. */
  ghost function ExpiredAmong(all: Table, todo: set<Ip>, now: nat): set<Ip> {
    set k | k in all && k !in todo && all[k].bannedUntil.Some? && !Banned(all[k], now)
  }

  ghost function KeptAmong(cfg: Config, all: Table, todo: set<Ip>, now: nat): Table {
    map k | k in all && (k in todo || Keep(cfg, all[k], now)) :: all[k]
  }

  lemma PruneOne(cfg: Config, all: Table, todo: set<Ip>, k: Ip, now: nat)
    requires k in todo && todo <= all.Keys
    ensures var expires := all[k].bannedUntil.Some? && !Banned(all[k], now);
            |ExpiredAmong(all, todo - {k}, now)| == |ExpiredAmong(all, todo, now)| + if expires then 1 else 0
    ensures var kept := KeptAmong(cfg, all, todo, now);
            && k in kept && kept[k] == all[k]
            && KeptAmong(cfg, all, todo - {k}, now) == if Keep(cfg, all[k], now) then kept else kept - {k}
  {
    var expires := all[k].bannedUntil.Some? && !Banned(all[k], now);
    assert ExpiredAmong(all, todo - {k}, now) == ExpiredAmong(all, todo, now) + if expires then {k} else {};
    assert k !in ExpiredAmong(all, todo, now);
  }

  lemma PruneEnds(cfg: Config, all: Table, now: nat)
    ensures |ExpiredAmong(all, all.Keys, now)| == 0 && KeptAmong(cfg, all, all.Keys, now) == all
    ensures ExpiredAmong(all, {}, now) == ExpiredBans(all, now)
    ensures KeptAmong(cfg, all, {}, now) == map k | k in all && Keep(cfg, all[k], now) :: all[k]
  {
    assert ExpiredAmong(all, all.Keys, now) == {};
  }

  // ---------------------------------------------------------------------------
  // The object, changed in place
  // ---------------------------------------------------------------------------

  class AuthRateLimiter {
    const cfg: Config
    var table: Table
    var bansActive: u64
    var failuresTotal: u64
    var bansIssued: u64

    function State(): Limiter reads this {
      Limiter(table, bansActive, failuresTotal, bansIssued)
    }

    /** The counter of bans is exact and the table within its cap. */
    ghost predicate Valid() reads this { Inv(State()) }

    constructor (cfg: Config)
      ensures Valid() && State() == INITIAL && this.cfg == cfg
    {
      this.cfg := cfg;
      table, bansActive, failuresTotal, bansIssued := map[], 0, 0, 0;
      new;
      assert WithBan(table) == {};
    }

    /** Refuses exactly while the bucket is banned; no other bucket is touched, and no
        expired ban of this one stays behind. */
    method CheckAllowed(ip: Ip, now: nat) returns (ok: bool)
      requires Valid()
      modifies this
      ensures Valid() && (State(), ok) == Checked(cfg, old(State()), ip, now)
      ensures var key := AuthLimitKey(ip);
              && (ok <==> !(cfg.enabled && key in old(table) && Banned(old(table)[key], now)))
              && table - {key} == old(table) - {key} && (key in table <==> key in old(table))
              && (cfg.enabled && ok && key in table ==> table[key].bannedUntil.None?)
    {
      StepKeepsInv(cfg, State(), Check(ip, now));
      hide Inv, AuthLimitKey;
      if !cfg.enabled { return true; }
      var key := AuthLimitKey(ip);
      if key !in table { return true; }
      var st := table[key];
      match st.bannedUntil {
        case None =>
        case Some(until) =>
          if now < until { return false; }
          table := table[key := st.(bannedUntil := None, failures := 0)];
          bansActive := WrapSub64(bansActive, 1);
      }
      return true;
    }

    /** `HashMap::retain` visits the entries one by one, in any order. */
    method PruneLocked(now: nat)
      modifies this
      ensures State() == Pruned(cfg, old(State()), now)
    {
      ghost var all := table;
      ghost var before := bansActive;
      var todo := table.Keys;
      PruneEnds(cfg, all, now);
      assert WrapSub64(before, 0) == before;
      hide WrapSub64, ExpiredAmong, KeptAmong;
      while todo != {}
        invariant todo <= all.Keys
        invariant bansActive == WrapSub64(before, |ExpiredAmong(all, todo, now)|)
        invariant table == KeptAmong(cfg, all, todo, now)
        invariant failuresTotal == old(failuresTotal) && bansIssued == old(bansIssued)
        decreases todo
      {
        var k :| k in todo;
        PruneOne(cfg, all, todo, k, now);
        WrapSubStep(before, |ExpiredAmong(all, todo, now)|);
        todo := todo - {k};
        var st := table[k];
        match st.bannedUntil {
          case Some(until) =>
            if now >= until {
              bansActive := WrapSub64(bansActive, 1);
              table := table - {k};
            }
          case None =>
            if SatSub(now, st.windowStart) > cfg.window {
              table := table - {k};
            }
        }
      }
    }

    /** `iter().filter(..).min_by_key(..)` over the table, in any order. */
    method FindVictim(now: nat) returns (victim: Option<Ip>)
      ensures VictimChoice(table, now, victim)
    {
      victim := None;
      var todo := table.Keys;
      while todo != {}
        invariant todo <= table.Keys
        invariant victim.None? ==> forall k | k in table && k !in todo :: Banned(table[k], now)
        invariant victim.Some? ==>
                    && victim.value in table && !Banned(table[victim.value], now)
                    && forall k | k in table && k !in todo && !Banned(table[k], now) ::
                         table[victim.value].windowStart <= table[k].windowStart
        decreases todo
      {
        var k :| k in todo;
        todo := todo - {k};
        if !Banned(table[k], now)
           && (victim.None? || table[k].windowStart < table[victim.value].windowStart) {
          victim := Some(k);
        }
      }
    }

    method MakeRoomFor(key: Ip, now: nat) returns (admitted: bool, ghost victim: Option<Ip>)
      requires cfg.enabled
      modifies this
      ensures LegalVictim(cfg, old(State()), key, now, victim)
      ensures (State(), admitted) == MakeRoom(cfg, old(State()), key, now, victim)
    {
      victim := None;
      if |table| >= MAX_TRACKED_IPS && key !in table {
        PruneLocked(now);
        hide Pruned;
        if |table| >= MAX_TRACKED_IPS {
          var v := FindVictim(now);
          victim := v;
          match v {
            case Some(k) => table := table - {k};
            case None => return false, victim;
          }
        }
      }
      return true, victim;
    }

    method CountFailure(key: Ip, now: nat)
      modifies this
      ensures State() == Count(cfg, old(State()), key, now)
    {
      hide WrapAdd64, WrapSub64;
      var st := if key in table then table[key] else Bucket(0, now, None);
      match st.bannedUntil {
        case None =>
        case Some(until) =>
          if now < until { return; }
          st := st.(bannedUntil := None);
          bansActive := WrapSub64(bansActive, 1);
      }
      if SatSub(now, st.windowStart) > cfg.window {
        st := st.(failures := 0, windowStart := now);
      }
      st := st.(failures := Min(st.failures + 1, U32_MAX));
      failuresTotal := WrapAdd64(failuresTotal, 1);
      if st.failures >= cfg.maxFailures {
        st := Bucket(0, now, Some(now + cfg.ban));
        bansActive := WrapAdd64(bansActive, 1);
        bansIssued := WrapAdd64(bansIssued, 1);
      }
      table := table[key := st];
    }

    method RecordFailure(ip: Ip, now: nat) returns (ghost victim: Option<Ip>)
      requires Valid()
      modifies this
      ensures Valid() && LegalVictim(cfg, old(State()), AuthLimitKey(ip), now, victim)
      ensures State() == AfterFailure(cfg, old(State()), ip, now, victim)
    {
      hide AuthLimitKey, MakeRoom, Count, Inv, LegalVictim;
      victim := None;
      if !cfg.enabled {
        NoVictimNeeded(cfg, State(), AuthLimitKey(ip), now);
        return;
      }
      var key := AuthLimitKey(ip);
      var admitted;
      admitted, victim := MakeRoomFor(key, now);
      if admitted { CountFailure(key, now); }
      StepKeepsInv(cfg, old(State()), Failure(ip, now, victim));
    }

    /** Afterwards the bucket is tracked exactly if it is banned now; the others stay. */
    method RecordSuccess(ip: Ip, now: nat)
      requires Valid()
      modifies this
      ensures Valid() && State() == AfterSuccess(cfg, old(State()), ip, now)
      ensures var key := AuthLimitKey(ip);
              && table - {key} == old(table) - {key}
              && (cfg.enabled ==> (key in table <==> key in old(table) && Banned(old(table)[key], now)))
    {
      StepKeepsInv(cfg, State(), Success(ip, now));
      hide Inv, AuthLimitKey;
      if !cfg.enabled { return; }
      var key := AuthLimitKey(ip);
      if key in table {
        if Banned(table[key], now) { return; }
        var st := table[key];
        table := table - {key};
        if st.bannedUntil.Some? {
          bansActive := WrapSub64(bansActive, 1);
        }
      }
    }
  }

  // ---------------------------------------------------------------------------
  // Runs
  // ---------------------------------------------------------------------------

  lemma NoVictimNeeded(cfg: Config, s: Limiter, key: Ip, now: nat)
    requires !cfg.enabled
    ensures LegalVictim(cfg, s, key, now, None)
  {
  }

  /** The eviction choice is constrained only where the code reaches it. */
  ghost predicate LegalVictim(cfg: Config, s: Limiter, key: Ip, now: nat, victim: Option<Ip>) {
    var p := Pruned(cfg, s, now);
    (cfg.enabled && NeedsRoom(s.table, key) && |p.table| >= MAX_TRACKED_IPS) ==>
      VictimChoice(p.table, now, victim)
  }

  datatype Event =
    | Check(ip: Ip, now: nat)
    | Failure(ip: Ip, now: nat, victim: Option<Ip>)
    | Success(ip: Ip, now: nat)
  {
    function Key(): Ip { AuthLimitKey(ip) }
  }

  ghost predicate Legal(cfg: Config, s: Limiter, e: Event) {
    e.Failure? ==> LegalVictim(cfg, s, e.Key(), e.now, e.victim)
  }

  function Step(cfg: Config, s: Limiter, e: Event): Limiter {
    match e
    case Check(ip, now) => Checked(cfg, s, ip, now).0
    case Failure(ip, now, victim) => AfterFailure(cfg, s, ip, now, victim)
    case Success(ip, now) => AfterSuccess(cfg, s, ip, now)
  }

  /** `ss[i]` is the state before `es[i]`; the clock never runs backwards. */
  ghost predicate Run(cfg: Config, ss: seq<Limiter>, es: seq<Event>) {
    && |ss| == |es| + 1
    && ss[0] == INITIAL
    && (forall i {:trigger es[i]} | 0 <= i < |es| :: Legal(cfg, ss[i], es[i]) && ss[i + 1] == Step(cfg, ss[i], es[i]))
    && (forall i, j | 0 <= i <= j < |es| :: es[i].now <= es[j].now)
  }

  lemma RunStarts(cfg: Config, ss: seq<Limiter>, es: seq<Event>)
    requires Run(cfg, ss, es)
    ensures ss[0] == INITIAL
  {
  }

  lemma RunAt(cfg: Config, ss: seq<Limiter>, es: seq<Event>, i: nat)
    requires Run(cfg, ss, es)
    ensures |ss| == |es| + 1
    ensures i < |es| ==> Legal(cfg, ss[i], es[i]) && ss[i + 1] == Step(cfg, ss[i], es[i])
    ensures 0 < i < |es| ==> es[i - 1].now <= es[i].now
  {
    hide Legal, Step;
  }

  /** What every operation keeps. */
  ghost predicate Inv(s: Limiter) {
    && |s.table| <= MAX_TRACKED_IPS
    && s.bansActive == |WithBan(s.table)|
    && (forall k | k in s.table && s.table[k].bannedUntil.Some? :: s.table[k].failures == 0)
  }

  lemma PruneKeepsInv(cfg: Config, s: Limiter, now: nat)
    requires Inv(s)
    ensures Inv(Pruned(cfg, s, now))
    ensures ExpiredBans(Pruned(cfg, s, now).table, now) == {}
  {
    var p := Pruned(cfg, s, now);
    SubsetSize(p.table.Keys, s.table.Keys);
    PrunedBans(cfg, s, now);
    var all, expired := WithBan(s.table), ExpiredBans(s.table, now);
    SubsetSize(expired, all);
    DifferenceSize(all, expired);
    WrapSubSmall(s.bansActive, |expired|);
    hide WrapSub64;
  }

  lemma PrunedBans(cfg: Config, s: Limiter, now: nat)
    ensures WithBan(Pruned(cfg, s, now).table) == WithBan(s.table) - ExpiredBans(s.table, now)
    ensures ExpiredBans(s.table, now) <= WithBan(s.table)
  {
  }

  lemma DifferenceSize<T>(a: set<T>, b: set<T>)
    requires b <= a
    ensures |a - b| == |a| - |b|
  {
    assert a == b + (a - b);
  }

  lemma BansAfterUpdate(t: Table, key: Ip, b: Bucket)
    ensures WithBan(t[key := b]) ==
            if b.bannedUntil.Some? then WithBan(t) + {key} else WithBan(t) - {key}
    ensures (t[key := b]).Keys == t.Keys + {key}
  {
  }

  lemma BansAfterRemoval(t: Table, key: Ip)
    ensures WithBan(t - {key}) == WithBan(t) - {key}
    ensures (t - {key}).Keys == t.Keys - {key}
  {
  }

  lemma OneElementSize<T>(a: set<T>, x: T)
    ensures |a + {x}| == |a| + if x in a then 0 else 1
    ensures |a - {x}| == |a| - if x in a then 1 else 0
  {
    if x in a {
      assert a + {x} == a;
    } else {
      assert a - {x} == a;
    }
  }

  /** Reaching `bans` from the counter, then adding one when the new entry carries a ban. */
  lemma CounterMoves(n: u64, had: bool, size: nat)
    requires n == size <= MAX_TRACKED_IPS && (had ==> size > 0)
    ensures var bans := if had then WrapSub64(n, 1) else n;
            && bans == size - (if had then 1 else 0)
            && WrapAdd64(bans, 1) == bans + 1
  {
  }

  /** What an update of one entry does to the counted quantities. */
  lemma UpdateKeepsInv(s: Limiter, key: Ip, b: Bucket, r: Limiter)
    requires Inv(s) && (key in s.table || |s.table| < MAX_TRACKED_IPS)
    requires b.bannedUntil.Some? ==> b.failures == 0
    requires r.table == s.table[key := b]
    requires var had := key in s.table && s.table[key].bannedUntil.Some?;
             var bans := if had then WrapSub64(s.bansActive, 1) else s.bansActive;
             r.bansActive == if b.bannedUntil.Some? then WrapAdd64(bans, 1) else bans
    ensures Inv(r)
  {
    BansAfterUpdate(s.table, key, b);
    OneElementSize(WithBan(s.table), key);
    OneElementSize(s.table.Keys, key);
    SubsetSize(WithBan(s.table), s.table.Keys);
    CounterMoves(s.bansActive, key in WithBan(s.table), |WithBan(s.table)|);
    hide WrapSub64, WrapAdd64;
  }

  lemma RemovalKeepsInv(s: Limiter, key: Ip, r: Limiter)
    requires Inv(s) && key in s.table && r.table == s.table - {key}
    requires r.bansActive == if s.table[key].bannedUntil.Some? then WrapSub64(s.bansActive, 1) else s.bansActive
    ensures Inv(r) && |r.table| < MAX_TRACKED_IPS
  {
    BansAfterRemoval(s.table, key);
    OneElementSize(WithBan(s.table), key);
    OneElementSize(s.table.Keys, key);
    SubsetSize(WithBan(s.table), s.table.Keys);
    CounterMoves(s.bansActive, key in WithBan(s.table), |WithBan(s.table)|);
    hide WrapSub64, WrapAdd64;
  }

  lemma CountKeepsInv(cfg: Config, s: Limiter, key: Ip, now: nat)
    requires Inv(s) && (key in s.table || |s.table| < MAX_TRACKED_IPS)
    ensures Inv(Count(cfg, s, key, now))
  {
    hide WrapSub64, WrapAdd64, Inv;
    var r := Count(cfg, s, key, now);
    if r != s { UpdateKeepsInv(s, key, r.table[key], r); }
  }

  /** Prune-then-evict never evicts a carried ban, so the counter needs no adjustment there. */
  lemma MakeRoomKeepsInv(cfg: Config, s: Limiter, key: Ip, now: nat, victim: Option<Ip>)
    requires Inv(s) && cfg.enabled && LegalVictim(cfg, s, key, now, victim)
    ensures var (roomy, admitted) := MakeRoom(cfg, s, key, now, victim);
            Inv(roomy) && (admitted ==> key in roomy.table || |roomy.table| < MAX_TRACKED_IPS)
  {
    if NeedsRoom(s.table, key) {
      PruneKeepsInv(cfg, s, now);
      var p := Pruned(cfg, s, now);
      hide Pruned;
      if |p.table| >= MAX_TRACKED_IPS && victim.Some? {
        var v := victim.value;
        assert v !in ExpiredBans(p.table, now);
        RemovalKeepsInv(p, v, p.(table := p.table - {v}));
      }
    }
  }

  lemma StepKeepsInv(cfg: Config, s: Limiter, e: Event)
    requires Inv(s) && Legal(cfg, s, e)
    ensures Inv(Step(cfg, s, e))
  {
    hide WrapSub64, WrapAdd64, AuthLimitKey, MakeRoom, Count, Inv;
    var key := e.Key();
    if cfg.enabled {
      match e {
        case Check(_, _) =>
          if Step(cfg, s, e) != s {
            UpdateKeepsInv(s, key, s.table[key].(bannedUntil := None, failures := 0), Step(cfg, s, e));
          }
        case Success(_, _) =>
          if key in s.table && !Banned(s.table[key], e.now) { RemovalKeepsInv(s, key, Step(cfg, s, e)); }
        case Failure(_, now, victim) =>
          MakeRoomKeepsInv(cfg, s, key, now, victim);
          var (roomy, admitted) := MakeRoom(cfg, s, key, now, victim);
          if admitted { CountKeepsInv(cfg, roomy, key, now); }
      }
    }
  }

  /** `bans_active` is exactly the number of carried bans and the table stays within its
      cap, in every reachable state. */
  lemma {:induction false} RunKeepsInv(cfg: Config, ss: seq<Limiter>, es: seq<Event>, i: nat)
    requires Run(cfg, ss, es) && i < |ss|
    ensures Inv(ss[i])
  {
    if i == 0 {
      assert WithBan(INITIAL.table) == {};
    } else {
      RunKeepsInv(cfg, ss, es, i - 1);
      StepKeepsInv(cfg, ss[i - 1], es[i - 1]);
    }
  }

  // ---------------------------------------------------------------------------
  // A ban lasts
  // ---------------------------------------------------------------------------

  ghost predicate BannedUntil(s: Limiter, key: Ip, until: nat) {
    key in s.table && s.table[key].bannedUntil == Some(until)
  }

  lemma StepKeepsBan(cfg: Config, s: Limiter, e: Event, key: Ip, until: nat)
    requires Legal(cfg, s, e) && BannedUntil(s, key, until) && e.now < until
    ensures BannedUntil(Step(cfg, s, e), key, until)
  {
    if cfg.enabled && e.Failure? && NeedsRoom(s.table, e.Key()) {
      var p := Pruned(cfg, s, e.now);
      assert BannedUntil(p, key, until);
    }
  }

  /** Once banned until T, every check of that bucket before T fails, whatever
      happened in between. */
  lemma {:induction false} BanHolds(cfg: Config, ss: seq<Limiter>, es: seq<Event>, key: Ip, until: nat, i: nat, j: nat)
    requires Run(cfg, ss, es) && cfg.enabled && i <= j < |es|
    requires BannedUntil(ss[i], key, until)
    requires es[j].now < until
    ensures BannedUntil(ss[j], key, until)
    ensures es[j].Check? && es[j].Key() == key ==> !Checked(cfg, ss[j], es[j].ip, es[j].now).1
    decreases j - i
  {
    hide Run, Step, Legal, AuthLimitKey;
    RunAt(cfg, ss, es, j);
    if i < j {
      RunAt(cfg, ss, es, j - 1);
      BanHolds(cfg, ss, es, key, until, i, j - 1);
      StepKeepsBan(cfg, ss[j - 1], es[j - 1], key, until);
    }
  }

  // ---------------------------------------------------------------------------
  // When a ban is issued
  // ---------------------------------------------------------------------------

  /** Event `e` banned the bucket `key`. */
  predicate Bans(cfg: Config, s: Limiter, e: Event, key: Ip) {
    && e.Failure? && e.Key() == key
    && Step(cfg, s, e).bansIssued != s.bansIssued
  }

  /** The failures of `key` among `es` not earlier than `from`. */
  function FailuresSince(es: seq<Event>, key: Ip, from: nat): nat {
    if es == [] then 0
    else
      var e := es[|es| - 1];
      FailuresSince(es[..|es| - 1], key, from)
      + if e.Failure? && e.Key() == key && e.now >= from then 1 else 0
  }

  ghost predicate CountsSound(s: Limiter, es: seq<Event>, key: Ip) {
    key in s.table ==>
      && es != [] && s.table[key].windowStart <= es[|es| - 1].now
      && s.table[key].failures <= FailuresSince(es, key, s.table[key].windowStart)
  }

  predicate SameEntry(s: Limiter, t: Limiter, key: Ip) {
    (key in s.table <==> key in t.table) && (key in s.table ==> s.table[key] == t.table[key])
  }

  lemma CountLeavesOthers(cfg: Config, s: Limiter, other: Ip, now: nat, key: Ip)
    requires other != key
    ensures SameEntry(s, Count(cfg, s, other, now), key)
  {
  }

  lemma OneMoreEvent(es: seq<Event>, e: Event, key: Ip, from: nat)
    ensures FailuresSince(es + [e], key, from) ==
            FailuresSince(es, key, from) + if e.Failure? && e.Key() == key && e.now >= from then 1 else 0
  {
    assert (es + [e])[..|es|] == es;
  }

  /** Making room drops entries and changes none. */
  lemma RoomOnlyDrops(cfg: Config, s: Limiter, key: Ip, now: nat, victim: Option<Ip>)
    ensures var roomy := MakeRoom(cfg, s, key, now, victim).0;
            && roomy.bansIssued == s.bansIssued
            && forall k | k in roomy.table :: k in s.table && roomy.table[k] == s.table[k]
  {
  }

  lemma KeptEntrySound(s: Limiter, t: Limiter, es: seq<Event>, e: Event, key: Ip)
    requires CountsSound(s, es, key) && (es != [] ==> es[|es| - 1].now <= e.now)
    requires key in t.table ==> key in s.table && t.table[key].windowStart == s.table[key].windowStart
                                && t.table[key].failures <= s.table[key].failures
    ensures CountsSound(t, es + [e], key)
  {
    if key in t.table { OneMoreEvent(es, e, key, t.table[key].windowStart); }
    hide FailuresSince;
  }

  lemma CountSound(cfg: Config, s: Limiter, es: seq<Event>, e: Event)
    requires e.Failure? && CountsSound(s, es, e.Key()) && (es != [] ==> es[|es| - 1].now <= e.now)
    ensures var t := Count(cfg, s, e.Key(), e.now);
            && CountsSound(t, es + [e], e.Key())
            && (t.bansIssued != s.bansIssued ==>
                  cfg.maxFailures <= FailuresSince(es + [e], e.Key(), SatSub(e.now, cfg.window)))
  {
    var key := e.Key();
    var from := SatSub(e.now, cfg.window);
    OneMoreEvent(es, e, key, e.now);
    OneMoreEvent(es, e, key, from);
    if key in s.table {
      var start := s.table[key].windowStart;
      OneMoreEvent(es, e, key, start);
      if from <= start { FailuresSinceMonotone(es, key, from, start); }
    }
    hide FailuresSince, AuthLimitKey;
  }

  lemma FailureSound(cfg: Config, s: Limiter, es: seq<Event>, e: Event, key: Ip)
    requires cfg.enabled && e.Failure? && CountsSound(s, es, key) && (es != [] ==> es[|es| - 1].now <= e.now)
    ensures CountsSound(Step(cfg, s, e), es + [e], key)
    ensures Bans(cfg, s, e, key) ==>
              cfg.maxFailures <= FailuresSince(es + [e], key, SatSub(e.now, cfg.window))
  {
    hide AuthLimitKey, FailuresSince;
    RoomOnlyDrops(cfg, s, e.Key(), e.now, e.victim);
    var (roomy, admitted) := MakeRoom(cfg, s, e.Key(), e.now, e.victim);
    assert CountsSound(roomy, es, key);
    var t := if admitted then Count(cfg, roomy, e.Key(), e.now) else roomy;
    assert Step(cfg, s, e) == t;
    hide MakeRoom, Count, CountsSound;
    if admitted && e.Key() == key {
      CountSound(cfg, roomy, es, e);
    } else {
      if admitted { CountLeavesOthers(cfg, roomy, e.Key(), e.now, key); }
      KeptEntrySound(roomy, t, es, e, key);
    }
  }

  lemma StepKeepsCountsSound(cfg: Config, s: Limiter, es: seq<Event>, e: Event, key: Ip)
    requires CountsSound(s, es, key)
    requires es != [] ==> es[|es| - 1].now <= e.now
    ensures CountsSound(Step(cfg, s, e), es + [e], key)
    ensures Bans(cfg, s, e, key) ==>
              cfg.maxFailures <= FailuresSince(es + [e], key, SatSub(e.now, cfg.window))
  {
    hide AuthLimitKey, FailuresSince, CountsSound;
    if cfg.enabled && e.Failure? {
      hide Step;
      FailureSound(cfg, s, es, e, key);
    } else {
      KeptEntrySound(s, Step(cfg, s, e), es, e, key);
    }
  }

  lemma {:induction false} FailuresSinceMonotone(es: seq<Event>, key: Ip, a: nat, b: nat)
    requires a <= b
    ensures FailuresSince(es, key, b) <= FailuresSince(es, key, a)
  {
    if es != [] { FailuresSinceMonotone(es[..|es| - 1], key, a, b); }
  }

  lemma {:induction false} RunCountsSound(cfg: Config, ss: seq<Limiter>, es: seq<Event>, key: Ip, i: nat)
    requires Run(cfg, ss, es) && i < |ss|
    ensures CountsSound(ss[i], es[..i], key)
  {
    hide Run, Step, Legal, FailuresSince, AuthLimitKey;
    if i == 0 {
      RunStarts(cfg, ss, es);
    } else {
      RunAt(cfg, ss, es, i - 1);
      RunCountsSound(cfg, ss, es, key, i - 1);
      StepKeepsCountsSound(cfg, ss[i - 1], es[..i - 1], es[i - 1], key);
      assert es[..i] == es[..i - 1] + [es[i - 1]];
    }
  }

  /** No bucket is banned without cause: a ban at event `j` follows at least
      `maxFailures` failures of that bucket within the last `window`. */
  lemma BanHasCause(cfg: Config, ss: seq<Limiter>, es: seq<Event>, key: Ip, j: nat)
    requires Run(cfg, ss, es) && j < |es|
    requires Bans(cfg, ss[j], es[j], key)
    ensures cfg.maxFailures <= FailuresSince(es[..j + 1], key, SatSub(es[j].now, cfg.window))
  {
    hide *;
    RunAt(cfg, ss, es, j);
    RunCountsSound(cfg, ss, es, key, j);
    StepKeepsCountsSound(cfg, ss[j], es[..j], es[j], key);
    assert es[..j + 1] == es[..j] + [es[j]];
  }

  // ---------------------------------------------------------------------------
  // What bans and counters say
  // ---------------------------------------------------------------------------

  lemma CountSets(cfg: Config, s: Limiter, key: Ip, now: nat)
    ensures var t := Count(cfg, s, key, now);
            && (t.bansIssued != s.bansIssued ==>
                  key in t.table && t.table[key] == Bucket(0, now, Some(now + cfg.ban))
                  && t.bansIssued == WrapAdd64(s.bansIssued, 1))
            && t.failuresTotal ==
               WrapAdd64(s.failuresTotal, if key in s.table && Banned(s.table[key], now) then 0 else 1)
            && (t.bansIssued == s.bansIssued && key in t.table && t.table[key].bannedUntil.Some? ==>
                  key in s.table && t.table[key] == s.table[key])
  {
    WrapMoves(s.bansIssued);
    WrapMoves(s.failuresTotal);
    hide WrapAdd64, WrapSub64;
  }

  lemma WrapMoves(a: u64)
    ensures WrapAdd64(a, 0) == a && WrapAdd64(a, 1) != a
  {
  }

  /** A ban holds from the failure that issued it until `ban` later. */
  lemma BanSets(cfg: Config, s: Limiter, e: Event, key: Ip)
    requires Bans(cfg, s, e, key)
    ensures BannedUntil(Step(cfg, s, e), key, e.now + cfg.ban)
    ensures Step(cfg, s, e).bansIssued == WrapAdd64(s.bansIssued, 1)
  {
    hide AuthLimitKey, WrapAdd64;
    if cfg.enabled {
      RoomOnlyDrops(cfg, s, key, e.now, e.victim);
      var (roomy, admitted) := MakeRoom(cfg, s, key, e.now, e.victim);
      hide MakeRoom, Count;
      if admitted { CountSets(cfg, roomy, key, e.now); }
    }
  }

  /** No bucket carries a ban that no failure issued. */
  lemma BansComeFromFailures(cfg: Config, s: Limiter, e: Event, key: Ip, until: nat)
    requires BannedUntil(Step(cfg, s, e), key, until)
    ensures BannedUntil(s, key, until) || (Bans(cfg, s, e, key) && until == e.now + cfg.ban)
  {
    hide AuthLimitKey;
    if e.Failure? && cfg.enabled {
      RoomOnlyDrops(cfg, s, e.Key(), e.now, e.victim);
      var (roomy, admitted) := MakeRoom(cfg, s, e.Key(), e.now, e.victim);
      hide MakeRoom, Count;
      if admitted {
        CountSets(cfg, roomy, e.Key(), e.now);
        if e.Key() != key { CountLeavesOthers(cfg, roomy, e.Key(), e.now, key); }
      }
    }
  }

  /** A failure that counts: its bucket is not banned now and there is room for it. */
  ghost predicate Counted(cfg: Config, s: Limiter, e: Event) {
    && cfg.enabled && e.Failure? && !(e.Key() in s.table && Banned(s.table[e.Key()], e.now))
    && !(|s.table| >= 100_000 && e.Key() !in s.table && e.victim.None?
         && |Pruned(cfg, s, e.now).table| >= 100_000)
  }

  lemma RoomKeeps(cfg: Config, s: Limiter, key: Ip, now: nat, victim: Option<Ip>)
    ensures var (roomy, admitted) := MakeRoom(cfg, s, key, now, victim);
            && roomy.failuresTotal == s.failuresTotal && roomy.bansIssued == s.bansIssued
            && (key in s.table ==> roomy == s && admitted)
            && (!admitted <==> |s.table| >= 100_000 && key !in s.table && victim.None?
                               && |Pruned(cfg, s, now).table| >= 100_000)
  {
  }

  lemma TotalsStep(cfg: Config, s: Limiter, e: Event)
    ensures Step(cfg, s, e).failuresTotal == WrapAdd64(s.failuresTotal, if Counted(cfg, s, e) then 1 else 0)
    ensures Step(cfg, s, e).bansIssued == WrapAdd64(s.bansIssued, if Bans(cfg, s, e, e.Key()) then 1 else 0)
  {
    hide AuthLimitKey, WrapAdd64;
    WrapMoves(s.failuresTotal);
    WrapMoves(s.bansIssued);
    if Bans(cfg, s, e, e.Key()) { BanSets(cfg, s, e, e.Key()); }
    if e.Failure? && cfg.enabled {
      RoomKeeps(cfg, s, e.Key(), e.now, e.victim);
      RoomOnlyDrops(cfg, s, e.Key(), e.now, e.victim);
      var (roomy, admitted) := MakeRoom(cfg, s, e.Key(), e.now, e.victim);
      hide MakeRoom, Count, Pruned;
      if admitted { CountSets(cfg, roomy, e.Key(), e.now); }
    }
  }

  ghost function CountedIn(cfg: Config, ss: seq<Limiter>, es: seq<Event>, i: nat): nat
    requires i <= |es| <= |ss|
  {
    if i == 0 then 0 else CountedIn(cfg, ss, es, i - 1) + if Counted(cfg, ss[i - 1], es[i - 1]) then 1 else 0
  }

  ghost function BansIn(cfg: Config, ss: seq<Limiter>, es: seq<Event>, i: nat): nat
    requires i <= |es| <= |ss|
  {
    if i == 0 then 0
    else BansIn(cfg, ss, es, i - 1) + if Bans(cfg, ss[i - 1], es[i - 1], es[i - 1].Key()) then 1 else 0
  }

  lemma WrapSum(a: u64, n: nat, k: nat)
    requires a == n % 0x1_0000_0000_0000_0000 && k <= 1
    ensures WrapAdd64(a, k) == (n + k) % 0x1_0000_0000_0000_0000
  {
  }

  /** The two published totals are the numbers of counted failures and of bans. */
  lemma {:induction false} TotalsExact(cfg: Config, ss: seq<Limiter>, es: seq<Event>, i: nat)
    requires Run(cfg, ss, es) && i < |ss| == |es| + 1
    ensures ss[i].failuresTotal == CountedIn(cfg, ss, es, i) % 0x1_0000_0000_0000_0000
    ensures ss[i].bansIssued == BansIn(cfg, ss, es, i) % 0x1_0000_0000_0000_0000
  {
    hide Run, Step, Counted, Bans, WrapAdd64;
    if i == 0 {
      RunStarts(cfg, ss, es);
    } else {
      RunAt(cfg, ss, es, i - 1);
      TotalsExact(cfg, ss, es, i - 1);
      TotalsStep(cfg, ss[i - 1], es[i - 1]);
      var (counted, bans) := (Counted(cfg, ss[i - 1], es[i - 1]), Bans(cfg, ss[i - 1], es[i - 1], es[i - 1].Key()));
      WrapSum(ss[i - 1].failuresTotal, CountedIn(cfg, ss, es, i - 1), if counted then 1 else 0);
      WrapSum(ss[i - 1].bansIssued, BansIn(cfg, ss, es, i - 1), if bans then 1 else 0);
    }
  }

  /** Pruning keeps exactly the bans that still run and the windows not yet over. */
  lemma PrunedExactly(cfg: Config, s: Limiter, now: nat, key: Ip)
    ensures key in Pruned(cfg, s, now).table <==>
            && key in s.table
            && (match s.table[key].bannedUntil
                case Some(until) => now < until
                case None => now <= s.table[key].windowStart + cfg.window)
  {
  }

  /** At most 100000 buckets are tracked, and the active bans are exactly those carried. */
  lemma TableBounded(cfg: Config, ss: seq<Limiter>, es: seq<Event>, i: nat)
    requires Run(cfg, ss, es) && i < |ss|
    ensures |ss[i].table| <= 100_000
    ensures ss[i].bansActive == |set k | k in ss[i].table && ss[i].table[k].bannedUntil.Some?|
  {
    hide Run;
    RunKeepsInv(cfg, ss, es, i);
  }

  /** The table is still full after pruning and `key` is the one that gives way. */
  ghost predicate Loses(cfg: Config, s: Limiter, e: Event, key: Ip) {
    && e.Failure? && NeedsRoom(s.table, e.Key())
    && |Pruned(cfg, s, e.now).table| >= MAX_TRACKED_IPS
    && (e.victim == Some(key) || (e.Key() == key && e.victim.None?))
  }

  ghost predicate BelowThreshold(cfg: Config, s: Limiter) {
    forall k | k in s.table :: s.table[k].failures < cfg.maxFailures
  }

  /** After `c` failures of `key` inside [a, a + window] without a ban: the entry still
      holds its old window with all `c` of them, or its window began inside the interval
      and misses at most `maxFailures - 1`. */
  ghost predicate Segment(cfg: Config, s: Limiter, key: Ip, a: nat, c: nat) {
    if key !in s.table then c < cfg.maxFailures
    else
      var b := s.table[key];
      && (b.bannedUntil.Some? ==> b.bannedUntil.value <= a && c == 0)
      && (if b.windowStart < a then c <= b.failures else c < b.failures + cfg.maxFailures)
  }

  function IsFailureOf(e: Event, key: Ip): nat {
    if e.Failure? && e.Key() == key then 1 else 0
  }

  /** One uneventful step for `key`: inside the interval, no success, no loss, no ban. */
  ghost predicate Quiet(cfg: Config, s: Limiter, e: Event, s': Limiter, key: Ip, a: nat) {
    && s' == Step(cfg, s, e) && Inv(s) && BelowThreshold(cfg, s)
    && a <= e.now <= a + cfg.window
    && !(e.Success? && e.Key() == key) && !Loses(cfg, s, e, key) && !Bans(cfg, s, e, key)
  }

  lemma SegmentCount(cfg: Config, s: Limiter, key: Ip, now: nat, a: nat, c: nat)
    requires 1 <= cfg.maxFailures <= U32_MAX && a <= now <= a + cfg.window && BelowThreshold(cfg, s)
    requires Segment(cfg, s, key, a, c) && Count(cfg, s, key, now).bansIssued == s.bansIssued
    ensures Segment(cfg, Count(cfg, s, key, now), key, a, c + 1)
  {
  }

  /** Making room keeps the entry, or prunes it when its window is over. */
  lemma SegmentRoom(cfg: Config, s: Limiter, e: Event, key: Ip, a: nat, c: nat)
    requires e.Failure? && cfg.maxFailures >= 1 && BelowThreshold(cfg, s) && a <= e.now <= a + cfg.window
    requires Segment(cfg, s, key, a, c) && !Loses(cfg, s, e, key)
    ensures var roomy := MakeRoom(cfg, s, e.Key(), e.now, e.victim).0;
            Segment(cfg, roomy, key, a, c) && BelowThreshold(cfg, roomy) && roomy.bansIssued == s.bansIssued
  {
    hide AuthLimitKey;
  }

  lemma SegmentFailure(cfg: Config, s: Limiter, e: Event, s': Limiter, key: Ip, a: nat, c: nat)
    requires cfg.enabled && 1 <= cfg.maxFailures <= U32_MAX
    requires e.Failure? && Quiet(cfg, s, e, s', key, a) && Segment(cfg, s, key, a, c)
    ensures Segment(cfg, s', key, a, c + IsFailureOf(e, key))
  {
    hide Inv, AuthLimitKey, BelowThreshold;
    SegmentRoom(cfg, s, e, key, a, c);
    var (roomy, admitted) := MakeRoom(cfg, s, e.Key(), e.now, e.victim);
    if !admitted {
      assert e.Key() != key;
    } else if e.Key() == key {
      hide MakeRoom, Segment, Loses;
      assert s' == Count(cfg, roomy, key, e.now);
      hide Count;
      SegmentCount(cfg, roomy, key, e.now, a, c);
    } else {
      hide MakeRoom, Loses;
      assert s' == Count(cfg, roomy, e.Key(), e.now);
      hide Count;
      CountLeavesOthers(cfg, roomy, e.Key(), e.now, key);
    }
  }

  lemma SegmentStep(cfg: Config, s: Limiter, e: Event, s': Limiter, key: Ip, a: nat, c: nat)
    requires cfg.enabled && 1 <= cfg.maxFailures <= U32_MAX
    requires Quiet(cfg, s, e, s', key, a) && Segment(cfg, s, key, a, c)
    ensures Segment(cfg, s', key, a, c + IsFailureOf(e, key))
  {
    if e.Failure? {
      hide Quiet, Segment;
      SegmentFailure(cfg, s, e, s', key, a, c);
    } else {
      hide AfterFailure, Inv, BelowThreshold, AuthLimitKey;
    }
  }

  lemma StepKeepsBelowThreshold(cfg: Config, s: Limiter, e: Event)
    requires cfg.maxFailures >= 1 && BelowThreshold(cfg, s)
    ensures BelowThreshold(cfg, Step(cfg, s, e))
  {
  }

  lemma {:induction false} RunBelowThreshold(cfg: Config, ss: seq<Limiter>, es: seq<Event>, i: nat)
    requires Run(cfg, ss, es) && i < |ss| && cfg.maxFailures >= 1
    ensures BelowThreshold(cfg, ss[i])
  {
    if i > 0 {
      RunBelowThreshold(cfg, ss, es, i - 1);
      StepKeepsBelowThreshold(cfg, ss[i - 1], es[i - 1]);
    }
  }

  /** The part of a run from `lo` to `hi` lies in [a, a + window], has no success for
      `key`, and `key` never gives way to a full table. */
  ghost predicate QuietInterval(cfg: Config, ss: seq<Limiter>, es: seq<Event>, key: Ip, a: nat, lo: nat, hi: nat)
    requires |ss| == |es| + 1 && lo <= hi <= |es|
  {
    forall l | lo <= l < hi ::
      && a <= es[l].now <= a + cfg.window
      && !(es[l].Success? && es[l].Key() == key)
      && !Loses(cfg, ss[l], es[l], key)
  }

  lemma SegmentStart(cfg: Config, s: Limiter, key: Ip, a: nat)
    requires cfg.maxFailures >= 1
    requires key in s.table ==> !Banned(s.table[key], a)
    ensures Segment(cfg, s, key, a, 0)
  {
  }

  lemma QuietAt(cfg: Config, ss: seq<Limiter>, es: seq<Event>, key: Ip, a: nat, lo: nat, hi: nat, l: nat)
    requires Run(cfg, ss, es) && cfg.maxFailures >= 1
    requires lo <= l < hi <= |es| && QuietInterval(cfg, ss, es, key, a, lo, hi) && !Bans(cfg, ss[l], es[l], key)
    ensures Quiet(cfg, ss[l], es[l], ss[l + 1], key, a)
  {
    hide Inv, BelowThreshold, Loses, Bans, Step, Legal;
    RunKeepsInv(cfg, ss, es, l);
    RunBelowThreshold(cfg, ss, es, l);
  }

  lemma SegmentNext(cfg: Config, ss: seq<Limiter>, es: seq<Event>, key: Ip, a: nat, lo: nat, hi: nat, n: nat, c: nat)
    requires cfg.enabled && 1 <= cfg.maxFailures <= U32_MAX
    requires Run(cfg, ss, es) && |ss| == |es| + 1
    requires lo <= n < hi <= |es| && QuietInterval(cfg, ss, es, key, a, lo, hi) && !Bans(cfg, ss[n], es[n], key)
    requires Segment(cfg, ss[n], key, a, c)
    ensures Segment(cfg, ss[n + 1], key, a, c + IsFailureOf(es[n], key))
  {
    hide *;
    QuietAt(cfg, ss, es, key, a, lo, hi, n);
    SegmentStep(cfg, ss[n], es[n], ss[n + 1], key, a, c);
  }

  lemma {:induction false} SegmentHolds(cfg: Config, ss: seq<Limiter>, es: seq<Event>, key: Ip, a: nat,
                                        lo: nat, hi: nat, m: nat)
    requires cfg.enabled && 1 <= cfg.maxFailures <= U32_MAX
    requires Run(cfg, ss, es) && |ss| == |es| + 1
    requires lo <= m <= hi <= |es| && QuietInterval(cfg, ss, es, key, a, lo, hi)
    requires forall l | lo <= l < hi :: !Bans(cfg, ss[l], es[l], key)
    requires Segment(cfg, ss[lo], key, a, 0)
    ensures Segment(cfg, ss[m], key, a, FailuresSince(es[lo..m], key, 0))
    decreases m
  {
    hide Run, QuietInterval, Segment, Bans, AuthLimitKey;
    if lo == m {
      assert es[lo..m] == [];
    } else {
      var n := m - 1;
      SegmentHolds(cfg, ss, es, key, a, lo, hi, n);
      SegmentNext(cfg, ss, es, key, a, lo, hi, n, FailuresSince(es[lo..n], key, 0));
      OneMoreEvent(es[lo..n], es[n], key, 0);
      assert es[lo..m] == es[lo..n] + [es[n]];
    }
  }

  /** Although the code restarts windows instead of sliding them, `2 * maxFailures - 1`
      failures of an unbanned bucket within one closed interval of length `window`
      always ban it. */
  lemma BanGuaranteed(cfg: Config, ss: seq<Limiter>, es: seq<Event>, key: Ip, a: nat, lo: nat, hi: nat)
    requires Run(cfg, ss, es) && cfg.enabled && 1 <= cfg.maxFailures <= U32_MAX
    requires lo <= hi <= |es| && QuietInterval(cfg, ss, es, key, a, lo, hi)
    requires key in ss[lo].table ==> !Banned(ss[lo].table[key], a)
    requires FailuresSince(es[lo..hi], key, 0) >= 2 * cfg.maxFailures - 1
    ensures exists l :: lo <= l < hi && Bans(cfg, ss[l], es[l], key)
  {
    hide Bans, FailuresSince, QuietInterval, Run;
    RunAt(cfg, ss, es, lo);
    if forall l | lo <= l < hi :: !Bans(cfg, ss[l], es[l], key) {
      SegmentStart(cfg, ss[lo], key, a);
      SegmentHolds(cfg, ss, es, key, a, lo, hi, hi);
      RunBelowThreshold(cfg, ss, es, hi);
      assert false;
    }
  }

  // ---------------------------------------------------------------------------
  // One failure fewer
  // ---------------------------------------------------------------------------

  /** A failure interval that escapes: `2 * maxFailures - 2` failures of an unbanned bucket
      within one window length, and no ban. */
  ghost predicate Escapes(cfg: Config, ss: seq<Limiter>, es: seq<Event>, key: Ip, a: nat, lo: nat, hi: nat) {
    && Run(cfg, ss, es) && lo <= hi <= |es| && QuietInterval(cfg, ss, es, key, a, lo, hi)
    && (key in ss[lo].table ==> !Banned(ss[lo].table[key], a))
    && FailuresSince(es[lo..hi], key, 0) >= 2 * cfg.maxFailures - 2
    && forall l | lo <= l < hi :: !Bans(cfg, ss[l], es[l], key)
  }

  /** Where an entry without failures comes from: a ban issued at its window start, in force
      until `ban` later, and cleared only after that. */
  ghost predicate Clocked(cfg: Config, s: Limiter, t: nat) {
    forall k | k in s.table ::
      match s.table[k].bannedUntil
      case Some(until) => until == s.table[k].windowStart + cfg.ban
      case None => s.table[k].failures >= 1 || s.table[k].windowStart + cfg.ban <= t
  }

  lemma StepKeepsClocked(cfg: Config, s: Limiter, e: Event, t: nat)
    requires Clocked(cfg, s, t) && t <= e.now
    ensures Clocked(cfg, Step(cfg, s, e), e.now)
  {
    hide AuthLimitKey;
    if e.Failure? && cfg.enabled {
      var (roomy, admitted) := MakeRoom(cfg, s, e.Key(), e.now, e.victim);
      assert Clocked(cfg, roomy, e.now);
      hide MakeRoom;
      CountKeepsClocked(cfg, roomy, e.Key(), e.now);
      hide Count;
    }
  }

  lemma CountKeepsClocked(cfg: Config, s: Limiter, key: Ip, now: nat)
    requires Clocked(cfg, s, now)
    ensures Clocked(cfg, Count(cfg, s, key, now), now)
  {
  }

  lemma {:induction false} RunClocked(cfg: Config, ss: seq<Limiter>, es: seq<Event>, i: nat)
    requires Run(cfg, ss, es) && i < |ss|
    ensures Clocked(cfg, ss[i], if i == 0 then 0 else es[i - 1].now)
  {
    if i > 0 {
      RunClocked(cfg, ss, es, i - 1);
      StepKeepsClocked(cfg, ss[i - 1], es[i - 1], if i == 1 then 0 else es[i - 2].now);
    }
  }

  /** As `Segment`, when an old window cannot outlive a ban: of the failures it holds, one
      came before the interval. */
  ghost predicate Tight(cfg: Config, s: Limiter, key: Ip, a: nat, c: nat) {
    if key !in s.table then c + 2 <= cfg.maxFailures
    else
      var b := s.table[key];
      && (b.bannedUntil.Some? ==> b.bannedUntil.value <= a && c == 0)
      && (if b.windowStart < a then c == 0 || c < b.failures else c + 2 <= b.failures + cfg.maxFailures)
  }

  lemma TightCount(cfg: Config, s: Limiter, key: Ip, now: nat, a: nat, c: nat)
    requires 2 <= cfg.maxFailures <= U32_MAX && !(1 <= cfg.window && cfg.ban <= cfg.window)
    requires a <= now <= a + cfg.window && BelowThreshold(cfg, s) && Clocked(cfg, s, now)
    requires Tight(cfg, s, key, a, c) && Count(cfg, s, key, now).bansIssued == s.bansIssued
    ensures Tight(cfg, Count(cfg, s, key, now), key, a, c + 1)
  {
  }

  /** Making room keeps the entry, or prunes it. */
  lemma TightRoom(cfg: Config, s: Limiter, e: Event, key: Ip, a: nat, c: nat)
    requires e.Failure? && cfg.maxFailures >= 2 && BelowThreshold(cfg, s) && a <= e.now <= a + cfg.window
    requires Tight(cfg, s, key, a, c) && !Loses(cfg, s, e, key) && Clocked(cfg, s, e.now)
    ensures var roomy := MakeRoom(cfg, s, e.Key(), e.now, e.victim).0;
            Tight(cfg, roomy, key, a, c) && BelowThreshold(cfg, roomy) && Clocked(cfg, roomy, e.now)
            && roomy.bansIssued == s.bansIssued
  {
    hide AuthLimitKey;
  }

  lemma TightFailure(cfg: Config, s: Limiter, e: Event, s': Limiter, key: Ip, a: nat, c: nat)
    requires cfg.enabled && 2 <= cfg.maxFailures <= U32_MAX && !(1 <= cfg.window && cfg.ban <= cfg.window)
    requires e.Failure? && Quiet(cfg, s, e, s', key, a) && Clocked(cfg, s, e.now) && Tight(cfg, s, key, a, c)
    ensures Tight(cfg, s', key, a, c + IsFailureOf(e, key))
  {
    hide Inv, AuthLimitKey, BelowThreshold, Clocked;
    TightRoom(cfg, s, e, key, a, c);
    var (roomy, admitted) := MakeRoom(cfg, s, e.Key(), e.now, e.victim);
    if !admitted {
      assert e.Key() != key;
    } else if e.Key() == key {
      hide MakeRoom, Tight, Loses;
      assert s' == Count(cfg, roomy, key, e.now);
      hide Count;
      TightCount(cfg, roomy, key, e.now, a, c);
    } else {
      hide MakeRoom, Loses;
      assert s' == Count(cfg, roomy, e.Key(), e.now);
      hide Count;
      CountLeavesOthers(cfg, roomy, e.Key(), e.now, key);
    }
  }

  lemma TightStep(cfg: Config, s: Limiter, e: Event, s': Limiter, key: Ip, a: nat, c: nat)
    requires cfg.enabled && 2 <= cfg.maxFailures <= U32_MAX && !(1 <= cfg.window && cfg.ban <= cfg.window)
    requires Quiet(cfg, s, e, s', key, a) && Clocked(cfg, s, e.now) && Tight(cfg, s, key, a, c)
    ensures Tight(cfg, s', key, a, c + IsFailureOf(e, key))
  {
    if e.Failure? {
      hide Quiet, Tight, Clocked;
      TightFailure(cfg, s, e, s', key, a, c);
    } else {
      hide AfterFailure, Inv, BelowThreshold, Clocked, AuthLimitKey;
    }
  }

  lemma ClockedLater(cfg: Config, s: Limiter, t: nat, u: nat)
    requires Clocked(cfg, s, t) && t <= u
    ensures Clocked(cfg, s, u)
  {
  }

  lemma ClockedBefore(cfg: Config, ss: seq<Limiter>, es: seq<Event>, l: nat)
    requires Run(cfg, ss, es) && l < |es|
    ensures Clocked(cfg, ss[l], es[l].now)
  {
    RunClocked(cfg, ss, es, l);
    hide Clocked;
    ClockedLater(cfg, ss[l], if l == 0 then 0 else es[l - 1].now, es[l].now);
  }

  lemma TightNext(cfg: Config, ss: seq<Limiter>, es: seq<Event>, key: Ip, a: nat, lo: nat, hi: nat, n: nat, c: nat)
    requires cfg.enabled && 2 <= cfg.maxFailures <= U32_MAX && !(1 <= cfg.window && cfg.ban <= cfg.window)
    requires Run(cfg, ss, es) && |ss| == |es| + 1
    requires lo <= n < hi <= |es| && QuietInterval(cfg, ss, es, key, a, lo, hi) && !Bans(cfg, ss[n], es[n], key)
    requires Tight(cfg, ss[n], key, a, c)
    ensures Tight(cfg, ss[n + 1], key, a, c + IsFailureOf(es[n], key))
  {
    hide *;
    QuietAt(cfg, ss, es, key, a, lo, hi, n);
    ClockedBefore(cfg, ss, es, n);
    TightStep(cfg, ss[n], es[n], ss[n + 1], key, a, c);
  }

  lemma {:induction false} TightHolds(cfg: Config, ss: seq<Limiter>, es: seq<Event>, key: Ip, a: nat,
                                        lo: nat, hi: nat, m: nat)
    requires cfg.enabled && 2 <= cfg.maxFailures <= U32_MAX && !(1 <= cfg.window && cfg.ban <= cfg.window)
    requires Run(cfg, ss, es) && |ss| == |es| + 1
    requires lo <= m <= hi <= |es| && QuietInterval(cfg, ss, es, key, a, lo, hi)
    requires forall l | lo <= l < hi :: !Bans(cfg, ss[l], es[l], key)
    requires Tight(cfg, ss[lo], key, a, 0)
    ensures Tight(cfg, ss[m], key, a, FailuresSince(es[lo..m], key, 0))
    decreases m
  {
    hide Run, QuietInterval, Tight, Bans, AuthLimitKey;
    if lo == m {
      assert es[lo..m] == [];
    } else {
      var n := m - 1;
      TightHolds(cfg, ss, es, key, a, lo, hi, n);
      TightNext(cfg, ss, es, key, a, lo, hi, n, FailuresSince(es[lo..n], key, 0));
      OneMoreEvent(es[lo..n], es[n], key, 0);
      assert es[lo..m] == es[lo..n] + [es[n]];
    }
  }

  /** If a ban outlasts the window, or the window is zero, one failure fewer is enough. */
  lemma BanGuaranteedSooner(cfg: Config, ss: seq<Limiter>, es: seq<Event>, key: Ip, a: nat, lo: nat, hi: nat)
    requires cfg.enabled && 2 <= cfg.maxFailures <= U32_MAX && !(1 <= cfg.window && cfg.ban <= cfg.window)
    ensures !Escapes(cfg, ss, es, key, a, lo, hi)
  {
    hide Bans, FailuresSince, QuietInterval, Run;
    if Escapes(cfg, ss, es, key, a, lo, hi) {
      RunAt(cfg, ss, es, lo);
      TightHolds(cfg, ss, es, key, a, lo, hi, hi);
      RunBelowThreshold(cfg, ss, es, hi);
      assert false;
    }
  }

  /** A state that tracks one bucket. */
  function Lone(ip: Ip, b: Bucket, failures: nat, bans: nat): Limiter
    requires failures <= U64_MAX && bans <= U64_MAX
  {
    Limiter(map[ip := b], if b.bannedUntil.Some? then 1 else 0, failures, bans)
  }

  lemma LoneIsAdmitted(cfg: Config, ip: Ip, b: Bucket, failures: nat, bans: nat, now: nat)
    requires ip.V4? && cfg.enabled && failures <= U64_MAX && bans <= U64_MAX
    ensures var s := Lone(ip, b, failures, bans);
            && Legal(cfg, s, Failure(ip, now, None))
            && Step(cfg, s, Failure(ip, now, None)) == Count(cfg, s, ip, now)
  {
    assert |Lone(ip, b, failures, bans).table| == 1;
    hide Count, Pruned;
  }

  /** A failure of a lone bucket that is not banned now. */
  lemma LoneFailure(cfg: Config, ip: Ip, b: Bucket, failures: nat, bans: nat, now: nat)
    requires ip.V4? && cfg.enabled && !Banned(b, now) && failures < U64_MAX && bans < U64_MAX && b.failures < U32_MAX
    ensures Legal(cfg, Lone(ip, b, failures, bans), Failure(ip, now, None))
    ensures var restart := SatSub(now, b.windowStart) > cfg.window;
            var n := if restart then 1 else b.failures + 1;
            Step(cfg, Lone(ip, b, failures, bans), Failure(ip, now, None)) ==
            if n >= cfg.maxFailures then Lone(ip, Bucket(0, now, Some(now + cfg.ban)), failures + 1, bans + 1)
            else Lone(ip, Bucket(n, if restart then now else b.windowStart, None), failures + 1, bans)
  {
    LoneIsAdmitted(cfg, ip, b, failures, bans, now);
    hide Step, Legal;
    assert forall c: Bucket :: Lone(ip, b, failures, bans).table[ip := c] == map[ip := c];
  }

  lemma FirstFailure(cfg: Config, ip: Ip)
    requires ip.V4? && cfg.enabled && cfg.maxFailures >= 2
    ensures Legal(cfg, INITIAL, Failure(ip, 0, None))
    ensures Step(cfg, INITIAL, Failure(ip, 0, None)) == Lone(ip, Bucket(1, 0, None), 1, 0)
  {
    assert |INITIAL.table| == 0;
  }

  /** The escaping run: a ban at 0, then one failure short of a ban at the last moment of its
      window, and the same again one second later. */
  function EscapeState(cfg: Config, i: nat): Limiter
    requires 2 <= cfg.maxFailures <= U32_MAX && i <= 3 * cfg.maxFailures - 2
  {
    var m := cfg.maxFailures;
    if i == 0 then INITIAL
    else if i < m then Lone(V4(1), Bucket(i, 0, None), i, 0)
    else if i == m then Lone(V4(1), Bucket(0, 0, Some(cfg.ban)), i, 1)
    else if i < 2 * m then Lone(V4(1), Bucket(i - m, 0, None), i, 1)
    else Lone(V4(1), Bucket(i - 2 * m + 1, cfg.window + 1, None), i, 1)
  }

  function EscapeEvent(cfg: Config, i: nat): Event {
    Failure(V4(1), if i < cfg.maxFailures then 0
                   else if i < 2 * cfg.maxFailures - 1 then cfg.window else cfg.window + 1, None)
  }

  lemma EscapeStep(cfg: Config, i: nat)
    requires cfg.enabled && 2 <= cfg.maxFailures <= U32_MAX && cfg.ban <= cfg.window && i < 3 * cfg.maxFailures - 2
    ensures Legal(cfg, EscapeState(cfg, i), EscapeEvent(cfg, i))
    ensures EscapeState(cfg, i + 1) == Step(cfg, EscapeState(cfg, i), EscapeEvent(cfg, i))
  {
    hide Step, Legal;
    var m := cfg.maxFailures;
    if i == 0 { FirstFailure(cfg, V4(1)); }
    else if i < m { LoneFailure(cfg, V4(1), Bucket(i, 0, None), i, 0, 0); }
    else if i == m { LoneFailure(cfg, V4(1), Bucket(0, 0, Some(cfg.ban)), i, 1, cfg.window); }
    else if i < 2 * m { LoneFailure(cfg, V4(1), Bucket(i - m, 0, None), i, 1, EscapeEvent(cfg, i).now); }
    else { LoneFailure(cfg, V4(1), Bucket(i - 2 * m + 1, cfg.window + 1, None), i, 1, cfg.window + 1); }
  }

  lemma {:induction false} AllFailures(es: seq<Event>, key: Ip)
    requires forall i | 0 <= i < |es| :: es[i].Failure? && es[i].Key() == key
    ensures FailuresSince(es, key, 0) == |es|
  {
    if es != [] { AllFailures(es[..|es| - 1], key); }
  }

  lemma EscapeIsRun(cfg: Config, ss: seq<Limiter>, es: seq<Event>)
    requires cfg.enabled && 2 <= cfg.maxFailures <= U32_MAX && cfg.ban <= cfg.window
    requires |es| == 3 * cfg.maxFailures - 2 && |ss| == |es| + 1
    requires forall i | 0 <= i < |ss| :: ss[i] == EscapeState(cfg, i)
    requires forall i | 0 <= i < |es| :: es[i] == EscapeEvent(cfg, i)
    ensures Run(cfg, ss, es)
  {
    assert ss[0] == INITIAL;
    hide Step, Legal, EscapeState;
    forall i | 0 <= i < |es| ensures Legal(cfg, ss[i], es[i]) && ss[i + 1] == Step(cfg, ss[i], es[i]) {
      EscapeStep(cfg, i);
    }
  }

  lemma EscapeIsQuiet(cfg: Config, ss: seq<Limiter>, es: seq<Event>)
    requires cfg.enabled && 2 <= cfg.maxFailures <= U32_MAX && 1 <= cfg.window && cfg.ban <= cfg.window
    requires |es| == 3 * cfg.maxFailures - 2 && |ss| == |es| + 1
    requires forall i | 0 <= i < |ss| :: ss[i] == EscapeState(cfg, i)
    requires forall i | 0 <= i < |es| :: es[i] == EscapeEvent(cfg, i)
    ensures QuietInterval(cfg, ss, es, V4(1), cfg.window, cfg.maxFailures, |es|)
    ensures forall l | cfg.maxFailures <= l < |es| :: !Bans(cfg, ss[l], es[l], V4(1))
  {
    hide EscapeState, Loses, Bans;
    forall l | cfg.maxFailures <= l < |es| ensures !Loses(cfg, ss[l], es[l], V4(1)) && !Bans(cfg, ss[l], es[l], V4(1)) {
      EscapeQuiet(cfg, l);
    }
  }

  lemma EscapeCounts(cfg: Config, es: seq<Event>)
    requires |es| == 3 * cfg.maxFailures - 2 && cfg.maxFailures <= |es|
    requires forall i | 0 <= i < |es| :: es[i] == EscapeEvent(cfg, i)
    ensures FailuresSince(es[cfg.maxFailures..|es|], V4(1), 0) == 2 * cfg.maxFailures - 2
  {
    var part := es[cfg.maxFailures..|es|];
    forall i | 0 <= i < |part| ensures part[i].Failure? && part[i].Key() == V4(1) {
      assert part[i] == es[cfg.maxFailures + i];
    }
    AllFailures(part, V4(1));
  }

  lemma EscapeRun(cfg: Config, ss: seq<Limiter>, es: seq<Event>)
    requires cfg.enabled && 2 <= cfg.maxFailures <= U32_MAX && 1 <= cfg.window && cfg.ban <= cfg.window
    requires |es| == 3 * cfg.maxFailures - 2 && |ss| == |es| + 1
    requires forall i | 0 <= i < |ss| :: ss[i] == EscapeState(cfg, i)
    requires forall i | 0 <= i < |es| :: es[i] == EscapeEvent(cfg, i)
    ensures Escapes(cfg, ss, es, V4(1), cfg.window, cfg.maxFailures, |es|)
  {
    EscapeIsRun(cfg, ss, es);
    EscapeIsQuiet(cfg, ss, es);
    EscapeCounts(cfg, es);
    hide Run, QuietInterval, Bans, FailuresSince;
    assert !Banned(ss[cfg.maxFailures].table[V4(1)], cfg.window);
  }

  lemma EscapeQuiet(cfg: Config, l: nat)
    requires cfg.enabled && 2 <= cfg.maxFailures <= U32_MAX && cfg.ban <= cfg.window
    requires cfg.maxFailures <= l < 3 * cfg.maxFailures - 2
    ensures !Loses(cfg, EscapeState(cfg, l), EscapeEvent(cfg, l), V4(1))
            && !Bans(cfg, EscapeState(cfg, l), EscapeEvent(cfg, l), V4(1))
  {
    EscapeStep(cfg, l);
    hide Step;
    assert |EscapeState(cfg, l).table| == 1;
  }

  /** The exact condition: `2 * maxFailures - 2` failures within one window length can go
      without a ban if and only if the window is not zero and no shorter than a ban. */
  lemma FewerEscapeExactly(cfg: Config)
    requires cfg.enabled && 2 <= cfg.maxFailures <= U32_MAX
    ensures (exists ss, es, key, a: nat, lo: nat, hi: nat :: Escapes(cfg, ss, es, key, a, lo, hi)) <==>
            1 <= cfg.window && cfg.ban <= cfg.window
  {
    if 1 <= cfg.window && cfg.ban <= cfg.window {
      var n := 3 * cfg.maxFailures - 2;
      var ss := seq(n + 1, i requires 0 <= i <= n => EscapeState(cfg, i));
      var es := seq(n, i requires 0 <= i < n => EscapeEvent(cfg, i));
      hide Escapes, EscapeState, EscapeEvent;
      EscapeRun(cfg, ss, es);
    } else {
      hide Escapes;
      forall ss, es, key, a: nat, lo: nat, hi: nat ensures !Escapes(cfg, ss, es, key, a, lo, hi) {
        BanGuaranteedSooner(cfg, ss, es, key, a, lo, hi);
      }
    }
  }
}
