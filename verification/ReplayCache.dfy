/** The REALITY replay cache of `reality.rs`: a bounded list of authenticated nonces,
    each kept until its own timestamp leaves the window. */
module ReplayCache {
  import opened Prelude

  const REPLAY_CACHE_CAP: nat := 65536

  /** Sixteen bytes. */
  type Nonce = n: seq<int> | |n| == 16 witness [0, 0, 0, 0, 0, 0, 0, 0, 0, 0, 0, 0, 0, 0, 0, 0]

  datatype Record = Record(nonce: Nonce, ts: u64)

  datatype Verdict = Accepted | OutsideWindow | Replayed | Full

  function SatAdd64(a: u64, b: u64): u64 {
    if a + b > U64_MAX then U64_MAX else a + b
  }

  /** `now.abs_diff(ts) <= max_time_diff` */
  predicate InWindow(now: u64, ts: u64, diff: u64) {
    (if now >= ts then now - ts else ts - now) <= diff
  }

  predicate Live(r: Record, now: u64, diff: u64) {
    SatAdd64(r.ts, diff) >= now
  }

  predicate HasNonce(rs: seq<Record>, nonce: Nonce) {
    exists i :: 0 <= i < |rs| && rs[i].nonce == nonce
  }

  function Retained(rs: seq<Record>, now: u64, diff: u64): seq<Record> {
    if rs == [] then []
    else (if Live(rs[0], now, diff) then [rs[0]] else []) + Retained(rs[1..], now, diff)
  }

  function Inserted(rs: seq<Record>, nonce: Nonce, ts: u64, now: u64, diff: u64): (seq<Record>, Verdict) {
    if !InWindow(now, ts, diff) then (rs, OutsideWindow) else
    var kept := Retained(rs, now, diff);
    if HasNonce(kept, nonce) then (kept, Replayed)
    else if |kept| >= REPLAY_CACHE_CAP then (kept, Full)
    else (kept + [Record(nonce, ts)], Accepted)
  }

  lemma RetainOne(rs: seq<Record>, i: nat, now: u64, diff: u64, kept: seq<Record>)
    requires i < |rs|
    ensures kept + Retained(rs[i..], now, diff) ==
            (if Live(rs[i], now, diff) then kept + [rs[i]] else kept) + Retained(rs[i + 1..], now, diff)
  {
    assert rs[i..][1..] == rs[i + 1..];
  }

  /** `entries.retain(..)` */
  method RetainLive(rs: seq<Record>, now: u64, diff: u64) returns (kept: seq<Record>)
    ensures kept == Retained(rs, now, diff)
  {
    kept := [];
    var i := 0;
    while i < |rs|
      invariant 0 <= i <= |rs|
      invariant kept + Retained(rs[i..], now, diff) == Retained(rs, now, diff)
    {
      RetainOne(rs, i, now, diff, kept);
      if SatAdd64(rs[i].ts, diff) >= now { kept := kept + [rs[i]]; }
      i := i + 1;
    }
    assert kept + [] == kept;
  }

  /** `entries.iter().any(..)` */
  method FindNonce(rs: seq<Record>, nonce: Nonce) returns (seen: bool)
    ensures seen <==> HasNonce(rs, nonce)
  {
    var j := 0;
    while j < |rs|
      invariant 0 <= j <= |rs| && forall k | 0 <= k < j :: rs[k].nonce != nonce
    {
      if rs[j].nonce == nonce { return true; }
      j := j + 1;
    }
    return false;
  }

  class RealityReplayCache {
    var entries: seq<Record>

    constructor ()
      ensures entries == []
    {
      entries := [];
    }

    method CheckAndInsert(nonce: Nonce, ts: u64, now: u64, diff: u64) returns (v: Verdict)
      modifies this
      ensures (entries, v) == Inserted(old(entries), nonce, ts, now, diff)
    {
      if (if now >= ts then now - ts else ts - now) > diff { return OutsideWindow; }
      entries := RetainLive(entries, now, diff);
      var seen := FindNonce(entries, nonce);
      if seen { return Replayed; }
      if |entries| >= REPLAY_CACHE_CAP { return Full; }
      entries := entries + [Record(nonce, ts)];
      return Accepted;
    }
  }

  // ---------------------------------------------------------------------------
  // Runs
  // ---------------------------------------------------------------------------

  datatype Hello = Hello(nonce: Nonce, ts: u64, now: u64)

  function Apply(rs: seq<Record>, h: Hello, diff: u64): (seq<Record>, Verdict) {
    Inserted(rs, h.nonce, h.ts, h.now, diff)
  }

  ghost predicate Run(ss: seq<seq<Record>>, hs: seq<Hello>, diff: u64) {
    && |ss| == |hs| + 1 && ss[0] == []
    && forall i {:trigger hs[i]} | 0 <= i < |hs| :: ss[i + 1] == Apply(ss[i], hs[i], diff).0
  }

  predicate MonotoneClock(hs: seq<Hello>) {
    forall i, j | 0 <= i <= j < |hs| :: hs[i].now <= hs[j].now
  }

  predicate AcceptedAt(ss: seq<seq<Record>>, hs: seq<Hello>, diff: u64, i: nat)
    requires |ss| == |hs| + 1 && i < |hs|
  {
    Apply(ss[i], hs[i], diff).1 == Accepted
  }

  predicate DistinctNonces(rs: seq<Record>) {
    forall i, j | 0 <= i < j < |rs| :: rs[i].nonce != rs[j].nonce
  }

  /** Retaining keeps exactly the live records, in order and without new nonces. */
  lemma {:induction false} RetainedExactly(rs: seq<Record>, now: u64, diff: u64)
    ensures forall r :: r in Retained(rs, now, diff) <==> r in rs && Live(r, now, diff)
    ensures |Retained(rs, now, diff)| <= |rs|
    ensures DistinctNonces(rs) ==> DistinctNonces(Retained(rs, now, diff))
  {
    if rs != [] {
      RetainedExactly(rs[1..], now, diff);
      assert rs == [rs[0]] + rs[1..];
      var rest := Retained(rs[1..], now, diff);
      if DistinctNonces(rs) {
        assert DistinctNonces(rs[1..]);
        forall k | 0 <= k < |rest| ensures rest[k].nonce != rs[0].nonce {
          assert rest[k] in rs[1..];
        }
      }
    }
  }

  /** The window in plain arithmetic, on both sides of now. */
  lemma OutsideExactly(rs: seq<Record>, h: Hello, diff: u64)
    ensures Apply(rs, h, diff).1 == OutsideWindow <==> h.ts > h.now + diff || h.now > h.ts + diff
    ensures Apply(rs, h, diff).1 == OutsideWindow ==> Apply(rs, h, diff).0 == rs
  {
    hide Retained, HasNonce;
  }

  /** A record is live until its own timestamp leaves the window. */
  lemma LiveExactly(r: Record, now: u64, diff: u64)
    ensures Live(r, now, diff) <==> now <= r.ts + diff
  {
  }

  /** How many records are still live. */
  function LiveCount(rs: seq<Record>, now: u64, diff: u64): nat {
    if rs == [] then 0 else (if now <= rs[0].ts + diff then 1 else 0) + LiveCount(rs[1..], now, diff)
  }

  lemma {:induction false} RetainedCount(rs: seq<Record>, now: u64, diff: u64)
    ensures |Retained(rs, now, diff)| == LiveCount(rs, now, diff)
  {
    if rs != [] {
      RetainedCount(rs[1..], now, diff);
      LiveExactly(rs[0], now, diff);
    }
  }

  lemma SeenExactly(rs: seq<Record>, h: Hello, diff: u64)
    ensures HasNonce(Retained(rs, h.now, diff), h.nonce) <==>
            exists r :: r in rs && r.nonce == h.nonce && h.now <= r.ts + diff
  {
    var kept := Retained(rs, h.now, diff);
    RetainedExactly(rs, h.now, diff);
    if HasNonce(kept, h.nonce) {
      var i :| 0 <= i < |kept| && kept[i].nonce == h.nonce;
      assert kept[i] in kept;
    }
    forall r | r in rs && r.nonce == h.nonce && h.now <= r.ts + diff ensures HasNonce(kept, h.nonce) {
      assert r in kept;
    }
  }

  /** Every verdict in plain terms: outside the window; else replayed if a live record has the
      nonce; else full if the live records reach the cap; else accepted. */
  lemma VerdictExactly(rs: seq<Record>, h: Hello, diff: u64)
    ensures var v := Apply(rs, h, diff).1;
            var outside := h.ts > h.now + diff || h.now > h.ts + diff;
            var seen := exists r :: r in rs && r.nonce == h.nonce && h.now <= r.ts + diff;
            && (v == OutsideWindow <==> outside)
            && (v == Replayed <==> !outside && seen)
            && (v == Full <==> !outside && !seen && LiveCount(rs, h.now, diff) >= 65536)
            && (v == Accepted <==> !outside && !seen && LiveCount(rs, h.now, diff) < 65536)
  {
    hide Retained, HasNonce, LiveCount;
    OutsideExactly(rs, h, diff);
    SeenExactly(rs, h, diff);
    RetainedCount(rs, h.now, diff);
  }

  /** A nonce is accepted exactly when its timestamp is in the window, no live record
      carries it, and fewer live records than the cap are held. */
  lemma AcceptsExactly(rs: seq<Record>, h: Hello, diff: u64)
    ensures Apply(rs, h, diff).1 == Accepted <==>
            && InWindow(h.now, h.ts, diff)
            && (forall r | r in rs && Live(r, h.now, diff) :: r.nonce != h.nonce)
            && |Retained(rs, h.now, diff)| < REPLAY_CACHE_CAP
  {
    hide Retained, HasNonce;
    SeenExactly(rs, h, diff);
  }

  /** The cache stays within its cap and its stored nonces stay distinct. */
  lemma {:induction false} RunKeepsDistinct(ss: seq<seq<Record>>, hs: seq<Hello>, diff: u64, i: nat)
    requires Run(ss, hs, diff) && i < |ss|
    ensures DistinctNonces(ss[i]) && |ss[i]| <= REPLAY_CACHE_CAP
  {
    if i > 0 {
      RunKeepsDistinct(ss, hs, diff, i - 1);
      RetainedExactly(ss[i - 1], hs[i - 1].now, diff);
    }
  }

  /** A live record is never dropped, not even to make room. */
  lemma LiveRecordKept(rs: seq<Record>, h: Hello, diff: u64, r: Record)
    requires r in rs && Live(r, h.now, diff)
    ensures r in Apply(rs, h, diff).0
  {
    RetainedExactly(rs, h.now, diff);
  }

  lemma {:induction false} RecordStays(ss: seq<seq<Record>>, hs: seq<Hello>, diff: u64, r: Record, i: nat, j: nat)
    requires Run(ss, hs, diff) && MonotoneClock(hs) && i <= j < |hs|
    requires r in ss[i] && Live(r, hs[j].now, diff)
    ensures r in ss[j]
    decreases j - i
  {
    if i < j {
      RecordStays(ss, hs, diff, r, i, j - 1);
      LiveRecordKept(ss[j - 1], hs[j - 1], diff, r);
    }
  }

  /** With a clock that never runs backwards, a nonce is accepted again only after its
      earlier record has expired; so no (nonce, timestamp) pair is accepted twice. */
  lemma NoReplay(ss: seq<seq<Record>>, hs: seq<Hello>, diff: u64, i: nat, j: nat)
    requires Run(ss, hs, diff) && MonotoneClock(hs) && i < j < |hs|
    requires AcceptedAt(ss, hs, diff, i) && AcceptedAt(ss, hs, diff, j)
    requires hs[i].nonce == hs[j].nonce
    ensures SatAdd64(hs[i].ts, diff) < hs[j].now
    ensures hs[i].ts != hs[j].ts
  {
    var r := Record(hs[i].nonce, hs[i].ts);
    assert r in ss[i + 1];
    AcceptsExactly(ss[j], hs[j], diff);
    if Live(r, hs[j].now, diff) {
      RecordStays(ss, hs, diff, r, i + 1, j);
      assert false;
    }
  }

  /** The accepted hello at `k` that put a record there, and how its timestamp compares. */
  ghost predicate PutBy(ss: seq<seq<Record>>, hs: seq<Hello>, diff: u64, k: nat, r: Record) {
    && |ss| == |hs| + 1 && k < |hs| && AcceptedAt(ss, hs, diff, k) && r == Record(hs[k].nonce, hs[k].ts)
    && r.ts <= hs[k].now + diff && hs[k].now <= r.ts + diff
  }

  lemma NewRecord(rs: seq<Record>, h: Hello, diff: u64, r: Record)
    requires r in Apply(rs, h, diff).0
    ensures r in rs || (Apply(rs, h, diff).1 == Accepted && r == Record(h.nonce, h.ts))
  {
    RetainedExactly(rs, h.now, diff);
    hide Retained, HasNonce;
  }

  /** Every record was put there by an accepted hello whose timestamp was in the window then. */
  lemma {:induction false} StoredWasAccepted(ss: seq<seq<Record>>, hs: seq<Hello>, diff: u64, i: nat, r: Record)
    requires Run(ss, hs, diff) && i < |ss| && r in ss[i]
    ensures exists k | 0 <= k < i :: PutBy(ss, hs, diff, k, r)
  {
    hide Apply;
    if i > 0 {
      var h := hs[i - 1];
      NewRecord(ss[i - 1], h, diff, r);
      if r in ss[i - 1] {
        StoredWasAccepted(ss, hs, diff, i - 1, r);
      } else {
        OutsideExactly(ss[i - 1], h, diff);
        assert PutBy(ss, hs, diff, i - 1, r);
      }
    }
  }

  /** So no record outlives its acceptance by more than twice the window, and a cache is full
      only of records accepted within that time. */
  lemma RecordsExpire(ss: seq<seq<Record>>, hs: seq<Hello>, diff: u64, i: nat, r: Record, now: u64)
    requires Run(ss, hs, diff) && i < |ss| && r in ss[i] && Live(r, now, diff)
    ensures exists k | 0 <= k < i :: PutBy(ss, hs, diff, k, r) && now <= hs[k].now + 2 * diff
  {
    hide Apply, PutBy;
    StoredWasAccepted(ss, hs, diff, i, r);
    var k :| 0 <= k < i && PutBy(ss, hs, diff, k, r);
    PutWithin(ss, hs, diff, k, r, now);
  }

  lemma PutWithin(ss: seq<seq<Record>>, hs: seq<Hello>, diff: u64, k: nat, r: Record, now: u64)
    requires PutBy(ss, hs, diff, k, r) && Live(r, now, diff)
    ensures now <= hs[k].now + 2 * diff
  {
    hide Apply;
  }

  /** Some accepted-window hello after `i` and before `j` came when the record of `i` had expired. */
  ghost predicate Passed(hs: seq<Hello>, diff: u64, i: nat, j: nat)
    requires i < |hs| && j <= |hs|
  {
    exists k | i < k < j :: InWindow(hs[k].now, hs[k].ts, diff) && SatAdd64(hs[i].ts, diff) < hs[k].now
  }

  /** A hello that is not accepted, or has another nonce, leaves a record or expires it. */
  lemma BystanderStep(rs: seq<Record>, h: Hello, diff: u64, q: Record)
    requires h.nonce != q.nonce || Apply(rs, h, diff).1 != Accepted
    ensures q in Apply(rs, h, diff).0 <==> q in rs && (InWindow(h.now, h.ts, diff) ==> Live(q, h.now, diff))
  {
    RetainedExactly(rs, h.now, diff);
  }

  lemma JustAccepted(rs: seq<Record>, h: Hello, diff: u64)
    requires Apply(rs, h, diff).1 == Accepted
    ensures var t := Apply(rs, h, diff).0;
            Record(h.nonce, h.ts) in t && forall q | q in t && q.nonce == h.nonce :: q == Record(h.nonce, h.ts)
  {
    AcceptsExactly(rs, h, diff);
    RetainedExactly(rs, h.now, diff);
  }

  lemma NothingPassed(hs: seq<Hello>, diff: u64, i: nat)
    requires i < |hs|
    ensures !Passed(hs, diff, i, i + 1)
  {
  }

  lemma PassedGrows(hs: seq<Hello>, diff: u64, i: nat, j: nat)
    requires i < j < |hs|
    ensures Passed(hs, diff, i, j + 1) <==>
            Passed(hs, diff, i, j) || (InWindow(hs[j].now, hs[j].ts, diff) && SatAdd64(hs[i].ts, diff) < hs[j].now)
  {
    hide InWindow, SatAdd64;
  }

  /** One hello between the two: the record goes exactly when the clock has passed it. */
  lemma TraceStep(s: seq<Record>, h: Hello, t: seq<Record>, diff: u64, r: Record, passed: bool)
    requires t == Apply(s, h, diff).0 && (h.nonce != r.nonce || Apply(s, h, diff).1 != Accepted)
    requires r in s <==> !passed
    requires forall q | q in s && q.nonce == r.nonce :: q == r
    ensures r in t <==> !(passed || (InWindow(h.now, h.ts, diff) && SatAdd64(r.ts, diff) < h.now))
    ensures forall q | q in t && q.nonce == r.nonce :: q == r
  {
    hide Apply, InWindow;
    BystanderStep(s, h, diff, r);
    forall q | q in t && q.nonce == r.nonce ensures q == r { BystanderStep(s, h, diff, q); }
  }

  lemma RunAt(ss: seq<seq<Record>>, hs: seq<Hello>, diff: u64, i: nat)
    requires Run(ss, hs, diff) && i < |hs|
    ensures |ss| == |hs| + 1 && ss[i + 1] == Apply(ss[i], hs[i], diff).0
  {
    hide Apply;
  }

  lemma {:induction false} RecordTrace(ss: seq<seq<Record>>, hs: seq<Hello>, diff: u64, i: nat, j: nat)
    requires Run(ss, hs, diff) && i < j <= |hs| && AcceptedAt(ss, hs, diff, i)
    requires forall k | i < k < j && hs[k].nonce == hs[i].nonce :: !AcceptedAt(ss, hs, diff, k)
    ensures Record(hs[i].nonce, hs[i].ts) in ss[j] <==> !Passed(hs, diff, i, j)
    ensures forall q | q in ss[j] && q.nonce == hs[i].nonce :: q == Record(hs[i].nonce, hs[i].ts)
  {
    hide Run, Apply, Passed, InWindow, SatAdd64;
    var k := j - 1;
    RunAt(ss, hs, diff, k);
    if k == i {
      JustAccepted(ss[i], hs[i], diff);
      NothingPassed(hs, diff, i);
    } else {
      RecordTrace(ss, hs, diff, i, k);
      PassedGrows(hs, diff, i, k);
      TraceStep(ss[k], hs[k], ss[j], diff, Record(hs[i].nonce, hs[i].ts), Passed(hs, diff, i, k));
    }
  }

  /** Without any assumption on the clock: a hello sent again while its timestamp is in the
      window, the cache not being full, is accepted for the second time exactly when the clock had in the
      meantime passed the expiry of its record (and so ran backwards since). */
  lemma ReplayExactly(ss: seq<seq<Record>>, hs: seq<Hello>, diff: u64, i: nat, j: nat)
    requires Run(ss, hs, diff) && i < j < |hs| && AcceptedAt(ss, hs, diff, i)
    requires hs[j].nonce == hs[i].nonce && hs[j].ts == hs[i].ts && InWindow(hs[j].now, hs[j].ts, diff)
    requires forall k | i < k < j && hs[k].nonce == hs[i].nonce :: !AcceptedAt(ss, hs, diff, k)
    requires |Retained(ss[j], hs[j].now, diff)| < REPLAY_CACHE_CAP
    ensures AcceptedAt(ss, hs, diff, j) <==> Passed(hs, diff, i, j)
    ensures AcceptedAt(ss, hs, diff, j) ==> exists k | i < k < j :: hs[j].now < hs[k].now
  {
    RecordTrace(ss, hs, diff, i, j);
    AcceptsExactly(ss[j], hs[j], diff);
    assert Live(Record(hs[i].nonce, hs[i].ts), hs[j].now, diff);
    if Passed(hs, diff, i, j) {
      var k :| i < k < j && InWindow(hs[k].now, hs[k].ts, diff) && SatAdd64(hs[i].ts, diff) < hs[k].now;
      assert hs[j].now < hs[k].now;
    }
  }

  const N7: Nonce := [7, 7, 7, 7, 7, 7, 7, 7, 7, 7, 7, 7, 7, 7, 7, 7]
  const N8: Nonce := [8, 8, 8, 8, 8, 8, 8, 8, 8, 8, 8, 8, 8, 8, 8, 8]

  /** The clock assumption is needed: if the wall clock steps forward and then back, the
      same pair is accepted twice. */
  lemma ClockStepBackReplays()
    ensures var a := Hello(N7, 1000, 1000); var b := Hello(N8, 1091, 1091);
            exists ss :: Run(ss, [a, b, a], 90) && AcceptedAt(ss, [a, b, a], 90, 0) && AcceptedAt(ss, [a, b, a], 90, 2)
  {
    var a, b := Hello(N7, 1000, 1000), Hello(N8, 1091, 1091);
    var s1 := [Record(N7, 1000)];
    var s2 := [Record(N8, 1091)];
    var ss := [[], s1, s2, s2 + s1];
    assert [] + [Record(N7, 1000)] == s1 && [] + [Record(N8, 1091)] == s2;
    assert Apply([], a, 90) == (s1, Accepted);
    assert Retained(s1, 1091, 90) == [] by { assert s1[1..] == []; }
    assert Apply(s1, b, 90) == (s2, Accepted);
    assert Retained(s2, 1000, 90) == s2 by { assert s2[1..] == []; }
    assert !HasNonce(s2, N7) by { assert N7[0] != N8[0]; }
    assert Apply(s2, a, 90) == (s2 + s1, Accepted);
    assert Run(ss, [a, b, a], 90);
  }
}
