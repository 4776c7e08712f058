/** The pool of outer sessions a client keeps (`tcp_mux.rs`): the slot, its generations,
    removal of ended sessions and the choice of a session for a new stream. */
module MuxPool {
  import opened Prelude

  /** A pool generation (the identity of its session list) and its session ids. */
  datatype Pool = Pool(gen: nat, sessions: seq<nat>)

  type Slot = Option<Pool>

  function Retain(sessions: seq<nat>, keep: nat -> bool): seq<nat> {
    if sessions == [] then []
    else (if keep(sessions[0]) then [sessions[0]] else []) + Retain(sessions[1..], keep)
  }

  /** Drop the sessions that `keep` refuses; an emptied pool leaves the slot. The boolean
      says that its `ended` signal is raised. */
  function Narrowed(slot: Slot, keep: nat -> bool): (Slot, bool) {
    match slot
    case None => (None, false)
    case Some(p) =>
      var rest := Retain(p.sessions, keep);
      if rest == [] then (None, true) else (Some(p.(sessions := rest)), false)
  }

  predicate HasSessions(slot: Slot) {
    slot.Some? && slot.value.sessions != []
  }

  predicate Distinct(xs: seq<nat>) {
    forall i, j | 0 <= i < j < |xs| :: xs[i] != xs[j]
  }

  /** `a` is `b` with some elements left out: the order is kept. */
  predicate Subsequence(a: seq<nat>, b: seq<nat>) {
    a == [] || (b != [] && ((a[0] == b[0] && Subsequence(a[1..], b[1..])) || Subsequence(a, b[1..])))
  }

  lemma {:induction false} RetainExactly(xs: seq<nat>, keep: nat -> bool)
    ensures forall x :: x in Retain(xs, keep) <==> x in xs && keep(x)
    ensures |Retain(xs, keep)| <= |xs|
    ensures Distinct(xs) ==> Distinct(Retain(xs, keep))
  {
    if xs != [] {
      RetainExactly(xs[1..], keep);
      assert xs == [xs[0]] + xs[1..];
      var rest := Retain(xs[1..], keep);
      if Distinct(xs) {
        assert Distinct(xs[1..]);
        forall k | 0 <= k < |rest| ensures rest[k] != xs[0] { assert rest[k] in xs[1..]; }
      }
    }
  }

  lemma {:induction false} RetainInOrder(xs: seq<nat>, keep: nat -> bool)
    ensures Subsequence(Retain(xs, keep), xs)
  {
    if xs != [] {
      RetainInOrder(xs[1..], keep);
      var rest := Retain(xs[1..], keep);
      assert ([xs[0]] + rest)[1..] == rest && [] + rest == rest;
    }
  }

  // ---------------------------------------------------------------------------
  // Choosing a session
  // ---------------------------------------------------------------------------

  /** A load snapshot: full sessions last, then fewer reserved streams, then less backlog. */
  datatype Load = Load(full: bool, reserved: nat, backlog: nat)

  predicate Less(a: Load, b: Load) {
    || (!a.full && b.full)
    || (a.full == b.full && (a.reserved < b.reserved || (a.reserved == b.reserved && a.backlog < b.backlog)))
  }

  /** The session at `offset` places after the rotating start. */
  function Rotated(sessions: seq<nat>, start: nat, offset: nat): nat
    requires sessions != []
  {
    sessions[(start + offset) % |sessions|]
  }

  /** `offset` is the place of the first least-loaded live session, in rotation order. */
  ghost predicate BestPlace(sessions: seq<nat>, start: nat, load: nat -> Option<Load>, offset: nat)
    requires sessions != []
  {
    && offset < |sessions|
    && load(Rotated(sessions, start, offset)).Some?
    && forall o: nat | o < |sessions| && load(Rotated(sessions, start, o)).Some? ::
         && !Less(load(Rotated(sessions, start, o)).value, load(Rotated(sessions, start, offset)).value)
         && (o < offset ==> Less(load(Rotated(sessions, start, offset)).value, load(Rotated(sessions, start, o)).value))
  }

  /** What the choice means: a session that can take a stream if any can; of those the fewest
      reserved streams; of those the least backlog; of those the first after the rotating start. */
  lemma BestMeans(g: seq<nat>, start: nat, load: nat -> Option<Load>, offset: nat, o: nat)
    requires g != [] && BestPlace(g, start, load, offset) && o < |g| && load(Rotated(g, start, o)).Some?
    ensures var (best, other) := (load(Rotated(g, start, offset)).value, load(Rotated(g, start, o)).value);
            && (best.full ==> other.full)
            && (best.full == other.full ==> best.reserved <= other.reserved)
            && (best.full == other.full && best.reserved == other.reserved ==> best.backlog <= other.backlog)
            && (best == other ==> offset <= o)
  {
  }

  lemma RetainOne(xs: seq<nat>, i: nat, keep: nat -> bool, kept: seq<nat>)
    requires i < |xs|
    ensures kept + Retain(xs[i..], keep) == (if keep(xs[i]) then kept + [xs[i]] else kept) + Retain(xs[i + 1..], keep)
  {
    assert xs[i..][1..] == xs[i + 1..];
    var rest := Retain(xs[i + 1..], keep);
    assert Retain(xs[i..], keep) == if keep(xs[i]) then [xs[i]] + rest else rest;
    hide Retain;
    assert kept + ([xs[i]] + rest) == (kept + [xs[i]]) + rest;
  }

  method RetainSessions(xs: seq<nat>, keep: nat -> bool) returns (kept: seq<nat>)
    ensures kept == Retain(xs, keep)
  {
    kept := [];
    var i := 0;
    while i < |xs|
      invariant 0 <= i <= |xs|
      invariant kept + Retain(xs[i..], keep) == Retain(xs, keep)
    {
      RetainOne(xs, i, keep, kept);
      if keep(xs[i]) { kept := kept + [xs[i]]; }
      i := i + 1;
    }
    assert kept + [] == kept;
  }

  class MuxSlot {
    var slot: Slot
    var next: u64
    var ended: set<nat>

    constructor ()
      ensures slot == None && next == 0 && ended == {}
    {
      slot, next, ended := None, 0, {};
    }

    /** `sessions.retain(..)`, then clear the slot and raise `ended` if nothing is left. */
    method Narrow(keep: nat -> bool)
      modifies this
      ensures slot == Narrowed(old(slot), keep).0 && next == old(next)
      ensures ended == old(ended) + if Narrowed(old(slot), keep).1 then {old(slot).value.gen} else {}
    {
      if slot.None? { return; }
      var pool := slot.value;
      var kept := RetainSessions(pool.sessions, keep);
      if kept == [] {
        ended := ended + {pool.gen};
        slot := None;
      } else {
        slot := Some(pool.(sessions := kept));
      }
    }

    method RemoveMuxSession(sid: nat)
      modifies this
      ensures slot == Narrowed(old(slot), (id: nat) => id != sid).0 && next == old(next)
      ensures ended == old(ended) + if Narrowed(old(slot), (id: nat) => id != sid).1 then {old(slot).value.gen} else {}
    {
      Narrow((id: nat) => id != sid);
    }

    method PruneStopped(load: nat -> Option<Load>)
      modifies this
      ensures slot == Narrowed(old(slot), (id: nat) => load(id).Some?).0 && next == old(next)
      ensures ended == old(ended) +
              if Narrowed(old(slot), (id: nat) => load(id).Some?).1 then {old(slot).value.gen} else {}
    {
      Narrow((id: nat) => load(id).Some?);
    }

    method Pick(load: nat -> Option<Load>) returns (r: Option<nat>)
      modifies this`next
      ensures !HasSessions(slot) ==> r == None && next == old(next)
      ensures HasSessions(slot) ==> next == WrapAdd64(old(next), 1)
      ensures HasSessions(slot) && r.None? ==>
                forall id | id in slot.value.sessions :: load(id).None?
      ensures HasSessions(slot) && r.Some? ==>
                exists o: nat :: BestPlace(slot.value.sessions, old(next) % |slot.value.sessions|, load, o)
                  && r.value == Rotated(slot.value.sessions, old(next) % |slot.value.sessions|, o)
    {
      if slot.None? || slot.value.sessions == [] { return None; }
      var g := slot.value.sessions;
      var n := |g|;
      var start := next % n;
      next := WrapAdd64(next, 1);
      r := None;
      var best := 0;
      var offset := 0;
      while offset < n
        invariant 0 <= offset <= n
        invariant r.None? ==> forall o: nat | o < offset :: load(Rotated(g, start, o)).None?
        invariant r.Some? ==>
                    && 0 <= best < offset && r.value == Rotated(g, start, best) && load(r.value).Some?
                    && forall o: nat | o < offset && load(Rotated(g, start, o)).Some? ::
                         && !Less(load(Rotated(g, start, o)).value, load(r.value).value)
                         && (o < best ==> Less(load(r.value).value, load(Rotated(g, start, o)).value))
      {
        var id := g[(start + offset) % n];
        assert id == Rotated(g, start, offset);
        if load(id).Some? && (r.None? || Less(load(id).value, load(r.value).value)) {
          r, best := Some(id), offset;
        }
        offset := offset + 1;
      }
      if r.None? {
        forall id | id in g ensures load(id).None? {
          var k :| 0 <= k < n && g[k] == id;
          RotationCovers(g, start, k);
        }
      } else {
        assert BestPlace(g, start, load, best);
      }
    }
  }

  /** Every index is reached by some offset of the rotation. */
  lemma RotationCovers(g: seq<nat>, start: nat, k: nat)
    requires start < |g| && k < |g|
    ensures var o := if k >= start then k - start else k + |g| - start;
            o < |g| && Rotated(g, start, o) == g[k]
  {
    ModOnce(k, |g|);
    ModOnce(k + |g|, |g|);
  }

  lemma ModOnce(a: nat, n: nat)
    requires 0 < n && a < 2 * n
    ensures a % n == if a < n then a else a - n
  {
    assert a == (a / n) * n + a % n;
    assert a / n == if a < n then 0 else 1;
  }

  /** Equally loaded sessions are used in turn. */
  lemma TiesRotate(g: seq<nat>, next: nat, load: nat -> Option<Load>, o: nat)
    requires g != [] && BestPlace(g, next % |g|, load, o)
    requires forall a, b | a in g && b in g :: load(a) == load(b)
    ensures Rotated(g, next % |g|, o) == g[next % |g|]
  {
    var start := next % |g|;
    assert Rotated(g, start, 0) in g && Rotated(g, start, o) in g;
    assert o == 0;
    ModOnce(start, |g|);
  }
}
