/** Multi-user admission of `users.rs`: validation of the users file, and the shared
    per-label session counters changed by `acquire` and by dropping a session. */
module Users {
  import opened Prelude

  datatype User = User(name: string, token: string, enabled: bool, maxConcurrent: Option<nat>)

  /** The checks on one label or token alone (trimming, length, control characters,
      placeholder tokens) and the token digest are parameters. */
  datatype Rules = Rules(labelOk: string -> bool, tokenOk: string -> bool, hash: string -> seq<int>)

  predicate ValidUsers(rules: Rules, users: seq<User>) {
    && (forall i | 0 <= i < |users| ::
          rules.labelOk(users[i].name) && rules.tokenOk(users[i].token) && users[i].maxConcurrent != Some(0))
    && (forall i, j | 0 <= i < j < |users| ::
          users[i].name != users[j].name && users[i].token != users[j].token)
  }

  method ValidateUsers(rules: Rules, users: seq<User>) returns (ok: bool)
    ensures ok <==> ValidUsers(rules, users)
  {
    var labels: set<string> := {};
    var tokens: set<string> := {};
    var i := 0;
    while i < |users|
      invariant 0 <= i <= |users| && ValidUsers(rules, users[..i])
      invariant labels == set k | 0 <= k < i :: users[k].name
      invariant tokens == set k | 0 <= k < i :: users[k].token
    {
      var u := users[i];
      if !rules.labelOk(u.name) || u.name in labels { return false; }
      labels := labels + {u.name};
      if !rules.tokenOk(u.token) || u.token in tokens { return false; }
      tokens := tokens + {u.token};
      if u.maxConcurrent == Some(0) { return false; }
      i := i + 1;
    }
    assert users[..i] == users;
    return true;
  }

  /** The user whose stored token has the presented token's digest; the last one if several. */
  function FindUser(rules: Rules, users: seq<User>, token: string): Option<User> {
    if users == [] then None
    else
      var u := users[|users| - 1];
      if rules.hash(u.token) == rules.hash(token) then Some(u)
      else FindUser(rules, users[..|users| - 1], token)
  }

  datatype Outcome = Session(name: string) | Refused

  /** The locked part of `acquire`: `entry(..).or_default()`, the limit test, the increment. */
  function Admit(active: map<string, nat>, u: User): (map<string, nat>, Outcome) {
    var count := if u.name in active then active[u.name] else 0;
    if u.maxConcurrent.Some? && count >= u.maxConcurrent.value then
      (active[u.name := count], Refused)
    else
      (active[u.name := count + 1], Session(u.name))
  }

  /** `file` is what re-reading the users file gives now; `None` when it cannot be read or parsed. */
  function Acquired(rules: Rules, active: map<string, nat>, file: Option<seq<User>>,
                    token: string): (map<string, nat>, Outcome) {
    if file.None? || !ValidUsers(rules, file.value) then (active, Refused) else
    match FindUser(rules, file.value, token)
    case None => (active, Refused)
    case Some(u) => if u.enabled then Admit(active, u) else (active, Refused)
  }

  /** Dropping a session; the `usize` subtraction would wrap at zero. */
  function Dropped(active: map<string, nat>, name: string): map<string, nat> {
    if name !in active then active else
    var count := if active[name] == 0 then U64_MAX else active[name] - 1;
    if count == 0 then active - {name} else active[name := count]
  }

  /** Every row is compared, so the last match wins. */
  method SearchUser(rules: Rules, users: seq<User>, token: string) returns (user: Option<User>)
    ensures user == FindUser(rules, users, token)
  {
    var candidate := rules.hash(token);
    user := None;
    var i := 0;
    while i < |users|
      invariant 0 <= i <= |users|
      invariant user == FindUser(rules, users[..i], token)
    {
      if rules.hash(users[i].token) == candidate { user := Some(users[i]); }
      assert users[..i + 1][..i] == users[..i];
      i := i + 1;
    }
    assert users[..i] == users;
  }

  class UserRegistry {
    var active: map<string, nat>
    ghost var live: multiset<string>   // labels of the sessions handed out and not yet dropped

    /** Each counter is the number of live sessions, and no entry is zero. */
    ghost predicate Valid() reads this { Exact(State(active, live)) }

    constructor ()
      ensures Valid() && active == map[] && live == multiset{}
    {
      active, live := map[], multiset{};
    }

    /** A session more of the user who presented the token, within the limit, or no change. */
    method Acquire(rules: Rules, file: Option<seq<User>>, token: string) returns (r: Outcome)
      requires Valid()
      modifies this
      ensures Valid() && (active, r) == Acquired(rules, old(active), file, token)
      ensures live == old(live) + match r case Session(name) => multiset{name} case Refused => multiset{}
      ensures r.Refused? ==> active == old(active)
      ensures r.Session? ==> file.Some? && exists u | u in file.value ::
                && u.name == r.name && u.enabled && rules.hash(u.token) == rules.hash(token)
                && (u.maxConcurrent.Some? ==> live[u.name] <= u.maxConcurrent.value)
    {
      if file.None? { return Refused; }
      var users := file.value;
      var ok := ValidateUsers(rules, users);
      if !ok { return Refused; }
      var user := SearchUser(rules, users, token);
      FindUserIn(rules, users, token);
      if user.None? || !user.value.enabled { return Refused; }
      var u := user.value;
      AdmitKeepsExact(State(active, live), u);
      r := AdmitUser(u);
      if r.Session? { live := live + multiset{u.name}; }
    }

    /** The counter of one user: `or_insert(0)`, the limit, then one more. */
    method AdmitUser(u: User) returns (r: Outcome)
      modifies this`active
      ensures (active, r) == Admit(old(active), u)
    {
      if u.name !in active { active := active[u.name := 0]; }
      if u.maxConcurrent.Some? && active[u.name] >= u.maxConcurrent.value {
        assert active == Admit(old(active), u).0;
        return Refused;
      }
      active := active[u.name := active[u.name] + 1];
      assert active == Admit(old(active), u).0;
      return Session(u.name);
    }

    /** One live session less; its counter does not wrap, and leaves no zero entry. */
    method DropSession(name: string)
      requires Valid() && name in live
      modifies this
      ensures Valid() && live == old(live) - multiset{name}
      ensures active == Dropped(old(active), name)
    {
      hide Exact, Dropped;
      DropKeepsExact(State(active, live), name);
      live := live - multiset{name};
      DropCounter(name);
    }

    /** The counter of one label: one less, and the entry goes with the last. */
    method DropCounter(name: string)
      modifies this`active
      ensures active == Dropped(old(active), name)
    {
      if name in active {
        var count := if active[name] == 0 then U64_MAX else active[name] - 1;
        active := active[name := count];
        if count == 0 { active := active - {name}; }
        assert active == Dropped(old(active), name);
      }
    }
  }

  // ---------------------------------------------------------------------------
  // Runs
  // ---------------------------------------------------------------------------

  datatype Event = Acquire(file: Option<seq<User>>, token: string) | Drop(name: string)

  /** Counters, and the labels of the sessions handed out and not yet dropped. */
  datatype State = State(active: map<string, nat>, live: multiset<string>)

  function Step(rules: Rules, s: State, e: Event): State {
    match e
    case Acquire(file, token) =>
      var (active, r) := Acquired(rules, s.active, file, token);
      State(active, match r case Session(name) => s.live + multiset{name} case Refused => s.live)
    case Drop(name) =>
      State(Dropped(s.active, name), s.live - multiset{name})
  }

  /** A session object is dropped once; each acquire reads its own version of the file. */
  ghost predicate Run(rules: Rules, ss: seq<State>, es: seq<Event>) {
    && |ss| == |es| + 1 && ss[0] == State(map[], multiset{})
    && forall i {:trigger es[i]} | 0 <= i < |es| ::
         (es[i].Drop? ==> es[i].name in ss[i].live) && ss[i + 1] == Step(rules, ss[i], es[i])
  }

  /** Each counter is the number of live sessions; no entry is zero. */
  ghost predicate Exact(s: State) {
    && (forall l :: l in s.active <==> l in s.live)
    && (forall l | l in s.active :: s.active[l] == s.live[l])
  }

  /** Validation is what keeps zero entries out. */
  lemma AdmitZeroEntry(active: map<string, nat>, u: User)
    requires forall l | l in active :: active[l] > 0
    ensures (exists l :: l in Admit(active, u).0 && Admit(active, u).0[l] == 0) <==>
            u.maxConcurrent == Some(0) && u.name !in active
  {
    var a := Admit(active, u).0;
    if u.maxConcurrent == Some(0) && u.name !in active {
      assert u.name in a && a[u.name] == 0;
    }
  }

  /** Of several users with the digest the last one is meant. */
  ghost predicate LastMatch(rules: Rules, users: seq<User>, token: string, u: User) {
    exists k | 0 <= k < |users| ::
      users[k] == u && forall j | k < j < |users| :: rules.hash(users[j].token) != rules.hash(token)
  }

  lemma LastMatchSnoc(rules: Rules, users: seq<User>, last: User, token: string, u: User)
    requires LastMatch(rules, users, token, u) && rules.hash(last.token) != rules.hash(token)
    ensures LastMatch(rules, users + [last], token, u)
  {
    var k :| 0 <= k < |users| && users[k] == u
             && forall j | k < j < |users| :: rules.hash(users[j].token) != rules.hash(token);
    var all := users + [last];
    assert all[k] == u && forall j | k < j < |all| :: rules.hash(all[j].token) != rules.hash(token);
  }

  lemma {:induction false} FindUserIn(rules: Rules, users: seq<User>, token: string)
    ensures var r := FindUser(rules, users, token);
            && (r.Some? ==> r.value in users && rules.hash(r.value.token) == rules.hash(token))
            && (r.None? ==> forall u | u in users :: rules.hash(u.token) != rules.hash(token))
            && (r.Some? ==> LastMatch(rules, users, token, r.value))
  {
    if users != [] {
      var last := users[|users| - 1];
      FindUserIn(rules, users[..|users| - 1], token);
      if rules.hash(last.token) != rules.hash(token) && FindUser(rules, users, token).Some? {
        LastMatchSnoc(rules, users[..|users| - 1], last, token, FindUser(rules, users, token).value);
      }
      assert users == users[..|users| - 1] + [users[|users| - 1]];
    }
  }

  lemma AdmitKeepsExact(s: State, u: User)
    requires Exact(s) && u.maxConcurrent != Some(0)
    ensures var (active, r) := Admit(s.active, u);
            && (r.Session? ==> r.name == u.name && Exact(State(active, s.live + multiset{u.name})))
            && (r.Refused? ==> active == s.active)
  {
  }

  lemma DropKeepsExact(s: State, name: string)
    requires Exact(s) && name in s.live
    ensures Exact(State(Dropped(s.active, name), s.live - multiset{name}))
  {
    var t := State(Dropped(s.active, name), s.live - multiset{name});
    forall l ensures l in t.active <==> l in t.live {
      assert l != name ==> t.live[l] == s.live[l];
    }
  }

  lemma StepKeepsExact(rules: Rules, s: State, e: Event)
    requires Exact(s) && (e.Drop? ==> e.name in s.live)
    ensures Exact(Step(rules, s, e))
  {
    match e
    case Drop(name) => DropKeepsExact(s, name);
    case Acquire(file, token) =>
      if file.Some? && ValidUsers(rules, file.value) {
        FindUserIn(rules, file.value, token);
        var r := FindUser(rules, file.value, token);
        if r.Some? { AdmitKeepsExact(s, r.value); }
      }
  }

  /** Every counter equals its live sessions after any acquires, drops and reloads. */
  lemma {:induction false} RunExact(rules: Rules, ss: seq<State>, es: seq<Event>, i: nat)
    requires Run(rules, ss, es) && i < |ss|
    ensures Exact(ss[i])
  {
    if i > 0 {
      RunExact(rules, ss, es, i - 1);
      StepKeepsExact(rules, ss[i - 1], es[i - 1]);
    }
  }

  /** An acquire that succeeds was for an enabled user of the file then read, and leaves
      that user's live sessions within the limit then in force. */
  lemma LimitRespected(rules: Rules, ss: seq<State>, es: seq<Event>, i: nat)
    requires Run(rules, ss, es) && i < |es| && es[i].Acquire?
    requires Acquired(rules, ss[i].active, es[i].file, es[i].token).1.Session?
    ensures es[i].file.Some?
    ensures exists u :: u in es[i].file.value && u.enabled && rules.hash(u.token) == rules.hash(es[i].token)
              && ss[i + 1].live == ss[i].live + multiset{u.name}
              && (u.maxConcurrent.Some? ==> ss[i + 1].live[u.name] <= u.maxConcurrent.value)
  {
    RunExact(rules, ss, es, i);
    FindUserIn(rules, es[i].file.value, es[i].token);
    var u := FindUser(rules, es[i].file.value, es[i].token).value;
    assert u in es[i].file.value;
  }

  /** Refusals: the file is unusable, the token unknown or disabled, or the user already
      has as many live sessions as the limit in force. */
  lemma RefusedExactly(rules: Rules, ss: seq<State>, es: seq<Event>, i: nat)
    requires Run(rules, ss, es) && i < |es| && es[i].Acquire?
    ensures Acquired(rules, ss[i].active, es[i].file, es[i].token).1.Refused? <==>
            || es[i].file.None? || !ValidUsers(rules, es[i].file.value)
            || (var r := FindUser(rules, es[i].file.value, es[i].token);
                r.None? || !r.value.enabled
                || (r.value.maxConcurrent.Some? && ss[i].live[r.value.name] >= r.value.maxConcurrent.value))
  {
    RunExact(rules, ss, es, i);
  }
}
