/** Enrollment limits: how the effective limit is computed, checked at login and enforced when a login completes. */
module Enrollment {
  import opened Tables
  import opened Accessors

  /** `getMaxEnrollments`: the limit stored at registration. */
  function GetMaxEnrollments(requested: int, caMax: int): (r: Result<int>)
    ensures r.Ok? <==> requested >= -1 && caMax != 0 && (caMax == -1 || requested == 0 || 0 < requested <= caMax)
    ensures r.Ok? ==> r.value == if requested == 0 then caMax else requested
    ensures r.Ok? && caMax > 0 ==> 1 <= r.value <= caMax
    ensures r.Ok? && caMax >= -1 ==> r.value == -1 || r.value > 0
  {
    if requested < -1 then Err(BadRequest)
    else if caMax == -1 then Ok(if requested == 0 then caMax else requested)
    else if caMax == 0 then Err(BadRequest)
    else if requested == -1 then Err(BadRequest)
    else if requested == 0 then Ok(caMax)
    else if requested > caMax then Err(BadRequest)
    else Ok(requested)
  }

  /** The limit that applies: the user's, capped by the CA's; -1 is "no limit". */
  function EffectiveMax(userMax: int, caMax: int): int {
    if caMax != -1 && (userMax > caMax || userMax == -1) then caMax else userMax
  }

  /** The cap is exact: with -1 read as infinity it is the smaller of the two limits. */
  lemma {:induction false} EffectiveMaxIsMinimum(userMax: int, caMax: int)
    requires userMax >= -1 && caMax >= -1
    ensures EffectiveMax(userMax, caMax) == -1 <==> userMax == -1 && caMax == -1
    ensures caMax != -1 ==> -1 < EffectiveMax(userMax, caMax) <= caMax
    ensures userMax != -1 ==> -1 < EffectiveMax(userMax, caMax) <= userMax
    ensures EffectiveMax(userMax, caMax) in {userMax, caMax}
  {
  }

  predicate LoginAllowed(userMax: int, state: int, caMax: int) {
    && userMax != 0
    && state != -1
    && (EffectiveMax(userMax, caMax) == -1 || state < EffectiveMax(userMax, caMax))
  }

  /** A login is let in exactly below each of the two limits, -1 being none. */
  lemma {:induction false} LoginMeans(userMax: int, state: int, caMax: int)
    ensures LoginAllowed(userMax, state, caMax) <==>
            && userMax != 0 && state != -1
            && (userMax != -1 ==> state < userMax) && (caMax != -1 ==> state < caMax)
  {
  }

  /** The guard of the UPDATE that completes a login. */
  predicate CompletionAllowed(effective: int, state: int) {
    effective == -1 || state < effective
  }

  /** The table with one more enrollment counted. */
  function CountedUp(users: map<string, User>, name: string): map<string, User>
    requires name in users
  {
    users[name := users[name].(state := users[name].state + 1)]
  }

  /** A user as read from its row when a request starts. */
  class DBUser {
    const name: string
    const pass: string
    const state: int
    var maxEnrollments: int

    constructor (name: string, row: User)
      ensures this.name == name && pass == row.pass && state == row.state && maxEnrollments == row.maxEnrollments
    {
      this.name, pass, state, maxEnrollments := name, row.pass, row.state, row.maxEnrollments;
    }

    method Login(password: string, caMaxEnrollments: int) returns (r: Result<()>)
      modifies this
      ensures r.Ok? <==> password == pass && LoginAllowed(old(maxEnrollments), state, caMaxEnrollments)
      ensures r.Ok? <==> password == pass && old(maxEnrollments) != 0 && state != -1 &&
                         (old(maxEnrollments) != -1 ==> state < old(maxEnrollments)) &&
                         (caMaxEnrollments != -1 ==> state < caMaxEnrollments)
      ensures r.Ok? ==> maxEnrollments == EffectiveMax(old(maxEnrollments), caMaxEnrollments)
    {
      if password != pass {
        return Err(Unauthorized);
      }
      if maxEnrollments == 0 {
        return Err(Unauthorized);
      }
      if state == -1 {
        return Err(Unauthorized);
      }
      if caMaxEnrollments != -1 && (maxEnrollments > caMaxEnrollments || maxEnrollments == -1) {
        maxEnrollments := caMaxEnrollments;
      }
      if maxEnrollments != -1 && state >= maxEnrollments {
        return Err(Unauthorized);
      }
      r := Ok(());
    }

    /** The guarded increment works on the row as it is now, not on the snapshot. */
    method LoginComplete(acc: Accessor) returns (r: Result<()>)
      modifies acc`users
      ensures r.Ok? <==> name in old(acc.users) && CompletionAllowed(maxEnrollments, old(acc.users)[name].state)
      ensures r.Ok? ==> acc.users == CountedUp(old(acc.users), name)
      ensures r.Err? ==> acc.users == old(acc.users)
    {
      if name !in acc.users {
        return Err(DBFailure);
      }
      if maxEnrollments == -1 || acc.users[name].state < maxEnrollments {
        acc.users := acc.users[name := acc.users[name].(state := acc.users[name].state + 1)];
        r := Ok(());
      } else {
        r := Err(DBFailure);
      }
    }
  }
}

/** Any number of concurrent enrollments of one identity. */
module ConcurrentEnrollment {
  import opened Tables
  import opened Accessors
  import opened Enrollment

  /** Where one request is: its login read a snapshot, and the completion uses the limit computed then. */
  datatype Phase = Idle | LoggedIn(effective: int) | Succeeded | Failed

  datatype Event =
    | Login(request: nat, password: string)    // reads the row and checks password and limit on that snapshot
    | Abort(request: nat)                      // signing or any other step fails
    | Complete(request: nat)                   // the guarded UPDATE

  /** The stored counter, the requests, and how many were answered with success. */
  datatype Sys = Sys(state: int, phases: map<nat, Phase>, successes: nat, refusals: nat)

  function PhaseOf(s: Sys, i: nat): Phase { if i in s.phases then s.phases[i] else Idle }

  /** What does not change: the password and the limit of the identity, and the limit of the CA. */
  datatype Setup = Setup(pass: string, userMax: int, caMax: int)

  function Limit(u: Setup): int { EffectiveMax(u.userMax, u.caMax) }

  /** One step of one request; steps of different requests interleave freely. */
  function Step(s: Sys, e: Event, u: Setup): Sys {
    match e
    case Login(i, password) =>
      if !PhaseOf(s, i).Idle? then s
      else if u.caMax != 0 && password == u.pass && LoginAllowed(u.userMax, s.state, u.caMax)
      then s.(phases := s.phases[i := LoggedIn(Limit(u))])
      else s.(phases := s.phases[i := Failed])
    case Abort(i) =>
      if PhaseOf(s, i).LoggedIn? then s.(phases := s.phases[i := Failed]) else s
    case Complete(i) =>
      if !PhaseOf(s, i).LoggedIn? then s
      else if CompletionAllowed(PhaseOf(s, i).effective, s.state)
      then s.(state := s.state + 1, phases := s.phases[i := Succeeded], successes := s.successes + 1)
      else s.(phases := s.phases[i := Failed], refusals := s.refusals + 1)
  }

  function Run(s: Sys, es: seq<Event>, u: Setup): Sys
    decreases |es|
  {
    if es == [] then s else Step(Run(s, es[..|es| - 1], u), es[|es| - 1], u)
  }

  /** The requests as objects: each holds the snapshot its login read and the limit it computed. */
  class Requests {
    var sessions: map<nat, DBUser>
    var phases: map<nat, Phase>

    constructor ()
      ensures sessions == map[] && phases == map[]
    {
      sessions, phases := map[], map[];
    }

    ghost predicate Valid(name: string)
      reads this, sessions.Values
    {
      && (forall i :: i in phases && phases[i].LoggedIn? ==>
            i in sessions && sessions[i].name == name && sessions[i].maxEnrollments == phases[i].effective)
      && (forall i :: i in phases ==> !phases[i].Idle?)
    }

    method StartLogin(acc: Accessor, name: string, i: nat, password: string, caMax: int)
      requires Valid(name) && name in acc.users && i !in phases
      modifies this
      ensures Valid(name)
      ensures var row := acc.users[name];
              phases == old(phases)[i := if caMax != 0 && password == row.pass &&
                  LoginAllowed(row.maxEnrollments, row.state, caMax)
                                         then LoggedIn(EffectiveMax(row.maxEnrollments, caMax)) else Failed]
    {
      var ui := new DBUser(name, acc.users[name]);
      var login: Result<()> := Err(Unauthorized);
      if caMax != 0 {
        login := ui.Login(password, caMax);
      }
      sessions := sessions[i := ui];
      phases := phases[i := if login.Ok? then LoggedIn(ui.maxEnrollments) else Failed];
    }

    method Finish(acc: Accessor, name: string, i: nat) returns (ok: bool)
      requires Valid(name) && name in acc.users && i in phases && phases[i].LoggedIn?
      modifies this`phases, acc`users
      ensures Valid(name)
      ensures ok <==> CompletionAllowed(old(phases)[i].effective, old(acc.users)[name].state)
      ensures phases == old(phases)[i := if ok then Succeeded else Failed]
      ensures acc.users == if ok then CountedUp(old(acc.users), name) else old(acc.users)
    {
      var done := sessions[i].LoginComplete(acc);
      ok := done.Ok?;
      phases := phases[i := if ok then Succeeded else Failed];
    }

    /** One event, on the objects and the table. */
    method Advance(acc: Accessor, name: string, e: Event, caMax: int, ghost s: Sys,
                   ghost u: Setup) returns (success: bool)
      requires Valid(name) && name in acc.users && phases == s.phases && acc.users[name].state == s.state
      requires u == Setup(acc.users[name].pass, acc.users[name].maxEnrollments, caMax)
      modifies this, acc`users
      ensures Valid(name) && phases == Step(s, e, u).phases
      ensures acc.users == old(acc.users)[name := old(acc.users)[name].(state := Step(s, e, u).state)]
      ensures Step(s, e, u).successes == if success then s.successes + 1 else s.successes
    {
      success := false;
      match e
      case Login(i, password) =>
        if i !in phases {
          StartLogin(acc, name, i, password, caMax);
        }
      case Abort(i) =>
        if i in phases && phases[i].LoggedIn? {
          phases := phases[i := Failed];
        }
      case Complete(i) =>
        if i in phases && phases[i].LoggedIn? {
          success := Finish(acc, name, i);
        }
    }
  }

  /** Login and completion calls of any number of requests, in any order, on one table: a run of the model. */
  method Interleave(acc: Accessor, name: string, events: seq<Event>, caMax: int) returns (successes: nat, ghost s: Sys)
    requires name in acc.users
    modifies acc`users
    ensures var row := old(acc.users)[name];
            s == Run(Sys(row.state, map[], 0, 0), events, Setup(row.pass, row.maxEnrollments, caMax))
    ensures successes == s.successes
    ensures acc.users == old(acc.users)[name := old(acc.users)[name].(state := s.state)]
  {
    ghost var row := acc.users[name];
    ghost var u, start := Setup(row.pass, row.maxEnrollments, caMax), Sys(row.state, map[], 0, 0);
    var requests := new Requests();
    successes, s := 0, start;
    for k := 0 to |events|
      invariant requests.Valid(name) && fresh(requests) && requests.phases == s.phases
      invariant s == Run(start, events[..k], u) && successes == s.successes
      invariant acc.users == old(acc.users)[name := row.(state := s.state)]
    {
      var success := requests.Advance(acc, name, events[k], caMax, s, u);
      RunStep(start, events, k, u);
      s := Step(s, events[k], u);
      successes := if success then successes + 1 else successes;
    }
    assert events[..|events|] == events;
  }

  lemma {:induction false} RunStep(s: Sys, es: seq<Event>, k: nat, u: Setup)
    requires k < |es|
    ensures Run(s, es[..k + 1], u) == Step(Run(s, es[..k], u), es[k], u)
  {
    assert es[..k + 1][..k] == es[..k];
  }

  ghost predicate Inv(s: Sys, start: int, u: Setup) {
    && s.state == start + s.successes
    && (forall i :: i in s.phases && s.phases[i].LoggedIn? ==> s.phases[i].effective == Limit(u))
    && (forall i :: i in s.phases ==> !s.phases[i].Idle?)
    && (Limit(u) != -1 && s.successes > 0 ==> s.state <= Limit(u))
    && (s.refusals > 0 ==> Limit(u) != -1 && s.state >= Limit(u))
  }

  lemma {:induction false} StepKeepsInv(s: Sys, e: Event, start: int, u: Setup)
    requires Inv(s, start, u)
    ensures Inv(Step(s, e, u), start, u)
  {
  }

  lemma {:induction false} RunKeepsInv(es: seq<Event>, start: int, u: Setup)
    ensures Inv(Run(Sys(start, map[], 0, 0), es, u), start, u)
    decreases |es|
  {
    if es != [] {
      RunKeepsInv(es[..|es| - 1], start, u);
      StepKeepsInv(Run(Sys(start, map[], 0, 0), es[..|es| - 1], u), es[|es| - 1], start, u);
    }
  }

  /** In every interleaving the successful responses are exactly the increase of the counter, and from state 0 they
      never exceed the effective limit although each login checked a snapshot that may be stale. A completion is
      refused only when the limit has been reached. */
  lemma {:induction false} LimitHolds(es: seq<Event>, start: int, u: Setup)
    ensures var s := Run(Sys(start, map[], 0, 0), es, u);
            && s.successes == s.state - start
            && (start == 0 && Limit(u) >= 0 ==> s.successes <= Limit(u))
            && (start == 0 && Limit(u) < -1 ==> s.successes == 0)
            && (start == 0 && Limit(u) >= 0 && s.refusals > 0 ==> s.successes == Limit(u))
  {
    RunKeepsInv(es, start, u);
  }

  // One request after the other

  /** Requests `0..n`, each logging in with the right password and completing. */
  function Serial(n: nat, pass: string): seq<Event> {
    if n == 0 then [] else Serial(n - 1, pass) + [Login(n - 1, pass), Complete(n - 1)]
  }

  /** The smaller of the two limits, where -1 is none. */
  function SmallerLimit(u: Setup, n: nat): int {
    if u.userMax == -1 then (if u.caMax == -1 then n else u.caMax)
    else if u.caMax == -1 || u.userMax < u.caMax then u.userMax else u.caMax
  }

  lemma {:induction false} RunSnoc(s: Sys, es: seq<Event>, e: Event, u: Setup)
    ensures Run(s, es + [e], u) == Step(Run(s, es, u), e, u)
  {
    assert (es + [e])[..|es|] == es;
  }

  /** One such request: it succeeds exactly below both limits. */
  lemma {:induction false} OnePair(s: Sys, i: nat, u: Setup)
    requires i !in s.phases && s.state >= 0
    requires (u.userMax == -1 || u.userMax > 0) && (u.caMax == -1 || u.caMax > 0)
    ensures var s' := Step(Step(s, Login(i, u.pass), u), Complete(i), u);
            var room := (u.userMax != -1 ==> s.state < u.userMax) && (u.caMax != -1 ==> s.state < u.caMax);
            && s'.state == s.state + (if room then 1 else 0) && s'.successes == s.successes + (if room then 1 else 0)
            && s'.phases.Keys == s.phases.Keys + {i}
  {
    LoginMeans(u.userMax, s.state, u.caMax);
  }

  lemma {:induction false} OneMore(n: nat, u: Setup)
    requires n > 0
    ensures var start := Sys(0, map[], 0, 0);
            Run(start, Serial(n, u.pass), u) ==
            Step(Step(Run(start, Serial(n - 1, u.pass), u), Login(n - 1, u.pass), u), Complete(n - 1), u)
  {
    var start, before := Sys(0, map[], 0, 0), Serial(n - 1, u.pass);
    RunSnoc(start, before, Login(n - 1, u.pass), u);
    RunSnoc(start, before + [Login(n - 1, u.pass)], Complete(n - 1), u);
    assert Serial(n, u.pass) == before + [Login(n - 1, u.pass)] + [Complete(n - 1)];
  }

  /** Of `n` such requests from state 0 exactly as many succeed as the smaller limit admits, and all without limits. */
  lemma {:induction false} SerialExact(n: nat, u: Setup)
    requires (u.userMax == -1 || u.userMax > 0) && (u.caMax == -1 || u.caMax > 0)
    ensures var s := Run(Sys(0, map[], 0, 0), Serial(n, u.pass), u);
            && s.successes == s.state == (if n <= SmallerLimit(u, n) then n else SmallerLimit(u, n))
            && (forall i :: i in s.phases ==> 0 <= i < n)
  {
    if n > 0 {
      SerialExact(n - 1, u);
      OnePair(Run(Sys(0, map[], 0, 0), Serial(n - 1, u.pass), u), n - 1, u);
      OneMore(n, u);
    }
  }

  /** In any system an idle request with the right password gets in exactly below both limits. */
  lemma {:induction false} LetIn(s: Sys, i: nat, password: string, u: Setup)
    requires i !in s.phases
    ensures PhaseOf(Step(s, Login(i, password), u), i).LoggedIn? <==>
            && password == u.pass && u.caMax != 0 && u.userMax != 0 && s.state != -1
            && (u.userMax != -1 ==> s.state < u.userMax) && (u.caMax != -1 ==> s.state < u.caMax)
  {
  }
}
