/** The nonce store: issue, check once, sweep. */
module Nonces {

  datatype Event =
    | Issue(val: string, now: int)
    | Check(val: string, now: int, deletes: bool)    // the DELETE of a check may fail
    | Sweep(now: int, deletes: bool)    // the DELETE of a sweep may fail

  datatype Response = Issued | Refused | Accepted | Rejected | Swept

  /** Stored values with their expiry. */
  type Store = map<string, int>

  /** The store after an event; a check removes what it finds, whatever it answers, if its DELETE succeeds. */
  function After(s: Store, e: Event, lifetime: int): Store {
    match e
    case Issue(v, now) => if v in s then s else s[v := now + lifetime]
    case Check(v, _, deletes) => if deletes then s - {v} else s
    case Sweep(now, deletes) => if deletes then map v | v in s && !(s[v] < now) :: s[v] else s
  }

  function Answer(s: Store, e: Event): Response {
    match e
    case Issue(v, _) => if v in s then Refused else Issued
    case Check(v, now, _) => if v in s && !(s[v] < now) then Accepted else Rejected
    case Sweep(_, _) => Swept
  }

  class NonceManager {
    const lifetime: int
    var nonces: Store

    constructor (lifetime: int)
      ensures this.lifetime == lifetime && nonces == map[]
    {
      this.lifetime, nonces := lifetime, map[];
    }

    /** `GetNonce`, for the random value `val`. */
    method GetNonce(val: string, now: int) returns (r: Response)
      modifies this
      ensures nonces == After(old(nonces), Issue(val, now), lifetime) && r == Answer(old(nonces), Issue(val, now))
    {
      if val in nonces {
        return Refused;
      }
      nonces := nonces[val := now + lifetime];
      r := Issued;
    }

    /** `CheckNonce`: fetched and deleted in one transaction, then compared with the clock; a failing DELETE is only
        logged. */
    method CheckNonce(val: string, now: int, deletes: bool) returns (r: Response)
      modifies this
      ensures nonces == After(old(nonces), Check(val, now, deletes), lifetime)
      ensures r == Answer(old(nonces), Check(val, now, deletes))
    {
      if val !in nonces {
        return Rejected;
      }
      var expiry := nonces[val];
      if deletes {
        nonces := nonces - {val};
      }
      r := if expiry < now then Rejected else Accepted;
    }

    /** `sweep`: one DELETE; if it fails, nothing happens. */
    method SweepExpired(now: int, deletes: bool) returns (ok: bool)
      modifies this
      ensures ok == deletes && nonces == After(old(nonces), Sweep(now, deletes), lifetime)
    {
      ok := deletes;
      if deletes {
        nonces := map v | v in nonces && !(nonces[v] < now) :: nonces[v];
      }
    }
  }

  // Runs

  function Stored(s: Store, es: seq<Event>, lifetime: int): Store
    decreases |es|
  {
    if es == [] then s else After(Stored(s, es[..|es| - 1], lifetime), es[|es| - 1], lifetime)
  }

  function AnswerAt(es: seq<Event>, i: nat, lifetime: int): Response
    requires i < |es|
  {
    Answer(Stored(map[], es[..i], lifetime), es[i])
  }

  predicate Monotone(es: seq<Event>) {
    forall i, j :: 0 <= i < j < |es| ==> es[i].now <= es[j].now
  }

  /** A check of the value that removes it. */
  predicate Consumes(e: Event, v: string) { e.Check? && e.val == v && e.deletes }

  /** A stored value comes from an issue after which no check removed it. */
  lemma {:induction false} StoredSinceIssue(es: seq<Event>, lifetime: int, v: string) returns (j: nat)
    requires v in Stored(map[], es, lifetime)
    ensures j < |es| && es[j].Issue? && es[j].val == v && AnswerAt(es, j, lifetime) == Issued
    ensures Stored(map[], es, lifetime)[v] == es[j].now + lifetime
    ensures forall k :: j < k < |es| ==> !Consumes(es[k], v)
    decreases |es|
  {
    var init, last := es[..|es| - 1], es[|es| - 1];
    if v in Stored(map[], init, lifetime) {
      j := StoredSinceIssue(init, lifetime, v);
      assert init[..j] == es[..j];
    } else {
      j := |es| - 1;
    }
  }

  /** Every acceptance is paid for by an issue of that value, not later than the expiry it set, with no check that
      removed the value in between: while deletes succeed an issued value is accepted at most once, and it is never
      accepted after its expiry. */
  lemma {:induction false} AcceptedOnceInTime(es: seq<Event>, lifetime: int, i: nat) returns (j: nat)
    requires i < |es| && AnswerAt(es, i, lifetime) == Accepted
    ensures j < i && es[j].Issue? && es[j].val == es[i].val && AnswerAt(es, j, lifetime) == Issued
    ensures es[i].now <= es[j].now + lifetime
    ensures forall k :: j < k < i ==> !Consumes(es[k], es[i].val)
  {
    j := StoredSinceIssue(es[..i], lifetime, es[i].val);
    assert es[..i][..j] == es[..j];
  }

  // Sweeps cannot be observed

  /** The events without the sweeps. */
  function NoSweeps(es: seq<Event>): seq<Event> {
    if es == [] then []
    else NoSweeps(es[..|es| - 1]) + (if es[|es| - 1].Sweep? then [] else [es[|es| - 1]])
  }

  /** Issued values do not repeat. */
  ghost predicate FreshValues(es: seq<Event>) {
    forall i, j :: 0 <= i < j < |es| && es[i].Issue? && es[j].Issue? ==> es[i].val != es[j].val
  }

  ghost predicate IssuedIn(es: seq<Event>, v: string) {
    exists i :: 0 <= i < |es| && es[i].Issue? && es[i].val == v
  }

  /** The swept store lacks only values that expired before `now`. */
  ghost predicate LacksOnlyExpired(full: Store, swept: Store, now: int) {
    && (forall v :: v in swept ==> v in full && full[v] == swept[v])
    && (forall v :: v in full && v !in swept ==> full[v] < now)
  }

  lemma {:induction false} OnlyIssuedStored(es: seq<Event>, lifetime: int, v: string)
    requires v in Stored(map[], es, lifetime)
    ensures IssuedIn(es, v)
  {
    var j := StoredSinceIssue(es, lifetime, v);
  }

  lemma {:induction false} NoSweepsIssues(es: seq<Event>, v: string)
    ensures IssuedIn(NoSweeps(es), v) ==> IssuedIn(es, v)
  {
    if es != [] {
      var init, last := es[..|es| - 1], es[|es| - 1];
      NoSweepsIssues(init, v);
      if IssuedIn(NoSweeps(es), v) {
        var i :| 0 <= i < |NoSweeps(es)| && NoSweeps(es)[i].Issue? && NoSweeps(es)[i].val == v;
        if i < |NoSweeps(init)| {
          assert IssuedIn(NoSweeps(init), v);
          var k :| 0 <= k < |init| && init[k].Issue? && init[k].val == v;
          assert es[k] == init[k];
        } else {
          assert es[|es| - 1] == last;
        }
      }
    }
  }

  /** An issue draws a value whose expired row is still stored. */
  predicate Reuses(s: Store, e: Event) {
    e.Issue? && e.val in s && s[e.val] < e.now
  }

  /** Without the sweeps no issue would do so. */
  ghost predicate NoReuse(es: seq<Event>, lifetime: int) {
    forall i {:trigger es[..i]} :: 0 <= i < |es| ==> !Reuses(Stored(map[], NoSweeps(es[..i]), lifetime), es[i])
  }

  lemma {:induction false} SweptSimulates(es: seq<Event>, lifetime: int, now: int)
    requires Monotone(es) && NoReuse(es, lifetime) && forall i :: 0 <= i < |es| ==> es[i].now <= now
    ensures LacksOnlyExpired(Stored(map[], NoSweeps(es), lifetime), Stored(map[], es, lifetime), now)
    decreases |es|
  {
    if es != [] {
      var init, last := es[..|es| - 1], es[|es| - 1];
      PrefixNoReuse(es, lifetime);
      SweptSimulates(init, lifetime, last.now);
      var full := Stored(map[], NoSweeps(init), lifetime);
      assert !Reuses(full, last);
      if last.Sweep? {
        assert NoSweeps(es) == NoSweeps(init) + [] == NoSweeps(init);
      } else {
        assert (NoSweeps(init) + [last])[..|NoSweeps(init)|] == NoSweeps(init);
        assert Stored(map[], NoSweeps(es), lifetime) == After(full, last, lifetime);
      }
    }
  }

  lemma {:induction false} PrefixNoReuse(es: seq<Event>, lifetime: int)
    requires es != [] && NoReuse(es, lifetime)
    ensures NoReuse(es[..|es| - 1], lifetime)
    ensures !Reuses(Stored(map[], NoSweeps(es[..|es| - 1]), lifetime), es[|es| - 1])
  {
    var init := es[..|es| - 1];
    forall i | 0 <= i < |init| ensures !Reuses(Stored(map[], NoSweeps(init[..i]), lifetime), init[i]) {
      assert init[..i] == es[..i];
    }
  }

  /** If no issue draws a value whose expired row is still stored, sweeps inserted anywhere never change the answer to
      a later issue or check ... */
  lemma {:induction false} SweepsUnobservable(es: seq<Event>, lifetime: int)
    requires es != [] && !es[|es| - 1].Sweep? && Monotone(es) && NoReuse(es, lifetime)
    ensures Answer(Stored(map[], es[..|es| - 1], lifetime), es[|es| - 1]) ==
            Answer(Stored(map[], NoSweeps(es[..|es| - 1]), lifetime), es[|es| - 1])
  {
    var init, last := es[..|es| - 1], es[|es| - 1];
    PrefixNoReuse(es, lifetime);
    SweptSimulates(init, lifetime, last.now);
  }

  /** ... and otherwise they do: a sweep just before such an issue decides whether its value is accepted. */
  lemma {:induction false} ReuseObservesSweep(es: seq<Event>, lifetime: int, v: string, now: int)
    requires lifetime >= 0 && Reuses(Stored(map[], es, lifetime), Issue(v, now))
    ensures Answer(Stored(map[], es + [Sweep(now, true)] + [Issue(v, now)], lifetime), Check(v, now, true)) == Accepted
    ensures Answer(Stored(map[], es + [Issue(v, now)], lifetime), Check(v, now, true)) == Rejected
  {
    StoredSnoc(es, Issue(v, now), lifetime);
    StoredSnoc(es, Sweep(now, true), lifetime);
    StoredSnoc(es + [Sweep(now, true)], Issue(v, now), lifetime);
  }

  lemma {:induction false} StoredSnoc(es: seq<Event>, e: Event, lifetime: int)
    ensures Stored(map[], es + [e], lifetime) == After(Stored(map[], es, lifetime), e, lifetime)
  {
    assert (es + [e])[..|es|] == es;
  }

  /** Values that do not repeat are never reused. */
  lemma {:induction false} FreshNeverReused(es: seq<Event>, lifetime: int)
    requires FreshValues(es)
    ensures NoReuse(es, lifetime)
  {
    forall i | 0 <= i < |es| ensures !Reuses(Stored(map[], NoSweeps(es[..i]), lifetime), es[i]) {
      if Reuses(Stored(map[], NoSweeps(es[..i]), lifetime), es[i]) {
        OnlyIssuedStored(NoSweeps(es[..i]), lifetime, es[i].val);
        NoSweepsIssues(es[..i], es[i].val);
        assert false;
      }
    }
  }

  /** An issued value stays stored until its expiry while no check removes it, whatever is swept. */
  lemma {:induction false} StaysStored(es: seq<Event>, lifetime: int, j: nat)
    requires j < |es| && es[j].Issue? && es[j].val !in Stored(map[], es[..j], lifetime)
    requires forall k :: j < k < |es| ==> !Consumes(es[k], es[j].val) && es[k].now <= es[j].now + lifetime
    ensures es[j].val in Stored(map[], es, lifetime)
    ensures Stored(map[], es, lifetime)[es[j].val] == es[j].now + lifetime
    decreases |es|
  {
    var init := es[..|es| - 1];
    if j < |es| - 1 {
      assert init[..j] == es[..j];
      StaysStored(init, lifetime, j);
    }
  }

  /** Of values that do not repeat, a check accepts exactly those issued before it, not later than the lifetime after
      their issue, and not removed by a check in between. */
  lemma {:induction false} AcceptedExactly(es: seq<Event>, lifetime: int, i: nat)
    requires FreshValues(es) && Monotone(es) && i < |es| && es[i].Check?
    ensures AnswerAt(es, i, lifetime) == Accepted <==>
            exists j :: 0 <= j < i && es[j].Issue? && es[j].val == es[i].val && es[i].now <= es[j].now + lifetime &&
                        forall k :: j < k < i ==> !Consumes(es[k], es[i].val)
  {
    if AnswerAt(es, i, lifetime) == Accepted {
      var j := AcceptedOnceInTime(es, lifetime, i);
    }
    forall j | 0 <= j < i && es[j].Issue? && es[j].val == es[i].val && es[i].now <= es[j].now + lifetime &&
               forall k :: j < k < i ==> !Consumes(es[k], es[i].val)
      ensures AnswerAt(es, i, lifetime) == Accepted
    {
      if es[j].val in Stored(map[], es[..j], lifetime) {
        OnlyIssuedStored(es[..j], lifetime, es[j].val);
        assert false;
      }
      assert es[..i][..j] == es[..j];
      StaysStored(es[..i], lifetime, j);
    }
  }

  /** A value that is issued once is not accepted again after an acceptance that removed it ... */
  lemma {:induction false} AcceptedAtMostOnce(es: seq<Event>, lifetime: int, i: nat, k: nat)
    requires FreshValues(es) && i < k < |es| && es[i].Check? && es[i].deletes
    requires AnswerAt(es, i, lifetime) == Accepted && AnswerAt(es, k, lifetime) == Accepted
    ensures es[i].val != es[k].val
  {
    var m := AcceptedOnceInTime(es, lifetime, i);
    var n := AcceptedOnceInTime(es, lifetime, k);
    assert es[i].val == es[k].val ==> Consumes(es[i], es[k].val);
  }

  /** ... and is accepted again at once if its DELETE failed. */
  lemma {:induction false} AcceptedAgain(es: seq<Event>, lifetime: int, v: string, now: int, deletes: bool)
    requires Answer(Stored(map[], es, lifetime), Check(v, now, false)) == Accepted
    ensures Answer(Stored(map[], es + [Check(v, now, false)], lifetime), Check(v, now, deletes)) == Accepted
  {
    StoredSnoc(es, Check(v, now, false), lifetime);
  }
}
