/** The database accessor: SQL statements as updates of tables, and the transactions built from them. */
module Accessors {
  import opened Strings
  import opened Paths
  import opened Attributes
  import opened Tables

  datatype TxResult = TxResult(identities: seq<string>, affiliations: seq<string>)

  /** `rows` lists the members of `s`, each once, in some order. */
  ghost predicate Lists(rows: seq<string>, s: set<string>) {
    && (forall i, j :: 0 <= i < j < |rows| ==> rows[i] != rows[j])
    && (forall x :: x in rows <==> x in s)
  }

  lemma {:induction false} ListsAppend(a: seq<string>, b: seq<string>, s: set<string>, t: set<string>)
    requires Lists(a, s) && Lists(b, t) && s !! t
    ensures Lists(a + b, s + t)
  {
    var c := a + b;
    forall i, j | 0 <= i < j < |c| ensures c[i] != c[j] {
      assert i < |a| ==> c[i] in s;
      assert j >= |a| ==> c[j] in t;
    }
  }

  /** A SELECT yields the matching keys in an order the database chooses. */
  method Select(s: set<string>) returns (rows: seq<string>)
    ensures Lists(rows, s)
  {
    rows := [];
    var rest := s;
    while rest != {}
      invariant rest <= s && Lists(rows, s - rest)
    {
      var x :| x in rest;
      rows := rows + [x];
      rest := rest - {x};
    }
  }

  // The order of the rows

  /** The rows of a subtree in the order the database returns them, the root appended. */
  ghost predicate SubtreeRows(affs: map<string, Affiliation>, root: string, rows: seq<string>) {
    |rows| > 0 && rows[|rows| - 1] == root && Lists(rows, SubAffiliations(affs, root) + {root})
  }

  /** When its turn comes, the target of row `i` is free: absent from the start, or the name of a row moved before. */
  ghost predicate FreeAt(affs: map<string, Affiliation>, rows: seq<string>, i: int, oldAff: string, newAff: string)
    requires 0 <= i < |rows|
  {
    Rebase(rows[i], oldAff, newAff) in affs ==> Rebase(rows[i], oldAff, newAff) in rows[..i]
  }

  ghost predicate Unobstructed(affs: map<string, Affiliation>, rows: seq<string>, oldAff: string, newAff: string) {
    forall i :: 0 <= i < |rows| ==> FreeAt(affs, rows, i, oldAff, newAff)
  }

  /** In the order the rows came, no target was taken (`clear`), or one was. */
  ghost predicate RowsClear(affs: map<string, Affiliation>, oldAff: string, newAff: string, clear: bool) {
    exists rows :: SubtreeRows(affs, oldAff, rows) && Unobstructed(affs, rows, oldAff, newAff) == clear
  }

  /** Where no target is taken at all, the order does not matter. */
  lemma {:induction false} NoneTaken(affs: map<string, Affiliation>, oldAff: string, newAff: string)
    requires NoCollision(affs, oldAff, newAff) && oldAff in affs
    ensures !RowsClear(affs, oldAff, newAff, false)
  {
    forall rows | SubtreeRows(affs, oldAff, rows) ensures Unobstructed(affs, rows, oldAff, newAff) {
      assert forall i :: 0 <= i < |rows| ==> rows[i] in rows;
    }
  }

  // Progress of the rename loop

  /** The rows in `done` have moved, the others have not, and no moved row sits on a name still to be moved. */
  ghost predicate AffsHalf(a0: map<string, Affiliation>, a: map<string, Affiliation>, done: set<string>,
                           oldAff: string, newAff: string)
  {
    && (forall n :: n in done ==> n in a0 && InSubtree(oldAff, n))
    && (forall n :: n in a0 && n !in done ==> n in a && a[n] == a0[n])
    && (forall n {:trigger RowMoved(a0, a, done, oldAff, newAff, n)} :: n in done ==>
        RowMoved(a0, a, done, oldAff, newAff, n))
    && (forall m {:trigger Accounted(a0, done, oldAff, newAff, m)} :: m in a ==> Accounted(a0, done, oldAff, newAff, m))
  }

  ghost predicate RowMoved(a0: map<string, Affiliation>, a: map<string, Affiliation>, done: set<string>,
                           oldAff: string, newAff: string, n: string)
    requires n in a0
  {
    var m := Rebase(n, oldAff, newAff);
    && m in a
    && a[m] == a0[n].(prekey := ReplaceFirst(a0[n].prekey, oldAff, newAff))
    && (m in a0 ==> m in done)
  }

  ghost predicate Accounted(a0: map<string, Affiliation>, done: set<string>, oldAff: string, newAff: string,
                            m: string) {
    (m in a0 && m !in done) || (InSubtree(newAff, m) && Rebase(m, newAff, oldAff) in done)
  }

  ghost predicate UsersHalf(u0: map<string, User>, u: map<string, User>, done: set<string>, oldAff: string,
                            newAff: string) {
    && u.Keys == u0.Keys
    && forall id :: id in u0 ==>
         if u0[id].affiliation in done then UserMoved(u0[id], u[id], oldAff, newAff) else u[id] == u0[id]
  }

  lemma {:induction false} AffsHalfStep(a0: map<string, Affiliation>, a: map<string, Affiliation>, done: set<string>,
                     oldAff: string, newAff: string, n: string, a': map<string, Affiliation>, done': set<string>)
    requires AffsHalf(a0, a, done, oldAff, newAff) && n in a0 && InSubtree(oldAff, n) && n !in done
    requires Rebase(n, oldAff, newAff) !in a && done' == done + {n}
    requires a' == (a - {n})[Rebase(n, oldAff, newAff) :=
                     a0[n].(prekey := ReplaceFirst(a0[n].prekey, oldAff, newAff))]
    ensures AffsHalf(a0, a', done', oldAff, newAff)
  {
    forall x | x in a0 && x !in done' ensures x in a' && a'[x] == a0[x] {
    }
    forall x | x in done' ensures RowMoved(a0, a', done', oldAff, newAff, x) {
      if x != n {
        assert RowMoved(a0, a, done, oldAff, newAff, x);
      }
    }
    RebaseInSubtree(n, oldAff, newAff);
    forall m | m in a' ensures Accounted(a0, done', oldAff, newAff, m) {
      assert m in a ==> Accounted(a0, done, oldAff, newAff, m);
    }
  }

  /** A target that is taken was taken from the start, by a row that has not moved yet. */
  lemma {:induction false} TakenFromStart(a0: map<string, Affiliation>, a: map<string, Affiliation>, done: set<string>,
                       oldAff: string, newAff: string, n: string)
    requires AffsHalf(a0, a, done, oldAff, newAff) && n in a0 && InSubtree(oldAff, n) && n !in done
    requires Rebase(n, oldAff, newAff) in a
    ensures Rebase(n, oldAff, newAff) in a0 && Rebase(n, oldAff, newAff) !in done
  {
    RebaseInSubtree(n, oldAff, newAff);
    assert Accounted(a0, done, oldAff, newAff, Rebase(n, oldAff, newAff));
  }

  lemma {:induction false} AffsHalfDone(a0: map<string, Affiliation>, a: map<string, Affiliation>, done: set<string>,
                                        oldAff: string, newAff: string)
    requires AffsHalf(a0, a, done, oldAff, newAff)
    requires forall n :: n in a0 && InSubtree(oldAff, n) ==> n in done
    ensures AffsRenamed(a0, a, oldAff, newAff)
  {
    forall n | n in a0 && InSubtree(oldAff, n)
      ensures Rebase(n, oldAff, newAff) in a
      ensures a[Rebase(n, oldAff, newAff)] == a0[n].(prekey := ReplaceFirst(a0[n].prekey, oldAff, newAff))
    {
      assert RowMoved(a0, a, done, oldAff, newAff, n);
    }
    forall m | m in a ensures FromRow(a0, m, oldAff, newAff) {
      assert Accounted(a0, done, oldAff, newAff, m);
    }
  }

  lemma {:induction false} UsersHalfStep(u0: map<string, User>, u: map<string, User>, u': map<string, User>,
                                         done: set<string>,
                      oldAff: string, newAff: string, path: string)
    requires UsersHalf(u0, u, done, oldAff, newAff) && path !in done && u'.Keys == u.Keys
    requires forall id :: id in u0 ==>
               if u0[id].affiliation == path then UserMoved(u[id], u'[id], oldAff, newAff) else u'[id] == u[id]
    ensures UsersHalf(u0, u', done + {path}, oldAff, newAff)
  {
  }

  lemma {:induction false} HoldersMoved(u0: map<string, User>, u: map<string, User>, u': map<string, User>,
                                        done: set<string>,
                     oldAff: string, newAff: string, path: string, ids: seq<string>)
    requires UsersHalf(u0, u, done, oldAff, newAff) && path !in done && u'.Keys == u.Keys
    requires forall id :: id in ids <==> id in u0 && u0[id].affiliation == path
    requires forall id :: id in ids ==> UserMoved(u[id], u'[id], oldAff, newAff)
    requires forall id :: id in u && id !in ids ==> u'[id] == u[id]
    ensures UsersHalf(u0, u', done + {path}, oldAff, newAff)
  {
    UsersHalfStep(u0, u, u', done, oldAff, newAff, path);
  }

  /** Users already moved do not carry a name that is still to be moved. */
  lemma {:induction false} SameHolders(db: DB, a: map<string, Affiliation>, u: map<string, User>, done: set<string>,
                    oldAff: string, newAff: string, path: string)
    requires AffsHalf(db.affiliations, a, done, oldAff, newAff) && UsersHalf(db.users, u, done, oldAff, newAff)
    requires path in db.affiliations && path !in done
    ensures Holders(db, path) == set id | id in u && u[id].affiliation == path
  {
    forall id | id in db.users && db.users[id].affiliation in done ensures u[id].affiliation != path {
      var n := db.users[id].affiliation;
      assert RowMoved(db.affiliations, a, done, oldAff, newAff, n);
      assert u[id].affiliation == Rebase(n, oldAff, newAff);
    }
  }

  /** All listed users have the new column, the first `i` of them the new attribute too. */
  ghost predicate MovedUpTo(recs: map<string, User>, users: map<string, User>, ids: seq<string>, i: int,
                            newPath: string, oldAff: string, newAff: string)
  {
    && users.Keys == recs.Keys && 0 <= i <= |ids|
    && (forall j :: 0 <= j < |ids| ==> ids[j] in recs)
    && (forall j :: 0 <= j < i ==> UserMoved(recs[ids[j]], users[ids[j]], oldAff, newAff))
    && (forall j :: i <= j < |ids| ==> users[ids[j]] == recs[ids[j]].(affiliation := newPath))
    && (forall id :: id in recs && id !in ids ==> users[id] == recs[id])
  }

  lemma {:induction false} MovedOneMore(recs: map<string, User>, before: map<string, User>, after: map<string, User>,
                                        ids: seq<string>, i: int,
                                        newPath: string, oldAff: string, newAff: string)
    requires MovedUpTo(recs, before, ids, i, newPath, oldAff, newAff) && i < |ids|
    requires forall j, k :: 0 <= j < k < |ids| ==> ids[j] != ids[k]
    requires newPath == ReplaceFirst(recs[ids[i]].affiliation, oldAff, newAff)
    requires ids[i] in after && after == before[ids[i] := before[ids[i]].(attributes := after[ids[i]].attributes)]
    requires Distinct(after[ids[i]].attributes)
    requires View(after[ids[i]].attributes) == Change(View(recs[ids[i]].attributes), Attr(AFFILIATION, newPath, false))
    ensures MovedUpTo(recs, after, ids, i + 1, newPath, oldAff, newAff)
  {
    assert ids[i] in ids && UserMoved(recs[ids[i]], after[ids[i]], oldAff, newAff);
    forall j | 0 <= j < |ids| && j != i ensures after[ids[j]] == before[ids[j]] {
      assert ids[j] != ids[i];
    }
  }

  /** The attribute list of a user whose affiliation moves. */
  method MovedAttributes(rec: User, oldAff: string, newAff: string) returns (attrs: seq<Attr>)
    ensures Distinct(attrs)
    ensures var moved := ReplaceFirst(rec.affiliation, oldAff, newAff);
            View(attrs) == Change(View(rec.attributes), Attr(AFFILIATION, moved, false))
  {
    var attrMap := NewAttributeMap(rec.attributes);
    forall x | x in attrMap ensures attrMap[x].name == x { InViewIffOccurs(rec.attributes, x); }
    var currentAttrs := ListAttributes(attrMap);
    JoinSplit(rec.affiliation, '.');
    var userAff := Join(Split(rec.affiliation, '.'), '.');
    var change := Attr(AFFILIATION, ReplaceFirst(userAff, oldAff, newAff), false);
    attrs := GetNewAttributes(currentAttrs, [change]);
    PutAllView(currentAttrs, [change]);
    assert [change][1..] == [];
    assert Changes(attrMap, [change]) == Change(attrMap, change);
  }

  lemma {:induction false} AllOrNone(rows: seq<string>, s: set<string>)
    requires Lists(rows, s)
    ensures (set x | x in rows) == s && (|rows| == 0 <==> s == {})
  {
    if |rows| > 0 { assert rows[0] in s; }
  }

  lemma {:induction false} NobodyRevoked(certs: map<CertKey, Cert>, reason: int, now: int)
    ensures RevokeOwned(certs, {}, reason, now) == certs
  {
  }

  lemma {:induction false} OthersStay(db: DB, root: string, now: int, users: map<string, User>)
    requires users == db.users - Affected(db.users, root)
    ensures users == Removed(db, root, now).users
  {
  }

  class Accessor {
    var users: map<string, User>
    var affiliations: map<string, Affiliation>
    var certs: map<CertKey, Cert>

    ghost function Db(): DB
      reads this
    {
      DB(users, affiliations, certs)
    }

    constructor (db: DB)
      ensures Db() == db
    {
      users, affiliations, certs := db.users, db.affiliations, db.certs;
    }

    /** `InsertAffiliation`: inserting a name that is present is a silent success; `fails` is any other database
        error. */
    method InsertAffiliation(name: string, prekey: string, level: int, fails: bool) returns (r: Result<()>)
      modifies this`affiliations
      ensures r == if name !in old(affiliations) && fails then Err(DBFailure) else Ok(())
      ensures affiliations == if name in old(affiliations) || fails then old(affiliations)
                              else old(affiliations)[name := Affiliation(prekey, level)]
    {
      if name in affiliations {
        return Ok(());
      }
      if fails {
        return Err(DBFailure);
      }
      affiliations := affiliations[name := Affiliation(prekey, level)];
      r := Ok(());
    }

    /** `UPDATE certificates SET status='revoked' ... WHERE (id IN (...) AND status != 'revoked')`. */
    method RevokeCertificatesOf(ids: set<string>, reason: int, now: int)
      modifies this`certs
      ensures certs == RevokeOwned(old(certs), ids, reason, now)
      ensures forall k :: k in certs && old(certs)[k].id in ids && !old(certs)[k].revoked ==>
                RevocationOf(old(certs)[k], certs[k], reason, now)
    {
      certs := map k | k in certs ::
        if certs[k].id in ids && !certs[k].revoked
        then certs[k].(revoked := true, reason := reason, revokedAt := now) else certs[k];
    }

    /** `DeleteUser`: the row goes and the certificates of that identity are revoked, or nothing happens. */
    method DeleteUser(id: string, now: int) returns (r: Result<User>)
      modifies this
      ensures affiliations == old(affiliations)
      ensures r.Ok? <==> id in old(users)
      ensures r.Ok? ==> r.value == old(users)[id] && users == old(users) - {id} &&
                        certs == RevokeOwned(old(certs), {id}, CESSATION_OF_OPERATION, now)
      ensures r.Err? ==> r.error == NotFound && Db() == old(Db())
    {
      if id !in users {
        return Err(NotFound);
      }
      r := Ok(users[id]);
      users := users - {id};
      RevokeCertificatesOf({id}, CESSATION_OF_OPERATION, now);
    }

    /** `DeleteAffiliation`: `doTransaction` around `deleteAffiliationTx`. */
    method DeleteAffiliation(name: string, force: bool, identityRemoval: bool, isRegistrar: bool, now: int)
      returns (r: Result<TxResult>)
      modifies this
      ensures r.Err? ==>
                Db() == old(Db()) && RemovalRefused(old(Db()), name, force, identityRemoval, isRegistrar, r.error)
      ensures r.Ok? ==> name in old(affiliations) && Db() == Removed(old(Db()), name, now)
      ensures r.Ok? ==> forall e :: !RemovalRefused(old(Db()), name, force, identityRemoval, isRegistrar, e)
      ensures r.Ok? ==> Lists(r.value.identities, Affected(old(users), name))
      ensures r.Ok? ==> SubtreeRows(old(affiliations), name, r.value.affiliations)
    {
      if name !in affiliations {
        return Err(NotFound);
      }
      var savedUsers, savedAffiliations, savedCerts := users, affiliations, certs;
      r := DeleteAffiliationTx(name, force, identityRemoval, isRegistrar, now);
      if r.Err? {
        users, affiliations, certs := savedUsers, savedAffiliations, savedCerts;
      }
    }

    /** Users of the affiliation, then users of its sub-affiliations. */
    method SelectAffected(name: string) returns (ids: seq<string>)
      ensures Lists(ids, Affected(users, name))
    {
      ids := Select(set id | id in users && users[id].affiliation == name);
      var subIds := Select(set id | id in users && name + "." <= users[id].affiliation);
      ghost var here := set id | id in users && users[id].affiliation == name;
      ghost var affected := Affected(users, name);
      ListsAppend(ids, subIds, here, affected - here);
      assert here + (affected - here) == affected;
      ids := ids + subIds;
    }

    /** The statements that delete, once every check has passed. */
    method RemoveRows(name: string, ids: seq<string>, subAffs: seq<string>, now: int)
      requires Lists(ids, Affected(users, name)) && Lists(subAffs, SubAffiliations(affiliations, name))
      modifies this
      ensures Db() == Removed(old(Db()), name, now)
    {
      RemoveUsers(name, ids, now);
      RemoveAffiliations(name, subAffs);
    }

    /** The users of the subtree, and their certificates. */
    method RemoveUsers(name: string, ids: seq<string>, now: int)
      requires Lists(ids, Affected(users, name))
      modifies this`users, this`certs
      ensures users == Removed(old(Db()), name, now).users && certs == Removed(old(Db()), name, now).certs
    {
      ghost var db := Db();
      AllOrNone(ids, Affected(users, name));
      if |ids| > 0 {
        var idSet := set id | id in ids;
        users := users - idSet;
        RevokeCertificatesOf(idSet, AFFILIATION_CHANGED, now);
      } else {
        NobodyRevoked(certs, AFFILIATION_CHANGED, now);
      }
      OthersStay(db, name, now, users);
    }

    /** The row of the affiliation, then the rows below it. */
    method RemoveAffiliations(name: string, subAffs: seq<string>)
      requires Lists(subAffs, SubAffiliations(affiliations, name))
      modifies this`affiliations
      ensures affiliations == map n | n in old(affiliations) && !InSubtree(name, n) :: old(affiliations)[n]
    {
      AllOrNone(subAffs, SubAffiliations(affiliations, name));
      ghost var affs := affiliations;
      affiliations := affiliations - {name};
      if |subAffs| > 0 {
        affiliations := map n | n in affiliations && !(name + "." <= n) :: affiliations[n];
      } else {
        assert forall n :: n in affs ==> n !in SubAffiliations(affs, name);
      }
    }

    method DeleteAffiliationTx(name: string, force: bool, identityRemoval: bool, isRegistrar: bool, now: int)
      returns (r: Result<TxResult>)
      requires name in affiliations
      modifies this
      ensures r.Err? ==> RemovalRefused(old(Db()), name, force, identityRemoval, isRegistrar, r.error)
      ensures r.Ok? ==> Db() == Removed(old(Db()), name, now)
      ensures r.Ok? ==> forall e :: !RemovalRefused(old(Db()), name, force, identityRemoval, isRegistrar, e)
      ensures r.Ok? ==> Lists(r.value.identities, Affected(old(users), name))
      ensures r.Ok? ==> SubtreeRows(old(affiliations), name, r.value.affiliations)
    {
      var ids := SelectAffected(name);
      if |ids| > 0 {
        assert ids[0] in Affected(users, name);
        if !isRegistrar { return Err(NotRegistrar); }
        if !identityRemoval { return Err(RemovalDisabled); }
        if !force { return Err(NeedForce); }
      } else {
        assert Affected(users, name) == {};
      }
      var subAffs := Select(set n | n in affiliations && name + "." <= n);
      assert Lists(subAffs, SubAffiliations(affiliations, name));
      if |subAffs| > 0 {
        assert subAffs[0] in SubAffiliations(affiliations, name);
        if !force { return Err(NeedForce); }
      } else {
        assert SubAffiliations(affiliations, name) == {};
      }
      ListsAppend(subAffs, [name], SubAffiliations(affiliations, name), {name});
      RemoveRows(name, ids, subAffs, now);
      r := Ok(TxResult(ids, subAffs + [name]));
    }

    /** The user part of one rename iteration: the bulk column update, then each user's attribute list. */
    method MoveUsers(ids: seq<string>, oldPath: string, newPath: string, oldAff: string, newAff: string)
      requires forall i, j :: 0 <= i < j < |ids| ==> ids[i] != ids[j]
      requires forall id :: id in ids ==> id in users && users[id].affiliation == oldPath
      requires newPath == ReplaceFirst(oldPath, oldAff, newAff)
      modifies this`users
      ensures users.Keys == old(users).Keys
      ensures forall id :: id in ids ==> UserMoved(old(users)[id], users[id], oldAff, newAff)
      ensures forall id :: id in old(users) && id !in ids ==> users[id] == old(users)[id]
    {
      var recs := users;
      users := map id | id in users :: if id in ids then users[id].(affiliation := newPath) else users[id];
      for i := 0 to |ids|
        invariant MovedUpTo(recs, users, ids, i, newPath, oldAff, newAff)
      {
        assert ids[i] in ids;
        var userAttrs := MovedAttributes(recs[ids[i]], oldAff, newAff);
        ghost var before := users;
        users := users[ids[i] := users[ids[i]].(attributes := userAttrs)];
        MovedOneMore(recs, before, users, ids, i, newPath, oldAff, newAff);
      }
    }

    /** `ModifyAffiliation`: `doTransaction` around `modifyAffiliationTx`. */
    method ModifyAffiliation(oldAff: string, newAff: string, force: bool,
                             isRegistrar: bool) returns (r: Result<TxResult>)
      modifies this
      ensures r.Err? ==> Db() == old(Db())
      ensures r.Ok? ==> Renamed(old(Db()), Db(), oldAff, newAff)
      ensures r.Ok? ==> Lists(r.value.identities, Movers(old(Db()), oldAff))
      ensures r.Ok? ==> Lists(r.value.affiliations, set n | n in affiliations && InSubtree(newAff, n))
      ensures r.Err? && r.error != Collision ==> RenameRefused(old(Db()), oldAff, newAff, force, isRegistrar, r.error)
      ensures r.Ok? ==> forall e :: !RenameRefused(old(Db()), oldAff, newAff, force, isRegistrar, e)
      ensures r.Ok? ==> RowsClear(old(affiliations), oldAff, newAff, true)
      ensures r == Err(Collision) ==> RowsClear(old(affiliations), oldAff, newAff, false)
      ensures r == Err(Collision) ==>
                !NoCollision(old(affiliations), oldAff, newAff) && !ParentClosed(old(affiliations))
      ensures r.Ok? ==> oldAff in old(affiliations) && newAff !in old(affiliations)
      ensures r.Ok? ==>
                forall id | id in old(users) && old(users)[id].affiliation in old(affiliations) ::
                  InSubtree(oldAff, old(users)[id].affiliation) ==> force && isRegistrar
      ensures ParentClosed(old(affiliations)) && oldAff in old(affiliations) && newAff !in old(affiliations) ==>
                (r.Ok? <==> forall id | id in old(users) && old(users)[id].affiliation in old(affiliations) ::
                              InSubtree(oldAff, old(users)[id].affiliation) ==> force && isRegistrar)
    {
      RenameNeeds(Db(), oldAff, newAff, force, isRegistrar);
      if oldAff !in affiliations {
        return Err(NotFound);
      }
      if newAff in affiliations {
        return Err(AlreadyExists);
      }
      if ParentClosed(affiliations) {
        FreshTargets(affiliations, oldAff, newAff);
      }
      var savedUsers, savedAffiliations, savedCerts := users, affiliations, certs;
      r := ModifyAffiliationTx(oldAff, newAff, force, isRegistrar);
      if NoCollision(savedAffiliations, oldAff, newAff) {
        NoneTaken(savedAffiliations, oldAff, newAff);
      }
      if r.Err? {
        users, affiliations, certs := savedUsers, savedAffiliations, savedCerts;
      }
    }

    /** One iteration of the rename loop: the users of `oldPath`, then its row. */
    method RenameRow(ghost db: DB, ghost done: set<string>, oldPath: string, oldPrekey: string,
                     oldAff: string, newAff: string, force: bool, isRegistrar: bool)
      returns (r: Result<seq<string>>)
      requires AffsHalf(db.affiliations, affiliations, done, oldAff, newAff)
      requires UsersHalf(db.users, users, done, oldAff, newAff)
      requires oldPath in db.affiliations && InSubtree(oldAff, oldPath) && oldPath !in done
      requires oldPrekey == db.affiliations[oldPath].prekey
      modifies this`users, this`affiliations
      ensures r.Ok? ==> AffsHalf(db.affiliations, affiliations, done + {oldPath}, oldAff, newAff)
      ensures r.Ok? ==> UsersHalf(db.users, users, done + {oldPath}, oldAff, newAff)
      ensures r.Ok? ==> Lists(r.value, Holders(db, oldPath)) && (r.value != [] ==> isRegistrar && force)
      ensures r.Err? && r.error != Collision ==> Holders(db, oldPath) != {}
      ensures r.Err? && r.error != Collision ==> r.error == if !isRegistrar then NotRegistrar else NeedForce
      ensures r.Err? && r.error == NeedForce ==> !force
      ensures r.Ok? ==> (Rebase(oldPath, oldAff, newAff) in db.affiliations ==> Rebase(oldPath, oldAff, newAff) in done)
      ensures r == Err(Collision) ==>
                Rebase(oldPath, oldAff, newAff) in db.affiliations && Rebase(oldPath, oldAff, newAff) !in done
    {
      RebaseInSubtree(oldPath, oldAff, newAff);
      SameHolders(db, affiliations, users, done, oldAff, newAff, oldPath);
      r := MoveHolders(db, done, oldPath, oldAff, newAff, force, isRegistrar);
      if r.Err? {
        return;
      }
      var newPath := ReplaceFirst(oldPath, oldAff, newAff);
      var newParentPath := ReplaceFirst(oldPrekey, oldAff, newAff);
      if newPath in affiliations {
        TakenFromStart(db.affiliations, affiliations, done, oldAff, newAff, oldPath);
        return Err(Collision);
      }
      affiliations := (affiliations - {oldPath})[newPath := affiliations[oldPath].(prekey := newParentPath)];
      AffsHalfStep(db.affiliations, old(affiliations), done, oldAff, newAff, oldPath, affiliations, done + {oldPath});
    }

    /** The users of `oldPath`, if the caller may move them. */
    method MoveHolders(ghost db: DB, ghost done: set<string>, oldPath: string, oldAff: string, newAff: string,
                       force: bool, isRegistrar: bool)
      returns (r: Result<seq<string>>)
      requires UsersHalf(db.users, users, done, oldAff, newAff) && oldPath !in done
      requires Holders(db, oldPath) == set id | id in users && users[id].affiliation == oldPath
      modifies this`users
      ensures r.Ok? ==> UsersHalf(db.users, users, done + {oldPath}, oldAff, newAff)
      ensures r.Ok? ==> Lists(r.value, Holders(db, oldPath)) && (r.value != [] ==> isRegistrar && force)
      ensures r.Err? ==> Holders(db, oldPath) != {} && r.error == if !isRegistrar then NotRegistrar else NeedForce
      ensures r.Err? && r.error == NeedForce ==> !force
    {
      ghost var before := users;
      var ids := Select(set id | id in users && users[id].affiliation == oldPath);
      AllOrNone(ids, Holders(db, oldPath));
      if |ids| > 0 {
        if !isRegistrar { return Err(NotRegistrar); }
        if !force { return Err(NeedForce); }
        MoveUsers(ids, oldPath, ReplaceFirst(oldPath, oldAff, newAff), oldAff, newAff);
      }
      HoldersMoved(db.users, before, users, done, oldAff, newAff, oldPath, ids);
      r := Ok(ids);
    }

    /** The rename loop over the rows read before it. */
    method RenameRows(all: seq<string>, oldAff: string, newAff: string, force: bool, isRegistrar: bool)
      returns (r: Result<seq<string>>)
      requires forall i, j :: 0 <= i < j < |all| ==> all[i] != all[j]
      requires forall i :: 0 <= i < |all| ==> all[i] in affiliations && InSubtree(oldAff, all[i])
      modifies this`users, this`affiliations
      ensures r.Ok? ==> AffsHalf(old(affiliations), affiliations, ToSet(all), oldAff, newAff)
      ensures r.Ok? ==> UsersHalf(old(users), users, ToSet(all), oldAff, newAff)
      ensures r.Ok? ==> Lists(r.value, HoldersOf(old(Db()), ToSet(all))) && (r.value != [] ==> isRegistrar && force)
      ensures r.Err? && r.error != Collision ==> HoldersOf(old(Db()), ToSet(all)) != {}
      ensures r.Err? && r.error != Collision ==> r.error == if !isRegistrar then NotRegistrar else NeedForce
      ensures r.Err? && r.error == NeedForce ==> !force
      ensures r.Ok? ==> Unobstructed(old(affiliations), all, oldAff, newAff)
      ensures r == Err(Collision) ==> !Unobstructed(old(affiliations), all, oldAff, newAff)
    {
      ghost var db := Db();
      var rows := affiliations;
      var idsUpdated := [];
      for i := 0 to |all|
        invariant RenamedUpTo(db, Db(), all, i, oldAff, newAff)
        invariant Lists(idsUpdated, HoldersOf(db, ToSet(all[..i]))) && (idsUpdated != [] ==> isRegistrar && force)
      {
        var ids := RenameNext(db, all, i, rows[all[i]].prekey, oldAff, newAff, force, isRegistrar);
        if ids.Err? {
          return Err(ids.error);
        }
        OneRowMore(db, all, i);
        ListsAppend(idsUpdated, ids.value, HoldersOf(db, ToSet(all[..i])), Holders(db, all[i]));
        idsUpdated := idsUpdated + ids.value;
      }
      assert all[..|all|] == all;
      r := Ok(idsUpdated);
    }

    /** The next row of the loop. */
    method RenameNext(ghost db: DB, all: seq<string>, i: int, oldPrekey: string, oldAff: string, newAff: string,
                      force: bool, isRegistrar: bool)
      returns (r: Result<seq<string>>)
      requires 0 <= i < |all| && forall j, k :: 0 <= j < k < |all| ==> all[j] != all[k]
      requires RenamedUpTo(db, Db(), all, i, oldAff, newAff)
      requires all[i] in db.affiliations && InSubtree(oldAff, all[i]) && oldPrekey == db.affiliations[all[i]].prekey
      modifies this`users, this`affiliations
      ensures r.Ok? ==> RenamedUpTo(db, Db(), all, i + 1, oldAff, newAff)
      ensures r.Ok? ==> Lists(r.value, Holders(db, all[i])) && (r.value != [] ==> isRegistrar && force)
      ensures r.Err? && r.error != Collision ==> HoldersOf(db, ToSet(all)) != {}
      ensures r.Err? && r.error != Collision ==> r.error == if !isRegistrar then NotRegistrar else NeedForce
      ensures r.Err? && r.error == NeedForce ==> !force
      ensures r == Err(Collision) ==> !Unobstructed(db.affiliations, all, oldAff, newAff)
    {
      ghost var done := ToSet(all[..i]);
      OneRowMore(db, all, i);
      r := RenameRow(db, done, all[i], oldPrekey, oldAff, newAff, force, isRegistrar);
      assert r.Ok? ==> FreeAt(db.affiliations, all, i, oldAff, newAff);
      assert r == Err(Collision) ==> !FreeAt(db.affiliations, all, i, oldAff, newAff);
    }

    method ModifyAffiliationTx(oldAff: string, newAff: string, force: bool,
                               isRegistrar: bool) returns (r: Result<TxResult>)
      requires oldAff in affiliations && newAff !in affiliations
      modifies this
      ensures r.Ok? ==> Renamed(old(Db()), Db(), oldAff, newAff)
      ensures r.Ok? ==> Lists(r.value.identities, Movers(old(Db()), oldAff))
      ensures r.Ok? ==> Lists(r.value.affiliations, set n | n in affiliations && InSubtree(newAff, n))
      ensures r.Err? && r.error != Collision ==> RenameRefused(old(Db()), oldAff, newAff, force, isRegistrar, r.error)
      ensures r.Ok? ==> forall e :: !RenameRefused(old(Db()), oldAff, newAff, force, isRegistrar, e)
      ensures r.Ok? ==> RowsClear(old(affiliations), oldAff, newAff, true)
      ensures r == Err(Collision) ==> RowsClear(old(affiliations), oldAff, newAff, false)
    {
      ghost var db := Db();
      var subAffs := Select(set n | n in affiliations && oldAff + "." <= n);
      var all := subAffs + [oldAff];
      ListsAppend(subAffs, [oldAff], SubAffiliations(affiliations, oldAff), {oldAff});
      WholeSubtree(db, oldAff, all);
      assert SubtreeRows(db.affiliations, oldAff, all);
      var idsUpdated := RenameRows(all, oldAff, newAff, force, isRegistrar);
      if idsUpdated.Err? {
        return Err(idsUpdated.error);
      }
      AllOrNone(idsUpdated.value, Movers(db, oldAff));
      SubtreeRenamed(db, Db(), ToSet(all), oldAff, newAff);
      var newAffs := Select(set n | n in affiliations && InSubtree(newAff, n));
      r := Ok(TxResult(idsUpdated.value, newAffs));
    }

    /** A forced rename by a registrar and the rename back both succeed. The table is restored exactly when the parent
        of the old name does not mention the new one, the users' affiliations exactly when the new name is not empty or
        no user has the root affiliation. */
    method RenameThereAndBack(oldAff: string, newAff: string) returns (there: Result<TxResult>, back: Result<TxResult>)
      requires ParentClosed(affiliations) && PrekeysOk(affiliations) && UsersListed(Db())
      requires oldAff in affiliations && newAff !in affiliations
      modifies this
      ensures there.Ok? && back.Ok?
      ensures var row := old(affiliations)[oldAff].(prekey := ReplaceFirst(Parent(oldAff), newAff, oldAff));
              affiliations == old(affiliations)[oldAff := row]
      ensures affiliations == old(affiliations) <==> !Contains(Parent(oldAff), newAff)
      ensures Parent(newAff) == Parent(oldAff) && newAff != "" ==> affiliations == old(affiliations)
      ensures users.Keys == old(users).Keys && certs == old(certs)
      ensures (forall id :: id in users ==> users[id].affiliation == old(users)[id].affiliation) <==>
              newAff != "" || forall id :: id in users ==> old(users)[id].affiliation != ""
    {
      ghost var d0 := Db();
      there := ModifyAffiliation(oldAff, newAff, true, true);
      ghost var d1 := Db();
      WayBackIsFree(d0.affiliations, d1.affiliations, oldAff, newAff);
      back := ModifyAffiliation(newAff, oldAff, true, true);
      RenameBackAffs(d0.affiliations, d1.affiliations, affiliations, oldAff, newAff);
      forall id | id in d0.users
        ensures id in users
        ensures users[id].affiliation == d0.users[id].affiliation <==> newAff != "" || d0.users[id].affiliation != ""
      {
        RenameBackUsers(d0, d1, Db(), oldAff, newAff, id);
      }
    }
  }

  lemma {:induction false} WholeSubtree(db: DB, oldAff: string, all: seq<string>)
    requires oldAff in db.affiliations && Lists(all, SubAffiliations(db.affiliations, oldAff) + {oldAff})
    ensures forall i :: 0 <= i < |all| ==> all[i] in db.affiliations && InSubtree(oldAff, all[i])
    ensures forall n :: n in ToSet(all) <==> n in db.affiliations && InSubtree(oldAff, n)
    ensures HoldersOf(db, ToSet(all)) == Movers(db, oldAff)
  {
    assert forall i :: 0 <= i < |all| ==> all[i] in all;
  }

  lemma {:induction false} SubtreeRenamed(db: DB, db': DB, done: set<string>, oldAff: string, newAff: string)
    requires AffsHalf(db.affiliations, db'.affiliations, done, oldAff, newAff) &&
             UsersHalf(db.users, db'.users, done, oldAff, newAff)
    requires db'.certs == db.certs && forall n :: n in done <==> n in db.affiliations && InSubtree(oldAff, n)
    ensures Renamed(db, db', oldAff, newAff)
  {
    AffsHalfDone(db.affiliations, db'.affiliations, done, oldAff, newAff);
  }

  lemma {:induction false} OneRowMore(db: DB, all: seq<string>, i: nat)
    requires i < |all| && forall j, k :: 0 <= j < k < |all| ==> all[j] != all[k]
    ensures all[i] !in ToSet(all[..i]) && ToSet(all[..i + 1]) == ToSet(all[..i]) + {all[i]}
    ensures Holders(db, all[i]) <= HoldersOf(db, ToSet(all)) && Holders(db, all[i]) !! HoldersOf(db, ToSet(all[..i]))
    ensures HoldersOf(db, ToSet(all[..i])) + Holders(db, all[i]) == HoldersOf(db, ToSet(all[..i]) + {all[i]})
  {
    assert all[..i + 1] == all[..i] + [all[i]];
  }

  /** The first `i` rows and their users have moved, and each found its target free. */
  ghost predicate RenamedUpTo(db: DB, now: DB, all: seq<string>, i: int, oldAff: string, newAff: string) {
    && 0 <= i <= |all|
    && AffsHalf(db.affiliations, now.affiliations, ToSet(all[..i]), oldAff, newAff)
    && UsersHalf(db.users, now.users, ToSet(all[..i]), oldAff, newAff)
    && forall j :: 0 <= j < i ==> FreeAt(db.affiliations, all, j, oldAff, newAff)
  }

  ghost function ToSet(s: seq<string>): set<string> {
    set x | x in s
  }

  ghost function Holders(db: DB, path: string): set<string> {
    set id | id in db.users && db.users[id].affiliation == path
  }

  ghost function HoldersOf(db: DB, paths: set<string>): set<string> {
    set id | id in db.users && db.users[id].affiliation in paths
  }

  // Inputs at which a rename does not keep what one would expect

  /** The new parent need not exist: the table is no longer parent-closed, and the prekey is wrong. */
  method RenameLosesParent() returns (acc: Accessor)
    ensures !ParentClosed(acc.affiliations) && !PrekeysOk(acc.affiliations)
  {
    Letters('a', 'b');
    Letters('c', 'd');
    assert "c.d"[0] != "a.b"[0] && |"a.b"| == 3 && |"a"| == 1 && |"c.d"| == 3 && "c"[0] != "a"[0] && |"c"| == 1;
    var rows := map["a" := Affiliation("", 0), "a.b" := Affiliation("a", 0)];
    assert ParentClosed(rows) && PrekeysOk(rows);
    acc := new Accessor(DB(map[], rows, map[]));
    var r := acc.ModifyAffiliation("a.b", "c.d", true, true);
    RenameParentClosed(rows, acc.affiliations, "a.b", "c.d");
    RenamePrekeys(rows, acc.affiliations, "a.b", "c.d");
  }

  /** The parent of the old name contains the new name: renaming back substitutes inside the prekey. */
  method RenameBackSpoilsPrekey() returns (acc: Accessor)
    ensures "org1.dept" in acc.affiliations && acc.affiliations["org1.dept"].prekey == "org1.dept1"
  {
    OrgNames();
    var rows := map["org1" := Affiliation("", 0), "org1.dept" := Affiliation("org1", 0)];
    acc := new Accessor(DB(map[], rows, map[]));
    var there, back := acc.RenameThereAndBack("org1.dept", "org");
  }

  lemma {:induction false} OrgNames()
    ensures Parent("org1.dept") == "org1" && Parent("org1") == "" && !HasDot("org1")
    ensures "org" != "org1" && "org" != "org1.dept" && "org1" != "org1.dept"
    ensures ReplaceFirst("org1", "org", "org1.dept") == "org1.dept1"
  {
    ParentOfChild("org1", "dept");
    DotFreeParent("org1");
    assert "org1.dept" == "org1" + "." + "dept";
    assert |"org1.dept"| == 9 && |"org"| == 3 && |"org1"| == 4;
    assert "org" <= "org1" && "org1"[3..] == "1" && "org1.dept" + "1" == "org1.dept1";
  }

  /** The empty new name: renaming back takes a user with the root affiliation along. */
  method RenameBackTakesRootUsers(u: User) returns (acc: Accessor)
    requires u.affiliation == ""
    ensures "u" in acc.users && acc.users["u"].affiliation == "a"
  {
    DotFreeParent("a");
    var rows := map["a" := Affiliation("", 0)];
    acc := new Accessor(DB(map["u" := u], rows, map[]));
    ghost var d0 := acc.Db();
    assert ParentClosed(rows) && UsersListed(d0) && "" !in rows;
    var there := acc.ModifyAffiliation("a", "", true, true);
    ghost var d1 := acc.Db();
    WayBackIsFree(rows, d1.affiliations, "a", "");
    UsersFollow(d0, d1, "a", "", "u");
    RenameKeepsUsersListed(d0, d1, "a", "");
    var back := acc.ModifyAffiliation("", "a", true, true);
    UsersFollow(d1, acc.Db(), "", "a", "u");
  }
}
