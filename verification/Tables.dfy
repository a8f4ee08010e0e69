/** The three tables of the registry and what the subtree transactions mean on them. */
module Tables {
  import opened Strings
  import opened Paths
  import opened Attributes

  datatype User = User(pass: string, utype: string, affiliation: string, attributes: seq<Attr>,
                       state: int, maxEnrollments: int, level: int)

  datatype Affiliation = Affiliation(prekey: string, level: int)

  datatype CertKey = CertKey(serial: string, aki: string)

  datatype Cert = Cert(id: string, revoked: bool, reason: int, expiry: int, revokedAt: int)

  /** Rows by primary key: users by id, affiliations by name, certificates by serial number and key identifier. */
  datatype DB = DB(users: map<string, User>, affiliations: map<string, Affiliation>, certs: map<CertKey, Cert>)

  datatype Error =
    | NotFound
    | AlreadyExists
    | NotRegistrar
    | RemovalDisabled
    | NeedForce
    | Collision      // a row update hits the UNIQUE constraint and panics
    | DBFailure
    | BadRequest
    | Unauthorized

  datatype Result<T> = Ok(value: T) | Err(error: Error)

  // Invariants of the tables

  /** Every dotted name has its parent in the table. */
  ghost predicate ParentClosed(affs: map<string, Affiliation>) {
    forall n {:trigger HasDot(n)} :: n in affs && HasDot(n) ==> Parent(n) in affs
  }

  /** Every row below `root` has its parent in the table. */
  ghost predicate ClosedBelow(affs: map<string, Affiliation>, root: string) {
    forall n {:trigger Below(root, n)} :: n in affs && Below(root, n) ==> Parent(n) in affs
  }

  ghost predicate PrekeysOk(affs: map<string, Affiliation>) {
    forall n {:trigger affs[n]} :: n in affs ==> affs[n].prekey == Parent(n)
  }

  /** Every non-root user affiliation is a row of the affiliations table. */
  ghost predicate UsersListed(db: DB) {
    forall id :: id in db.users ==> db.users[id].affiliation == "" || db.users[id].affiliation in db.affiliations
  }

  /** In a parent-closed table a name below an absent one is absent. */
  lemma {:induction false} AbsentAbove(affs: map<string, Affiliation>, root: string, n: string)
    requires ParentClosed(affs) && n in affs && InSubtree(root, n)
    ensures root in affs
    decreases |n|
  {
    if n != root {
      BelowHasDot(root, n);
      ParentInSubtree(root, n);
      AbsentAbove(affs, root, Parent(n));
    }
  }

  // Removal of a subtree

  ghost function Affected(users: map<string, User>, root: string): set<string> {
    set id | id in users && InSubtree(root, users[id].affiliation)
  }

  ghost function SubAffiliations(affs: map<string, Affiliation>, root: string): set<string> {
    set n | n in affs && root + "." <= n
  }

  function RevokedBy(c: Cert, reason: int, now: int): Cert {
    if c.revoked then c else c.(revoked := true, reason := reason, revokedAt := now)
  }

  /** `c'` is `c`, revoked for `reason` at the time `now`: owner and expiry stay. */
  predicate RevocationOf(c: Cert, c': Cert, reason: int, now: int) {
    !c.revoked && c'.revoked && c'.reason == reason && c'.revokedAt == now && c'.id == c.id && c'.expiry == c.expiry
  }

  /** The tables after the certificates of `ids` are revoked; a revoked row keeps its reason and time. */
  ghost function RevokeOwned(certs: map<CertKey, Cert>, ids: set<string>, reason: int, now: int): map<CertKey, Cert> {
    map k | k in certs :: if certs[k].id in ids then RevokedBy(certs[k], reason, now) else certs[k]
  }

  const CESSATION_OF_OPERATION := 5
  const AFFILIATION_CHANGED := 3

  /** The subtree of `root`, its users and nothing else are gone; those users' certificates are revoked. */
  ghost function Removed(db: DB, root: string, now: int): DB {
    DB(map id | id in db.users && !InSubtree(root, db.users[id].affiliation) :: db.users[id],
       map n | n in db.affiliations && !InSubtree(root, n) :: db.affiliations[n],
       RevokeOwned(db.certs, Affected(db.users, root), AFFILIATION_CHANGED, now))
  }

  /** When and why removal is refused. */
  ghost predicate RemovalRefused(db: DB, root: string, force: bool, identityRemoval: bool, isRegistrar: bool,
                                 e: Error) {
    if root !in db.affiliations then e == NotFound
    else if Affected(db.users, root) != {} && !isRegistrar then e == NotRegistrar
    else if Affected(db.users, root) != {} && !identityRemoval then e == RemovalDisabled
    else (Affected(db.users, root) != {} || SubAffiliations(db.affiliations, root) != {}) && !force && e == NeedForce
  }

  /** A removal is not refused exactly if the affiliation is listed, a user in the subtree comes with a registrar,
      identity removal enabled and force, and a row below comes with force. */
  lemma {:induction false} RemovalNeeds(db: DB, root: string, force: bool, identityRemoval: bool, isRegistrar: bool)
    ensures (forall e :: !RemovalRefused(db, root, force, identityRemoval, isRegistrar, e)) <==>
            && root in db.affiliations
            && (forall id :: id in db.users && InSubtree(root, db.users[id].affiliation) ==>
                  isRegistrar && identityRemoval && force)
            && (forall n :: n in db.affiliations && InSubtree(root, n) && n != root ==> force)
  {
    if forall e :: !RemovalRefused(db, root, force, identityRemoval, isRegistrar, e) {
      assert !RemovalRefused(db, root, force, identityRemoval, isRegistrar, NotFound);
      assert !RemovalRefused(db, root, force, identityRemoval, isRegistrar, NotRegistrar);
      assert !RemovalRefused(db, root, force, identityRemoval, isRegistrar, RemovalDisabled);
      assert !RemovalRefused(db, root, force, identityRemoval, isRegistrar, NeedForce);
      forall id | id in db.users && InSubtree(root, db.users[id].affiliation)
        ensures isRegistrar && identityRemoval && force
      {
        assert id in Affected(db.users, root);
      }
      forall n | n in db.affiliations && InSubtree(root, n) && n != root ensures force {
        assert n in SubAffiliations(db.affiliations, root);
      }
    } else {
      assert forall n :: n in SubAffiliations(db.affiliations, root) ==> InSubtree(root, n) && n != root;
    }
  }

  /** Row by row, what a removal does to users, affiliations and certificates. */
  lemma {:induction false} RemovalIsExact(db: DB, root: string, now: int, id: string, n: string, k: CertKey)
    requires id in db.users && n in db.affiliations && k in db.certs
    ensures var db' := Removed(db, root, now);
            && (InSubtree(root, db.users[id].affiliation) ==> id !in db'.users)
            && (!InSubtree(root, db.users[id].affiliation) ==> id in db'.users && db'.users[id] == db.users[id])
            && (InSubtree(root, n) ==> n !in db'.affiliations)
            && (!InSubtree(root, n) ==> n in db'.affiliations && db'.affiliations[n] == db.affiliations[n])
            && k in db'.certs && db'.certs[k].id == db.certs[k].id
            && (db'.certs[k] != db.certs[k] ==> !db.certs[k].revoked && RevocationOf(db.certs[k], db'.certs[k], 3, now))
            && (!db.certs[k].revoked ==>
                (db'.certs[k].revoked <==>
                    db.certs[k].id in db.users && InSubtree(root, db.users[db.certs[k].id].affiliation)))
            && db'.users.Keys <= db.users.Keys && db'.affiliations.Keys <= db.affiliations.Keys &&
                db'.certs.Keys == db.certs.Keys
  {
  }

  // Renaming of a subtree

  /** The rows of the subtree move to their rebased names, every other row stays, and there are no more rows. */
  ghost predicate AffsRenamed(affs: map<string, Affiliation>, affs': map<string, Affiliation>, old': string,
                              new': string) {
    && (forall n :: n in affs && !InSubtree(old', n) ==> n in affs' && affs'[n] == affs[n])
    && (forall n :: n in affs && InSubtree(old', n) ==>
          Rebase(n, old', new') in affs' &&
          affs'[Rebase(n, old', new')] == affs[n].(prekey := ReplaceFirst(affs[n].prekey, old', new')))
    && (forall m {:trigger FromRow(affs, m, old', new')} :: m in affs' ==> FromRow(affs, m, old', new'))
  }

  /** `m` names a row that stayed or a row that moved. */
  ghost predicate FromRow(affs: map<string, Affiliation>, m: string, old': string, new': string) {
    || (m in affs && !InSubtree(old', m))
    || (InSubtree(new', m) && Rebase(m, new', old') in affs && InSubtree(old', Rebase(m, new', old')))
  }

  /** A user row after its affiliation moved: the column and the attribute change, in step, and nothing else. */
  ghost predicate UserMoved(u: User, u': User, old': string, new': string) {
    var aff := ReplaceFirst(u.affiliation, old', new');
    && u' == u.(affiliation := aff, attributes := u'.attributes)
    && Distinct(u'.attributes)
    && View(u'.attributes) == Change(View(u.attributes), Attr(AFFILIATION, aff, false))
  }

  ghost predicate UsersRenamed(db: DB, users': map<string, User>, old': string, new': string) {
    && users'.Keys == db.users.Keys
    && forall id :: id in db.users ==>
         var u := db.users[id];
         if u.affiliation in db.affiliations && InSubtree(old', u.affiliation)
         then UserMoved(u, users'[id], old', new')
         else users'[id] == u
  }

  ghost predicate Renamed(db: DB, db': DB, old': string, new': string) {
    && db'.certs == db.certs
    && AffsRenamed(db.affiliations, db'.affiliations, old', new')
    && UsersRenamed(db, db'.users, old', new')
  }

  /** No target name of the subtree is taken. */
  ghost predicate NoCollision(affs: map<string, Affiliation>, old': string, new': string) {
    forall n :: n in affs && InSubtree(old', n) ==> Rebase(n, old', new') !in affs
  }

  ghost function Movers(db: DB, old': string): set<string> {
    set id | id in db.users && db.users[id].affiliation in db.affiliations && InSubtree(old', db.users[id].affiliation)
  }

  /** When and why a rename is refused, on a table where no target name is taken. */
  ghost predicate RenameRefused(db: DB, old': string, new': string, force: bool, isRegistrar: bool, e: Error) {
    if old' !in db.affiliations then e == NotFound
    else if new' in db.affiliations then e == AlreadyExists
    else if Movers(db, old') != {} && !isRegistrar then e == NotRegistrar
    else Movers(db, old') != {} && !force && e == NeedForce
  }

  // Properties of a rename

  /** A rename is not refused exactly if the old name is listed, the new one is not, and any user of the subtree with a
      listed affiliation comes with a registrar and force. */
  lemma {:induction false} RenameNeeds(db: DB, old': string, new': string, force: bool, isRegistrar: bool)
    ensures (forall e :: !RenameRefused(db, old', new', force, isRegistrar, e)) <==>
            && old' in db.affiliations && new' !in db.affiliations
            && forall id | id in db.users && db.users[id].affiliation in db.affiliations ::
                 InSubtree(old', db.users[id].affiliation) ==> force && isRegistrar
  {
    if forall e :: !RenameRefused(db, old', new', force, isRegistrar, e) {
      assert !RenameRefused(db, old', new', force, isRegistrar, NotFound);
      assert !RenameRefused(db, old', new', force, isRegistrar, AlreadyExists);
      assert !RenameRefused(db, old', new', force, isRegistrar, NotRegistrar);
      assert !RenameRefused(db, old', new', force, isRegistrar, NeedForce);
      forall id | id in db.users && db.users[id].affiliation in db.affiliations &&
                  InSubtree(old', db.users[id].affiliation)
        ensures force && isRegistrar
      {
        assert id in Movers(db, old');
      }
    }
  }

  /** On a parent-closed table an absent new name guarantees that no target name is taken. */
  lemma {:induction false} FreshTargets(affs: map<string, Affiliation>, old': string, new': string)
    requires ParentClosed(affs) && new' !in affs
    ensures NoCollision(affs, old', new')
  {
    forall n | n in affs && InSubtree(old', n) ensures Rebase(n, old', new') !in affs {
      RebaseInSubtree(n, old', new');
      if Rebase(n, old', new') in affs {
        AbsentAbove(affs, new', Rebase(n, old', new'));
      }
    }
  }

  /** When every user affiliation is listed, exactly the users of the subtree move, to the rebased affiliation. */
  lemma {:induction false} UsersFollow(db: DB, db': DB, old': string, new': string, id: string)
    requires Renamed(db, db', old', new') && UsersListed(db) && id in db.users
    requires old' in db.affiliations
    ensures id in db'.users
    ensures InSubtree(old', db.users[id].affiliation) ==>
              db'.users[id].affiliation == Rebase(db.users[id].affiliation, old', new')
    ensures !InSubtree(old', db.users[id].affiliation) ==> db'.users[id] == db.users[id]
  {
  }

  lemma {:induction false} RenameKeepsUsersListed(db: DB, db': DB, old': string, new': string)
    requires Renamed(db, db', old', new') && UsersListed(db)
    ensures UsersListed(db')
  {
    forall id | id in db'.users
      ensures db'.users[id].affiliation == "" || db'.users[id].affiliation in db'.affiliations
    {
      var u := db.users[id];
      if u.affiliation in db.affiliations && InSubtree(old', u.affiliation) {
        assert UserMoved(u, db'.users[id], old', new');
      }
    }
  }

  /** Every prekey equals its parent after a rename exactly when the root's own (substituted) prekey does. */
  lemma {:induction false} RenamePrekeys(affs: map<string, Affiliation>, affs': map<string, Affiliation>, old': string,
                                         new': string)
    requires PrekeysOk(affs) && AffsRenamed(affs, affs', old', new') && old' in affs
    ensures PrekeysOk(affs') <==> ReplaceFirst(Parent(old'), old', new') == Parent(new')
    ensures old' != "" ==> (PrekeysOk(affs') <==> Parent(old') == Parent(new'))
  {
    if old' != "" {
      ShorterHoldsNone(Parent(old'), old');
    }
    RebaseInSubtree(old', old', new');
    assert Rebase(old', old', new') == new';
    if ReplaceFirst(Parent(old'), old', new') == Parent(new') {
      forall m | m in affs' ensures affs'[m].prekey == Parent(m) {
        MovedPrekey(affs, affs', old', new', m);
      }
    }
  }

  lemma {:induction false} MovedPrekey(affs: map<string, Affiliation>, affs': map<string, Affiliation>, old': string,
                                       new': string, m: string)
    requires PrekeysOk(affs) && AffsRenamed(affs, affs', old', new') && m in affs'
    requires ReplaceFirst(Parent(old'), old', new') == Parent(new')
    ensures affs'[m].prekey == Parent(m)
  {
    assert FromRow(affs, m, old', new');
    if !(m in affs && !InSubtree(old', m)) {
      RebaseInSubtree(m, new', old');
      ReplacedPrekey(Rebase(m, new', old'), old', new');
    }
  }

  /** Below the renamed root, substitution in the prekey and in the name agree. */
  lemma {:induction false} ReplacedPrekey(n: string, old': string, new': string)
    requires InSubtree(old', n) && ReplaceFirst(Parent(old'), old', new') == Parent(new')
    ensures ReplaceFirst(Parent(n), old', new') == Parent(Rebase(n, old', new'))
  {
    if n == old' {
      assert Rebase(n, old', new') == new';
    } else {
      RebaseParent(n, old', new');
    }
  }

  /** A parent-closed table stays so exactly when the new name is top-level or its parent stays in the table. */
  lemma {:induction false} RenameParentClosed(affs: map<string, Affiliation>, affs': map<string, Affiliation>,
                                              old': string, new': string)
    requires ParentClosed(affs) && AffsRenamed(affs, affs', old', new') && old' in affs && new' !in affs
    ensures ParentClosed(affs') <==> (HasDot(new') ==> Parent(new') in affs && !InSubtree(old', Parent(new')))
  {
    RebaseInSubtree(old', old', new');
    assert Rebase(old', old', new') == new' && new' in affs';
    if HasDot(new') ==> Parent(new') in affs && !InSubtree(old', Parent(new')) {
      forall m | m in affs' && HasDot(m) ensures Parent(m) in affs' {
        assert FromRow(affs, m, old', new');
        if m in affs && !InSubtree(old', m) {
          ParentInSubtree(old', m);
        } else {
          var n := Rebase(m, new', old');
          RebaseInSubtree(m, new', old');
          if n != old' {
            RebaseParent(n, old', new');
            assert Rebase(Parent(n), old', new') in affs';
          }
        }
      }
    } else {
      ParentSplits(new');
      assert !FromRow(affs, Parent(new'), old', new');
    }
  }

  /** Renaming within one parent keeps a parent-closed table parent-closed. */
  lemma {:induction false} SameParentRename(affs: map<string, Affiliation>, affs': map<string, Affiliation>,
                                            old': string, new': string)
    requires ParentClosed(affs) && AffsRenamed(affs, affs', old', new') && old' in affs && new' !in affs
    requires Parent(new') == Parent(old') && (HasDot(new') ==> HasDot(old'))
    ensures ParentClosed(affs')
  {
    RenameParentClosed(affs, affs', old', new');
    if HasDot(new') {
      ParentInSubtree(old', old');
    }
  }

  /** After a rename of a parent-closed table the way back is free of collisions. */
  lemma {:induction false} WayBackIsFree(affs: map<string, Affiliation>, affs': map<string, Affiliation>, old': string,
                                         new': string)
    requires ParentClosed(affs) && AffsRenamed(affs, affs', old', new') && old' in affs && new' !in affs
    ensures old' !in affs' && new' in affs'
    ensures NoCollision(affs', new', old')
    ensures forall m :: m in affs' && InSubtree(new', m) ==> Rebase(m, new', old') in affs
  {
    assert Rebase(old', old', new') == new';
    forall m | m in affs' && InSubtree(new', m)
      ensures Rebase(m, new', old') in affs && Rebase(m, new', old') !in affs'
    {
      assert FromRow(affs, m, old', new');
      if m in affs {
        AbsentAbove(affs, new', m);
      }
      var n := Rebase(m, new', old');
      RebaseInSubtree(m, new', old');
      if n in affs' {
        assert FromRow(affs, n, old', new');
        AbsentAbove(affs, new', n);
      }
    }
    if old' in affs' {
      assert FromRow(affs, old', old', new');
      AbsentAbove(affs, new', old');
    }
  }

  /** Renaming back restores every affiliation row, except possibly the prekey of the root, which is restored
      exactly when it does not mention the name it was given in between. */
  lemma {:induction false} RenameBackAffs(a0: map<string, Affiliation>, a1: map<string, Affiliation>, a2: map<string,
                                          Affiliation>,
                       old': string, new': string)
    requires ParentClosed(a0) && PrekeysOk(a0) && old' in a0 && new' !in a0
    requires AffsRenamed(a0, a1, old', new') && AffsRenamed(a1, a2, new', old')
    ensures a2 == a0[old' := a0[old'].(prekey := ReplaceFirst(Parent(old'), new', old'))]
    ensures a2 == a0 <==> !Contains(Parent(old'), new')
    ensures Parent(new') == Parent(old') && new' != "" ==> a2 == a0
  {
    RestoredRows(a0, a1, a2, old', new');
    RestoredRoot(a0, a2, old', new', ReplaceFirst(Parent(old'), new', old'));
    if Parent(new') == Parent(old') && new' != "" {
      ShorterHoldsNone(Parent(old'), new');
    }
  }

  lemma {:induction false} RestoredRows(a0: map<string, Affiliation>, a1: map<string, Affiliation>, a2: map<string,
                                        Affiliation>,
                     old': string, new': string)
    requires ParentClosed(a0) && PrekeysOk(a0) && old' in a0 && new' !in a0
    requires AffsRenamed(a0, a1, old', new') && AffsRenamed(a1, a2, new', old')
    ensures a2 == a0[old' := a0[old'].(prekey := ReplaceFirst(Parent(old'), new', old'))]
  {
    var goal := a0[old' := a0[old'].(prekey := ReplaceFirst(Parent(old'), new', old'))];
    RestoredKeys(a0, a1, a2, old', new');
    forall n | n in a0 ensures n in a2 && a2[n] == goal[n] {
      RestoredRow(a0, a1, a2, old', new', n);
    }
    SameRows(a2, goal);
  }

  lemma {:induction false} SameRows(a: map<string, Affiliation>, b: map<string, Affiliation>)
    requires a.Keys == b.Keys && forall n :: n in a ==> a[n] == b[n]
    ensures a == b
  {
  }

  lemma {:induction false} RestoredRoot(a0: map<string, Affiliation>, a2: map<string, Affiliation>, old': string,
                                        new': string, p2: string)
    requires old' in a0 && a0[old'].prekey == Parent(old') && new' != old' &&
             p2 == ReplaceFirst(Parent(old'), new', old')
    requires a2 == a0[old' := a0[old'].(prekey := p2)]
    ensures a2 == a0 <==> !Contains(Parent(old'), new')
  {
    if Contains(Parent(old'), new') {
      ReplaceChanges(Parent(old'), new', old');
      assert a2[old'] != a0[old'];
    } else {
      assert a0[old'].(prekey := p2) == a0[old'];
    }
  }

  lemma {:induction false} RestoredKeys(a0: map<string, Affiliation>, a1: map<string, Affiliation>, a2: map<string,
                                        Affiliation>,
                     old': string, new': string)
    requires ParentClosed(a0) && PrekeysOk(a0) && old' in a0 && new' !in a0
    requires AffsRenamed(a0, a1, old', new') && AffsRenamed(a1, a2, new', old')
    ensures a2.Keys == a0.Keys
  {
    WayBackIsFree(a0, a1, old', new');
    forall n | n in a2 ensures n in a0 {
      assert FromRow(a1, n, new', old');
      if n in a1 && !InSubtree(new', n) {
        assert FromRow(a0, n, old', new');
      } else {
        RebaseInSubtree(n, old', new');
      }
    }
    forall n | n in a0 ensures n in a2 {
      RestoredRow(a0, a1, a2, old', new', n);
    }
  }

  lemma {:induction false} RestoredRow(a0: map<string, Affiliation>, a1: map<string, Affiliation>, a2: map<string,
                                       Affiliation>,
                    old': string, new': string, n: string)
    requires ParentClosed(a0) && PrekeysOk(a0) && old' in a0 && new' !in a0 && n in a0
    requires AffsRenamed(a0, a1, old', new') && AffsRenamed(a1, a2, new', old')
    ensures n in a2
    ensures n != old' ==> a2[n] == a0[n]
    ensures n == old' ==> a2[n] == a0[n].(prekey := ReplaceFirst(Parent(old'), new', old'))
  {
    if !InSubtree(old', n) {
      if InSubtree(new', n) {
        AbsentAbove(a0, new', n);
      }
      assert n in a1 && a1[n] == a0[n];
    } else {
      RebaseInSubtree(n, old', new');
      var m := Rebase(n, old', new');
      assert m in a1 && InSubtree(new', m) && Rebase(m, new', old') == n;
      PrekeyThereAndBack(n, old', new');
    }
  }

  /** Two substitutions restore the prekey of a moved row, except possibly that of the root. */
  lemma {:induction false} PrekeyThereAndBack(n: string, old': string, new': string)
    requires InSubtree(old', n) && old' != new'
    ensures ReplaceFirst(ReplaceFirst(Parent(n), old', new'), new', old') ==
            if n == old' then ReplaceFirst(Parent(old'), new', old') else Parent(n)
  {
    if n == old' {
      RootPrekeyThereAndBack(old', new');
    } else {
      RebaseParent(n, old', new');
      RebaseInSubtree(Parent(n), old', new');
    }
  }

  lemma {:induction false} RootPrekeyThereAndBack(old': string, new': string)
    requires old' != new'
    ensures ReplaceFirst(ReplaceFirst(Parent(old'), old', new'), new', old') == ReplaceFirst(Parent(old'), new', old')
  {
    if old' != "" {
      ShorterHoldsNone(Parent(old'), old');
    } else {
      ShorterHoldsNone("", new');
      assert ReplaceFirst("", "", new') == new' + "" == new';
      assert ReplaceFirst(new', new', "") == "" + new'[|new'|..] == "";
    }
  }

  /** Renaming back restores the affiliation column of a user, unless the name in between is empty and the user has the
      root affiliation: then the way back takes the user along. */
  lemma {:induction false} RenameBackUsers(d0: DB, d1: DB, d2: DB, old': string, new': string, id: string)
    requires ParentClosed(d0.affiliations) && UsersListed(d0) && id in d0.users
    requires old' in d0.affiliations && new' !in d0.affiliations
    requires Renamed(d0, d1, old', new') && Renamed(d1, d2, new', old')
    ensures id in d2.users
    ensures d2.users[id].affiliation == d0.users[id].affiliation <==> new' != "" || d0.users[id].affiliation != ""
  {
    RenameKeepsUsersListed(d0, d1, old', new');
    UsersFollow(d0, d1, old', new', id);
    assert Rebase(old', old', new') == new' && new' in d1.affiliations;
    UsersFollow(d1, d2, new', old', id);
    var a := d0.users[id].affiliation;
    if InSubtree(old', a) {
      RebaseInSubtree(a, old', new');
    } else if InSubtree(new', a) && a != "" {
      AbsentAbove(d0.affiliations, new', a);
    } else if a == "" && new' == "" {
      assert Rebase("", "", old') == old' + "" == old';
    }
  }
}
