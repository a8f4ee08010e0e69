/** What every serialized run of requests keeps. */
module Runs {
  import opened Options
  import opened Strings
  import opened Paths
  import opened Attributes
  import opened Tables
  import opened Accessors
  import opened Delegation
  import opened Handlers
  import opened AffiliationResponse

  /** One request, from the tables before it to the tables after it. */
  ghost predicate Step(cfg: Config, db: DB, call: Call, db': DB, ok: bool) {
    match call
    case Register(tok, req, generated) =>
      ok == RegisterAllowed(cfg, db, tok, req) && db' == if ok then RegisterEffect(cfg, db, tok, req, generated) else db
    case ModifyIdentity(tok, id, change) =>
      ok == ModifyAllowed(db, tok, id, change) &&
      db' == if ok then db.(users := db.users[id := Modified(db.users[id], change)]) else db
    case RemoveIdentity(tok, id, force, now) =>
      ok == RemoveAllowed(cfg, db, tok, id, force) && db' == if ok then RemoveEffect(db, id, now) else db
    case AddAffiliation(tok, name, force, failAt) => AddStep(cfg, db, tok, name, force, failAt, db', ok)
    case RenameAffiliation(tok, oldName, newName, force) => RenameStep(db, tok, oldName, newName, force, db', ok)
    case RemoveAffiliation(tok, name, force, now) => RemoveAffiliationStep(cfg, db, tok, name, force, now, db', ok)
    case Enroll(id, pass, csr, fault) => SignStep(db, id, csr, fault, EnrollAllowed(cfg, db, id, pass, csr), true, db',
        ok)
    case Reenroll(tok, csr, fault) => SignStep(db, tok.id, csr, fault, ReenrollAllowed(db, tok, csr), false, db', ok)
    case Revoke(tok, req, now, trouble) => RevokeStep(db, tok, req, now, trouble, db', ok)
  }

  /** The handlers take exactly these steps. */
  method Serve(acc: Accessor, cfg: Config, call: Call) returns (ok: bool)
    modifies acc
    ensures Step(cfg, old(acc.Db()), call, acc.Db(), ok)
  {
    match call
    case Register(tok, req, generated) => var r := HandleRegister(acc, cfg, tok, req, generated); ok := r.Ok?;
    case ModifyIdentity(tok, id, change) => var r := HandleModify(acc, tok, id, change); ok := r.Ok?;
    case RemoveIdentity(tok, id, force, now) => var r := HandleRemove(acc, cfg, tok, id, force, now); ok := r.Ok?;
    case AddAffiliation(tok, name, force, failAt) =>
      var r := HandleAddAffiliation(acc, cfg, tok, name, force, failAt); ok := r.Ok?;
    case RenameAffiliation(tok, oldName, newName, force) =>
      ghost var rows, ids;
      var r; r, rows, ids := HandleRenameAffiliation(acc, tok, oldName, newName, force); ok := r.Ok?;
    case RemoveAffiliation(tok, name, force, now) =>
      var r := HandleRemoveAffiliation(acc, cfg, tok, name, force, now); ok := r.Ok?;
    case Enroll(id, pass, csr, fault) => var r := HandleEnroll(acc, cfg, id, pass, csr, fault); ok := r.Ok?;
    case Reenroll(tok, csr, fault) => var r := HandleReenroll(acc, tok, csr, fault); ok := r.Ok?;
    case Revoke(tok, req, now, trouble) => var r := RevokeParsed(acc, tok, req, now, trouble); ok := r.Ok?;
  }

  /** A run: `dbs[i]` are the tables before request `i`. */
  ghost predicate Run(cfg: Config, dbs: seq<DB>, calls: seq<Call>, oks: seq<bool>) {
    && |dbs| == |calls| + 1 && |oks| == |calls|
    && forall i :: 0 <= i < |calls| ==> Step(cfg, dbs[i], calls[i], dbs[i + 1], oks[i])
  }

  /** Serving any list of requests is a run. */
  method ServeAll(acc: Accessor, cfg: Config, calls: seq<Call>) returns (oks: seq<bool>, ghost dbs: seq<DB>)
    modifies acc
    ensures Run(cfg, dbs, calls, oks) && dbs[0] == old(acc.Db()) && dbs[|calls|] == acc.Db()
  {
    oks, dbs := [], [acc.Db()];
    for i := 0 to |calls|
      invariant Run(cfg, dbs, calls[..i], oks) && dbs[0] == old(acc.Db()) && dbs[i] == acc.Db()
    {
      var ok := Serve(acc, cfg, calls[i]);
      StepExtendsRun(cfg, dbs, calls[..i], oks, calls[i], acc.Db(), ok);
      assert calls[..i + 1] == calls[..i] + [calls[i]];
      oks, dbs := oks + [ok], dbs + [acc.Db()];
    }
    assert calls[..|calls|] == calls;
  }

  lemma {:induction false} StepExtendsRun(cfg: Config, dbs: seq<DB>, calls: seq<Call>, oks: seq<bool>, call: Call,
                                          db: DB, ok: bool)
    requires Run(cfg, dbs, calls, oks) && Step(cfg, dbs[|calls|], call, db, ok)
    ensures Run(cfg, dbs + [db], calls + [call], oks + [ok])
  {
    var dbs', calls', oks' := dbs + [db], calls + [call], oks + [ok];
    forall i | 0 <= i < |calls'| ensures Step(cfg, dbs'[i], calls'[i], dbs'[i + 1], oks'[i]) {
      if i < |calls| {
        assert dbs'[i] == dbs[i] && dbs'[i + 1] == dbs[i + 1] && calls'[i] == calls[i] && oks'[i] == oks[i];
      }
    }
  }

  /** Enrolling and revoking touch no affiliation, and of a user row only the state. */
  ghost predicate OnlyStates(db: DB, db': DB) {
    && db'.affiliations == db.affiliations && db'.users.Keys == db.users.Keys
    && forall id :: id in db.users ==> db'.users[id] == db.users[id].(state := db'.users[id].state)
  }

  lemma {:induction false} StateSteps(cfg: Config, db: DB, call: Call, db': DB, ok: bool)
    requires Step(cfg, db, call, db', ok) && (call.Enroll? || call.Reenroll? || call.Revoke?)
    ensures OnlyStates(db, db')
  {
  }

  // Every user affiliation is listed

  lemma {:induction false} StepKeepsUsersListed(cfg: Config, db: DB, call: Call, db': DB, ok: bool)
    requires Step(cfg, db, call, db', ok) && UsersListed(db)
    ensures UsersListed(db')
  {
    match call
    case AddAffiliation(tok, name, force, failAt) => AddKeepsRows(cfg, db, tok, name, force, failAt, db', ok);
    case RenameAffiliation(_, oldName, newName, _) =>
      if db' != db { RenameKeepsUsersListed(db, db', oldName, newName); }
    case RemoveAffiliation(_, name, _, now) => RemovalKeepsUsersListed(db, name, now);
    case Register(_, _, _) => RegisterKeepsUsersListed(cfg, db, call, db', ok);
    case ModifyIdentity(_, _, _) =>
    case RemoveIdentity(_, _, _, _) =>
    case _ => StateSteps(cfg, db, call, db', ok);
  }

  lemma {:induction false} RegisterKeepsUsersListed(cfg: Config, db: DB, call: Call, db': DB, ok: bool)
    requires call.Register? && Step(cfg, db, call, db', ok) && UsersListed(db)
    ensures UsersListed(db')
  {
    if ok {
      var q := NormalizedRequest(db.users[call.tok.id], call.req);
      assert q.affiliation == "" || q.affiliation in db.affiliations;
    }
  }

  lemma {:induction false} RemovalKeepsUsersListed(db: DB, root: string, now: int)
    requires UsersListed(db)
    ensures UsersListed(Removed(db, root, now))
  {
  }

  lemma {:induction false} AddKeepsRows(cfg: Config, db: DB, tok: Token, name: string, force: bool, failAt: int,
                                        db': DB, ok: bool)
    requires AddStep(cfg, db, tok, name, force, failAt, db', ok)
    ensures db'.users == db.users && db.affiliations.Keys <= db'.affiliations.Keys
  {
    var parts := Split(name, '.');
    if AddAllowed(db, tok, name) && force {
      var k: nat :| k <= |parts| && db'.affiliations == AddPrefixes(db.affiliations, parts, cfg.affiliationLevel, k);
      AddPrefixesGrows(db.affiliations, parts, cfg.affiliationLevel, k);
    }
  }

  lemma {:induction false} AddPrefixesGrows(affs: map<string, Affiliation>, parts: seq<string>, level: int, k: nat)
    requires k <= |parts|
    ensures affs.Keys <= AddPrefixes(affs, parts, level, k).Keys
    ensures forall n :: n in affs ==> AddPrefixes(affs, parts, level, k)[n] == affs[n]
    ensures k > 0 ==> Join(parts[..k], '.') in AddPrefixes(affs, parts, level, k)
  {
    if k > 0 { AddPrefixesGrows(affs, parts, level, k - 1); }
  }

  lemma {:induction false} RunKeepsUsersListed(cfg: Config, dbs: seq<DB>, calls: seq<Call>, oks: seq<bool>, j: nat)
    requires Run(cfg, dbs, calls, oks) && UsersListed(dbs[0]) && j <= |calls|
    ensures UsersListed(dbs[j])
  {
    if j > 0 {
      RunKeepsUsersListed(cfg, dbs, calls, oks, j - 1);
      StepKeepsUsersListed(cfg, dbs[j - 1], calls[j - 1], dbs[j], oks[j - 1]);
    }
  }

  // Every affiliation's parent exists

  /** Inserting prefixes in order keeps a table parent-closed at every point, so also when the loop stops early. */
  lemma {:induction false} AddPrefixesClosed(affs: map<string, Affiliation>, parts: seq<string>, level: int, k: nat)
    requires k <= |parts| && SepFree(parts, '.') && ParentClosed(affs)
    ensures ParentClosed(AddPrefixes(affs, parts, level, k))
    ensures PrekeysOk(affs) ==> PrekeysOk(AddPrefixes(affs, parts, level, k))
  {
    if k > 0 {
      AddPrefixesClosed(affs, parts, level, k - 1);
      AddPrefixesGrows(affs, parts, level, k - 1);
      PrefixParent(parts, k);
      InsertedClosed(AddPrefixes(affs, parts, level, k - 1), Join(parts[..k], '.'), Join(parts[..k - 1], '.'), level);
    }
  }

  lemma {:induction false} PrefixParent(parts: seq<string>, k: nat)
    requires 0 < k <= |parts| && SepFree(parts, '.')
    ensures Parent(Join(parts[..k], '.')) == Join(parts[..k - 1], '.')
    ensures k == 1 ==> !HasDot(Join(parts[..k], '.'))
  {
    assert parts[..k] == parts[..k - 1] + [parts[k - 1]];
    if k == 1 {
      assert Join(parts[..1], '.') == parts[0];
      DotFreeParent(parts[0]);
    } else {
      JoinSnoc(parts[..k - 1], parts[k - 1], '.');
      ParentOfChild(Join(parts[..k - 1], '.'), parts[k - 1]);
    }
  }

  lemma {:induction false} InsertedClosed(affs: map<string, Affiliation>, n: string, prekey: string, level: int)
    requires ParentClosed(affs) && Parent(n) == prekey && (HasDot(n) ==> prekey in affs)
    ensures ParentClosed(affs[n := Affiliation(prekey, level)])
    ensures PrekeysOk(affs) ==> PrekeysOk(affs[n := Affiliation(prekey, level)])
  {
  }

  /** If the request is a rename that takes place, its new name is top-level or goes under a row that stays. */
  ghost predicate KeepsParents(db: DB, call: Call, db': DB) {
    call.RenameAffiliation? && db' != db && HasDot(call.newName) ==>
      Parent(call.newName) in db.affiliations && !InSubtree(call.oldName, Parent(call.newName))
  }

  lemma {:induction false} RemovedParentClosed(affs: map<string, Affiliation>, root: string)
    requires ParentClosed(affs)
    ensures ParentClosed(map n | n in affs && !InSubtree(root, n) :: affs[n])
  {
    forall n | n in affs && !InSubtree(root, n) && HasDot(n) ensures !InSubtree(root, Parent(n)) {
      ParentInSubtree(root, n);
    }
  }

  lemma {:induction false} AddKeepsParentClosed(cfg: Config, db: DB, tok: Token, name: string, force: bool,
                                                failAt: int, db': DB, ok: bool)
    requires AddStep(cfg, db, tok, name, force, failAt, db', ok) && ParentClosed(db.affiliations)
    ensures ParentClosed(db'.affiliations)
  {
    var parts := Split(name, '.');
    JoinSplit(name, '.');
    if AddAllowed(db, tok, name) && force {
      var k: nat :| k <= |parts| && db'.affiliations == AddPrefixes(db.affiliations, parts, cfg.affiliationLevel, k);
      AddPrefixesClosed(db.affiliations, parts, cfg.affiliationLevel, k);
    }
  }

  /** A parent-closed table stays so, except exactly for renames under a parent that does not exist or moves away. */
  lemma {:induction false} StepKeepsParentClosed(cfg: Config, db: DB, call: Call, db': DB, ok: bool)
    requires Step(cfg, db, call, db', ok) && ParentClosed(db.affiliations)
    ensures ParentClosed(db'.affiliations) <==> KeepsParents(db, call, db')
  {
    match call
    case AddAffiliation(tok, name, force, failAt) => AddKeepsParentClosed(cfg, db, tok, name, force, failAt, db', ok);
    case RenameAffiliation(tok, oldName, newName, force) =>
      if db' != db {
        var caller := RegistrarOf(db.users[tok.id]);
        assert !RenameRefused(db, oldName, newName, force, IsRegistrar(caller), NotFound);
        assert !RenameRefused(db, oldName, newName, force, IsRegistrar(caller), AlreadyExists);
        RenameParentClosed(db.affiliations, db'.affiliations, oldName, newName);
      }
    case RemoveAffiliation(_, name, _, _) =>
      RemovedParentClosed(db.affiliations, name);
    case _ =>
  }

  /** The first `j + 1` tables are parent-closed. */
  ghost predicate ClosedUpTo(dbs: seq<DB>, j: nat)
    requires j < |dbs|
  {
    ParentClosed(dbs[j].affiliations) && (j > 0 ==> ClosedUpTo(dbs, j - 1))
  }

  /** The first `j` requests keep parents. */
  ghost predicate KeepsUpTo(dbs: seq<DB>, calls: seq<Call>, j: nat)
    requires j <= |calls| && |dbs| == |calls| + 1
  {
    j > 0 ==> KeepsParents(dbs[j - 1], calls[j - 1], dbs[j]) && KeepsUpTo(dbs, calls, j - 1)
  }

  /** So along a run from a parent-closed table all tables are parent-closed exactly when all renames are of that
      kind. */
  lemma {:induction false} RunKeepsParentClosed(cfg: Config, dbs: seq<DB>, calls: seq<Call>, oks: seq<bool>, j: nat)
    requires Run(cfg, dbs, calls, oks) && ParentClosed(dbs[0].affiliations) && j <= |calls|
    ensures ClosedUpTo(dbs, j) <==> KeepsUpTo(dbs, calls, j)
  {
    if j > 0 {
      RunKeepsParentClosed(cfg, dbs, calls, oks, j - 1);
      if ClosedUpTo(dbs, j - 1) {
        StepKeepsParentClosed(cfg, dbs[j - 1], calls[j - 1], dbs[j], oks[j - 1]);
      }
    }
  }

  /** In particular renames under the same parent are. */
  lemma {:induction false} SameParentKeepsParents(cfg: Config, db: DB, call: Call, db': DB, ok: bool)
    requires Step(cfg, db, call, db', ok) && ParentClosed(db.affiliations) && call.RenameAffiliation?
    requires Parent(call.newName) == Parent(call.oldName) && (HasDot(call.newName) ==> HasDot(call.oldName))
    ensures KeepsParents(db, call, db')
  {
    if db' != db {
      var caller := RegistrarOf(db.users[call.tok.id]);
      assert !RenameRefused(db, call.oldName, call.newName, call.force, IsRegistrar(caller), NotFound);
      if HasDot(call.oldName) { ParentInSubtree(call.oldName, call.oldName); }
    }
  }

  // Revocation is final

  /** A revoked certificate row never changes again. */
  lemma {:induction false} StepKeepsRevoked(cfg: Config, db: DB, call: Call, db': DB, ok: bool, k: CertKey)
    requires Step(cfg, db, call, db', ok) && k in db.certs
    ensures k in db'.certs && db'.certs[k].id == db.certs[k].id
    ensures db.certs[k].revoked ==> db'.certs[k] == db.certs[k]
  {
  }

  lemma {:induction false} RevokedStaysRevoked(cfg: Config, dbs: seq<DB>, calls: seq<Call>, oks: seq<bool>, i: nat,
                                               j: nat, k: CertKey)
    requires Run(cfg, dbs, calls, oks) && i <= j <= |calls| && k in dbs[i].certs && dbs[i].certs[k].revoked
    ensures k in dbs[j].certs && dbs[j].certs[k] == dbs[i].certs[k]
  {
    if i < j {
      RevokedStaysRevoked(cfg, dbs, calls, oks, i, j - 1, k);
      StepKeepsRevoked(cfg, dbs[j - 1], calls[j - 1], dbs[j], oks[j - 1], k);
    }
  }

  /** A token whose signature is valid presents a certificate in the name its record was made for; a token whose
      signature is not valid may claim anything. */
  predicate Genuine(db: DB, call: Call) {
    call.Reenroll? && call.tok.signatureOk && call.tok.key in db.certs ==> db.certs[call.tok.key].id == call.tok.id
  }

  /** A revoked identity: state -1 and no certificate of it in good standing. */
  ghost predicate LockedOut(db: DB, id: string) {
    && id in db.users && db.users[id].state == -1
    && forall k :: k in db.certs && db.certs[k].id == id ==> db.certs[k].revoked
  }

  predicate EnrollsAs(call: Call, id: string) {
    (call.Enroll? && call.id == id) || (call.Reenroll? && call.tok.id == id)
  }

  /** A revocation by name whose statements are all carried out, whatever the answer. */
  ghost predicate RevokesByName(db: DB, call: Call) {
    && call.Revoke? && !ByCertificate(call.revocation)
    && RevokeAllowed(db, call.tok, call.revocation) && StatementsSucceed(call.revocation, call.trouble)
  }

  lemma {:induction false} RevokeLocksOut(cfg: Config, db: DB, call: Call, db': DB, ok: bool)
    requires RevokesByName(db, call) && Step(cfg, db, call, db', ok)
    ensures LockedOut(db', call.revocation.name)
  {
  }

  /** A revocation by name whose second statement fails disables the identity. It is locked out exactly if it had no
      certificate in good standing; otherwise who could reenroll before still can. */
  lemma {:induction false} HalfRevoked(cfg: Config, db: DB, call: Call, db': DB, ok: bool, tok: Token, csr: Csr)
    requires call.Revoke? && !ByCertificate(call.revocation) && call.trouble == SecondFails &&
             Step(cfg, db, call, db', ok)
    requires RevokeAllowed(db, call.tok, call.revocation)
    ensures !ok && db'.users[call.revocation.name].state == -1
    ensures LockedOut(db', call.revocation.name) <==>
            forall k :: k in db.certs && db.certs[k].id == call.revocation.name ==> db.certs[k].revoked
    ensures tok.id == call.revocation.name ==> (ReenrollAllowed(db', tok, csr) <==> ReenrollAllowed(db, tok, csr))
  {
  }

  lemma {:induction false} StepKeepsLockedOut(cfg: Config, db: DB, call: Call, db': DB, ok: bool, id: string)
    requires Step(cfg, db, call, db', ok) && Genuine(db, call) && LockedOut(db, id)
    ensures EnrollsAs(call, id) ==> !ok
    ensures id in db'.users ==> LockedOut(db', id)
  {
    forall k | k in db'.certs && db'.certs[k].id == id ensures db'.certs[k].revoked || EnrollsAs(call, id) {
      if k in db.certs { StepKeepsRevoked(cfg, db, call, db', ok, k); }
    }
    if call.RenameAffiliation? && db' != db {
      var u := db.users[id];
      assert u.affiliation in db.affiliations && InSubtree(call.oldName, u.affiliation) ==>
        UserMoved(u, db'.users[id], call.oldName, call.newName);
    }
  }

  lemma {:induction false} StaysLockedOut(cfg: Config, dbs: seq<DB>, calls: seq<Call>, oks: seq<bool>, i: nat, j: nat,
                                          id: string)
    requires Run(cfg, dbs, calls, oks) && i <= j <= |calls| && LockedOut(dbs[i], id)
    requires forall n :: 0 <= n < |calls| ==> Genuine(dbs[n], calls[n])
    requires forall n :: i <= n <= j ==> id in dbs[n].users
    ensures LockedOut(dbs[j], id)
  {
    if i < j {
      StaysLockedOut(cfg, dbs, calls, oks, i, j - 1, id);
      StepKeepsLockedOut(cfg, dbs[j - 1], calls[j - 1], dbs[j], oks[j - 1], id);
    }
  }

  /** After a revocation by name at step `i`, as long as the identity is not removed, it stays locked out and
      no enrollment or reenrollment of it succeeds. */
  lemma {:induction false} RevokedIdentityStaysOut(cfg: Config, dbs: seq<DB>, calls: seq<Call>, oks: seq<bool>, i: nat,
                                                   j: nat)
    requires Run(cfg, dbs, calls, oks) && i < j <= |calls|
    requires forall n :: 0 <= n < |calls| ==> Genuine(dbs[n], calls[n])
    requires RevokesByName(dbs[i], calls[i])
    requires forall n :: i < n <= j ==> calls[i].revocation.name in dbs[n].users
    ensures LockedOut(dbs[j], calls[i].revocation.name)
    ensures j < |calls| && EnrollsAs(calls[j], calls[i].revocation.name) ==> !oks[j]
  {
    RevokeLocksOut(cfg, dbs[i], calls[i], dbs[i + 1], oks[i]);
    StaysLockedOut(cfg, dbs, calls, oks, i + 1, j, calls[i].revocation.name);
    if j < |calls| {
      StepKeepsLockedOut(cfg, dbs[j], calls[j], dbs[j + 1], oks[j], calls[i].revocation.name);
    }
  }

  // No orphaned certificate

  /** Every certificate in good standing belongs to a current identity. */
  ghost predicate GoodCertsOwned(db: DB) {
    forall k :: k in db.certs && !db.certs[k].revoked ==> db.certs[k].id in db.users
  }

  lemma {:induction false} StepKeepsGoodCertsOwned(cfg: Config, db: DB, call: Call, db': DB, ok: bool)
    requires Step(cfg, db, call, db', ok) && GoodCertsOwned(db)
    ensures GoodCertsOwned(db')
  {
  }

  lemma {:induction false} RunKeepsGoodCertsOwned(cfg: Config, dbs: seq<DB>, calls: seq<Call>, oks: seq<bool>, j: nat)
    requires Run(cfg, dbs, calls, oks) && GoodCertsOwned(dbs[0]) && j <= |calls|
    ensures GoodCertsOwned(dbs[j])
  {
    if j > 0 {
      RunKeepsGoodCertsOwned(cfg, dbs, calls, oks, j - 1);
      StepKeepsGoodCertsOwned(cfg, dbs[j - 1], calls[j - 1], dbs[j], oks[j - 1]);
    }
  }

  // Fixed attributes follow the columns

  /** The fixed attributes occur at most once and read back as the id, type and affiliation columns. */
  ghost predicate Synced(id: string, u: User) {
    && Occurrences(u.attributes, ENROLLMENT_ID) <= 1 && Value(u.attributes, ENROLLMENT_ID) == id
    && Occurrences(u.attributes, TYPE) <= 1 && Value(u.attributes, TYPE) == u.utype
    && Occurrences(u.attributes, AFFILIATION) <= 1 && Value(u.attributes, AFFILIATION) == u.affiliation
  }

  lemma {:induction false} ReadAppend(a: seq<Attr>, b: seq<Attr>, x: string)
    ensures Occurrences(a + b, x) == Occurrences(a, x) + Occurrences(b, x)
    ensures Attributes.Value(a +
            b, x) == if Occurrences(b, x) > 0 then Attributes.Value(b, x) else Attributes.Value(a, x)
  {
    OccurrencesAppend(a, b, x);
    ViewAppend(a, b);
    InViewIffOccurs(b, x);
  }

  lemma {:induction false} RegisteredSynced(req: Request, level: int, pass: string, max: int, registrar: map<string,
                                            Attr>)
    requires CanRegisterRequestedAttributes(req.attributes, None, registrar)
    ensures Synced(req.name, User(pass, req.utype, req.affiliation, StoredAttributes(req), 0, max, level))
  {
    var e, t, f := Attr(ENROLLMENT_ID, req.name, true), Attr(TYPE, req.utype, true), Attr(AFFILIATION, req.affiliation,
        true);
    assert StoredAttributes(req) == req.attributes + [e] + [t] + [f];
    FixedReads(req.attributes + [e] + [t], f);
    FixedReads(req.attributes + [e], t);
    FixedReads(req.attributes, e);
    FixedNeverRequested(req.attributes, None, registrar, ENROLLMENT_ID);
    FixedNeverRequested(req.attributes, None, registrar, TYPE);
    FixedNeverRequested(req.attributes, None, registrar, AFFILIATION);
  }

  /** Appending one entry, as seen at each fixed name. */
  lemma {:induction false} FixedReads(a: seq<Attr>, b: Attr)
    ensures forall x :: Occurrences(a + [b], x) == Occurrences(a, x) + if b.name == x then 1 else 0
    ensures forall x :: Attributes.Value(a + [b], x) == if b.name == x then b.value else Attributes.Value(a, x)
  {
    forall x
      ensures Occurrences(a + [b], x) == Occurrences(a, x) + if b.name == x then 1 else 0
      ensures Attributes.Value(a + [b], x) == if b.name == x then b.value else Attributes.Value(a, x)
    {
      ReadAppend(a, [b], x);
      assert Occurrences([b], x) == if b.name == x then 1 else 0;
      assert View([b]) == map[b.name := b];
    }
  }

  lemma {:induction false} ModifiedSynced(id: string, u: User, req: ModifyRequest, registrar: map<string, Attr>)
    requires Synced(id, u) && CanRegisterRequestedAttributes(req.attributes, Some(View(u.attributes)), registrar)
    ensures Synced(id, Modified(u, req))
  {
    var owned := Some(View(u.attributes));
    FixedNeverRequested(req.attributes, owned, registrar, ENROLLMENT_ID);
    FixedNeverRequested(req.attributes, owned, registrar, TYPE);
    FixedNeverRequested(req.attributes, owned, registrar, AFFILIATION);
    FixedChanges(req);
    var changes := AttributeChanges(req);
    PutAllOneName(u.attributes, changes, ENROLLMENT_ID);
    PutAllOneName(u.attributes, changes, TYPE);
    PutAllOneName(u.attributes, changes, AFFILIATION);
  }

  /** What a modification asks for at the fixed names, if its own attributes name none of them. */
  lemma {:induction false} FixedChanges(req: ModifyRequest)
    requires forall x :: x in {ENROLLMENT_ID, TYPE, AFFILIATION} ==> Occurrences(req.attributes, x) == 0
    ensures var changes := AttributeChanges(req);
            && Occurrences(changes, ENROLLMENT_ID) == 0
            && (if req.utype == "" then Occurrences(changes, TYPE) == 0
                else Occurrences(changes, TYPE) > 0 && Attributes.Value(changes, TYPE) == req.utype)
            && (if req.affiliation == "" then Occurrences(changes, AFFILIATION) == 0
                else Occurrences(changes, AFFILIATION) > 0 &&
                     Attributes.Value(changes, AFFILIATION) == if req.affiliation == "." then "" else req.affiliation)
  {
    var aff := if req.affiliation == "." then "" else req.affiliation;
    var step1 := if req.affiliation != "" then req.attributes + [Attr(AFFILIATION, aff, true)] else req.attributes;
    assert AttributeChanges(req) == if req.utype != "" then step1 + [Attr(TYPE, req.utype, true)] else step1;
    FixedReads(req.attributes, Attr(AFFILIATION, aff, true));
    FixedReads(step1, Attr(TYPE, req.utype, true));
  }

  lemma {:induction false} MovedSynced(id: string, u: User, u': User, oldName: string, newName: string)
    requires Synced(id, u) && UserMoved(u, u', oldName, newName)
    ensures Synced(id, u')
  {
    var m := View(u.attributes);
    assert View(u'.attributes) == Change(m, Attr(AFFILIATION, u'.affiliation, false));
    assert ENROLLMENT_ID != AFFILIATION && TYPE != AFFILIATION;
  }

  lemma {:induction false} StepKeepsSynced(cfg: Config, db: DB, call: Call, db': DB, ok: bool, id: string)
    requires Step(cfg, db, call, db', ok) && id in db'.users
    requires id in db.users ==> Synced(id, db.users[id])
    ensures Synced(id, db'.users[id])
  {
    match call
    case Register(tok, req, generated) =>
      if ok && id == req.name {
        var q := NormalizedRequest(db.users[tok.id], req);
        var row := db'.users[id];
        RegisteredSynced(q, row.level, row.pass, row.maxEnrollments, RegistrarOf(db.users[tok.id]).attrs);
      }
    case ModifyIdentity(tok, id', change) =>
      if ok && id == id' {
        ModifiedSynced(id, db.users[id], change, RegistrarOf(db.users[tok.id]).attrs);
      }
    case RenameAffiliation(_, oldName, newName, _) =>
      if db' != db && db'.users[id] != db.users[id] {
        MovedSynced(id, db.users[id], db'.users[id], oldName, newName);
      }
    case AddAffiliation(tok, name, force, failAt) => AddKeepsRows(cfg, db, tok, name, force, failAt, db', ok);
    case RemoveIdentity(_, _, _, _) =>
    case RemoveAffiliation(_, _, _, _) =>
    case _ => StateSteps(cfg, db, call, db', ok);
  }

  /** From any point where an identity is absent or in step, it is in step whenever it is present later:
      so every identity registered through the API stays in step. */
  lemma {:induction false} RunKeepsSynced(cfg: Config, dbs: seq<DB>, calls: seq<Call>, oks: seq<bool>, i: nat, j: nat,
                                          id: string)
    requires Run(cfg, dbs, calls, oks) && i <= j <= |calls|
    requires id in dbs[i].users ==> Synced(id, dbs[i].users[id])
    ensures id in dbs[j].users ==> Synced(id, dbs[j].users[id])
  {
    if i < j {
      RunKeepsSynced(cfg, dbs, calls, oks, i, j - 1, id);
      if id in dbs[j].users {
        StepKeepsSynced(cfg, dbs[j - 1], calls[j - 1], dbs[j], oks[j - 1], id);
      }
    }
  }
}
