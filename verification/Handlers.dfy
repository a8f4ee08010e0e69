/** The request handlers that change the registry, and the step each of them takes on the tables. */
module Handlers {
  import opened Options
  import opened Strings
  import opened Paths
  import opened Attributes
  import opened Tables
  import opened Accessors
  import opened Delegation
  import opened Enrollment
  import Serials

  datatype Config = Config(maxEnrollments: int, allowRemoveIdentity: bool, allowRemoveAffiliation: bool,
                           identityLevel: int, affiliationLevel: int)

  /** A verified token: the name in the presented certificate and the key under which that certificate is recorded. */
  datatype Token = Token(id: string, key: CertKey, signatureOk: bool)

  datatype ModifyRequest = ModifyRequest(secret: string, utype: string, affiliation: string,
                                         attributes: seq<Attr>, maxEnrollments: int)

  /** What the checks read of a signing request, and the certificate that signing it yields. */
  datatype Csr = Csr(commonName: string, subjectName: Option<string>, forCA: bool, wellFormed: bool,
                     key: CertKey, expiry: int)

  /** A failure outside the modelled checks, before or after the certificate is signed and recorded. */
  datatype Fault = NoFault | BeforeSigning | AfterSigning

  /** Revocation runs its statements one by one, outside any transaction, and then may generate a revocation list: which
      of these fails, if any. */
  datatype RevokeFault = AllSucceed | FirstFails | SecondFails | CrlFails

  /** A revocation request as sent, and after its serial and key identifier are parsed. */
  datatype RevokeRequest = RevokeRequest(name: string, serial: string, aki: string, reason: int, genCRL: bool)

  datatype Revocation = Revocation(name: string, key: CertKey, reason: int, genCRL: bool)

  datatype Call =
    | Register(tok: Token, req: Request, generated: string)
    | ModifyIdentity(tok: Token, id: string, change: ModifyRequest)
    | RemoveIdentity(tok: Token, id: string, force: bool, now: int)
    | AddAffiliation(tok: Token, name: string, force: bool, failAt: int)
    | RenameAffiliation(tok: Token, oldName: string, newName: string, force: bool)
    | RemoveAffiliation(tok: Token, name: string, force: bool, now: int)
    | Enroll(id: string, pass: string, csr: Csr, fault: Fault)
    | Reenroll(tok: Token, csr: Csr, fault: Fault)
    | Revoke(tok: Token, revocation: Revocation, now: int, trouble: RevokeFault)

  // Authentication

  /** `verifyX509Token`: the certificate is recorded, not revoked, and its owner is a current user. */
  predicate Authenticated(db: DB, tok: Token) {
    && tok.signatureOk
    && tok.key in db.certs
    && !db.certs[tok.key].revoked
    && tok.id in db.users
  }

  function RegistrarOf(u: User): Registrar {
    Registrar(u.affiliation, View(u.attributes))
  }

  /** `HasRole` and `attributeIsTrue`. */
  predicate HasTrue(u: User, name: string) {
    name in View(u.attributes) && ParseBool(View(u.attributes)[name].value) == True
  }

  method TokenAuthentication(acc: Accessor, tok: Token) returns (caller: Result<User>)
    ensures caller.Ok? <==> Authenticated(acc.Db(), tok)
    ensures caller.Ok? ==> caller.value == acc.users[tok.id]
  {
    if !tok.signatureOk || tok.key !in acc.certs || acc.certs[tok.key].revoked || tok.id !in acc.users {
      return Err(Unauthorized);
    }
    caller := Ok(acc.users[tok.id]);
  }

  // Register

  function NormalizedRequest(caller: User, req: Request): Request {
    Normalize(req, RegistrarOf(caller), caller.utype)
  }

  ghost predicate RegisterAllowed(cfg: Config, db: DB, tok: Token, req: Request) {
    && Authenticated(db, tok)
    && CanRegister(RegistrarOf(db.users[tok.id]), NormalizedRequest(db.users[tok.id], req), db.affiliations.Keys)
    && GetMaxEnrollments(req.maxEnrollments, cfg.maxEnrollments).Ok?
    && req.name !in db.users
  }

  ghost function RegisterEffect(cfg: Config, db: DB, tok: Token, req: Request, generated: string): DB
    requires RegisterAllowed(cfg, db, tok, req)
  {
    var q := NormalizedRequest(db.users[tok.id], req);
    db.(users := db.users[req.name :=
      User(if req.secret == "" then generated else req.secret, q.utype, q.affiliation, StoredAttributes(q), 0,
           GetMaxEnrollments(req.maxEnrollments, cfg.maxEnrollments).value, cfg.identityLevel)])
  }

  method HandleRegister(acc: Accessor, cfg: Config, tok: Token, req: Request,
                        generated: string) returns (r: Result<string>)
    modifies acc
    ensures r.Ok? <==> RegisterAllowed(cfg, old(acc.Db()), tok, req)
    ensures acc.Db() == if r.Ok? then RegisterEffect(cfg, old(acc.Db()), tok, req, generated) else old(acc.Db())
    ensures r.Ok? ==> r.value == acc.users[req.name].pass
  {
    var caller := TokenAuthentication(acc, tok);
    if caller.Err? {
      return Err(caller.error);
    }
    var q := NormalizedRequest(caller.value, req);
    if !CanRegister(RegistrarOf(caller.value), q, acc.affiliations.Keys) {
      return Err(Unauthorized);
    }
    var secret := if q.secret == "" then generated else q.secret;
    var max := GetMaxEnrollments(q.maxEnrollments, cfg.maxEnrollments);
    if max.Err? {
      return Err(max.error);
    }
    var attributes := q.attributes + [Attr(ENROLLMENT_ID, q.name, true)];
    attributes := attributes + [Attr(TYPE, q.utype, true)];
    attributes := attributes + [Attr(AFFILIATION, q.affiliation, true)];
    assert attributes == StoredAttributes(q);
    if q.name in acc.users {
      return Err(AlreadyExists);
    }
    acc.users := acc.users[q.name := User(secret, q.utype, q.affiliation, attributes, 0, max.value, cfg.identityLevel)];
    r := Ok(secret);
  }

  // Modify

  /** The attribute changes of a modification: the requested ones, then the ones that follow a new affiliation or
      type. */
  function AttributeChanges(req: ModifyRequest): seq<Attr> {
    req.attributes
    + (if req.affiliation == "." then [Attr(AFFILIATION, "", true)]
       else if req.affiliation != "" then [Attr(AFFILIATION, req.affiliation, true)] else [])
    + (if req.utype != "" then [Attr(TYPE, req.utype, true)] else [])
  }

  ghost predicate ModifyAllowed(db: DB, tok: Token, id: string, req: ModifyRequest) {
    && Authenticated(db, tok)
    && var caller := RegistrarOf(db.users[tok.id]);
    && id != "" && id in db.users
    && CanManage(caller, db.users[id].affiliation, db.users[id].utype)
    && (req.affiliation !in ["", "."] ==> req.affiliation in db.affiliations)
    && (req.affiliation != "" ==> ContainsAffiliation(caller, req.affiliation))
    && (req.utype != "" ==> CanActOnType(caller, req.utype))
    && CanRegisterRequestedAttributes(req.attributes, Some(View(db.users[id].attributes)), caller.attrs)
  }

  /** The row after a modification; the state, and with it a revocation, is kept. */
  function Modified(u: User, req: ModifyRequest): User {
    u.(pass := if req.secret != "" then req.secret else u.pass,
       maxEnrollments := if req.maxEnrollments == -2 then 0
                         else if req.maxEnrollments != 0 then req.maxEnrollments else u.maxEnrollments,
       affiliation := if req.affiliation == "." then ""
                      else if req.affiliation != "" then req.affiliation else u.affiliation,
       utype := if req.utype != "" then req.utype else u.utype,
       attributes := PutAll(u.attributes, AttributeChanges(req)))
  }

  /** `getModifyReq`. */
  method GetModifyReq(u: User, req: ModifyRequest) returns (m: User)
    ensures m == Modified(u, req)
  {
    m := u;
    if req.secret != "" {
      m := m.(pass := req.secret);
    }
    if req.maxEnrollments == -2 {
      m := m.(maxEnrollments := 0);
    } else if req.maxEnrollments != 0 {
      m := m.(maxEnrollments := req.maxEnrollments);
    }
    var reqAttrs := req.attributes;
    if req.affiliation == "." {
      m := m.(affiliation := "");
      reqAttrs := reqAttrs + [Attr(AFFILIATION, "", true)];
    } else if req.affiliation != "" {
      m := m.(affiliation := req.affiliation);
      reqAttrs := reqAttrs + [Attr(AFFILIATION, req.affiliation, true)];
    }
    if req.utype != "" {
      m := m.(utype := req.utype);
      reqAttrs := reqAttrs + [Attr(TYPE, req.utype, true)];
    }
    assert reqAttrs == AttributeChanges(req);
    if |reqAttrs| != 0 {
      var attrs := GetNewAttributes(u.attributes, reqAttrs);
      m := m.(attributes := attrs);
    }
  }

  method HandleModify(acc: Accessor, tok: Token, id: string, req: ModifyRequest) returns (r: Result<()>)
    modifies acc
    ensures r.Ok? <==> ModifyAllowed(old(acc.Db()), tok, id, req)
    ensures acc.Db() == if r.Ok? then old(acc.Db()).(users := old(acc.users)[id := Modified(old(acc.users)[id], req)])
                        else old(acc.Db())
  {
    var auth := TokenAuthentication(acc, tok);
    if auth.Err? {
      return Err(auth.error);
    }
    var caller := RegistrarOf(auth.value);
    if id == "" || id !in acc.users {
      return Err(NotFound);
    }
    var u := acc.users[id];
    if !CanManage(caller, u.affiliation, u.utype) {
      return Err(Unauthorized);
    }
    var m := GetModifyReq(u, req);
    if req.affiliation != "" && req.affiliation != "." && req.affiliation !in acc.affiliations {
      return Err(BadRequest);
    }
    if req.affiliation != "" && !ContainsAffiliation(caller, req.affiliation) {
      return Err(Unauthorized);
    }
    if req.utype != "" && !CanActOnType(caller, req.utype) {
      return Err(Unauthorized);
    }
    if |req.attributes| != 0 &&
       !CanRegisterRequestedAttributes(req.attributes, Some(View(u.attributes)), caller.attrs) {
      return Err(Unauthorized);
    }
    acc.users := acc.users[id := m];
    r := Ok(());
  }

  // Remove

  ghost predicate RemoveAllowed(cfg: Config, db: DB, tok: Token, id: string, force: bool) {
    && Authenticated(db, tok)
    && cfg.allowRemoveIdentity
    && id != "" && id in db.users
    && (id == tok.id ==> force)
    && CanManage(RegistrarOf(db.users[tok.id]), db.users[id].affiliation, db.users[id].utype)
  }

  ghost function RemoveEffect(db: DB, id: string, now: int): DB {
    DB(db.users - {id}, db.affiliations, RevokeOwned(db.certs, {id}, CESSATION_OF_OPERATION, now))
  }

  method HandleRemove(acc: Accessor, cfg: Config, tok: Token, id: string, force: bool,
                      now: int) returns (r: Result<User>)
    modifies acc
    ensures r.Ok? <==> RemoveAllowed(cfg, old(acc.Db()), tok, id, force)
    ensures acc.Db() == if r.Ok? then RemoveEffect(old(acc.Db()), id, now) else old(acc.Db())
  {
    var caller := TokenAuthentication(acc, tok);
    if caller.Err? {
      return Err(caller.error);
    }
    if !cfg.allowRemoveIdentity {
      return Err(RemovalDisabled);
    }
    if id == "" {
      return Err(BadRequest);
    }
    if id == tok.id && !force {
      return Err(NeedForce);
    }
    if id !in acc.users {
      return Err(NotFound);
    }
    if !CanManage(RegistrarOf(caller.value), acc.users[id].affiliation, acc.users[id].utype) {
      return Err(Unauthorized);
    }
    r := acc.DeleteUser(id, now);
  }

  // Add an affiliation

  /** The table after the first `k` prefixes of a dotted path are inserted, each under the one before it. */
  function AddPrefixes(affs: map<string, Affiliation>, parts: seq<string>, level: int, k: nat): map<string, Affiliation>
    requires k <= |parts|
  {
    if k == 0 then affs
    else
      var a := AddPrefixes(affs, parts, level, k - 1);
      var n := Join(parts[..k], '.');
      if n in a then a else a[n := Affiliation(Join(parts[..k - 1], '.'), level)]
  }

  ghost predicate AddAllowed(db: DB, tok: Token, name: string) {
    && Authenticated(db, tok)
    && HasTrue(db.users[tok.id], AFFILIATION_MGR)
    && name !in db.affiliations
    && ContainsAffiliation(RegistrarOf(db.users[tok.id]), name)
  }

  /** A forced add inserts the missing prefixes in order and stops only at the insert `failAt`, if the database fails
      there; an unforced one needs the parent. */
  ghost predicate AddStep(cfg: Config, db: DB, tok: Token, name: string, force: bool, failAt: int, db': DB, ok: bool) {
    && db'.users == db.users && db'.certs == db.certs
    && if !AddAllowed(db, tok, name) then !ok && db' == db
       else if force then PrefixesAdded(db.affiliations, Split(name, '.'), cfg.affiliationLevel, failAt,
           db'.affiliations, ok)
       else
         && ok == (failAt != 0 && (HasDot(name) ==> Parent(name) in db.affiliations))
         && db'.affiliations == if ok then db.affiliations[name := Affiliation(Parent(name), cfg.affiliationLevel)]
                                else db.affiliations
  }

  ghost predicate PrefixesAdded(affs: map<string, Affiliation>, parts: seq<string>, level: int, failAt: int,
                                affs': map<string, Affiliation>, ok: bool) {
    exists k: nat :: k <= |parts| && affs' == AddPrefixes(affs, parts, level, k) && (ok <==> k == |parts|) &&
        (!ok ==> failAt == k)
  }

  lemma {:induction false} ParentOfSplit(name: string)
    ensures |Split(name, '.')| > 1 <==> HasDot(name)
    ensures var parts := Split(name, '.');
            HasDot(name) ==> Parent(name) == Join(parts[..|parts| - 1], '.')
  {
    var parts := Split(name, '.');
    SplitSingle(name, '.');
    JoinSplit(name, '.');
    if |parts| > 1 {
      var init, last := parts[..|parts| - 1], parts[|parts| - 1];
      assert parts == init + [last];
      JoinSnoc(init, last, '.');
      ParentOfChild(Join(init, '.'), last);
    }
  }

  method HandleAddAffiliation(acc: Accessor, cfg: Config, tok: Token, name: string, force: bool, failAt: int)
    returns (r: Result<string>)
    modifies acc
    ensures AddStep(cfg, old(acc.Db()), tok, name, force, failAt, acc.Db(), r.Ok?)
  {
    var caller := TokenAuthentication(acc, tok);
    if caller.Err? {
      return Err(caller.error);
    }
    if !HasTrue(caller.value, AFFILIATION_MGR) {
      return Err(Unauthorized);
    }
    if name in acc.affiliations {
      return Err(AlreadyExists);
    }
    if !ContainsAffiliation(RegistrarOf(caller.value), name) {
      return Err(Unauthorized);
    }
    ParentOfSplit(name);
    var parts := Split(name, '.');
    if force {
      r := AddWithParents(acc, parts, cfg.affiliationLevel, failAt);
      if r.Ok? {
        r := Ok(name);
      }
    } else {
      var parent := "";
      if |parts| > 1 {
        parent := Join(parts[..|parts| - 1], '.');
        if parent !in acc.affiliations {
          return Err(NotFound);
        }
      } else {
        DotFreeParent(name);
      }
      var ins := acc.InsertAffiliation(name, parent, cfg.affiliationLevel, failAt == 0);
      r := if ins.Ok? then Ok(name) else Err(ins.error);
    }
  }

  /** The loop of a forced add: the path grows by one component per iteration. */
  method AddWithParents(acc: Accessor, parts: seq<string>, level: int, failAt: int) returns (r: Result<string>)
    modifies acc`affiliations
    ensures PrefixesAdded(old(acc.affiliations), parts, level, failAt, acc.affiliations, r.Ok?)
  {
    ghost var affs := acc.affiliations;
    var path, parentPath := "", "";
    for i := 0 to |parts|
      invariant acc.affiliations == AddPrefixes(affs, parts, level, i)
      invariant parentPath == Join(parts[..i], '.')
      invariant path == if i == 0 then "" else parentPath + "."
    {
      path := path + parts[i];
      assert parts[..i + 1] == parts[..i] + [parts[i]];
      if i > 0 {
        JoinSnoc(parts[..i], parts[i], '.');
      }
      assert path == Join(parts[..i + 1], '.');
      var ins := acc.InsertAffiliation(path, parentPath, level, failAt == i);
      if ins.Err? {
        return Err(ins.error);
      }
      if failAt == i {
        assert path in AddPrefixes(affs, parts, level, i);
      }
      parentPath := path;
      path := path + ".";
    }
    r := Ok("");
  }

  // Rename and remove an affiliation

  ghost predicate MayManageAffiliations(db: DB, tok: Token) {
    && Authenticated(db, tok)
    && HasTrue(db.users[tok.id], AFFILIATION_MGR)
    && ROLES in View(db.users[tok.id].attributes)
  }

  ghost predicate RenameAllowed(db: DB, tok: Token, oldName: string, newName: string, force: bool) {
    && MayManageAffiliations(db, tok)
    && ContainsAffiliation(RegistrarOf(db.users[tok.id]), oldName)
    && ContainsAffiliation(RegistrarOf(db.users[tok.id]), newName)
    && (forall e :: !RenameRefused(db, oldName, newName, force, IsRegistrar(RegistrarOf(db.users[tok.id])), e))
  }

  /** An allowed rename is carried out exactly if, in the order the rows come, no target is taken. The response is built
      after the commit, and fails if a row of the new subtree has no parent. */
  ghost predicate RenameStep(db: DB, tok: Token, oldName: string, newName: string, force: bool, db': DB, ok: bool) {
    if !RenameAllowed(db, tok, oldName, newName, force) then !ok && db' == db
    else
      || (Renamed(db, db', oldName, newName) && ok == ClosedBelow(db'.affiliations, newName) &&
          RowsClear(db.affiliations, oldName, newName, true))
      || (!ok && db' == db && RowsClear(db.affiliations, oldName, newName, false))
  }

  /** `processAffiliationPutRequest` up to its response. */
  method CommitRename(acc: Accessor, tok: Token, oldName: string, newName: string, force: bool)
    returns (r: Result<TxResult>)
    modifies acc
    ensures r.Ok? ==> RenameAllowed(old(acc.Db()), tok, oldName, newName, force)
    ensures r.Ok? ==> Renamed(old(acc.Db()), acc.Db(), oldName, newName)
    ensures r.Ok? ==> RowsClear(old(acc.affiliations), oldName, newName, true)
    ensures r.Err? ==> acc.Db() == old(acc.Db())
    ensures r.Err? && RenameAllowed(old(acc.Db()), tok, oldName, newName, force) ==>
              RowsClear(old(acc.affiliations), oldName, newName, false)
    ensures r.Ok? ==> Lists(r.value.identities, Movers(old(acc.Db()), oldName)) &&
                      Lists(r.value.affiliations, set n | n in acc.affiliations && InSubtree(newName, n))
  {
    var auth := TokenAuthentication(acc, tok);
    if auth.Err? {
      return Err(auth.error);
    }
    var caller := RegistrarOf(auth.value);
    if !HasTrue(auth.value, AFFILIATION_MGR) {
      return Err(Unauthorized);
    }
    if !ContainsAffiliation(caller, oldName) || !ContainsAffiliation(caller, newName) {
      return Err(Unauthorized);
    }
    if ROLES !in caller.attrs {
      return Err(Unauthorized);
    }
    r := acc.ModifyAffiliation(oldName, newName, force, IsRegistrar(caller));
  }

  ghost predicate RemoveAffiliationAllowed(cfg: Config, db: DB, tok: Token, name: string, force: bool) {
    && cfg.allowRemoveAffiliation
    && MayManageAffiliations(db, tok)
    && db.users[tok.id].affiliation != name
    && ContainsAffiliation(RegistrarOf(db.users[tok.id]), name)
    && (forall e :: !RemovalRefused(db, name, force, cfg.allowRemoveIdentity,
        IsRegistrar(RegistrarOf(db.users[tok.id])), e))
  }

  /** An allowed removal is always carried out. The response is built after the commit, and fails if a removed row has
      no parent among them. */
  ghost predicate RemoveAffiliationStep(cfg: Config, db: DB, tok: Token, name: string, force: bool, now: int,
                                        db': DB, ok: bool) {
    var allowed := RemoveAffiliationAllowed(cfg, db, tok, name, force);
    db' == (if allowed then Removed(db, name, now) else db) && ok == (allowed && ClosedBelow(db.affiliations, name))
  }

  /** `processAffiliationDeleteRequest` up to its response. */
  method CommitRemoval(acc: Accessor, cfg: Config, tok: Token, name: string, force: bool, now: int)
    returns (r: Result<TxResult>)
    modifies acc
    ensures r.Ok? <==> RemoveAffiliationAllowed(cfg, old(acc.Db()), tok, name, force)
    ensures acc.Db() == if r.Ok? then Removed(old(acc.Db()), name, now) else old(acc.Db())
    ensures r.Ok? ==> name in old(acc.affiliations) && SubtreeRows(old(acc.affiliations), name, r.value.affiliations) &&
                      Lists(r.value.identities, Affected(old(acc.users), name))
  {
    var auth := TokenAuthentication(acc, tok);
    if auth.Err? {
      return Err(auth.error);
    }
    var caller := RegistrarOf(auth.value);
    if !HasTrue(auth.value, AFFILIATION_MGR) {
      return Err(Unauthorized);
    }
    if !cfg.allowRemoveAffiliation {
      return Err(RemovalDisabled);
    }
    if caller.affiliation == name {
      return Err(Unauthorized);
    }
    if !ContainsAffiliation(caller, name) {
      return Err(Unauthorized);
    }
    if ROLES !in caller.attrs {
      return Err(Unauthorized);
    }
    r := acc.DeleteAffiliation(name, force, cfg.allowRemoveIdentity, IsRegistrar(caller), now);
  }

  // Enroll and reenroll

  /** `processSignRequest`: both names in the request must be the enrollment ID. */
  predicate SignAllowed(u: User, id: string, csr: Csr) {
    && csr.wellFormed
    && csr.commonName == id
    && (csr.subjectName.Some? ==> csr.subjectName.value == id)
    && (csr.forCA ==> HasTrue(u, INTERMEDIATE_CA))
  }

  function Issued(id: string, csr: Csr): Cert {
    Cert(id, false, 0, csr.expiry, 0)
  }

  ghost predicate EnrollAllowed(cfg: Config, db: DB, id: string, pass: string, csr: Csr) {
    && cfg.maxEnrollments != 0
    && id in db.users
    && pass == db.users[id].pass
    && LoginAllowed(db.users[id].maxEnrollments, db.users[id].state, cfg.maxEnrollments)
    && SignAllowed(db.users[id], id, csr)
    && csr.key !in db.certs
  }

  ghost predicate ReenrollAllowed(db: DB, tok: Token, csr: Csr) {
    && Authenticated(db, tok)
    && SignAllowed(db.users[tok.id], tok.id, csr)
    && csr.key !in db.certs
  }

  /** Signing records the certificate; only a fault after that leaves the record behind an error response. */
  ghost predicate SignStep(db: DB, id: string, csr: Csr, fault: Fault, allowed: bool, counted: bool, db': DB,
                           ok: bool) {
    if !allowed || fault == BeforeSigning then !ok && db' == db
    else
      && ok == (fault == NoFault)
      && db'.affiliations == db.affiliations
      && db'.certs == db.certs[csr.key := Issued(id, csr)]
      && db'.users == if ok && counted &&
          id in db.users then db.users[id := db.users[id].(state := db.users[id].state + 1)] else db.users
  }

  /** `handleEnroll` after authentication. */
  method HandleSign(acc: Accessor, id: string, caller: User, csr: Csr, fault: Fault) returns (r: Result<CertKey>)
    modifies acc`certs
    ensures r.Ok? <==> SignAllowed(caller, id, csr) && csr.key !in old(acc.certs) && fault == NoFault
    ensures acc.certs == if SignAllowed(caller, id, csr) && csr.key !in old(acc.certs) && fault != BeforeSigning
                         then old(acc.certs)[csr.key := Issued(id, csr)] else old(acc.certs)
  {
    if !csr.wellFormed {
      return Err(BadRequest);
    }
    if (csr.subjectName.Some? && csr.subjectName.value != id) || csr.commonName != id {
      return Err(BadRequest);
    }
    if csr.forCA && !HasTrue(caller, INTERMEDIATE_CA) {
      return Err(Unauthorized);
    }
    if fault == BeforeSigning {
      return Err(DBFailure);
    }
    if csr.key in acc.certs {
      return Err(DBFailure);
    }
    acc.certs := acc.certs[csr.key := Cert(csr.commonName, false, 0, csr.expiry, 0)];
    if fault == AfterSigning {
      return Err(DBFailure);
    }
    r := Ok(csr.key);
  }

  /** `enrollHandler`: when requests are serialized the completion never fails. */
  method HandleEnroll(acc: Accessor, cfg: Config, id: string, pass: string, csr: Csr,
                      fault: Fault) returns (r: Result<CertKey>)
    modifies acc
    ensures SignStep(old(acc.Db()), id, csr, fault, EnrollAllowed(cfg, old(acc.Db()), id, pass, csr), true, acc.Db(),
               r.Ok?)
  {
    if cfg.maxEnrollments == 0 {
      return Err(Unauthorized);
    }
    if id !in acc.users {
      return Err(Unauthorized);
    }
    var caller := acc.users[id];
    var ui := new DBUser(id, caller);
    var login := ui.Login(pass, cfg.maxEnrollments);
    if login.Err? {
      return Err(login.error);
    }
    r := HandleSign(acc, id, caller, csr, fault);
    if r.Err? {
      return;
    }
    var done := ui.LoginComplete(acc);
    if done.Err? {
      r := Err(DBFailure);
    }
  }

  method HandleReenroll(acc: Accessor, tok: Token, csr: Csr, fault: Fault) returns (r: Result<CertKey>)
    modifies acc
    ensures SignStep(old(acc.Db()), tok.id, csr, fault, ReenrollAllowed(old(acc.Db()), tok, csr), false, acc.Db(),
               r.Ok?)
  {
    var caller := TokenAuthentication(acc, tok);
    if caller.Err? {
      return Err(caller.error);
    }
    r := HandleSign(acc, tok.id, caller.value, csr, fault);
  }

  // Revoke

  function ParseRevocation(req: RevokeRequest): Revocation {
    Revocation(req.name, CertKey(Serials.ParseInput(req.serial), Serials.ParseInput(req.aki)), req.reason, req.genCRL)
  }

  predicate ByCertificate(req: Revocation) {
    req.key.serial != "" && req.key.aki != ""
  }

  ghost predicate RevokeAllowed(db: DB, tok: Token, req: Revocation) {
    && Authenticated(db, tok)
    && HasTrue(db.users[tok.id], REVOKER)
    && if ByCertificate(req) then CertRevocable(db, tok, req) else UserRevocable(db, tok, req)
  }

  /** One certificate: not yet revoked, of the named owner, and the caller's own or of a user the caller manages. */
  ghost predicate CertRevocable(db: DB, tok: Token, req: Revocation)
    requires tok.id in db.users
  {
    && req.key in db.certs && !db.certs[req.key].revoked
    && (req.name == "" || req.name == db.certs[req.key].id)
    && db.certs[req.key].id in db.users
    && var owner := db.users[db.certs[req.key].id];
       (req.key == tok.key || CanManage(RegistrarOf(db.users[tok.id]), owner.affiliation, owner.utype))
  }

  /** A whole identity: the caller itself or one the caller manages. */
  ghost predicate UserRevocable(db: DB, tok: Token, req: Revocation)
    requires tok.id in db.users
  {
    && req.name != "" && req.name in db.users
    && (req.name == tok.id ||
        CanManage(RegistrarOf(db.users[tok.id]), db.users[req.name].affiliation, db.users[req.name].utype))
  }

  ghost function RevokeEffect(db: DB, req: Revocation, now: int): DB {
    if ByCertificate(req) && req.key in db.certs then
      db.(certs := db.certs[req.key := RevokedBy(db.certs[req.key], req.reason, now)])
    else if req.name in db.users then
      db.(users := db.users[req.name := db.users[req.name].(state := -1)],
          certs := RevokeOwned(db.certs, {req.name}, req.reason, now))
    else db
  }

  function Disabled(users: map<string, User>, name: string): map<string, User>
    requires name in users
  {
    users[name := users[name].(state := -1)]
  }

  /** Do the statements of an allowed revocation all succeed? */
  predicate StatementsSucceed(req: Revocation, trouble: RevokeFault) {
    trouble != FirstFails && (trouble == SecondFails ==> ByCertificate(req))
  }

  /** What a revocation leaves behind: by name, a failure of the second statement leaves the identity disabled with its
      certificates in good standing. A revocation list that is asked for and cannot be generated is an error after all
      is done; without newly revoked certificates none is generated. */
  ghost predicate RevokeStep(db: DB, tok: Token, req: Revocation, now: int, trouble: RevokeFault, db': DB, ok: bool) {
    if !RevokeAllowed(db, tok, req) then !ok && db' == db
    else if StatementsSucceed(req, trouble) then
      && db' == RevokeEffect(db, req, now)
      && ok == !(req.genCRL && trouble == CrlFails && NewlyRevoked(db.certs, db'.certs) != {})
    else
      && !ok
      && db' == if trouble == SecondFails then db.(users := Disabled(db.users, req.name)) else db
  }

  /** The certificates revoked by a step that changed the table from `before` to `after`. */
  ghost function NewlyRevoked(before: map<CertKey, Cert>, after: map<CertKey, Cert>): set<CertKey> {
    set k | k in after && after[k].revoked && k in before && !before[k].revoked
  }

  method RevokeOne(acc: Accessor, key: CertKey, reason: int, now: int,
                   trouble: RevokeFault) returns (r: Result<set<CertKey>>)
    requires key in acc.certs && !acc.certs[key].revoked
    modifies acc`certs
    ensures r.Ok? <==> trouble != FirstFails
    ensures acc.certs == if r.Ok? then old(acc.certs)[key := RevokedBy(old(acc.certs)[key], reason, now)]
                         else old(acc.certs)
    ensures r.Ok? ==> RevocationOf(old(acc.certs)[key], acc.certs[key], reason, now)
    ensures r.Ok? ==> r.value == NewlyRevoked(old(acc.certs), acc.certs)
  {
    if trouble == FirstFails {
      return Err(DBFailure);
    }
    acc.certs := acc.certs[key := acc.certs[key].(revoked := true, reason := reason, revokedAt := now)];
    r := Ok({key});
  }

  method RevokeAll(acc: Accessor, name: string, reason: int, now: int,
                   trouble: RevokeFault) returns (r: Result<set<CertKey>>)
    requires name in acc.users
    modifies acc`users, acc`certs
    ensures r.Ok? <==> trouble != FirstFails && trouble != SecondFails
    ensures acc.users == if trouble == FirstFails then old(acc.users) else Disabled(old(acc.users), name)
    ensures acc.certs == if r.Ok? then RevokeOwned(old(acc.certs), {name}, reason, now) else old(acc.certs)
    ensures r.Ok? ==> r.value == NewlyRevoked(old(acc.certs), acc.certs)
  {
    if trouble == FirstFails {
      return Err(DBFailure);
    }
    acc.users := acc.users[name := acc.users[name].(state := -1)];
    if trouble == SecondFails {
      return Err(DBFailure);
    }
    r := Ok(set k | k in acc.certs && acc.certs[k].id == name && !acc.certs[k].revoked);
    acc.RevokeCertificatesOf({name}, reason, now);
  }

  method HandleRevoke(acc: Accessor, tok: Token, req: RevokeRequest, now: int,
                      trouble: RevokeFault) returns (r: Result<set<CertKey>>)
    modifies acc
    ensures RevokeStep(old(acc.Db()), tok, ParseRevocation(req), now, trouble, acc.Db(), r.Ok?)
    ensures r.Ok? ==> r.value == NewlyRevoked(old(acc.certs), acc.certs)
  {
    r := RevokeParsed(acc, tok, ParseRevocation(req), now, trouble);
  }

  /** `revokeHandler` after its input is parsed. */
  method RevokeParsed(acc: Accessor, tok: Token, req: Revocation, now: int,
                      trouble: RevokeFault) returns (r: Result<set<CertKey>>)
    modifies acc
    ensures RevokeStep(old(acc.Db()), tok, req, now, trouble, acc.Db(), r.Ok?)
    ensures r.Ok? ==> r.value == NewlyRevoked(old(acc.certs), acc.certs)
  {
    var auth := TokenAuthentication(acc, tok);
    if auth.Err? {
      return Err(auth.error);
    }
    if !HasTrue(auth.value, REVOKER) {
      return Err(Unauthorized);
    }
    if req.key.serial != "" && req.key.aki != "" {
      r := RevokeCertificate(acc, RegistrarOf(auth.value), tok, req, now, trouble);
    } else {
      r := RevokeIdentity(acc, RegistrarOf(auth.value), tok, req, now, trouble);
    }
    if r.Ok? && req.genCRL && r.value != {} && trouble == CrlFails {
      r := Err(DBFailure);
    }
  }

  method RevokeCertificate(acc: Accessor, caller: Registrar, tok: Token, req: Revocation, now: int,
                           trouble: RevokeFault)
    returns (r: Result<set<CertKey>>)
    requires tok.id in acc.users && caller == RegistrarOf(acc.users[tok.id])
    modifies acc`certs
    ensures r.Ok? <==> CertRevocable(old(acc.Db()), tok, req) && trouble != FirstFails
    ensures r.Ok? ==> acc.certs == old(acc.certs)[req.key := RevokedBy(old(acc.certs)[req.key], req.reason, now)]
    ensures r.Err? ==> acc.certs == old(acc.certs)
    ensures r.Ok? ==> r.value == NewlyRevoked(old(acc.certs), acc.certs)
  {
    if req.key !in acc.certs || acc.certs[req.key].revoked {
      return Err(NotFound);
    }
    var certificate := acc.certs[req.key];
    if req.name != "" && req.name != certificate.id {
      return Err(BadRequest);
    }
    if certificate.id !in acc.users {
      return Err(NotFound);
    }
    var owner := acc.users[certificate.id];
    if req.key != tok.key && !CanManage(caller, owner.affiliation, owner.utype) {
      return Err(Unauthorized);
    }
    r := RevokeOne(acc, req.key, req.reason, now, trouble);
  }

  method RevokeIdentity(acc: Accessor, caller: Registrar, tok: Token, req: Revocation, now: int, trouble: RevokeFault)
    returns (r: Result<set<CertKey>>)
    requires tok.id in acc.users && caller == RegistrarOf(acc.users[tok.id])
    modifies acc`users, acc`certs
    ensures r.Ok? <==> UserRevocable(old(acc.Db()), tok, req) && trouble != FirstFails && trouble != SecondFails
    ensures acc.users == if UserRevocable(old(acc.Db()), tok, req) && trouble != FirstFails
                         then old(acc.users)[req.name := old(acc.users)[req.name].(state := -1)] else old(acc.users)
    ensures acc.certs == if r.Ok? then RevokeOwned(old(acc.certs), {req.name}, req.reason, now) else old(acc.certs)
    ensures r.Ok? ==> r.value == NewlyRevoked(old(acc.certs), acc.certs)
  {
    if req.name == "" {
      return Err(BadRequest);
    }
    if req.name !in acc.users {
      return Err(NotFound);
    }
    var user := acc.users[req.name];
    if tok.id != req.name && !CanManage(caller, user.affiliation, user.utype) {
      return Err(Unauthorized);
    }
    r := RevokeAll(acc, req.name, req.reason, now, trouble);
  }
}
