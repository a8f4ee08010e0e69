/** What each request needs and what it leaves behind, said of rows and request fields alone. */
module Requirements {
  import opened Options
  import opened Strings
  import opened Paths
  import opened Attributes
  import opened Tables
  import opened Accessors
  import opened Delegation
  import opened Handlers

  // Reading an identity

  /** The value of the last entry of that name. */
  function Read(attrs: seq<Attr>, name: string): Option<string> {
    if attrs == [] then None
    else if attrs[|attrs| - 1].name == name then Some(attrs[|attrs| - 1].value)
    else Read(attrs[..|attrs| - 1], name)
  }

  lemma {:induction false} ReadIsView(attrs: seq<Attr>, name: string)
    ensures Read(attrs, name) == if name in View(attrs) then Some(View(attrs)[name].value) else None
  {
    if attrs != [] {
      var init, last := attrs[..|attrs| - 1], attrs[|attrs| - 1];
      ReadIsView(init, name);
      ViewAppend(init, [last]);
      assert attrs == init + [last] && View([last]) == map[last.name := last];
    }
  }

  lemma {:induction false} ReadAppend(a: seq<Attr>, b: seq<Attr>, name: string)
    ensures Read(a + b, name) == if Read(b, name).Some? then Read(b, name) else Read(a, name)
    decreases |b|
  {
    if b == [] {
      assert a + b == a;
    } else {
      ReadAppend(a, b[..|b| - 1], name);
      assert (a + b)[..|a + b| - 1] == a + b[..|b| - 1];
    }
  }

  predicate SaysYes(u: User, name: string) {
    var v := Read(u.attributes, name);
    v.Some? && v.value in ["1", "t", "T", "TRUE", "true", "True"]
  }

  lemma {:induction false} YesIsTrue(u: User, name: string)
    ensures SaysYes(u, name) <==> HasTrue(u, name)
  {
    ReadIsView(u.attributes, name);
  }

  /** Some item of the role list is the wildcard, with or without a blank before it, or the type up to letter case; the
      empty type stands for `client`. */
  predicate HasRoleFor(u: User, utype: string) {
    var v := Read(u.attributes, ROLES);
    && v.Some? && v.value != ""
    && var items := Split(v.value, ',');
       exists i :: 0 <= i < |items| &&
         (items[i] == "*" || items[i] == " *" || ToLower(items[i]) == ToLower(if utype == "" then "client" else utype))
  }

  lemma {:induction false} BlankStar(item: string)
    ensures TrimLeadingSpace(item) == "*" <==> item == "*" || item == " *"
  {
    if " " <= item {
      assert item[0] == ' ' && "*"[0] == '*';
      assert item == [' '] + item[1..] && [' '] + "*" == " *";
      if item == " *" { assert item[1..] == "*"; }
    }
    assert " " <= " *";
  }

  lemma {:induction false} RoleIsType(u: User, utype: string)
    ensures HasRoleFor(u, utype) <==> CanActOnType(RegistrarOf(u), utype)
  {
    ReadIsView(u.attributes, ROLES);
    var v := Read(u.attributes, ROLES);
    if v.Some? {
      var items, want := Split(v.value, ','), if utype == "" then "client" else utype;
      forall i | 0 <= i < |items| ensures TrimLeadingSpace(items[i]) == "*" <==> items[i] == "*" || items[i] == " *" {
        BlankStar(items[i]);
      }
      if CanActOnType(RegistrarOf(u), utype) {
        if ListContains(v.value, "*") {
          var i :| 0 <= i < |items| && TrimLeadingSpace(items[i]) == "*";
        } else {
          var i :| 0 <= i < |items| && ToLower(items[i]) == ToLower(want);
        }
      }
    }
  }

  /** The caller's affiliation is the root, or the other one lies in its subtree. */
  predicate Reaches(u: User, affiliation: string) {
    u.affiliation == "" || InSubtree(u.affiliation, affiliation)
  }

  lemma {:induction false} ReachIsContained(u: User, affiliation: string)
    ensures Reaches(u, affiliation) <==> ContainsAffiliation(RegistrarOf(u), affiliation)
  {
  }

  /** A valid signature, a recorded certificate that is not revoked, and a current user. */
  predicate Known(db: DB, tok: Token) {
    tok.signatureOk && tok.key in db.certs && !db.certs[tok.key].revoked && tok.id in db.users
  }

  // Granting attributes

  /** Some entry of the pattern list is the name, or ends in a star and, without its stars, begins the name. */
  predicate Patterned(patterns: string, name: string) {
    var items := Split(Remove(patterns, ' '), ',');
    exists i :: 0 <= i < |items| && (items[i] == name || (items[i] != "" && items[i][|items[i]| - 1] == '*' &&
                                                          TrimRight(items[i], '*') <= name))
  }

  lemma {:induction false} PatternedIsCovered(patterns: string, name: string)
    ensures CanRegisterAttr(name, Slice(patterns)) ==> Patterned(patterns, name)
    ensures Patterned(patterns, name) ==> CanRegisterAttr(name, Slice(patterns))
  {
    var items := Slice(patterns);
    if CanRegisterAttr(name, items) {
      var i :| 0 <= i < |items| && Covers(items[i], name);
    }
    if Patterned(patterns, name) {
      var i :| 0 <= i < |items| && (items[i] == name || (items[i] != "" && items[i][|items[i]| - 1] == '*' &&
                                                         TrimRight(items[i], '*') <= name));
      assert Covers(items[i], name);
    }
  }

  /** The caller's own list of attribute patterns covers the name. */
  predicate MayName(u: User, name: string) {
    var v := Read(u.attributes, REGISTRAR_ATTR);
    v.Some? && v.value != "" && Patterned(v.value, name)
  }

  lemma {:induction false} GrantSplits(a: Attr, reqs: seq<Attr>, user: Owned, u: User)
    ensures CanRegisterAttribute(a, reqs, user, View(u.attributes)) <==>
            MayName(u, a.name) && RegistrarAuthorized(a, reqs, user, View(u.attributes))
  {
    ReadIsView(u.attributes, REGISTRAR_ATTR);
    if Read(u.attributes, REGISTRAR_ATTR).Some? {
      PatternedIsCovered(Read(u.attributes, REGISTRAR_ATTR).value, a.name);
    }
  }

  /** A boolean attribute is granted exactly by a registrar who has it as true and whose patterns cover it, with a
      boolean value or none. */
  lemma {:induction false} BooleanGrant(a: Attr, reqs: seq<Attr>, user: Owned, u: User)
    requires a.name in [REVOKER, INTERMEDIATE_CA, GEN_CRL, AFFILIATION_MGR]
    ensures CanRegisterAttribute(a, reqs, user, View(u.attributes)) <==>
            && MayName(u, a.name)
            && SaysYes(u, a.name)
            && a.value in ["", "1", "t", "T", "TRUE", "true", "True", "0", "f", "F", "FALSE", "false", "False"]
  {
    GrantSplits(a, reqs, user, u);
    ReadIsView(u.attributes, a.name);
  }

  lemma {:induction false} LowerSplit(s: string)
    ensures |Split(ToLower(s), ',')| == |Split(s, ',')|
    ensures forall i :: 0 <= i < |Split(s, ',')| ==> Split(ToLower(s), ',')[i] == ToLower(Split(s, ',')[i])
  {
    if s == "" {
      assert ToLower(s) == s;
    } else {
      var c, rest := s[0], s[1..];
      LowerSplit(rest);
      assert ToLower(s) == [LowerChar(c)] + ToLower(rest) && s == [c] + rest;
      SplitCons(LowerChar(c), ToLower(rest), ',');
      SplitCons(c, rest, ',');
      LowerConsed(c, Split(rest, ','), Split(ToLower(rest), ','));
    }
  }

  lemma {:induction false} LowerConsed(c: char, r: seq<string>, l: seq<string>)
    requires |l| == |r| > 0 && forall i :: 0 <= i < |r| ==> l[i] == ToLower(r[i])
    ensures LowerChar(c) == ',' <==> c == ','
    ensures ToLower([c] + r[0]) == [LowerChar(c)] + l[0] && ToLower("") == ""
    ensures forall i :: 0 <= i < |r| - 1 ==> l[1..][i] == ToLower(r[1..][i])
  {
  }

  /** One list is within another: the other has the wildcard, or in lower case every nonempty item of the one is an item
      of the other. */
  predicate Within(roles: string, bound: string) {
    || "*" in Split(bound, ',') || " *" in Split(bound, ',')
    || forall x :: x in Split(ToLower(roles), ',') ==> x == "" || x in Split(ToLower(bound), ',')
  }

  lemma {:induction false} WithinMeans(roles: string, bound: string)
    ensures Within(roles, bound) <==> WithinRoles(roles, bound)
  {
    var items, all := Split(roles, ','), Split(bound, ',');
    LowerSplit(roles);
    LowerSplit(bound);
    forall i | 0 <= i < |all| ensures TrimLeadingSpace(all[i]) == "*" <==> all[i] == "*" || all[i] == " *" {
      BlankStar(all[i]);
    }
    forall i | 0 <= i < |items| ensures StrContained(items[i], all) <==>
        ToLower(items[i]) in Split(ToLower(bound), ',') {
      if ToLower(items[i]) in Split(ToLower(bound), ',') {
        var j :| 0 <= j < |all| && Split(ToLower(bound), ',')[j] == ToLower(items[i]);
        assert ToLower(all[j]) == ToLower(items[i]);
      }
    }
    assert forall i :: 0 <= i < |items| ==> (ToLower(items[i]) == "" <==> items[i] == "");
    if Within(roles, bound) && !ListContains(bound, "*") {
      forall i | 0 <= i < |items| ensures items[i] == "" || StrContained(items[i], all) {
        assert Split(ToLower(roles), ',')[i] in Split(ToLower(roles), ',');
      }
    }
  }

  /** A role list is granted exactly by a registrar who has one that it is within and whose patterns cover the name; the
      delegate roles must moreover be within the requested roles, or the roles already owned. */
  lemma {:induction false} RoleGrant(a: Attr, reqs: seq<Attr>, user: Owned, u: User)
    requires a.name in [ROLES, DELEGATE_ROLES]
    ensures CanRegisterAttribute(a, reqs, user, View(u.attributes)) <==>
            && MayName(u, a.name)
            && Read(u.attributes, a.name).Some?
            && (a.value == "" || (Within(a.value, Read(u.attributes, a.name).value) &&
                                  (a.name == DELEGATE_ROLES ==> CheckDelegateRoles(reqs, user))))
  {
    GrantSplits(a, reqs, user, u);
    ReadIsView(u.attributes, a.name);
    if a.name in View(u.attributes) { WithinMeans(a.value, View(u.attributes)[a.name].value); }
  }

  /** A list of patterns is granted exactly by a registrar who may name the list itself and every entry of the new one;
      an entry of the reserved prefix must moreover be requested or owned. */
  lemma {:induction false} PatternGrant(a: Attr, reqs: seq<Attr>, user: Owned, u: User)
    requires a.name == REGISTRAR_ATTR
    ensures CanRegisterAttribute(a, reqs, user, View(u.attributes)) <==>
            && MayName(u, a.name)
            && (a.value == "" ||
                forall p :: p in Split(Remove(a.value, ' '), ',') ==>
                  MayName(u, p) && ("hf." <= p ==> (exists i :: 0 <= i < |reqs| && reqs[i].name == p) || Owns(user, p)))
  {
    GrantSplits(a, reqs, user, u);
    ReadIsView(u.attributes, REGISTRAR_ATTR);
    if MayName(u, a.name) {
      var own, asked := Read(u.attributes, REGISTRAR_ATTR).value, Slice(a.value);
      forall i | 0 <= i < |asked| ensures MayName(u, asked[i]) <==> CanRegisterAttr(asked[i], Slice(own)) {
        PatternedIsCovered(own, asked[i]);
      }
    }
  }

  /** Any other name: never a fixed one or an unknown one of the reserved prefix, a custom one whatever its value. */
  lemma {:induction false} OtherGrant(a: Attr, reqs: seq<Attr>, user: Owned, u: User)
    requires a.name !in [REVOKER, INTERMEDIATE_CA, GEN_CRL, AFFILIATION_MGR, ROLES, DELEGATE_ROLES, REGISTRAR_ATTR]
    ensures CanRegisterAttribute(a, reqs, user, View(u.attributes)) <==>
            && MayName(u, a.name)
            && !("hf." <= a.name)
  {
    GrantSplits(a, reqs, user, u);
    assert "hf." <= ENROLLMENT_ID && "hf." <= TYPE && "hf." <= AFFILIATION;
  }

  // Register

  function GivenAffiliation(boss: User, req: Request): string {
    if req.affiliation == "" then boss.affiliation else if req.affiliation == "." then "" else req.affiliation
  }

  function GivenType(boss: User, req: Request): string {
    if req.utype == "" then boss.utype else req.utype
  }

  /** A registration needs a known caller whose roles cover the type and whose subtree contains the affiliation, a
      listed affiliation, grants for all attributes, an admissible limit and a new name. */
  lemma {:induction false} RegisterNeeds(cfg: Config, db: DB, tok: Token, req: Request)
    ensures RegisterAllowed(cfg, db, tok, req) <==>
            && Known(db, tok)
            && var boss := db.users[tok.id];
            && HasRoleFor(boss, GivenType(boss, req)) && Reaches(boss, GivenAffiliation(boss, req))
            && (GivenAffiliation(boss, req) == "" || GivenAffiliation(boss, req) in db.affiliations)
            && (forall i :: 0 <= i < |req.attributes| ==>
                  CanRegisterAttribute(req.attributes[i], req.attributes, None, View(boss.attributes)))
            && req.maxEnrollments >= -1 && cfg.maxEnrollments != 0
            && (cfg.maxEnrollments == -1 || req.maxEnrollments == 0 || 0 < req.maxEnrollments <= cfg.maxEnrollments)
            && req.name !in db.users
  {
    if tok.id in db.users {
      var boss := db.users[tok.id];
      RoleIsType(boss, GivenType(boss, req));
      ReachIsContained(boss, GivenAffiliation(boss, req));
    }
  }

  /** It adds one row, field by field, and touches nothing else; the requested attributes read as requested. */
  lemma {:induction false} RegisteredRow(cfg: Config, db: DB, tok: Token, req: Request, generated: string, x: string)
    requires RegisterAllowed(cfg, db, tok, req)
    ensures var boss, db' := db.users[tok.id], RegisterEffect(cfg, db, tok, req, generated);
            && db'.affiliations == db.affiliations && db'.certs == db.certs
            && db'.users.Keys == db.users.Keys + {req.name}
            && (forall id :: id in db.users ==> db'.users[id] == db.users[id])
            && var row := db'.users[req.name];
            && row.pass == (if req.secret == "" then generated else req.secret)
            && row.utype == GivenType(boss, req) && row.affiliation == GivenAffiliation(boss, req) && row.state == 0
            && row.maxEnrollments == (if req.maxEnrollments == 0 then cfg.maxEnrollments else req.maxEnrollments)
            && row.level == cfg.identityLevel
            && (x !in [ENROLLMENT_ID, TYPE, AFFILIATION] ==> Read(row.attributes, x) == Read(req.attributes, x))
  {
    StoredReads(NormalizedRequest(db.users[tok.id], req), x);
  }

  lemma {:induction false} StoredReads(q: Request, x: string)
    ensures x !in [ENROLLMENT_ID, TYPE, AFFILIATION] ==> Read(StoredAttributes(q), x) == Read(q.attributes, x)
  {
    var fixed := StoredAttributes(q)[|q.attributes|..];
    assert StoredAttributes(q) == q.attributes + fixed;
    ReadAppend(q.attributes, fixed, x);
    if x !in [ENROLLMENT_ID, TYPE, AFFILIATION] { NoneExtra(fixed, [ENROLLMENT_ID, TYPE, AFFILIATION], x); }
  }

  // Modify

  /** A modification needs a known caller with authority over the old type and affiliation and over any new ones. */
  lemma {:induction false} ModifyNeeds(db: DB, tok: Token, id: string, req: ModifyRequest)
    ensures ModifyAllowed(db, tok, id, req) <==>
            && Known(db, tok) && id != "" && id in db.users
            && var boss, u := db.users[tok.id], db.users[id];
            && HasRoleFor(boss, u.utype) && Reaches(boss, u.affiliation)
            && (req.affiliation in ["", "."] || req.affiliation in db.affiliations)
            && (req.affiliation == "" || Reaches(boss, req.affiliation))
            && (req.utype == "" || HasRoleFor(boss, req.utype))
            && (forall i :: 0 <= i < |req.attributes| ==>
                  var own := Some(View(u.attributes));
                  CanRegisterAttribute(req.attributes[i], req.attributes, own, View(boss.attributes)))
  {
    if tok.id in db.users && id in db.users {
      var boss := db.users[tok.id];
      RoleIsType(boss, db.users[id].utype);
      RoleIsType(boss, req.utype);
    }
  }

  /** Column by column: what the request leaves empty stays, -2 stands for the limit 0 and a dot for the root
      affiliation; the state stays, and with it a revocation. */
  lemma {:induction false} ModifiedRow(u: User, req: ModifyRequest)
    ensures var m := Modified(u, req);
            && m.state == u.state && m.level == u.level
            && (req.secret == "" ==> m.pass == u.pass) && (req.secret != "" ==> m.pass == req.secret)
            && (req.utype == "" ==> m.utype == u.utype) && (req.utype != "" ==> m.utype == req.utype)
            && (req.affiliation == "" ==> m.affiliation == u.affiliation)
            && (req.affiliation == "." ==> m.affiliation == "")
            && (req.affiliation !in ["", "."] ==> m.affiliation == req.affiliation)
            && (req.maxEnrollments == 0 ==> m.maxEnrollments == u.maxEnrollments)
            && (req.maxEnrollments == -2 ==> m.maxEnrollments == 0)
            && (req.maxEnrollments !in {0, -2} ==> m.maxEnrollments == req.maxEnrollments)
  {
  }

  /** And an attribute listed at most once reads as the last request for it says, or as before if there is none. */
  lemma {:induction false} ModifiedAttribute(u: User, req: ModifyRequest, x: string)
    requires Occurrences(u.attributes, x) <= 1 && x !in [TYPE, AFFILIATION]
    ensures var before, asked := Read(u.attributes, x), Read(req.attributes, x);
            var after := Read(Modified(u, req).attributes, x);
            && (asked.None? ==> ValueOf(after) == ValueOf(before))
            && (asked.Some? ==> ValueOf(after) == asked.value)
  {
    var changes := AttributeChanges(req);
    var extra := changes[|req.attributes|..];
    assert changes == req.attributes + extra;
    NoneExtra(extra, [TYPE, AFFILIATION], x);
    ReadAppend(req.attributes, extra, x);
    PutAllOneName(u.attributes, changes, x);
    ReadIsView(u.attributes, x);
    ReadIsView(changes, x);
    ReadIsView(PutAll(u.attributes, changes), x);
    InViewIffOccurs(changes, x);
  }

  function ValueOf(v: Option<string>): string { if v.Some? then v.value else "" }

  lemma {:induction false} NoneExtra(extra: seq<Attr>, names: seq<string>, x: string)
    requires x !in names && forall i :: 0 <= i < |extra| ==> extra[i].name in names
    ensures Read(extra, x).None?
  {
    if extra != [] { NoneExtra(extra[..|extra| - 1], names, x); }
  }

  // Remove

  /** Removing an identity needs removal enabled, a known caller with authority over its type and affiliation, and force
      if it is the caller. */
  lemma {:induction false} RemoveNeeds(cfg: Config, db: DB, tok: Token, id: string, force: bool)
    ensures RemoveAllowed(cfg, db, tok, id, force) <==>
            && cfg.allowRemoveIdentity && Known(db, tok) && id != "" && id in db.users && (id == tok.id ==> force)
            && HasRoleFor(db.users[tok.id], db.users[id].utype) && Reaches(db.users[tok.id], db.users[id].affiliation)
  {
    if tok.id in db.users && id in db.users { RoleIsType(db.users[tok.id], db.users[id].utype); }
  }

  /** The row goes, its unrevoked certificates are revoked for reason 5, and every other row stays. */
  lemma {:induction false} RemovedRows(db: DB, id: string, now: int, other: string, k: CertKey)
    requires k in db.certs
    ensures var db' := RemoveEffect(db, id, now);
            && id !in db'.users && db'.affiliations == db.affiliations && db'.certs.Keys == db.certs.Keys
            && (other in db.users && other != id ==> other in db'.users && db'.users[other] == db.users[other])
            && db'.users.Keys <= db.users.Keys
            && (if db.certs[k].id == id && !db.certs[k].revoked then RevocationOf(db.certs[k], db'.certs[k], 5, now)
                else db'.certs[k] == db.certs[k])
  {
  }

  // Add, rename and remove an affiliation

  lemma {:induction false} AddNeeds(db: DB, tok: Token, name: string)
    ensures AddAllowed(db, tok, name) <==>
            && Known(db, tok) && SaysYes(db.users[tok.id], AFFILIATION_MGR)
            && Reaches(db.users[tok.id], name) && name !in db.affiliations
  {
    if tok.id in db.users { YesIsTrue(db.users[tok.id], AFFILIATION_MGR); }
  }

  /** The first `k` prefixes of a path are listed, and nothing else is new; rows that were there stay. */
  lemma {:induction false} AddedPrefixes(affs: map<string, Affiliation>, parts: seq<string>, level: int, k: nat,
                                         n: string)
    requires k <= |parts|
    ensures n in AddPrefixes(affs, parts, level, k) <==>
              n in affs || exists i :: 0 < i <= k && n == Join(parts[..i], '.')
    ensures var affs' := AddPrefixes(affs, parts, level, k);
            (n in affs ==> affs'[n] == affs[n]) && (n in affs' && n !in affs ==> affs'[n].level == level)
  {
    if k > 0 { AddedPrefixes(affs, parts, level, k - 1, n); }
  }

  /** A manager is a known caller with the attribute and a role list, even an empty one. */
  lemma {:induction false} ManageNeeds(db: DB, tok: Token)
    ensures MayManageAffiliations(db, tok) <==>
            && Known(db, tok) && SaysYes(db.users[tok.id], AFFILIATION_MGR)
            && Read(db.users[tok.id].attributes, ROLES).Some?
  {
    if tok.id in db.users {
      YesIsTrue(db.users[tok.id], AFFILIATION_MGR);
      ReadIsView(db.users[tok.id].attributes, ROLES);
    }
  }

  /** A registrar has a role list that is not empty. */
  predicate Registers(u: User) {
    var v := Read(u.attributes, ROLES);
    v.Some? && v.value != ""
  }

  /** A rename needs a manager whose subtree contains both names, a listed old name, an unlisted new one, and, if a user
      with a listed affiliation is in the subtree, a registrar and force. */
  lemma {:induction false} RenameRequires(db: DB, tok: Token, old': string, new': string, force: bool)
    ensures RenameAllowed(db, tok, old', new', force) <==>
            && MayManageAffiliations(db, tok)
            && Reaches(db.users[tok.id], old') && Reaches(db.users[tok.id], new')
            && old' in db.affiliations && new' !in db.affiliations
            && forall id | id in db.users && db.users[id].affiliation in db.affiliations ::
                 InSubtree(old', db.users[id].affiliation) ==> force && Registers(db.users[tok.id])
  {
    if tok.id in db.users {
      ReadIsView(db.users[tok.id].attributes, ROLES);
      RenameNeeds(db, old', new', force, IsRegistrar(RegistrarOf(db.users[tok.id])));
    }
  }

  /** A removal needs removal enabled, a manager whose subtree contains the name strictly, a listed name, force if there
      are rows below, and, if there are users in the subtree, a registrar, identity removal enabled and force. */
  lemma {:induction false} RemovalRequires(cfg: Config, db: DB, tok: Token, name: string, force: bool)
    ensures RemoveAffiliationAllowed(cfg, db, tok, name, force) <==>
            && cfg.allowRemoveAffiliation && MayManageAffiliations(db, tok)
            && Reaches(db.users[tok.id], name) && db.users[tok.id].affiliation != name && name in db.affiliations
            && (forall id :: id in db.users && InSubtree(name, db.users[id].affiliation) ==>
                  Registers(db.users[tok.id]) && cfg.allowRemoveIdentity && force)
            && (forall n :: n in db.affiliations && InSubtree(name, n) && n != name ==> force)
  {
    if tok.id in db.users {
      ReadIsView(db.users[tok.id].attributes, ROLES);
      RemovalNeeds(db, name, force, cfg.allowRemoveIdentity, IsRegistrar(RegistrarOf(db.users[tok.id])));
    }
  }

  // Enroll and reenroll

  /** Both names in the request are the identity's own, and a CA certificate needs the attribute. */
  predicate SignsFor(u: User, id: string, csr: Csr) {
    && csr.wellFormed && csr.commonName == id && (csr.subjectName == None || csr.subjectName == Some(id))
    && (csr.forCA ==> SaysYes(u, INTERMEDIATE_CA))
  }

  /** An enrollment needs the password of a live identity below both limits, -1 being none, and a request in its
      name. */
  lemma {:induction false} EnrollNeeds(cfg: Config, db: DB, id: string, pass: string, csr: Csr)
    ensures EnrollAllowed(cfg, db, id, pass, csr) <==>
            && id in db.users && SignsFor(db.users[id], id, csr) && csr.key !in db.certs
            && var u := db.users[id];
            && pass == u.pass && u.state != -1 && u.maxEnrollments != 0 && cfg.maxEnrollments != 0
            && (u.maxEnrollments != -1 ==> u.state < u.maxEnrollments)
            && (cfg.maxEnrollments != -1 ==> u.state < cfg.maxEnrollments)
  {
    if id in db.users { YesIsTrue(db.users[id], INTERMEDIATE_CA); }
  }

  lemma {:induction false} ReenrollNeeds(db: DB, tok: Token, csr: Csr)
    ensures ReenrollAllowed(db, tok, csr) <==>
            Known(db, tok) && SignsFor(db.users[tok.id], tok.id, csr) && csr.key !in db.certs
  {
    if tok.id in db.users { YesIsTrue(db.users[tok.id], INTERMEDIATE_CA); }
  }

  /** A signed certificate is recorded in good standing for the identity with its expiry; a counted success adds one to
      its state, and no other row or column changes. */
  lemma {:induction false} SignedRows(db: DB, id: string, csr: Csr, counted: bool, db': DB, other: string, k: CertKey)
    requires SignStep(db, id, csr, NoFault, true, counted, db', true) && id in db.users && csr.key !in db.certs
    ensures db'.affiliations == db.affiliations && db'.users.Keys == db.users.Keys
    ensures db'.certs.Keys == db.certs.Keys + {csr.key} && (k in db.certs ==> db'.certs[k] == db.certs[k])
    ensures var c := db'.certs[csr.key]; c.id == id && !c.revoked && c.expiry == csr.expiry && c.revokedAt == 0
    ensures db'.users[id] == db.users[id].(state := db.users[id].state + if counted then 1 else 0)
    ensures other in db.users && other != id ==> db'.users[other] == db.users[other]
  {
  }

  // Revoke

  /** A revocation needs a known caller with the attribute. With serial and key identifier it needs an unrevoked
      certificate of the named owner, if one is named, who is a current user; otherwise a current user by name. The
      caller needs authority over that user's type and affiliation, unless it is its own certificate or itself. */
  lemma {:induction false} RevokeNeeds(db: DB, tok: Token, req: Revocation)
    ensures RevokeAllowed(db, tok, req) <==>
            && Known(db, tok) && SaysYes(db.users[tok.id], REVOKER)
            && if req.key.serial != "" && req.key.aki != "" then
                 && req.key in db.certs && !db.certs[req.key].revoked && db.certs[req.key].id in db.users
                 && (req.name != "" ==> req.name == db.certs[req.key].id)
                 && (req.key == tok.key || Masters(db.users[tok.id], db.users[db.certs[req.key].id]))
               else
                 && req.name != "" && req.name in db.users
                 && (req.name == tok.id || Masters(db.users[tok.id], db.users[req.name]))
  {
    if tok.id in db.users {
      var boss := db.users[tok.id];
      YesIsTrue(boss, REVOKER);
      if req.key in db.certs && db.certs[req.key].id in db.users {
        MastersManages(boss, db.users[db.certs[req.key].id]);
      }
      if req.name in db.users { MastersManages(boss, db.users[req.name]); }
    }
  }

  /** Authority over the type and the affiliation of a user. */
  predicate Masters(boss: User, u: User) {
    HasRoleFor(boss, u.utype) && Reaches(boss, u.affiliation)
  }

  lemma {:induction false} MastersManages(boss: User, u: User)
    ensures Masters(boss, u) <==> CanManage(RegistrarOf(boss), u.affiliation, u.utype)
  {
    RoleIsType(boss, u.utype);
  }

  /** The certificates a revocation names: one by its key, or all of an identity. */
  predicate Named(req: Revocation, k: CertKey, c: Cert) {
    if req.key.serial != "" && req.key.aki != "" then k == req.key else c.id == req.name
  }

  /** Exactly the unrevoked ones among them become revoked, with that reason and time; by name the user is disabled; no
      other row or column changes. */
  lemma {:induction false} RevokedRows(db: DB, tok: Token, req: Revocation, now: int, k: CertKey, id: string)
    requires RevokeAllowed(db, tok, req) && k in db.certs && id in db.users
    ensures var db' := RevokeEffect(db, req, now);
            && db'.affiliations == db.affiliations && db'.certs.Keys == db.certs.Keys && db'.users.Keys == db.users.Keys
            && (if Named(req, k, db.certs[k]) && !db.certs[k].revoked
                then RevocationOf(db.certs[k], db'.certs[k], req.reason, now) else db'.certs[k] == db.certs[k])
            && (k in NewlyRevoked(db.certs, db'.certs) <==> Named(req, k, db.certs[k]) && !db.certs[k].revoked)
            && db'.users[id] == (if !ByCertificate(req) && id == req.name then db.users[id].(state := -1)
                                 else db.users[id])
  {
  }
}
