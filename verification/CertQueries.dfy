/** Certificate queries: where-clauses with placeholders, the rows they select, and the revocation list. */
module CertQueries {
  import opened Options
  import opened Strings
  import opened Paths
  import opened Tables
  import opened Delegation
  import opened Serials

  const ZERO_TIME := 0

  /** A row of the certificates table, with the affiliation of its owner if that is a current user. */
  datatype Row = Row(key: CertKey, cert: Cert)

  /** The arguments bound to the placeholders, in order. */
  datatype Arg = Text(s: string) | Time(t: int)

  /** The conditions the builders append; `AffiliationIn` has two placeholders, the others one, `IsRevoked` none. */
  datatype Cond =
    | AffiliationIn | IdIs | SerialIs | AkiIs
    | ExpiryAtLeast | ExpiryAtMost | ExpiryAfter | ExpiryBefore
    | RevokedIs | RevokedAtLeast | RevokedAtMost | RevokedAfter | RevokedBefore
    | IsRevoked

  function Placeholders(c: Cond): nat {
    match c
    case AffiliationIn => 2
    case IsRevoked => 0
    case _ => 1
  }

  function PlaceholdersOf(cs: seq<Cond>): nat {
    if cs == [] then 0 else PlaceholdersOf(cs[..|cs| - 1]) + Placeholders(cs[|cs| - 1])
  }

  /** Does a bound condition hold of a row? A binding of the wrong number or type selects nothing. */
  predicate Holds(c: Cond, args: seq<Arg>, row: Row, users: map<string, User>) {
    |args| == Placeholders(c) &&
    match c
    case AffiliationIn =>
      args[0].Text? && args[1].Text? && row.cert.id in users &&
      (var a := users[row.cert.id].affiliation; a == args[0].s || args[1].s <= a)
    case IdIs => args[0].Text? && row.cert.id == args[0].s
    case SerialIs => args[0].Text? && row.key.serial == args[0].s
    case AkiIs => args[0].Text? && row.key.aki == args[0].s
    case ExpiryAtLeast => args[0].Time? && row.cert.expiry >= args[0].t
    case ExpiryAtMost => args[0].Time? && row.cert.expiry <= args[0].t
    case ExpiryAfter => args[0].Time? && row.cert.expiry > args[0].t
    case ExpiryBefore => args[0].Time? && row.cert.expiry < args[0].t
    case RevokedIs => args[0].Time? && row.cert.revokedAt == args[0].t
    case RevokedAtLeast => args[0].Time? && row.cert.revokedAt >= args[0].t
    case RevokedAtMost => args[0].Time? && row.cert.revokedAt <= args[0].t
    case RevokedAfter => args[0].Time? && row.cert.revokedAt > args[0].t
    case RevokedBefore => args[0].Time? && row.cert.revokedAt < args[0].t
    case IsRevoked => row.cert.revoked
  }

  /** The conjunction, each condition taking its arguments from the list in turn; a mismatch in number selects
      nothing. */
  predicate Selects(cs: seq<Cond>, args: seq<Arg>, row: Row, users: map<string, User>) {
    if cs == [] then args == []
    else
      var n := Placeholders(cs[|cs| - 1]);
      n <= |args| &&
      Holds(cs[|cs| - 1], args[|args| - n..], row, users) &&
      Selects(cs[..|cs| - 1], args[..|args| - n], row, users)
  }

  /** A clause as it is built: conditions with their arguments, appended one by one. */
  datatype Clause = Empty | And(rest: Clause, cond: Cond, bound: seq<Arg>)

  ghost predicate Bound(cl: Clause) {
    cl.And? ==> Bound(cl.rest) && |cl.bound| == Placeholders(cl.cond)
  }

  function Conds(cl: Clause): seq<Cond> {
    if cl.Empty? then [] else Conds(cl.rest) + [cl.cond]
  }

  function Args(cl: Clause): seq<Arg> {
    if cl.Empty? then [] else Args(cl.rest) + cl.bound
  }

  ghost predicate AllHold(cl: Clause, row: Row, users: map<string, User>) {
    cl.And? ==> AllHold(cl.rest, row, users) && Holds(cl.cond, cl.bound, row, users)
  }

  /** Appended in step, placeholders and arguments line up one to one, and the clause is the conjunction of its
      pieces. */
  lemma {:induction false} ClauseMeans(cl: Clause, row: Row, users: map<string, User>)
    requires Bound(cl)
    ensures PlaceholdersOf(Conds(cl)) == |Args(cl)|
    ensures Selects(Conds(cl), Args(cl), row, users) <==> AllHold(cl, row, users)
  {
    if cl.And? {
      ClauseMeans(cl.rest, row, users);
      var cs, args := Conds(cl), Args(cl);
      assert cs[..|cs| - 1] == Conds(cl.rest);
      assert args[|args| - |cl.bound|..] == cl.bound && args[..|args| - |cl.bound|] == Args(cl.rest);
    }
  }

  /** A certificate request. */
  datatype CertRequest = CertRequest(id: string, serial: string, aki: string, notExpired: bool, notRevoked: bool,
                                     expiredStart: Option<int>, expiredEnd: Option<int>,
                                     revokedStart: Option<int>, revokedEnd: Option<int>)

  /** `validateReq`: a "not" filter excludes the time filters of its kind. */
  predicate Accepted(req: CertRequest) {
    && (req.notExpired ==> req.expiredStart.None? && req.expiredEnd.None?)
    && (req.notRevoked ==> req.revokedStart.None? && req.revokedEnd.None?)
  }

  /** The direct meaning of an accepted request, with the serial and key identifier in stored form: every given
      filter holds. A revocation window always leaves out
      certificates that were never revoked. */
  predicate Matches(req: CertRequest, serial: string, aki: string, now: int, c: Cert, key: CertKey) {
    MatchesIdentity(req, serial, aki, c, key) && MatchesExpiry(req, now, c) && MatchesRevocation(req, c)
  }

  predicate MatchesExpiry(req: CertRequest, now: int, c: Cert) {
    && (req.notExpired ==> c.expiry >= now)
    && (req.expiredStart.Some? ==> c.expiry >= req.expiredStart.value)
    && (req.expiredEnd.Some? ==> c.expiry <= req.expiredEnd.value)
    && (req.expiredStart.None? && req.expiredEnd.Some? ==> c.expiry >= ZERO_TIME)
  }

  predicate MatchesRevocation(req: CertRequest, c: Cert) {
    && (req.notRevoked ==> c.revokedAt == ZERO_TIME)
    && (req.revokedStart.Some? ==> c.revokedAt >= req.revokedStart.value)
    && (req.revokedEnd.Some? ==> c.revokedAt <= req.revokedEnd.value)
    && (req.revokedStart.None? && req.revokedEnd.Some? ==> c.revokedAt > ZERO_TIME)
  }

  /** What a caller may see: with the root affiliation everything, otherwise the certificates whose owner is a current
      user of an affiliation the caller contains. */
  predicate Visible(caller: Registrar, cert: Cert, users: map<string, User>) {
    caller.affiliation == "" ||
    (cert.id in users && ContainsAffiliation(caller, users[cert.id].affiliation))
  }

  function When(cl: Clause, b: bool, c: Cond, args: seq<Arg>): Clause {
    if b then And(cl, c, args) else cl
  }

  /** The pieces of a request's query, in groups, each appended to what is there. */
  function AffiliationPiece(ps: Clause, affiliation: string): Clause {
    When(ps, affiliation != "", AffiliationIn, [Text(affiliation), Text(affiliation + ".")])
  }

  function IdentityPieces(ps: Clause, req: CertRequest, serial: string, aki: string): Clause {
    var ps1 := When(ps, req.id != "", IdIs, [Text(req.id)]);
    var ps2 := When(ps1, req.serial != "", SerialIs, [Text(serial)]);
    When(ps2, req.aki != "", AkiIs, [Text(aki)])
  }

  function ExpiryPieces(ps: Clause, req: CertRequest, now: int): Clause {
    if req.notExpired then When(ps, true, ExpiryAtLeast, [Time(now)])
    else
      var given := req.expiredStart.Some? || req.expiredEnd.Some?;
      var ps1 := When(ps, given, ExpiryAtLeast, [Time(GetOr(req.expiredStart, ZERO_TIME))]);
      When(ps1, req.expiredEnd.Some?, ExpiryAtMost, [Time(GetOr(req.expiredEnd, ZERO_TIME))])
  }

  function RevocationPieces(ps: Clause, req: CertRequest): Clause {
    if req.notRevoked then When(ps, true, RevokedIs, [Time(ZERO_TIME)])
    else
      var ps1 := When(ps, req.revokedStart.Some?, RevokedAtLeast, [Time(GetOr(req.revokedStart, ZERO_TIME))]);
      var ps2 := When(ps1, req.revokedStart.None? && req.revokedEnd.Some?, RevokedAfter, [Time(ZERO_TIME)]);
      When(ps2, req.revokedEnd.Some?, RevokedAtMost, [Time(GetOr(req.revokedEnd, ZERO_TIME))])
  }

  function Pieces(req: CertRequest, serial: string, aki: string, affiliation: string, now: int): Clause {
    var identity := IdentityPieces(AffiliationPiece(Empty, affiliation), req, serial, aki);
    RevocationPieces(ExpiryPieces(identity, req, now), req)
  }

  function GetOr(t: Option<int>, default: int): int { if t.Some? then t.value else default }

  /** The clause and its arguments under construction. */
  datatype Query = Query(conds: seq<Cond>, args: seq<Arg>)

  ghost predicate Renders(q: Query, ps: Clause) {
    q.conds == Conds(ps) && q.args == Args(ps)
  }

  /** `whereConds = append(whereConds, ...); args = append(args, ...)`. */
  method Append(q: Query, c: Cond, more: seq<Arg>, ghost ps: Clause) returns (q': Query)
    requires Renders(q, ps)
    ensures Renders(q', And(ps, c, more))
  {
    q' := Query(q.conds + [c], q.args + more);
  }

  /** `GetCertificates`: the two lists are grown branch by branch. */
  method BuildQuery(req: CertRequest, serial: string, aki: string, callersAffiliation: string,
                    now: int) returns (q: Query)
    ensures Renders(q, Pieces(req, serial, aki, callersAffiliation, now))
  {
    q := Query([], []);
    if callersAffiliation != "" {
      q := Append(q, AffiliationIn, [Text(callersAffiliation), Text(callersAffiliation + ".")], Empty);
    }
    ghost var ps := AffiliationPiece(Empty, callersAffiliation);
    q := AppendIdentity(q, req, serial, aki, ps);
    ps := IdentityPieces(ps, req, serial, aki);
    q := AppendExpiry(q, req, now, ps);
    ps := ExpiryPieces(ps, req, now);
    q := AppendRevocation(q, req, ps);
  }

  method AppendIdentity(q0: Query, req: CertRequest, serial: string, aki: string, ghost ps: Clause) returns (q: Query)
    requires Renders(q0, ps)
    ensures Renders(q, IdentityPieces(ps, req, serial, aki))
  {
    q := q0;
    if req.id != "" {
      q := Append(q, IdIs, [Text(req.id)], ps);
    }
    ghost var ps1 := When(ps, req.id != "", IdIs, [Text(req.id)]);
    if req.serial != "" {
      q := Append(q, SerialIs, [Text(serial)], ps1);
    }
    ghost var ps2 := When(ps1, req.serial != "", SerialIs, [Text(serial)]);
    if req.aki != "" {
      q := Append(q, AkiIs, [Text(aki)], ps2);
    }
  }

  method AppendExpiry(q0: Query, req: CertRequest, now: int, ghost ps: Clause) returns (q: Query)
    requires Renders(q0, ps)
    ensures Renders(q, ExpiryPieces(ps, req, now))
  {
    q := q0;
    if req.notExpired {
      q := Append(q, ExpiryAtLeast, [Time(now)], ps);
    } else if req.expiredStart.Some? || req.expiredEnd.Some? {
      var start := if req.expiredStart.Some? then req.expiredStart.value else ZERO_TIME;
      q := Append(q, ExpiryAtLeast, [Time(start)], ps);
      if req.expiredEnd.Some? {
        q := Append(q, ExpiryAtMost, [Time(req.expiredEnd.value)], And(ps, ExpiryAtLeast, [Time(start)]));
      }
    }
  }

  method AppendRevocation(q0: Query, req: CertRequest, ghost ps: Clause) returns (q: Query)
    requires Renders(q0, ps)
    ensures Renders(q, RevocationPieces(ps, req))
  {
    q := q0;
    if req.notRevoked {
      q := Append(q, RevokedIs, [Time(ZERO_TIME)], ps);
    } else if req.revokedStart.Some? || req.revokedEnd.Some? {
      ghost var ps1;
      if req.revokedStart.Some? {
        q := Append(q, RevokedAtLeast, [Time(req.revokedStart.value)], ps);
        ps1 := And(ps, RevokedAtLeast, [Time(req.revokedStart.value)]);
      } else {
        q := Append(q, RevokedAfter, [Time(ZERO_TIME)], ps);
        ps1 := And(ps, RevokedAfter, [Time(ZERO_TIME)]);
      }
      if req.revokedEnd.Some? {
        q := Append(q, RevokedAtMost, [Time(req.revokedEnd.value)], ps1);
      }
    }
  }

  /** The affiliation condition is what the caller may see. */
  lemma {:induction false} AffiliationMeans(caller: Registrar, row: Row, users: map<string, User>)
    ensures Bound(AffiliationPiece(Empty, caller.affiliation))
    ensures AllHold(AffiliationPiece(Empty, caller.affiliation), row, users) <==> Visible(caller, row.cert, users)
  {
  }

  predicate MatchesIdentity(req: CertRequest, serial: string, aki: string, c: Cert, key: CertKey) {
    && (req.id != "" ==> c.id == req.id)
    && (req.serial != "" ==> key.serial == serial)
    && (req.aki != "" ==> key.aki == aki)
  }

  lemma {:induction false} IdentityMeans(ps: Clause, req: CertRequest, serial: string, aki: string, row: Row,
                                         users: map<string, User>)
    requires Bound(ps)
    ensures Bound(IdentityPieces(ps, req, serial, aki))
    ensures AllHold(IdentityPieces(ps, req, serial, aki), row, users) <==>
            AllHold(ps, row, users) && MatchesIdentity(req, serial, aki, row.cert, row.key)
  {
    var ps1 := When(ps, req.id != "", IdIs, [Text(req.id)]);
    assert Bound(ps1) &&
        (AllHold(ps1, row, users) <==> AllHold(ps, row, users) && (req.id != "" ==> row.cert.id == req.id));
    var ps2 := When(ps1, req.serial != "", SerialIs, [Text(serial)]);
    assert Bound(ps2) &&
        (AllHold(ps2, row, users) <==> AllHold(ps1, row, users) && (req.serial != "" ==> row.key.serial == serial));
  }

  lemma {:induction false} ExpiryMeans(ps: Clause, req: CertRequest, now: int, row: Row, users: map<string, User>)
    requires Bound(ps) && Accepted(req)
    ensures Bound(ExpiryPieces(ps, req, now))
    ensures AllHold(ExpiryPieces(ps, req, now), row, users) <==>
              AllHold(ps, row, users) && MatchesExpiry(req, now, row.cert)
  {
  }

  lemma {:induction false} RevocationMeans(ps: Clause, req: CertRequest, row: Row, users: map<string, User>)
    requires Bound(ps) && Accepted(req)
    ensures Bound(RevocationPieces(ps, req))
    ensures AllHold(RevocationPieces(ps, req), row, users) <==>
              AllHold(ps, row, users) && MatchesRevocation(req, row.cert)
  {
  }

  /** An accepted query selects exactly the certificates that match the request and that the caller may see, and its
      placeholders and arguments line up. */
  lemma {:induction false} QueryIsExact(q: Query, req: CertRequest, serial: string, aki: string, caller: Registrar,
                                        now: int,
                                        row: Row, users: map<string, User>)
    requires Accepted(req) && Renders(q, Pieces(req, serial, aki, caller.affiliation, now))
    ensures PlaceholdersOf(q.conds) == |q.args|
    ensures Selects(q.conds, q.args, row, users) <==>
            Matches(req, serial, aki, now, row.cert, row.key) && Visible(caller, row.cert, users)
  {
    var a := AffiliationPiece(Empty, caller.affiliation);
    var i := IdentityPieces(a, req, serial, aki);
    var e := ExpiryPieces(i, req, now);
    AffiliationMeans(caller, row, users);
    IdentityMeans(a, req, serial, aki, row, users);
    ExpiryMeans(i, req, now, row, users);
    RevocationMeans(e, req, row, users);
    ClauseMeans(RevocationPieces(e, req), row, users);
  }

  function SelectedRows(rows: seq<Row>, req: CertRequest, serial: string, aki: string, caller: Registrar, now: int,
                        users: map<string, User>): seq<Row>
  {
    if rows == [] then []
    else SelectedRows(rows[..|rows| - 1], req, serial, aki, caller, now, users) +
         (var r := rows[|rows| - 1];
          if Wanted(req, serial, aki, caller, now, users, r) then [r] else [])
  }

  /** A row the caller asked for and may see. */
  predicate Wanted(req: CertRequest, serial: string, aki: string, caller: Registrar, now: int, users: map<string, User>,
                   row: Row)
  {
    Matches(req, serial, aki, now, row.cert, row.key) && Visible(caller, row.cert, users)
  }

  /** Filter by filter, and the caller's view: without affiliation everything, otherwise the certificates of current
      users of the caller's subtree. */
  lemma {:induction false} WantedMeans(req: CertRequest, serial: string, aki: string, caller: Registrar, now: int,
                                       users: map<string, User>, row: Row)
    requires Accepted(req)
    ensures Wanted(req, serial, aki, caller, now, users, row) <==>
            && (req.id == "" || row.cert.id == req.id)
            && (req.serial == "" || row.key.serial == serial)
            && (req.aki == "" || row.key.aki == aki)
            && (!req.notExpired || now <= row.cert.expiry)
            && (match req.expiredStart case Some(t) => t <= row.cert.expiry
                                       case None => req.expiredEnd.None? || 0 <= row.cert.expiry)
            && (match req.expiredEnd case Some(t) => row.cert.expiry <= t case None => true)
            && (!req.notRevoked || row.cert.revokedAt == 0)
            && (match req.revokedStart case Some(t) => t <= row.cert.revokedAt
                                       case None => req.revokedEnd.None? || 0 < row.cert.revokedAt)
            && (match req.revokedEnd case Some(t) => row.cert.revokedAt <= t case None => true)
            && (caller.affiliation == "" ||
                (row.cert.id in users && InSubtree(caller.affiliation, users[row.cert.id].affiliation)))
  {
  }

  /** The selection keeps order and multiplicity: it is the rows at the ascending positions `picked`, and these are
      exactly the positions of wanted rows. */
  ghost predicate Picked(rows: seq<Row>, selected: seq<Row>, picked: seq<int>) {
    && |picked| == |selected|
    && (forall i, j :: 0 <= i < j < |picked| ==> picked[i] < picked[j])
    && (forall i :: 0 <= i < |picked| ==> 0 <= picked[i] < |rows| && selected[i] == rows[picked[i]])
  }

  lemma {:induction false} SelectedInOrder(rows: seq<Row>, req: CertRequest, serial: string, aki: string,
                                           caller: Registrar, now: int, users: map<string, User>)
    returns (picked: seq<int>)
    ensures Picked(rows, SelectedRows(rows, req, serial, aki, caller, now, users), picked)
    ensures forall k :: k in picked <==> 0 <= k < |rows| && Wanted(req, serial, aki, caller, now, users, rows[k])
  {
    picked := [];
    if rows != [] {
      var init, last := rows[..|rows| - 1], |rows| - 1;
      picked := SelectedInOrder(init, req, serial, aki, caller, now, users);
      assert forall k :: 0 <= k < last ==> init[k] == rows[k];
      assert forall i :: 0 <= i < |picked| ==> picked[i] in picked;
      if Wanted(req, serial, aki, caller, now, users, rows[last]) { picked := picked + [last]; }
    }
  }

  /** A certificate listing: a request with conflicting filters is refused, otherwise the answer is exactly the wanted
      rows, in order, for the serial and the key identifier in stored form. */
  method GetCertificates(rows: seq<Row>, req: CertRequest, caller: Registrar, now: int, users: map<string, User>)
    returns (r: Result<seq<Row>>, ghost picked: seq<int>)
    ensures r.Ok? <==> (req.notExpired ==> req.expiredStart.None? && req.expiredEnd.None?) &&
                       (req.notRevoked ==> req.revokedStart.None? && req.revokedEnd.None?)
    ensures r.Ok? ==> Picked(rows, r.value, picked)
    ensures r.Ok? ==> forall k :: k in picked <==>
              0 <= k < |rows| && Wanted(req, Normalized(req.serial), Normalized(req.aki), caller, now, users, rows[k])
    ensures r.Ok? ==> forall row :: row in r.value <==>
              row in rows && Wanted(req, Normalized(req.serial), Normalized(req.aki), caller, now, users, row)
  {
    picked := [];
    if !Accepted(req) {
      r := Err(BadRequest);
      return;
    }
    var serial, aki := TrimLeft(ToLower(req.serial), '0'), TrimLeft(ToLower(req.aki), '0');
    var selected := RunQuery(rows, req, serial, aki, caller, now, users);
    picked := SelectedInOrder(rows, req, serial, aki, caller, now, users);
    PickedMembers(rows, selected, picked, req, serial, aki, caller, now, users);
    r := Ok(selected);
  }

  lemma {:induction false} PickedMembers(rows: seq<Row>, selected: seq<Row>, picked: seq<int>, req: CertRequest,
                                         serial: string, aki: string, caller: Registrar, now: int,
                                         users: map<string, User>)
    requires Picked(rows, selected, picked)
    requires forall k :: k in picked <==> 0 <= k < |rows| && Wanted(req, serial, aki, caller, now, users, rows[k])
    ensures forall row :: row in selected <==> row in rows && Wanted(req, serial, aki, caller, now, users, row)
  {
    forall row ensures row in selected <==> row in rows && Wanted(req, serial, aki, caller, now, users, row) {
      if row in selected {
        var i :| 0 <= i < |selected| && selected[i] == row;
        assert picked[i] in picked;
      }
      if row in rows && Wanted(req, serial, aki, caller, now, users, row) {
        var k :| 0 <= k < |rows| && rows[k] == row;
        var i :| 0 <= i < |picked| && picked[i] == k;
        assert selected[i] == row;
      }
    }
  }

  method RunQuery(rows: seq<Row>, req: CertRequest, serial: string, aki: string, caller: Registrar, now: int,
                  users: map<string, User>)
    returns (selected: seq<Row>)
    requires Accepted(req)
    ensures selected == SelectedRows(rows, req, serial, aki, caller, now, users)
  {
    var q := BuildQuery(req, serial, aki, caller.affiliation, now);
    selected := [];
    for i := 0 to |rows|
      invariant selected == SelectedRows(rows[..i], req, serial, aki, caller, now, users)
    {
      QueryIsExact(q, req, serial, aki, caller, now, rows[i], users);
      assert rows[..i + 1][..i] == rows[..i];
      if Selects(q.conds, q.args, rows[i], users) {
        selected := selected + [rows[i]];
      }
    }
    assert rows[..|rows|] == rows;
  }

  // The revocation list

  /** The requested windows; `ZERO_TIME` leaves an upper end open. */
  datatype Windows = Windows(expireAfter: int, expireBefore: int, revokedAfter: int, revokedBefore: int)

  predicate Consistent(w: Windows) {
    (w.revokedBefore != ZERO_TIME ==> w.revokedAfter <= w.revokedBefore) &&
    (w.expireBefore != ZERO_TIME ==> w.expireAfter <= w.expireBefore)
  }

  /** A revoked record inside the open windows. */
  predicate InWindows(w: Windows, c: Cert) {
    && c.revoked
    && c.expiry > w.expireAfter && c.revokedAt > w.revokedAfter
    && (w.expireBefore != ZERO_TIME ==> c.expiry < w.expireBefore)
    && (w.revokedBefore != ZERO_TIME ==> c.revokedAt < w.revokedBefore)
  }

  function BasePieces(w: Windows): Clause {
    And(And(And(Empty, IsRevoked, []), ExpiryAfter, [Time(w.expireAfter)]), RevokedAfter, [Time(w.revokedAfter)])
  }

  function WindowPieces(w: Windows): Clause {
    When(When(BasePieces(w), w.expireBefore != ZERO_TIME, ExpiryBefore, [Time(w.expireBefore)]),
         w.revokedBefore != ZERO_TIME, RevokedBefore, [Time(w.revokedBefore)])
  }

  lemma {:induction false} BaseMeans(w: Windows, row: Row, users: map<string, User>)
    ensures Bound(BasePieces(w))
    ensures AllHold(BasePieces(w), row, users) <==>
            row.cert.revoked && row.cert.expiry > w.expireAfter && row.cert.revokedAt > w.revokedAfter
  {
    var ps1 := And(Empty, IsRevoked, []);
    assert Bound(ps1) && (AllHold(ps1, row, users) <==> row.cert.revoked);
    var ps2 := And(ps1, ExpiryAfter, [Time(w.expireAfter)]);
    assert Bound(ps2) && (AllHold(ps2, row, users) <==> row.cert.revoked && row.cert.expiry > w.expireAfter);
  }

  lemma {:induction false} WindowsMean(q: Query, w: Windows, row: Row, users: map<string, User>)
    requires Renders(q, WindowPieces(w))
    ensures PlaceholdersOf(q.conds) == |q.args|
    ensures Selects(q.conds, q.args, row, users) <==> InWindows(w, row.cert)
  {
    BaseMeans(w, row, users);
    ClauseMeans(WindowPieces(w), row, users);
  }

  /** `GetRevokedCertificates`: its clause and arguments. */
  method BuildWindows(w: Windows) returns (q: Query)
    ensures Renders(q, WindowPieces(w))
  {
    q := Query([], []);
    q := Append(q, IsRevoked, [], Empty);
    ghost var ps := And(Empty, IsRevoked, []);
    q := Append(q, ExpiryAfter, [Time(w.expireAfter)], ps);
    ps := And(ps, ExpiryAfter, [Time(w.expireAfter)]);
    q := Append(q, RevokedAfter, [Time(w.revokedAfter)], ps);
    ps := BasePieces(w);
    if w.expireBefore != ZERO_TIME {
      q := Append(q, ExpiryBefore, [Time(w.expireBefore)], ps);
      ps := And(ps, ExpiryBefore, [Time(w.expireBefore)]);
    }
    if w.revokedBefore != ZERO_TIME {
      q := Append(q, RevokedBefore, [Time(w.revokedBefore)], ps);
    }
  }

  datatype Entry = Entry(serial: nat, revokedAt: int)

  /** The entries owed to a table listing: one per record in the windows, in order. */
  function EntriesOf(rows: seq<Row>, w: Windows): seq<Entry> {
    if rows == [] then []
    else EntriesOf(rows[..|rows| - 1], w) +
         (if InWindows(w, rows[|rows| - 1].cert)
          then [Entry(Parse(rows[|rows| - 1].key.serial, 16), rows[|rows| - 1].cert.revokedAt)] else [])
  }

  /** `genCRL`: refuse inverted windows; otherwise one entry per selected record. */
  method GenCRL(rows: seq<Row>, w: Windows) returns (r: Result<seq<Entry>>)
    ensures r.Ok? <==> (w.revokedBefore != 0 ==> w.revokedAfter <= w.revokedBefore) &&
                       (w.expireBefore != 0 ==> w.expireAfter <= w.expireBefore)
    ensures r.Ok? ==> r.value == EntriesOf(rows, w)
  {
    if w.revokedBefore != ZERO_TIME && w.revokedAfter > w.revokedBefore {
      return Err(BadRequest);
    }
    if w.expireBefore != ZERO_TIME && w.expireAfter > w.expireBefore {
      return Err(BadRequest);
    }
    var q := BuildWindows(w);
    var entries := [];
    for i := 0 to |rows|
      invariant entries == EntriesOf(rows[..i], w)
    {
      WindowsMean(q, w, rows[i], map[]);
      assert rows[..i + 1][..i] == rows[..i];
      if Selects(q.conds, q.args, rows[i], map[]) {
        entries := entries + [Entry(Parse(rows[i].key.serial, 16), rows[i].cert.revokedAt)];
      }
    }
    assert rows[..|rows|] == rows;
    r := Ok(entries);
  }

  /** The revocation time and the expiry lie strictly inside the windows; 0 leaves an upper end open. */
  lemma {:induction false} InWindowsMeans(w: Windows, c: Cert)
    ensures InWindows(w, c) <==>
            && c.revoked && w.revokedAfter < c.revokedAt && w.expireAfter < c.expiry
            && (w.revokedBefore == 0 || c.revokedAt < w.revokedBefore)
            && (w.expireBefore == 0 || c.expiry < w.expireBefore)
  {
  }

  /** An entry is on the list exactly if a record in the windows has its serial and its revocation time. */
  lemma {:induction false} ListedExactly(rows: seq<Row>, w: Windows, e: Entry)
    ensures e in EntriesOf(rows, w) <==>
            exists i :: 0 <= i < |rows| && InWindows(w, rows[i].cert) &&
                        e.serial == Parse(rows[i].key.serial, 16) && e.revokedAt == rows[i].cert.revokedAt
  {
    if rows != [] {
      var init, last := rows[..|rows| - 1], rows[|rows| - 1];
      ListedExactly(init, w, e);
      if e in EntriesOf(init, w) {
        var i :| 0 <= i < |init| && InWindows(w, init[i].cert) &&
                 e.serial == Parse(init[i].key.serial, 16) && e.revokedAt == init[i].cert.revokedAt;
        assert rows[i] == init[i];
      }
    }
  }

  /** A record stored for the decimal serial `n` contributes the integer `n`. */
  lemma {:induction false} StoredSerialListed(n: nat, rows: seq<Row>, w: Windows, i: nat)
    requires n > 0 && i < |rows| && InWindows(w, rows[i].cert) &&
             rows[i].key.serial == Format(Parse(Format(n, 10), 10), 16)
    ensures Entry(n, rows[i].cert.revokedAt) in EntriesOf(rows, w)
  {
    SerialRoundTrip(n);
    ListedExactly(rows, w, Entry(n, rows[i].cert.revokedAt));
  }
}
