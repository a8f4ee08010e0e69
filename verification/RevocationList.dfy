/** From a revocation, of whatever kind, to the revocation lists of every later state. */
module RevocationList {
  import opened Paths
  import opened Tables
  import opened Accessors
  import opened Handlers
  import opened Serials
  import opened CertQueries
  import opened Requirements
  import opened Runs

  /** The requests that revoke certificates. */
  predicate CanRevoke(call: Call) { call.Revoke? || call.RemoveIdentity? || call.RemoveAffiliation? }

  function ReasonOf(call: Call): int
    requires CanRevoke(call)
  {
    if call.Revoke? then call.revocation.reason else if call.RemoveIdentity? then 5 else 3
  }

  /** The request takes the certificate out of good standing: an allowed revocation, none of whose statements fails,
      that names it, an allowed removal of its owner, or an allowed removal of its owner's affiliation or one above. */
  ghost predicate Revokes(cfg: Config, db: DB, call: Call, k: CertKey) {
    && k in db.certs && !db.certs[k].revoked
    && match call
       case Revoke(tok, req, _, trouble) =>
         && RevokeAllowed(db, tok, req) && Named(req, k, db.certs[k])
         && trouble != FirstFails && (trouble == SecondFails ==> req.key.serial != "" && req.key.aki != "")
       case RemoveIdentity(tok, id, force, _) => RemoveAllowed(cfg, db, tok, id, force) && db.certs[k].id == id
       case RemoveAffiliation(tok, name, force, _) =>
         && RemoveAffiliationAllowed(cfg, db, tok, name, force)
         && db.certs[k].id in db.users && InSubtree(name, db.users[db.certs[k].id].affiliation)
       case _ => false
  }

  /** A request revokes exactly these certificates, with its reason and time; another certificate in good standing keeps
      its row. */
  lemma {:induction false} StepRevokes(cfg: Config, db: DB, call: Call, db': DB, ok: bool, k: CertKey)
    requires Step(cfg, db, call, db', ok) && k in db.certs && !db.certs[k].revoked
    ensures k in db'.certs
    ensures Revokes(cfg, db, call, k) ==>
              CanRevoke(call) && RevocationOf(db.certs[k], db'.certs[k], ReasonOf(call), call.now)
    ensures !Revokes(cfg, db, call, k) ==> db'.certs[k] == db.certs[k]
  {
    match call
    case Revoke(_, _, _, _) =>
    case RemoveIdentity(_, _, _, _) =>
    case RemoveAffiliation(_, _, _, _) =>
    case _ => OthersRevokeNone(cfg, db, call, db', ok, k);
  }

  lemma {:induction false} OthersRevokeNone(cfg: Config, db: DB, call: Call, db': DB, ok: bool, k: CertKey)
    requires Step(cfg, db, call, db', ok) && !CanRevoke(call) && k in db.certs
    ensures k in db'.certs && db'.certs[k] == db.certs[k]
  {
  }

  /** A new record is in good standing. */
  lemma {:induction false} NewIsGood(cfg: Config, db: DB, call: Call, db': DB, ok: bool, k: CertKey)
    requires Step(cfg, db, call, db', ok) && k !in db.certs && k in db'.certs
    ensures !db'.certs[k].revoked
  {
  }

  /** The rows list the table, in any order. */
  ghost predicate RecordsOf(rows: seq<Row>, certs: map<CertKey, Cert>) {
    && (forall i :: 0 <= i < |rows| ==> rows[i].key in certs && rows[i].cert == certs[rows[i].key])
    && (forall k :: k in certs ==> Row(k, certs[k]) in rows)
  }

  function Number(k: CertKey): nat { Parse(k.serial, 16) }

  /** No other record has that serial number. */
  ghost predicate Alone(certs: map<CertKey, Cert>, k: CertKey) {
    forall other :: other in certs && Number(other) == Number(k) ==> other == k
  }

  /** The revocation time and the expiry lie inside the windows; 0 leaves an upper end open. */
  predicate Inside(w: Windows, revokedAt: int, expiry: int) {
    && w.revokedAfter < revokedAt && (w.revokedBefore == 0 || revokedAt < w.revokedBefore)
    && w.expireAfter < expiry && (w.expireBefore == 0 || expiry < w.expireBefore)
  }

  lemma {:induction false} ListedRow(rows: seq<Row>, certs: map<CertKey, Cert>, w: Windows, k: CertKey, t: int)
    requires RecordsOf(rows, certs) && k in certs && Alone(certs, k)
    ensures Entry(Number(k), t) in EntriesOf(rows, w) <==>
            certs[k].revoked && certs[k].revokedAt == t && Inside(w, t, certs[k].expiry)
  {
    ListedExactly(rows, w, Entry(Number(k), t));
    InWindowsMeans(w, certs[k]);
    if Entry(Number(k), t) in EntriesOf(rows, w) {
      var i :| 0 <= i < |rows| && InWindows(w, rows[i].cert) && Number(k) == Number(rows[i].key) &&
               t == rows[i].cert.revokedAt;
      assert rows[i].key == k;
    }
    var i :| 0 <= i < |rows| && rows[i] == Row(k, certs[k]);
  }

  /** The request revoked the certificate, and this is its row since. */
  ghost predicate RevokedHere(cfg: Config, db: DB, call: Call, k: CertKey, c: Cert) {
    && Revokes(cfg, db, call, k) && CanRevoke(call)
    && c.revokedAt == call.now && c.reason == ReasonOf(call) && c.expiry == db.certs[k].expiry
  }

  lemma {:induction false} RevokedHereOrBefore(cfg: Config, db: DB, call: Call, db': DB, ok: bool, k: CertKey)
    requires Step(cfg, db, call, db', ok) && k in db'.certs && db'.certs[k].revoked
    ensures || (k in db.certs && db.certs[k] == db'.certs[k])
            || RevokedHere(cfg, db, call, k, db'.certs[k])
  {
    if k !in db.certs {
      NewIsGood(cfg, db, call, db', ok, k);
    } else if db.certs[k].revoked {
      StepKeepsRevoked(cfg, db, call, db', ok, k);
    } else {
      StepRevokes(cfg, db, call, db', ok, k);
    }
  }

  /** A revoked record of a run goes back to one request of it that revoked it, unless it was revoked at the start. */
  lemma {:induction false} RevokedByOne(cfg: Config, dbs: seq<DB>, calls: seq<Call>, oks: seq<bool>, j: nat, k: CertKey)
    returns (i: nat)
    requires Run(cfg, dbs, calls, oks) && j <= |calls| && k in dbs[j].certs && dbs[j].certs[k].revoked
    requires k in dbs[0].certs ==> !dbs[0].certs[k].revoked
    ensures i < j && RevokedHere(cfg, dbs[i], calls[i], k, dbs[j].certs[k])
  {
    i := j - 1;
    RevokedHereOrBefore(cfg, dbs[i], calls[i], dbs[j], oks[i], k);
    if !RevokedHere(cfg, dbs[i], calls[i], k, dbs[j].certs[k]) {
      i := RevokedByOne(cfg, dbs, calls, oks, j - 1, k);
    }
  }

  /** At every point of every run, the revocation list holds a certificate with the time `t` exactly if a request so far
      revoked it at `t`, by whichever of the three operations, and the windows contain `t` and its expiry. */
  lemma {:induction false} ListsWhatWasRevoked(cfg: Config, dbs: seq<DB>, calls: seq<Call>, oks: seq<bool>, j: nat,
                                               rows: seq<Row>, w: Windows, k: CertKey, t: int)
    requires Run(cfg, dbs, calls, oks) && j <= |calls| && k in dbs[j].certs
    requires k in dbs[0].certs ==> !dbs[0].certs[k].revoked
    requires RecordsOf(rows, dbs[j].certs) && Alone(dbs[j].certs, k)
    ensures Entry(Number(k), t) in EntriesOf(rows, w) <==>
            exists i :: 0 <= i < j && Revokes(cfg, dbs[i], calls[i], k) && calls[i].now == t &&
                        Inside(w, t, dbs[i].certs[k].expiry)
  {
    ListedRow(rows, dbs[j].certs, w, k, t);
    if Entry(Number(k), t) in EntriesOf(rows, w) {
      var i := RevokedByOne(cfg, dbs, calls, oks, j, k);
    }
    forall i | 0 <= i < j && Revokes(cfg, dbs[i], calls[i], k)
      ensures dbs[j].certs[k].revoked && dbs[j].certs[k].revokedAt == calls[i].now &&
              dbs[j].certs[k].expiry == dbs[i].certs[k].expiry
    {
      StepRevokes(cfg, dbs[i], calls[i], dbs[i + 1], oks[i], k);
      RevokedStaysRevoked(cfg, dbs, calls, oks, i + 1, j, k);
    }
  }
}
