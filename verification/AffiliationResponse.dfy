/** The hierarchical responses to removing, renaming and reading an affiliation. */
module AffiliationResponse {
  import opened Options
  import opened Paths
  import opened Attributes
  import opened Tables
  import opened Accessors
  import opened Delegation
  import opened Handlers
  import opened AffiliationTree
  import opened AffiliationOrder

  /** No listed name is the parent of `n`. */
  predicate IsRoot(all: seq<string>, n: string) {
    forall i :: 0 <= i < |all| ==> !IsChildAffiliation(all[i], n)
  }

  function RootFlags(names: seq<string>): seq<bool> {
    seq(|names|, i requires 0 <= i < |names| => IsRoot(names, names[i]))
  }

  /** The flagged ones among the first `k` names. */
  function Flagged(names: seq<string>, flags: seq<bool>, k: nat): seq<string>
    requires k <= |names| == |flags|
  {
    if k == 0 then [] else Flagged(names, flags, k - 1) + if flags[k - 1] then [names[k - 1]] else []
  }

  /** The names without a parent in the list, in order. */
  function Roots(names: seq<string>): seq<string> {
    Flagged(names, RootFlags(names), |names|)
  }

  /** `getRootAffiliationNames`: the names without a parent in the list, in order. */
  method GetRootAffiliationNames(names: seq<string>) returns (roots: seq<string>)
    ensures roots == Roots(names)
  {
    roots := [];
    for i := 0 to |names|
      invariant roots == Flagged(names, RootFlags(names), i)
    {
      var isRoot := true;
      var j := 0;
      while j < |names| && isRoot
        invariant 0 <= j <= |names|
        invariant isRoot ==> forall k :: 0 <= k < j ==> !IsChildAffiliation(names[k], names[i])
        invariant !isRoot ==> !IsRoot(names, names[i])
        decreases isRoot, |names| - j
      {
        if IsChildAffiliation(names[j], names[i]) {
          isRoot := false;
        } else {
          j := j + 1;
        }
      }
      if isRoot {
        roots := roots + [names[i]];
      }
    }
  }

  lemma {:induction false} SomeFlagged(names: seq<string>, flags: seq<bool>, i: nat, k: nat)
    requires i < k <= |names| == |flags| && flags[i]
    ensures |Flagged(names, flags, k)| >= 1
  {
    if i < k - 1 { SomeFlagged(names, flags, i, k - 1); }
  }

  lemma {:induction false} TwoFlagged(names: seq<string>, flags: seq<bool>, i: nat, j: nat, k: nat)
    requires i < j < k <= |names| == |flags| && flags[i] && flags[j]
    ensures |Flagged(names, flags, k)| >= 2
  {
    if j < k - 1 { TwoFlagged(names, flags, i, j, k - 1); } else { SomeFlagged(names, flags, i, k - 1); }
  }

  lemma {:induction false} OnlyFlagged(names: seq<string>, flags: seq<bool>, at: nat, k: nat)
    requires k <= |names| == |flags| && at < |names| && forall j :: 0 <= j < |flags| ==> (flags[j] <==> j == at)
    ensures Flagged(names, flags, k) == if at < k then [names[at]] else []
  {
    if k > 0 { OnlyFlagged(names, flags, at, k - 1); }
  }

  // How many roots a set of rows has

  /** A row without its parent among the rows. */
  ghost predicate Orphan(rows: set<string>, n: string) {
    n in rows && !(HasDot(n) && Parent(n) in rows)
  }

  ghost predicate SingleRoot(rows: set<string>) {
    forall m, n :: Orphan(rows, m) && Orphan(rows, n) ==> m == n
  }

  lemma {:induction false} RootIsOrphan(names: seq<string>, rows: set<string>, j: nat)
    requires Lists(names, rows) && j < |names|
    ensures RootFlags(names)[j] <==> Orphan(rows, names[j])
  {
    var n := names[j];
    forall i | 0 <= i < |names| ensures IsChildAffiliation(names[i], n) <==> HasDot(n) && Parent(n) == names[i] {
      ChildIsParent(names[i], n);
    }
    if HasDot(n) && Parent(n) in rows {
      var i :| 0 <= i < |names| && names[i] == Parent(n);
    } else {
      assert forall i :: 0 <= i < |names| ==> names[i] in rows;
    }
  }

  lemma {:induction false} SomeOrphan(rows: set<string>, n: string) returns (m: string)
    requires n in rows
    ensures Orphan(rows, m)
    decreases |n|
  {
    m := n;
    if !Orphan(rows, n) { m := SomeOrphan(rows, Parent(n)); }
  }

  /** Rows with a single root hang on it. */
  lemma {:induction false} HangsOnRoot(rows: set<string>, root: string, n: string)
    requires SingleRoot(rows) && Orphan(rows, root) && n in rows
    ensures n == root || (Below(root, n) && Parent(n) in rows)
    decreases |n|
  {
    if n != root {
      assert !Orphan(rows, n);
      HangsOnRoot(rows, root, Parent(n));
      BelowParent(root, n);
    }
  }

  /** There is one root in the list if all rows hang on it, and several otherwise. */
  lemma {:induction false} RootsOfRows(names: seq<string>, rows: set<string>)
    requires Lists(names, rows)
    ensures Roots(names) == [] <==> rows == {}
    ensures |Roots(names)| <= 1 <==> SingleRoot(rows)
    ensures |Roots(names)| == 1 ==> Orphan(rows, Roots(names)[0]) && SubtreeListing(names, Roots(names)[0])
  {
    var flags := RootFlags(names);
    AllOrNone(names, rows);
    forall j | 0 <= j < |names| ensures flags[j] <==> Orphan(rows, names[j]) { RootIsOrphan(names, rows, j); }
    if names != [] {
      var root := SomeOrphan(rows, names[0]);
      var at :| 0 <= at < |names| && names[at] == root;
      SomeFlagged(names, flags, at, |names|);
      if SingleRoot(rows) {
        OnlyFlagged(names, flags, at, |names|);
        SingleRootListing(names, rows, root);
      } else {
        SeveralRoots(names, rows);
      }
    }
  }

  lemma {:induction false} SingleRootListing(names: seq<string>, rows: set<string>, root: string)
    requires Lists(names, rows) && SingleRoot(rows) && Orphan(rows, root)
    ensures SubtreeListing(names, root)
  {
    forall n | n in names && n != root ensures Below(root, n) && Parent(n) in names { HangsOnRoot(rows, root, n); }
  }

  lemma {:induction false} SeveralRoots(names: seq<string>, rows: set<string>)
    requires Lists(names, rows) && !SingleRoot(rows)
    requires forall j :: 0 <= j < |names| ==> (RootFlags(names)[j] <==> Orphan(rows, names[j]))
    ensures |Roots(names)| >= 2
  {
    var m, n :| Orphan(rows, m) && Orphan(rows, n) && m != n;
    var i :| 0 <= i < |names| && names[i] == m;
    var j :| 0 <= j < |names| && names[j] == n;
    var lo, hi := if i < j then i else j, if i < j then j else i;
    TwoFlagged(names, RootFlags(names), lo, hi, |names|);
  }

  ghost function Subtree(affs: map<string, Affiliation>, root: string): set<string> {
    set n | n in affs && InSubtree(root, n)
  }

  /** The rows of a subtree have a single root exactly when each row below has its parent in the table. */
  lemma {:induction false} SubtreeRoot(affs: map<string, Affiliation>, root: string)
    requires root in affs
    ensures Orphan(Subtree(affs, root), root)
    ensures SingleRoot(Subtree(affs, root)) <==> ClosedBelow(affs, root)
  {
    var rows := Subtree(affs, root);
    assert Orphan(rows, root) by {
      BelowParent(root, root);
      if HasDot(root) { ParentInSubtree(root, root); }
    }
    forall n | n in affs && Below(root, n) ensures Parent(n) in affs <==> !Orphan(rows, n) { BelowParent(root, n); }
    if ClosedBelow(affs, root) {
      forall n | Orphan(rows, n) ensures n == root {
        assert n != root ==> Below(root, n);
      }
    } else {
      var n :| n in affs && Below(root, n) && Parent(n) !in affs;
      assert Orphan(rows, n) && n != root;
    }
  }

  // The response

  /** Nothing without a root, an error with several, otherwise the tree of the one root. */
  function ResponseTo(names: seq<string>, ids: seq<Identity>): Result<Option<Info>> {
    var roots := Roots(names);
    if |roots| == 0 then Ok(None) else if |roots| != 1 then Err(BadRequest) else Ok(Some(InfoOf(names, roots[0], ids)))
  }

  /** `getResponse`. */
  method GetResponse(names: seq<string>, ids: seq<Identity>) returns (r: Result<Option<Info>>)
    ensures r == ResponseTo(names, ids)
  {
    var roots := GetRootAffiliationNames(names);
    if |roots| == 0 {
      return Ok(None);
    }
    if |roots| != 1 {
      return Err(BadRequest);
    }
    var a := new string[|names|](i requires 0 <= i < |names| => names[i]);
    assert a[..][..|names|] == names;
    var info := FillAffiliationInfo(roots[0], ids, a, |names|);
    r := Ok(Some(info));
  }

  /** What a response to a listing of one subtree says: exactly the listed affiliations, each under its parent and with
      its own identities; each once if and only if the listing is in order. */
  ghost predicate Answers(info: Info, names: seq<string>, root: string, ids: seq<Identity>) {
    && info.name == root && Faithful(info, ids)
    && (forall n :: Count(NamesIn(info), n) > 0 <==> n in names)
    && ((forall n :: Count(NamesIn(info), n) <= 1) <==> OnceOrder(names, root))
  }

  lemma {:induction false} ListingAnswered(names: seq<string>, root: string, ids: seq<Identity>)
    requires SubtreeListing(names, root)
    ensures Answers(InfoOf(names, root, ids), names, root, ids)
  {
    FilledFaithful(names, root, ids);
    forall n ensures Count(NamesIn(InfoOf(names, root, ids)), n) > 0 <==> n in names {
      ExactlyListed(names, root, ids, n);
    }
    OnceExactly(names, root, ids);
  }

  /** The response to any rows in any order: there is one exactly when the rows have a single root, and it answers them
      from there. */
  lemma {:induction false} RowsAnswered(names: seq<string>, rows: set<string>, ids: seq<Identity>)
    requires Lists(names, rows)
    ensures var r := ResponseTo(names, ids);
            && (r.Ok? <==> SingleRoot(rows)) && (r == Ok(None) <==> rows == {})
            && (r.Ok? && r.value.Some? ==>
                Orphan(rows, r.value.value.name) && Answers(r.value.value, names, r.value.value.name, ids))
  {
    RootsOfRows(names, rows);
    if |Roots(names)| == 1 { ListingAnswered(names, Roots(names)[0], ids); }
  }

  /** The rows of the subtree of a listed name, in particular. */
  lemma {:induction false} SubtreeAnswered(affs: map<string, Affiliation>, names: seq<string>, root: string,
                                           ids: seq<Identity>)
    requires root in affs && Lists(names, Subtree(affs, root))
    ensures var r := ResponseTo(names, ids);
            && (r.Ok? <==> ClosedBelow(affs, root))
            && (r.Ok? ==> r.value.Some? && Answers(r.value.value, names, root, ids))
  {
    RowsAnswered(names, Subtree(affs, root), ids);
    SubtreeRoot(affs, root);
  }

  /** In a parent-closed table every subtree is closed. */
  lemma {:induction false} ClosedRows(affs: map<string, Affiliation>, root: string)
    requires ParentClosed(affs)
    ensures ClosedBelow(affs, root)
  {
    forall n | n in affs && Below(root, n) ensures Parent(n) in affs { BelowHasDot(root, n); }
  }

  /** Whether the new subtree after a rename is closed, in terms of the table before. */
  lemma {:induction false} RenamedClosed(affs: map<string, Affiliation>, affs': map<string, Affiliation>, old': string,
                                         new': string)
    requires AffsRenamed(affs, affs', old', new')
    ensures ClosedBelow(affs', new') <==>
            forall m {:trigger Below(new', m)} :: FromRow(affs, m, old', new') && Below(new', m) ==>
                FromRow(affs, Parent(m), old', new')
  {
    forall m ensures m in affs' <==> FromRow(affs, m, old', new') { FromRowIsRow(affs, affs', old', new', m); }
  }

  lemma {:induction false} FromRowIsRow(affs: map<string, Affiliation>, affs': map<string, Affiliation>, old': string,
                                        new': string, m: string)
    requires AffsRenamed(affs, affs', old', new')
    ensures m in affs' <==> FromRow(affs, m, old', new')
  {
    if FromRow(affs, m, old', new') && !(m in affs && !InSubtree(old', m)) {
      RebaseInSubtree(m, new', old');
    }
  }

  /** From a parent-closed table it always is, whether or not the new parent exists. */
  lemma {:induction false} RenamedRows(affs: map<string, Affiliation>, affs': map<string, Affiliation>, old': string,
                                       new': string)
    requires ParentClosed(affs) && AffsRenamed(affs, affs', old', new') && old' in affs && new' !in affs
    ensures new' in affs' && ClosedBelow(affs', new')
  {
    assert Rebase(old', old', new') == new';
    forall m | m in affs' && Below(new', m) ensures Parent(m) in affs' {
      assert FromRow(affs, m, old', new');
      if m in affs && !InSubtree(old', m) {
        AbsentAbove(affs, new', m);
      } else {
        var n := Rebase(m, new', old');
        RebaseInSubtree(m, new', old');
        RebaseParent(n, old', new');
        assert Parent(n) in affs && InSubtree(old', Parent(n));
      }
    }
  }

  // The handlers

  /** An identity of the removed subtree whose affiliation is a row of the table. */
  ghost predicate RemovedWith(db: DB, root: string, x: Identity) {
    x.id in Affected(db.users, root) && x == Recorded(db.users, x.id) && x.affiliation in db.affiliations
  }

  /** Removal: an allowed one is carried out, and answered with a tree of exactly the removed affiliations and exactly
      the removed identities, each once, if every removed row has its parent; if not, it is answered with an error. */
  method HandleRemoveAffiliation(acc: Accessor, cfg: Config, tok: Token, name: string, force: bool, now: int)
    returns (r: Result<Info>)
    modifies acc
    ensures RemoveAffiliationStep(cfg, old(acc.Db()), tok, name, force, now, acc.Db(), r.Ok?)
    ensures r.Ok? ==> r.value.name == name
    ensures r.Ok? ==> forall n ::
              Count(NamesIn(r.value), n) == if n in old(acc.affiliations) && InSubtree(name, n) then 1 else 0
    ensures r.Ok? ==> forall x: Identity ::
              Count(IdentitiesIn(r.value), x) == if RemovedWith(old(acc.Db()), name, x) then 1 else 0
  {
    ghost var affs := acc.affiliations;
    var users := acc.users;
    var tx := CommitRemoval(acc, cfg, tok, name, force, now);
    if tx.Err? {
      return Err(tx.error);
    }
    var names := tx.value.affiliations;
    assert SubAffiliations(affs, name) + {name} == Subtree(affs, name);
    var ids := IdentityRecords(tx.value.identities, users);
    SubtreeAnswered(affs, names, name, ids);
    var resp := GetResponse(names, ids);
    if resp.Err? {
      return Err(resp.error);
    }
    RootLastInOrder(names, name);
    IdentitiesOnce(resp.value.value, names, tx.value.identities, users);
    r := Ok(resp.value.value);
  }

  /** When every listed affiliation is named once, so is every identity given with one of them. */
  lemma {:induction false} IdentitiesOnce(info: Info, names: seq<string>, given: seq<string>, users: map<string, User>)
    requires AllDistinct(given) && forall id :: id in given ==> id in users
    requires Faithful(info, IdentityRecords(given, users))
    requires (forall n :: Count(NamesIn(info), n) > 0 <==> n in names) && forall n :: Count(NamesIn(info), n) <= 1
    ensures forall x: Identity ::
              Count(IdentitiesIn(info), x) == if GivenWith(names, given, users, x) then 1 else 0
  {
    var ids := IdentityRecords(given, users);
    forall x: Identity ensures Count(IdentitiesIn(info), x) == if GivenWith(names, given, users, x) then 1 else 0 {
      IdentityCount(info, ids, x);
      RecordedOnce(given, users, x);
      assert Times(1, Count(ids, x)) == Times(0, Count(ids, x)) + Count(ids, x);
    }
  }

  ghost predicate GivenWith(names: seq<string>, given: seq<string>, users: map<string, User>, x: Identity) {
    x.id in given && x == Recorded(users, x.id) && x.affiliation in names
  }

  /** Rename: a committed one is answered with a tree of exactly the new subtree and the moved users, each name once if
      and only if the rows came in order, if every row below the new name has its parent; if not, with an error. */
  method HandleRenameAffiliation(acc: Accessor, tok: Token, oldName: string, newName: string, force: bool)
    returns (r: Result<Info>, ghost rows: seq<string>, ghost ids: seq<Identity>)
    modifies acc
    ensures RenameStep(old(acc.Db()), tok, oldName, newName, force, acc.Db(), r.Ok?)
    ensures r.Ok? ==> Lists(rows, Subtree(acc.affiliations, newName)) && Answers(r.value, rows, newName, ids)
    ensures r.Ok? ==> forall x: Identity ::
              x in ids <==> x.id in Movers(old(acc.Db()), oldName) && x == Recorded(acc.users, x.id)
  {
    rows, ids := [], [];
    var tx := CommitRename(acc, tok, oldName, newName, force);
    if tx.Err? {
      r := Err(tx.error);
      return;
    }
    ghost var caller := RegistrarOf(old(acc.users)[tok.id]);
    assert !RenameRefused(old(acc.Db()), oldName, newName, force, IsRegistrar(caller), NotFound);
    assert Rebase(oldName, oldName, newName) == newName;
    var records := IdentityRecords(tx.value.identities, acc.users);
    SubtreeAnswered(acc.affiliations, tx.value.affiliations, newName, records);
    var resp := GetResponse(tx.value.affiliations, records);
    if resp.Err? {
      r := Err(resp.error);
      return;
    }
    forall x: Identity ensures x in records <==> x.id in tx.value.identities && x == Recorded(acc.users, x.id) {
      RecordedOnce(tx.value.identities, acc.users, x);
      CountIn(records, x);
    }
    r, rows, ids := Ok(resp.value.value), tx.value.affiliations, records;
  }

  /** What a read selects: the subtree of a name, or for the empty name the whole table. */
  ghost function RowsRead(affs: map<string, Affiliation>, name: string): set<string> {
    if name == "" then affs.Keys else Subtree(affs, name)
  }

  /** `getAffiliation`: an answer exactly for a manager who contains the listed name, on rows with a single root; it
      names exactly those rows, each once if and only if they came in order. */
  method HandleGetAffiliation(acc: Accessor, tok: Token, name: string)
    returns (r: Result<Option<Info>>, ghost rows: seq<string>)
    ensures r.Ok? <==> Authenticated(acc.Db(), tok) && HasTrue(acc.users[tok.id], AFFILIATION_MGR) &&
                       ContainsAffiliation(RegistrarOf(acc.users[tok.id]), name) &&
                       (name == "" || name in acc.affiliations) && SingleRoot(RowsRead(acc.affiliations, name))
    ensures r.Ok? ==>
              Lists(rows, RowsRead(acc.affiliations, name)) &&
                  (r.value.None? <==> RowsRead(acc.affiliations, name) == {})
    ensures r.Ok? && r.value.Some? ==> Answers(r.value.value, rows, r.value.value.name, [])
    ensures r.Ok? && name != "" ==> r.value.Some? && r.value.value.name == name && ClosedBelow(acc.affiliations, name)
  {
    rows := [];
    var caller := TokenAuthentication(acc, tok);
    if caller.Err? {
      r := Err(caller.error);
      return;
    }
    if !HasTrue(caller.value, AFFILIATION_MGR) || !ContainsAffiliation(RegistrarOf(caller.value), name) {
      r := Err(Unauthorized);
      return;
    }
    if name != "" && name !in acc.affiliations {
      r := Err(NotFound);
      return;
    }
    var wanted := set n | n in acc.affiliations && (name == "" || InSubtree(name, n));
    assert wanted == RowsRead(acc.affiliations, name);
    var names := Select(wanted);
    RowsAnswered(names, RowsRead(acc.affiliations, name), []);
    if name != "" { SubtreeRoot(acc.affiliations, name); }
    rows := names;
    r := GetResponse(names, []);
  }

  /** An identity as it is reported. */
  function Recorded(users: map<string, User>, id: string): Identity {
    if id in users then Identity(id, users[id].affiliation) else Identity(id, "")
  }

  function IdentityRecords(ids: seq<string>, users: map<string, User>): seq<Identity> {
    if ids == [] then []
    else IdentityRecords(ids[..|ids| - 1], users) + [Recorded(users, ids[|ids| - 1])]
  }

  lemma {:induction false} RecordedOnce(ids: seq<string>, users: map<string, User>, x: Identity)
    requires AllDistinct(ids)
    ensures Count(IdentityRecords(ids, users), x) == if x.id in ids && x == Recorded(users, x.id) then 1 else 0
  {
    if ids != [] {
      var init, last := ids[..|ids| - 1], ids[|ids| - 1];
      assert ids == init + [last];
      RecordedOnce(init, users, x);
      CountAppend(IdentityRecords(init, users), [Recorded(users, last)], x);
      CountOne(Recorded(users, last), x);
    }
  }

  // A removal that is answered with an error

  const BOSS := User("", "client", "", [Attr(AFFILIATION_MGR, "true", false), Attr(ROLES, "*", false)], 0, 0, 0)

  lemma {:induction false} BossManages(db: DB, tok: Token)
    requires tok.signatureOk && tok.id in db.users && db.users[tok.id] == BOSS
    requires tok.key in db.certs && !db.certs[tok.key].revoked
    ensures MayManageAffiliations(db, tok) && IsRegistrar(RegistrarOf(BOSS)) && RegistrarOf(BOSS).affiliation == ""
  {
    var a, b := Attr(AFFILIATION_MGR, "true", false), Attr(ROLES, "*", false);
    assert [a, b][1..] == [b] && [b][1..] == [];
    assert View([b]) == map[ROLES := b];
    assert View([a, b]) == map[AFFILIATION_MGR := a] + map[ROLES := b];
  }

  lemma {:induction false} DeepName()
    ensures Parent("a.b.c") == "a.b" && HasDot("a.b.c") && Below("a", "a.b.c") && !HasDot("a") && !HasDot("x")
    ensures "a" != "a.b.c" && "x" != "a.b.c" && "a" != "x" && "a.b" != "a" && "a.b" != "a.b.c" && "a.b" != "x"
    ensures !Below("x", "a") && !Below("a", "x") && !Below("x", "x") && !Below("a", "a")
  {
    ParentOfChild("a.b", "c");
    assert "a.b.c" == "a.b" + "." + "c" && "a.b.c"[1] == '.';
    assert |"a"| == 1 && |"x"| == 1 && |"a.b"| == 3 && |"a.b.c"| == 5 && "a"[0] != "x"[0];
  }

  /** Renaming `x` to `a.b.c` beside `a` leaves a row without parent. Removing `a` by force then removes both rows, and
      answers with an error. */
  method RemovedWithError(cfg: Config, now: int) returns (acc: Accessor, renamed: Result<Info>, removed: Result<Info>)
    requires cfg.allowRemoveAffiliation
    ensures renamed.Ok? && removed.Err? && acc.affiliations == map[]
  {
    var key, row := CertKey("1", "1"), Affiliation("", 0);
    acc := new Accessor(DB(map["boss" := BOSS], map["a" := row, "x" := row], map[key := Cert("boss", false, 0, 0, 0)]));
    var tok := Token("boss", key, true);
    DeepName();
    BossManages(acc.Db(), tok);
    ghost var db := acc.Db();
    assert ParentClosed(db.affiliations);
    RenameOnce(db, tok);
    ghost var rows, ids;
    renamed, rows, ids := HandleRenameAffiliation(acc, tok, "x", "a.b.c", true);
    OrphanLeft(db, acc.Db());
    BossManages(acc.Db(), tok);
    RemoveOnce(cfg, acc.Db(), tok);
    removed := HandleRemoveAffiliation(acc, cfg, tok, "a", true, now);
  }

  ghost predicate BossOnly(db: DB, tok: Token) {
    && db.users == map["boss" := BOSS] && tok.id == "boss" && MayManageAffiliations(db, tok)
    && IsRegistrar(RegistrarOf(BOSS)) && RegistrarOf(BOSS).affiliation == ""
  }

  lemma {:induction false} RenameOnce(db: DB, tok: Token)
    requires BossOnly(db, tok) && db.affiliations.Keys == {"a", "x"} && ParentClosed(db.affiliations)
    ensures RenameAllowed(db, tok, "x", "a.b.c", true) && !RowsClear(db.affiliations, "x", "a.b.c", false)
    ensures forall affs' :: AffsRenamed(db.affiliations, affs', "x", "a.b.c") ==> ClosedBelow(affs', "a.b.c")
  {
    DeepName();
    FreshTargets(db.affiliations, "x", "a.b.c");
    NoneTaken(db.affiliations, "x", "a.b.c");
    assert Movers(db, "x") == {};
    forall affs' | AffsRenamed(db.affiliations, affs', "x", "a.b.c") ensures ClosedBelow(affs', "a.b.c") {
      RenamedRows(db.affiliations, affs', "x", "a.b.c");
    }
  }

  lemma {:induction false} OrphanLeft(db: DB, db': DB)
    requires Renamed(db, db', "x", "a.b.c") && db.affiliations.Keys == {"a", "x"} && db.users == map["boss" := BOSS]
    ensures db'.affiliations.Keys == {"a", "a.b.c"} && db'.users == db.users && !ClosedBelow(db'.affiliations, "a")
  {
    DeepName();
    assert Rebase("x", "x", "a.b.c") == "a.b.c";
    forall m | m in db'.affiliations ensures m in {"a", "a.b.c"} {
      assert FromRow(db.affiliations, m, "x", "a.b.c");
      if m != "a" { RebaseInSubtree(m, "a.b.c", "x"); }
    }
    assert "a" in db'.affiliations;
    assert "a.b.c" in db'.affiliations && Below("a", "a.b.c") && Parent("a.b.c") !in db'.affiliations;
  }

  lemma {:induction false} RemoveOnce(cfg: Config, db: DB, tok: Token)
    requires cfg.allowRemoveAffiliation && BossOnly(db, tok) && db.affiliations.Keys == {"a", "a.b.c"}
    ensures RemoveAffiliationAllowed(cfg, db, tok, "a", true)
    ensures forall now :: Removed(db, "a", now).affiliations == map[]
  {
    DeepName();
    assert Affected(db.users, "a") == {};
  }
}
