/** Loading the configured affiliations. */
module Loader {
  import opened Paths
  import opened Tables
  import opened Accessors

  /** A configuration value: a name, a list, or a map from names to values (in whatever order the map is walked). */
  datatype Value = Nothing | Name(name: string) | List(items: seq<Value>) | Tree(entries: seq<Entry>)

  datatype Entry = Entry(name: string, value: Value)

  /** `affiliationPath`. */
  function AffiliationPath(name: string, parent: string): string {
    if parent == "" then name else parent + "." + name
  }

  ghost predicate DotFree(v: Value) {
    match v
    case Nothing => true
    case Name(n) => !HasDot(n)
    case List(items) => forall i :: 0 <= i < |items| ==> DotFree(items[i])
    case Tree(entries) => forall i :: 0 <= i < |entries| ==> !HasDot(entries[i].name) && DotFree(entries[i].value)
  }

  // The inserts a value asks for

  datatype Insert = Insert(path: string, prekey: string)

  /** In the order of the walk; a key of a map comes before the names below it. */
  ghost function Inserts(v: Value, parent: string): seq<Insert>
    decreases v
  {
    match v
    case Nothing => []
    case Name(n) => [Insert(AffiliationPath(n, parent), parent)]
    case List(items) => ItemInserts(items, parent, |items|)
    case Tree(entries) => EntryInserts(entries, parent, |entries|)
  }

  ghost function ItemInserts(items: seq<Value>, parent: string, k: nat): seq<Insert>
    requires k <= |items|
    decreases items, k
  {
    if k == 0 then [] else ItemInserts(items, parent, k - 1) + Inserts(items[k - 1], parent)
  }

  ghost function EntryInserts(entries: seq<Entry>, parent: string, k: nat): seq<Insert>
    requires k <= |entries|
    decreases entries, k
  {
    if k == 0 then [] else EntryInserts(entries, parent, k - 1) + InsertsOfEntry(entries[k - 1], parent)
  }

  ghost function InsertsOfEntry(e: Entry, parent: string): seq<Insert>
    decreases e
  {
    var path := AffiliationPath(e.name, parent);
    [Insert(path, parent)] + Inserts(e.value, path)
  }

  ghost function PathsOf(ins: seq<Insert>): set<string> {
    set i | 0 <= i < |ins| :: ins[i].path
  }

  /** The value names a way down through its maps, ending at a key or at a name. */
  ghost predicate Mentions(v: Value, names: seq<string>)
    decreases v
  {
    match v
    case Nothing => false
    case Name(n) => names == [n]
    case List(items) => exists i :: 0 <= i < |items| && Mentions(items[i], names)
    case Tree(entries) => exists i :: 0 <= i < |entries| && EntryMentions(entries[i], names)
  }

  ghost predicate EntryMentions(e: Entry, names: seq<string>)
    decreases e
  {
    names != [] && names[0] == e.name && (names == [e.name] || Mentions(e.value, names[1..]))
  }

  /** The dotted path of a way down. */
  function PathDown(names: seq<string>, parent: string): string {
    if names == [] then parent else PathDown(names[1..], AffiliationPath(names[0], parent))
  }

  /** The insert asked for by a way down: its path below the path of the way to its last name. */
  predicate Asks(i: Insert, names: seq<string>, parent: string) {
    names != [] && i == Insert(PathDown(names, parent), PathDown(names[..|names| - 1], parent))
  }

  ghost predicate AskedBy(v: Value, parent: string, i: Insert) {
    exists names :: Mentions(v, names) && Asks(i, names, parent)
  }

  ghost predicate AskedByEntry(e: Entry, parent: string, i: Insert) {
    exists names :: EntryMentions(e, names) && Asks(i, names, parent)
  }

  /** Exactly the ways down are inserted. */
  lemma {:induction false} InsertsMentioned(v: Value, parent: string, i: Insert)
    ensures i in Inserts(v, parent) <==> AskedBy(v, parent, i)
    decreases v, 0
  {
    match v
    case Nothing =>
    case Name(n) =>
      AsksBelow(i, n, [], parent);
      if i in Inserts(v, parent) { assert Mentions(v, [n]) && Asks(i, [n], parent); }
    case List(items) =>
      ItemsMentioned(items, parent, i, |items|);
      if AskedBy(v, parent, i) {
        var names :| Mentions(v, names) && Asks(i, names, parent);
        var k :| 0 <= k < |items| && Mentions(items[k], names);
        assert AskedBy(items[k], parent, i);
      }
    case Tree(entries) =>
      EntriesMentioned(entries, parent, i, |entries|);
      if AskedBy(v, parent, i) {
        var names :| Mentions(v, names) && Asks(i, names, parent);
        var k :| 0 <= k < |entries| && EntryMentions(entries[k], names);
        assert AskedByEntry(entries[k], parent, i);
      }
  }

  lemma {:induction false} ItemsMentioned(items: seq<Value>, parent: string, i: Insert, k: nat)
    requires k <= |items|
    ensures i in ItemInserts(items, parent, k) <==> exists j :: 0 <= j < k && AskedBy(items[j], parent, i)
    decreases items, k
  {
    if k > 0 {
      ItemsMentioned(items, parent, i, k - 1);
      InsertsMentioned(items[k - 1], parent, i);
    }
  }

  lemma {:induction false} EntriesMentioned(entries: seq<Entry>, parent: string, i: Insert, k: nat)
    requires k <= |entries|
    ensures i in EntryInserts(entries, parent, k) <==> exists j :: 0 <= j < k && AskedByEntry(entries[j], parent, i)
    decreases entries, k
  {
    if k > 0 {
      EntriesMentioned(entries, parent, i, k - 1);
      EntryMentioned(entries[k - 1], parent, i);
      var init, last := EntryInserts(entries, parent, k - 1), InsertsOfEntry(entries[k - 1], parent);
      assert EntryInserts(entries, parent, k) == init + last;
      assert i in init + last <==> i in init || i in last;
    }
  }

  lemma {:induction false} EntryMentioned(e: Entry, parent: string, i: Insert)
    ensures i in InsertsOfEntry(e, parent) <==> AskedByEntry(e, parent, i)
    decreases e, 1
  {
    var path := AffiliationPath(e.name, parent);
    InsertsMentioned(e.value, path, i);
    if i in Inserts(e.value, path) {
      var names :| Mentions(e.value, names) && Asks(i, names, path);
      AsksBelow(i, e.name, names, parent);
      assert ([e.name] + names)[1..] == names;
      assert EntryMentions(e, [e.name] + names);
    }
    AsksBelow(i, e.name, [], parent);
    if i == Insert(path, parent) { assert EntryMentions(e, [e.name]); }
    forall names | EntryMentions(e, names) && Asks(i, names, parent)
      ensures i == Insert(path, parent) || i in Inserts(e.value, path)
    {
      var below := names[1..];
      assert names == [e.name] + below;
      AsksBelow(i, e.name, below, parent);
      if below == [] {
        assert names == [e.name];
      } else {
        assert Mentions(e.value, below) && Asks(i, below, path);
      }
    }
    assert InsertsOfEntry(e, parent) == [Insert(path, parent)] + Inserts(e.value, path);
  }

  lemma {:induction false} AsksBelow(i: Insert, name: string, names: seq<string>, parent: string)
    ensures names == [] ==> (Asks(i, [name], parent) <==> i == Insert(AffiliationPath(name, parent), parent))
    ensures names != [] ==> (Asks(i, [name] + names, parent) <==> Asks(i, names, AffiliationPath(name, parent)))
  {
    var all := [name] + names;
    assert all[1..] == names;
    if names != [] {
      assert all[..|all| - 1] == [name] + names[..|names| - 1];
      assert ([name] + names[..|names| - 1])[1..] == names[..|names| - 1];
    } else {
      var path := AffiliationPath(name, parent);
      assert all == [name] && all[..|all| - 1] == [];
      assert PathDown(all[1..], path) == path && PathDown(all[..|all| - 1], parent) == parent;
    }
  }

  /** The table after the inserts, and whether all went through. Inserting a listed name succeeds and changes nothing;
      `fails` names the inserts at which the database fails, and the first of them ends the loading. */
  datatype Load = Load(affs: map<string, Affiliation>, ok: bool)

  function InsertOne(affs: map<string, Affiliation>, i: Insert, level: int, fails: set<string>): Load {
    if i.path in affs then Load(affs, true)
    else if i.path in fails then Load(affs, false)
    else Load(affs[i.path := Affiliation(i.prekey, level)], true)
  }

  ghost function Loaded(affs: map<string, Affiliation>, ins: seq<Insert>, level: int, fails: set<string>): Load {
    if ins == [] then Load(affs, true)
    else
      var l := Loaded(affs, ins[..|ins| - 1], level, fails);
      if l.ok then InsertOne(l.affs, ins[|ins| - 1], level, fails) else l
  }

  lemma {:induction false} LoadedSnoc(affs: map<string, Affiliation>, ins: seq<Insert>, i: Insert, level: int,
                                      fails: set<string>)
    ensures var l := Loaded(affs, ins, level, fails);
            Loaded(affs, ins + [i], level, fails) == if l.ok then InsertOne(l.affs, i, level, fails) else l
  {
    assert (ins + [i])[..|ins|] == ins;
  }

  /** Loading in two parts. */
  lemma {:induction false} LoadedAppend(affs: map<string, Affiliation>, a: seq<Insert>, b: seq<Insert>, level: int,
                                        fails: set<string>)
    ensures var l := Loaded(affs, a, level, fails);
            Loaded(affs, a + b, level, fails) == if l.ok then Loaded(l.affs, b, level, fails) else l
    decreases |b|
  {
    if b == [] {
      assert a + b == a;
    } else {
      var init, last := b[..|b| - 1], b[|b| - 1];
      LoadedAppend(affs, a, init, level, fails);
      LoadedSnoc(affs, a + init, last, level, fails);
      assert a + b == a + init + [last];
    }
  }

  lemma {:induction false} ItemsFrom(items: seq<Value>, parent: string, k: nat, n: nat) returns (rest: seq<Insert>)
    requires k <= n <= |items|
    ensures ItemInserts(items, parent, n) == ItemInserts(items, parent, k) + rest
    decreases n
  {
    rest := [];
    if k < n {
      var init := ItemsFrom(items, parent, k, n - 1);
      var last := Inserts(items[n - 1], parent);
      rest := init + last;
      assert ItemInserts(items, parent, k) + init + last == ItemInserts(items, parent, k) + (init + last);
    }
  }

  lemma {:induction false} EntriesFrom(entries: seq<Entry>, parent: string, k: nat, n: nat) returns (rest: seq<Insert>)
    requires k <= n <= |entries|
    ensures EntryInserts(entries, parent, n) == EntryInserts(entries, parent, k) + rest
    decreases n
  {
    rest := [];
    if k < n {
      var init := EntriesFrom(entries, parent, k, n - 1);
      var last := InsertsOfEntry(entries[n - 1], parent);
      rest := init + last;
      var first := EntryInserts(entries, parent, k);
      assert EntryInserts(entries, parent, n) == EntryInserts(entries, parent, n - 1) + last;
      assert first + init + last == first + (init + last);
    }
  }

  /** One item more; a failure is final. */
  lemma {:induction false} ItemStep(affs: map<string, Affiliation>, items: seq<Value>, parent: string, i: nat,
                                    level: int, fails: set<string>)
    requires i < |items|
    ensures var l := Loaded(affs, ItemInserts(items, parent, i), level, fails);
            var l' := Loaded(affs, ItemInserts(items, parent, i + 1), level, fails);
            && (l.ok ==> l' == Loaded(l.affs, Inserts(items[i], parent), level, fails))
            && (!l'.ok ==> l' == Loaded(affs, ItemInserts(items, parent, |items|), level, fails))
  {
    LoadedAppend(affs, ItemInserts(items, parent, i), Inserts(items[i], parent), level, fails);
    var rest := ItemsFrom(items, parent, i + 1, |items|);
    LoadedAppend(affs, ItemInserts(items, parent, i + 1), rest, level, fails);
  }

  /** One entry more; a failure is final. */
  lemma {:induction false} EntryStep(affs: map<string, Affiliation>, entries: seq<Entry>, parent: string, i: nat,
                                     level: int, fails: set<string>)
    requires i < |entries|
    ensures var l := Loaded(affs, EntryInserts(entries, parent, i), level, fails);
            var l' := Loaded(affs, EntryInserts(entries, parent, i + 1), level, fails);
            && (l.ok ==> l' == Loaded(l.affs, InsertsOfEntry(entries[i], parent), level, fails))
            && (!l'.ok ==> l' == Loaded(affs, EntryInserts(entries, parent, |entries|), level, fails))
  {
    LoadedAppend(affs, EntryInserts(entries, parent, i), InsertsOfEntry(entries[i], parent), level, fails);
    var rest := EntriesFrom(entries, parent, i + 1, |entries|);
    LoadedAppend(affs, EntryInserts(entries, parent, i + 1), rest, level, fails);
  }

  // The loader

  /** `loadAffiliationsTableR`: the inserts of the value, in order, up to the first that fails. */
  method LoadAffiliations(acc: Accessor, v: Value, parent: string, level: int,
                          fails: set<string>) returns (r: Result<()>)
    modifies acc`affiliations
    ensures Load(acc.affiliations, r.Ok?) == Loaded(old(acc.affiliations), Inserts(v, parent), level, fails)
    decreases v
  {
    match v
    case Nothing =>
      r := Ok(());
    case Name(name) =>
      LoadedSnoc(acc.affiliations, [], Insert(AffiliationPath(name, parent), parent), level, fails);
      assert [] + Inserts(v, parent) == Inserts(v, parent);
      r := Add(acc, AffiliationPath(name, parent), parent, level, fails);
    case List(items) =>
      r := LoadItems(acc, items, parent, level, fails);
    case Tree(entries) =>
      r := LoadEntries(acc, entries, parent, level, fails);
  }

  method LoadItems(acc: Accessor, items: seq<Value>, parent: string, level: int, fails: set<string>)
    returns (r: Result<()>)
    modifies acc`affiliations
    ensures Load(acc.affiliations, r.Ok?) ==
            Loaded(old(acc.affiliations), ItemInserts(items, parent, |items|), level, fails)
    decreases items
  {
    ghost var affs := acc.affiliations;
    for i := 0 to |items|
      invariant Load(acc.affiliations, true) == Loaded(affs, ItemInserts(items, parent, i), level, fails)
    {
      ItemStep(affs, items, parent, i, level, fails);
      r := LoadAffiliations(acc, items[i], parent, level, fails);
      if r.Err? {
        return;
      }
    }
    r := Ok(());
  }

  method LoadEntries(acc: Accessor, entries: seq<Entry>, parent: string, level: int, fails: set<string>)
    returns (r: Result<()>)
    modifies acc`affiliations
    ensures Load(acc.affiliations, r.Ok?) ==
            Loaded(old(acc.affiliations), EntryInserts(entries, parent, |entries|), level, fails)
    decreases entries
  {
    ghost var affs := acc.affiliations;
    for i := 0 to |entries|
      invariant Load(acc.affiliations, true) == Loaded(affs, EntryInserts(entries, parent, i), level, fails)
    {
      EntryStep(affs, entries, parent, i, level, fails);
      r := LoadEntry(acc, entries[i], parent, level, fails);
      if r.Err? {
        return;
      }
    }
    r := Ok(());
  }

  method LoadEntry(acc: Accessor, e: Entry, parent: string, level: int, fails: set<string>) returns (r: Result<()>)
    modifies acc`affiliations
    ensures Load(acc.affiliations, r.Ok?) == Loaded(old(acc.affiliations), InsertsOfEntry(e, parent), level, fails)
    decreases e, 2
  {
    var path := AffiliationPath(e.name, parent);
    LoadedSnoc(acc.affiliations, [], Insert(path, parent), level, fails);
    LoadedAppend(acc.affiliations, [] + [Insert(path, parent)], Inserts(e.value, path), level, fails);
    assert [] + [Insert(path, parent)] + Inserts(e.value, path) == InsertsOfEntry(e, parent);
    r := Add(acc, path, parent, level, fails);
    if r.Ok? {
      r := LoadAffiliations(acc, e.value, path, level, fails);
    }
  }

  /** `addAffiliation`. */
  method Add(acc: Accessor, path: string, parent: string, level: int, fails: set<string>) returns (r: Result<()>)
    modifies acc`affiliations
    ensures Load(acc.affiliations, r.Ok?) == InsertOne(old(acc.affiliations), Insert(path, parent), level, fails)
  {
    r := acc.InsertAffiliation(path, parent, level, path in fails);
  }

  // What is loaded

  /** Loading succeeds exactly when every name asked for that fails is listed already; then exactly the names asked for
      are added. In any case rows are only added, and only names asked for. */
  lemma {:induction false} LoadedKeys(affs: map<string, Affiliation>, ins: seq<Insert>, level: int, fails: set<string>)
    ensures var l := Loaded(affs, ins, level, fails);
            && (l.ok <==> fails * PathsOf(ins) <= affs.Keys)
            && (l.ok ==> l.affs.Keys == affs.Keys + PathsOf(ins))
            && affs.Keys <= l.affs.Keys <= affs.Keys + PathsOf(ins)
            && (forall n :: n in affs ==> l.affs[n] == affs[n])
  {
    if ins != [] {
      var init, last := ins[..|ins| - 1], ins[|ins| - 1];
      LoadedKeys(affs, init, level, fails);
      PathsSnoc(init, last);
      assert ins == init + [last];
    }
  }

  lemma {:induction false} PathsSnoc(ins: seq<Insert>, i: Insert)
    ensures PathsOf(ins + [i]) == PathsOf(ins) + {i.path}
  {
    assert forall j :: 0 <= j < |ins| ==> (ins + [i])[j] == ins[j];
    assert (ins + [i])[|ins|] == i;
  }

  /** Every dotted name of the set has its parent there. */
  ghost predicate ClosedSet(names: set<string>) {
    forall n {:trigger HasDot(n)} :: n in names && HasDot(n) ==> Parent(n) in names
  }

  /** A completed load leaves a parent-closed table exactly when the old names and the names asked for are closed. */
  lemma {:induction false} LoadedClosed(affs: map<string, Affiliation>, ins: seq<Insert>, level: int,
                                        fails: set<string>)
    requires Loaded(affs, ins, level, fails).ok
    ensures ParentClosed(Loaded(affs, ins, level, fails).affs) <==> ClosedSet(affs.Keys + PathsOf(ins))
  {
    LoadedKeys(affs, ins, level, fails);
  }

  /** Every insert that adds a row names the right parent. */
  ghost predicate RightParents(affs: map<string, Affiliation>, ins: seq<Insert>) {
    ins != [] ==>
      var init, last := ins[..|ins| - 1], ins[|ins| - 1];
      RightParents(affs, init) && (last.path !in affs.Keys + PathsOf(init) ==> last.prekey == Parent(last.path))
  }

  /** And its prekeys are right exactly when they were before and every insert that adds a row names the right
      parent. */
  lemma {:induction false} LoadedPrekeys(affs: map<string, Affiliation>, ins: seq<Insert>, level: int,
                                         fails: set<string>)
    requires Loaded(affs, ins, level, fails).ok
    ensures PrekeysOk(Loaded(affs, ins, level, fails).affs) <==> PrekeysOk(affs) && RightParents(affs, ins)
  {
    if ins != [] {
      var init, last := ins[..|ins| - 1], ins[|ins| - 1];
      LoadedPrekeys(affs, init, level, fails);
      LoadedKeys(affs, init, level, fails);
      var l := Loaded(affs, init, level, fails);
      if last.path !in l.affs { PrekeysOneMore(l.affs, last, level); }
    }
  }

  lemma {:induction false} PrekeysOneMore(affs: map<string, Affiliation>, i: Insert, level: int)
    requires i.path !in affs
    ensures PrekeysOk(affs[i.path := Affiliation(i.prekey, level)]) <==> PrekeysOk(affs) && i.prekey == Parent(i.path)
  {
    var affs' := affs[i.path := Affiliation(i.prekey, level)];
    if PrekeysOk(affs') {
      forall n | n in affs ensures affs[n].prekey == Parent(n) { assert affs'[n] == affs[n]; }
      assert affs'[i.path].prekey == Parent(i.path);
    }
  }

  // Names without dots

  ghost predicate WellFormed(affs: map<string, Affiliation>) {
    ParentClosed(affs) && PrekeysOk(affs)
  }

  /** A well-formed table that lists the parent to load below. */
  ghost predicate Ready(affs: map<string, Affiliation>, parent: string) {
    WellFormed(affs) && (parent == "" || parent in affs)
  }

  lemma {:induction false} PathParent(name: string, parent: string)
    requires !HasDot(name)
    ensures Parent(AffiliationPath(name, parent)) == parent
    ensures HasDot(AffiliationPath(name, parent)) ==> parent != ""
  {
    if parent == "" {
      DotFreeParent(name);
    } else {
      ParentOfChild(parent, name);
    }
  }

  lemma {:induction false} InsertWellFormed(affs: map<string, Affiliation>, name: string, parent: string, level: int,
                                            fails: set<string>)
    requires !HasDot(name) && Ready(affs, parent)
    ensures var l := InsertOne(affs, Insert(AffiliationPath(name, parent), parent), level, fails);
            WellFormed(l.affs) && (l.ok ==> AffiliationPath(name, parent) in l.affs)
  {
    PathParent(name, parent);
  }

  /** Configured names without dots keep the table parent-closed with right prekeys, even when the loading stops
      early. */
  lemma {:induction false} DotFreeLoads(affs: map<string, Affiliation>, v: Value, parent: string, level: int,
                                        fails: set<string>)
    requires DotFree(v) && Ready(affs, parent)
    ensures WellFormed(Loaded(affs, Inserts(v, parent), level, fails).affs)
    decreases v, 1
  {
    match v
    case Nothing =>
    case Name(name) =>
      LoadedSnoc(affs, [], Insert(AffiliationPath(name, parent), parent), level, fails);
      assert [] + Inserts(v, parent) == Inserts(v, parent);
      InsertWellFormed(affs, name, parent, level, fails);
    case List(items) => ItemsLoad(affs, v, parent, level, fails, |items|);
    case Tree(entries) => EntriesLoad(affs, v, parent, level, fails, |entries|);
  }

  lemma {:induction false} ItemsLoad(affs: map<string, Affiliation>, v: Value, parent: string, level: int,
                                     fails: set<string>, k: nat)
    requires v.List? && k <= |v.items| && DotFree(v) && Ready(affs, parent)
    ensures WellFormed(Loaded(affs, ItemInserts(v.items, parent, k), level, fails).affs)
    decreases v, 0, k
  {
    if k > 0 {
      var before := ItemInserts(v.items, parent, k - 1);
      ItemsLoad(affs, v, parent, level, fails, k - 1);
      LoadedAppend(affs, before, Inserts(v.items[k - 1], parent), level, fails);
      LoadedKeys(affs, before, level, fails);
      DotFreeLoads(Loaded(affs, before, level, fails).affs, v.items[k - 1], parent, level, fails);
    }
  }

  lemma {:induction false} EntriesLoad(affs: map<string, Affiliation>, v: Value, parent: string, level: int,
                                       fails: set<string>, k: nat)
    requires v.Tree? && k <= |v.entries| && DotFree(v) && Ready(affs, parent)
    ensures WellFormed(Loaded(affs, EntryInserts(v.entries, parent, k), level, fails).affs)
    decreases v, 0, k
  {
    if k > 0 {
      var before := EntryInserts(v.entries, parent, k - 1);
      EntriesLoad(affs, v, parent, level, fails, k - 1);
      LoadedAppend(affs, before, InsertsOfEntry(v.entries[k - 1], parent), level, fails);
      LoadedKeys(affs, before, level, fails);
      EntryLoads(Loaded(affs, before, level, fails).affs, v.entries[k - 1], parent, level, fails);
    }
  }

  lemma {:induction false} EntryLoads(affs: map<string, Affiliation>, e: Entry, parent: string, level: int,
                                      fails: set<string>)
    requires !HasDot(e.name) && DotFree(e.value) && Ready(affs, parent)
    ensures WellFormed(Loaded(affs, InsertsOfEntry(e, parent), level, fails).affs)
    decreases e, 2
  {
    var path := AffiliationPath(e.name, parent);
    var one := [] + [Insert(path, parent)];
    LoadedSnoc(affs, [], Insert(path, parent), level, fails);
    LoadedAppend(affs, one, Inserts(e.value, path), level, fails);
    InsertWellFormed(affs, e.name, parent, level, fails);
    assert InsertsOfEntry(e, parent) == one + Inserts(e.value, path);
    var l := Loaded(affs, one, level, fails);
    if l.ok { DotFreeLoads(l.affs, e.value, path, level, fails); }
  }

  // Names with dots

  /** A dotted name alone: its parent is not inserted. */
  method DottedNameLosesParent() returns (acc: Accessor)
    ensures !ParentClosed(acc.affiliations)
  {
    Letters('a', 'b');
    assert |"a.b"| == 3 && |"a"| == 1;
    acc := new Accessor(DB(map[], map[], map[]));
    ghost var ins := Inserts(Name("a.b"), "");
    LoadedKeys(map[], ins, 0, {});
    LoadedClosed(map[], ins, 0, {});
    var r := LoadAffiliations(acc, Name("a.b"), "", 0, {});
    assert ins[0].path == "a.b" && PathsOf(ins) == {"a.b"};
  }

  /** A dotted name beside its parent: the table is parent-closed, but the prekey is wrong. */
  method DottedNameBesideParent() returns (acc: Accessor)
    ensures ParentClosed(acc.affiliations) && !PrekeysOk(acc.affiliations)
  {
    var v := List([Name("a"), Name("a.b")]);
    TwoNames("a", "a.b");
    TwoInserts();
    acc := new Accessor(DB(map[], map[], map[]));
    var r := LoadAffiliations(acc, v, "", 0, {});
  }

  lemma {:induction false} TwoNames(m: string, n: string)
    ensures Inserts(List([Name(m), Name(n)]), "") == [Insert(m, ""), Insert(n, "")]
  {
    var items := [Name(m), Name(n)];
    assert Inserts(items[0], "") == [Insert(m, "")] && Inserts(items[1], "") == [Insert(n, "")];
    assert ItemInserts(items, "", 1) == [] + [Insert(m, "")];
    assert ItemInserts(items, "", 2) == ItemInserts(items, "", 1) + [Insert(n, "")];
  }

  lemma {:induction false} TwoInserts()
    ensures var l := Loaded(map[], [Insert("a", ""), Insert("a.b", "")], 0, {});
            l.ok && ParentClosed(l.affs) && !PrekeysOk(l.affs)
  {
    Letters('a', 'b');
    assert |"a.b"| == 3 && |"a"| == 1;
    var ins := [Insert("a", ""), Insert("a.b", "")];
    LoadedKeys(map[], ins, 0, {});
    LoadedClosed(map[], ins, 0, {});
    LoadedPrekeys(map[], ins, 0, {});
    assert ins[0].path == "a" && ins[1].path == "a.b" && PathsOf(ins) == {"a", "a.b"};
    assert ins[..1] == [Insert("a", "")] && PathsOf(ins[..1]) == {"a"};
  }
}
