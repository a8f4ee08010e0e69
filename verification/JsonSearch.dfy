/** Which callbacks a search owes and when its walk fails, said of the values met and not of the walk. */
module JsonSearch {
  import opened Options
  import opened Strings
  import opened JsonStreamer

  /** The first element of the search with that path is number `k`. */
  predicate FirstAt(search: seq<SearchElement>, path: string, k: int) {
    0 <= k < |search| && search[k].path == path && forall j :: 0 <= j < k ==> search[j].path != path
  }

  lemma {:induction false} FoundFirst(search: seq<SearchElement>, path: string) returns (k: nat)
    ensures Find(search, path).Some? ==> FirstAt(search, path, k) && Find(search, path).value == search[k]
    ensures Find(search, path).None? ==> forall j :: 0 <= j < |search| ==> search[j].path != path
  {
    k := 0;
    if search != [] && search[0].path != path {
      k := FoundFirst(search[1..], path);
      k := k + 1;
    }
  }

  /** `w` is met in `v` through objects only, under these keys. */
  ghost predicate Met(v: Value, keys: seq<string>, w: Value)
    decreases v
  {
    if keys == [] then w == v
    else v.Obj? && exists i :: 0 <= i < |v.fields| && MetField(v.fields[i], keys, w)
  }

  ghost predicate MetField(f: Field, keys: seq<string>, w: Value)
    decreases f
  {
    keys != [] && f.key == keys[0] && Met(f.value, keys[1..], w)
  }

  /** The callback is for an element of an array met at a searched path. */
  ghost predicate Owed(v: Value, stack: seq<string>, search: seq<SearchElement>, c: Call) {
    exists keys, w :: Met(v, keys, w) && Calls(stack + keys, w, search, c)
  }

  predicate Calls(at: seq<string>, w: Value, search: seq<SearchElement>, c: Call) {
    && w.Arr? && c.element in w.items && c.path == Join(at, '.')
    && exists k :: 0 <= k < |search| && search[k].path == c.path
  }

  /** Exactly these callbacks are owed. */
  lemma {:induction false} VisitsOwed(v: Value, stack: seq<string>, search: seq<SearchElement>, c: Call)
    ensures c in Visits(v, stack, search) <==> Owed(v, stack, search, c)
    decreases v
  {
    assert stack + [] == stack && Met(v, [], v);
    if v.Arr? {
      var k := FoundFirst(search, Join(stack, '.'));
      if c in Visits(v, stack, search) { assert Calls(stack + [], v, search, c); }
      if Owed(v, stack, search, c) {
        var i :| 0 <= i < |v.items| && v.items[i] == c.element;
        assert CallsFor(Join(stack, '.'), v.items)[i] == c;
      }
    } else if v.Obj? {
      FieldVisitsOwed(v.fields, stack, search, c);
      ObjectOwes(v, stack, search, c);
    }
  }

  lemma {:induction false} ObjectOwes(v: Value, stack: seq<string>, search: seq<SearchElement>, c: Call)
    requires v.Obj?
    ensures Owed(v, stack, search, c) <==>
            exists i :: 0 <= i < |v.fields| && OwedField(v.fields[i], stack, search, c)
  {
    if Owed(v, stack, search, c) {
      var keys, w :| Met(v, keys, w) && Calls(stack + keys, w, search, c);
      var i :| 0 <= i < |v.fields| && MetField(v.fields[i], keys, w);
      assert stack + keys == stack + [v.fields[i].key] + keys[1..];
      assert OwedField(v.fields[i], stack, search, c);
    }
    forall i | 0 <= i < |v.fields| && OwedField(v.fields[i], stack, search, c) ensures Owed(v, stack, search, c) {
      var f := v.fields[i];
      var keys, w :| Met(f.value, keys, w) && Calls(stack + [f.key] + keys, w, search, c);
      assert ([f.key] + keys)[1..] == keys && MetField(f, [f.key] + keys, w);
      assert Met(v, [f.key] + keys, w) && stack + ([f.key] + keys) == stack + [f.key] + keys;
    }
  }

  ghost predicate OwedField(f: Field, stack: seq<string>, search: seq<SearchElement>, c: Call) {
    Owed(f.value, stack + [f.key], search, c)
  }

  lemma {:induction false} FieldVisitsOwed(fs: seq<Field>, stack: seq<string>, search: seq<SearchElement>, c: Call)
    ensures c in FieldVisits(fs, stack, search) <==> exists i :: 0 <= i < |fs| && OwedField(fs[i], stack, search, c)
    decreases fs
  {
    if fs != [] {
      var f, rest := fs[0], fs[1..];
      VisitsOwed(f.value, stack + [f.key], search, c);
      FieldVisitsOwed(rest, stack, search, c);
      if c in FieldVisits(rest, stack, search) {
        var i :| 0 <= i < |rest| && OwedField(rest[i], stack, search, c);
        assert fs[i + 1] == rest[i];
      }
      forall i | 0 < i < |fs| && OwedField(fs[i], stack, search, c) ensures c in FieldVisits(rest, stack, search) {
        assert rest[i - 1] == fs[i];
      }
    }
  }

  /** An object at a searched path, or an element for a failing callback. */
  ghost predicate Trouble(at: seq<string>, w: Value, search: seq<SearchElement>) {
    exists k :: FirstAt(search, Join(at, '.'), k) && (w.Obj? || (w.Arr? && w.items != [] && search[k].failing))
  }

  /** The walk fails exactly at trouble. */
  lemma {:induction false} StreamsUntroubled(v: Value, stack: seq<string>, search: seq<SearchElement>)
    ensures Streams(v, stack, search) <==> forall keys, w :: Met(v, keys, w) ==> !Trouble(stack + keys, w, search)
    decreases v
  {
    assert stack + [] == stack && Met(v, [], v);
    var k := FoundFirst(search, Join(stack, '.'));
    assert Trouble(stack, v, search) ==> Find(search, Join(stack, '.')).Some?;
    if v.Obj? {
      FieldsUntroubled(v.fields, stack, search);
      forall keys, w | Met(v, keys, w) && keys != [] && FieldsStream(v.fields, stack, search)
        ensures !Trouble(stack + keys, w, search)
      {
        var i :| 0 <= i < |v.fields| && MetField(v.fields[i], keys, w);
        assert Untroubled(v.fields[i], stack, search);
        assert stack + keys == stack + [v.fields[i].key] + keys[1..];
      }
      if !FieldsStream(v.fields, stack, search) {
        var i :| 0 <= i < |v.fields| && !Untroubled(v.fields[i], stack, search);
        var f := v.fields[i];
        var keys, w :| Met(f.value, keys, w) && Trouble(stack + [f.key] + keys, w, search);
        assert ([f.key] + keys)[1..] == keys && MetField(f, [f.key] + keys, w);
        assert Met(v, [f.key] + keys, w) && stack + ([f.key] + keys) == stack + [f.key] + keys;
      }
    }
  }

  ghost predicate Untroubled(f: Field, stack: seq<string>, search: seq<SearchElement>) {
    forall keys, w :: Met(f.value, keys, w) ==> !Trouble(stack + [f.key] + keys, w, search)
  }

  lemma {:induction false} FieldsUntroubled(fs: seq<Field>, stack: seq<string>, search: seq<SearchElement>)
    ensures FieldsStream(fs, stack, search) <==> forall i :: 0 <= i < |fs| ==> Untroubled(fs[i], stack, search)
    decreases fs
  {
    if fs != [] {
      var f, rest := fs[0], fs[1..];
      StreamsUntroubled(f.value, stack + [f.key], search);
      FieldsUntroubled(rest, stack, search);
      assert forall i :: 0 < i < |fs| ==> fs[i] == rest[i - 1];
      assert forall i :: 0 <= i < |rest| ==> rest[i] == fs[i + 1];
    }
  }
}
