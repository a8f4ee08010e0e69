/** The memoised tree of derived keys. */
module KeyTrees {
  import opened Options
  import opened Strings

  class KeyTree<Key> {
    const rootKey: Key
    const derive: (Key, string) -> Option<Key>    // deterministic; `None` is a failed derivation
    var keys: map<string, Key>

    constructor (rootKey: Key, derive: (Key, string) -> Option<Key>)
      ensures this.rootKey == rootKey && this.derive == derive && keys == map[]
      ensures Valid() && Exact()
    {
      this.rootKey, this.derive, keys := rootKey, derive, map[];
    }

    /** The uncached key of a path: child derivations folded from the root. */
    ghost function Derived(path: seq<string>): Option<Key>
      decreases |path|
    {
      if path == [] then Some(rootKey)
      else
        var parent := Derived(path[..|path| - 1]);
        if parent.None? then None else derive(parent.value, path[|path| - 1])
    }

    /** Every cache entry is the uncached key of some path that spells its name. */
    ghost predicate Valid()
      reads this
    {
      forall s :: s in keys ==> exists p :: Spells(p, s) && Derived(p) == Some(keys[s])
    }

    /** Every cache entry is the uncached key of the slash-free path that spells its name. */
    ghost predicate Exact()
      reads this
    {
      forall p: seq<string> {:trigger Join(p, '/')} ::
        |p| > 0 && SepFree(p, '/') && Join(p, '/') in keys ==> Derived(p) == Some(keys[Join(p, '/')])
    }

    ghost predicate Answered(path: seq<string>, key: Option<Key>) {
      if path == [] then key == Some(rootKey) else exists p :: Spells(p, Join(path, '/')) && key == Derived(p)
    }

    /** `GetKey`: cached or not, the answer is the uncached key of a path with the same spelling, and on slash-free
        paths, after slash-free paths only, of that very path. Entries are only added, whether or not a derivation
        fails. */
    method GetKey(path: seq<string>) returns (key: Option<Key>)
      requires Valid()
      modifies this`keys
      ensures Valid()
      ensures Answered(path, key)
      ensures old(Exact()) && SepFree(path, '/') ==> Exact() && key == Derived(path)
      ensures forall s :: s in old(keys) ==> s in keys && keys[s] == old(keys)[s]
      ensures |path| > 0 && key.Some? ==> Join(path, '/') in keys && keys[Join(path, '/')] == key.value
      ensures |path| > 0 && Join(path, '/') in old(keys) ==> key == Some(old(keys)[Join(path, '/')])
      decreases |path|
    {
      if |path| == 0 {
        return Some(rootKey);
      }
      var pathStr := Join(path, '/');
      if pathStr in keys {
        return Some(keys[pathStr]);
      }
      var init, last := path[..|path| - 1], path[|path| - 1];
      var parentKey := GetKey(init);
      ghost var p: seq<string> := if init == [] then [] else var q :| Spells(q, Join(init, '/')) &&
          parentKey == Derived(q); q;
      SpellsSnoc(path, p);
      if parentKey.None? {
        assert Derived(p + [last]).None?;
        return None;
      }
      key := derive(parentKey.value, last);
      assert Derived(p + [last]) == key;
      if key.None? {
        return None;
      }
      Store(path, key.value, p + [last]);
    }

    /** `k.keys[pathStr] = key`. */
    method Store(path: seq<string>, key: Key, ghost p: seq<string>)
      requires Valid() && |path| > 0 && Spells(p, Join(path, '/')) && Derived(p) == Some(key)
      modifies this`keys
      ensures keys == old(keys)[Join(path, '/') := key] && Valid()
      ensures old(Exact()) && SepFree(path, '/') && Derived(path) == Some(key) ==> Exact()
    {
      keys := keys[Join(path, '/') := key];
      if old(Exact()) && SepFree(path, '/') && Derived(path) == Some(key) {
        forall q: seq<string> | |q| > 0 && SepFree(q, '/') && Join(q, '/') in keys
          ensures Derived(q) == Some(keys[Join(q, '/')])
        {
          if Join(q, '/') == Join(path, '/') {
            JoinInjective(q, path, '/');
          }
        }
      }
    }

    /** Any sequence of lookups answers each with the uncached key of a path of its spelling; slash-free ones, as long
        as all are, with their own. */
    method Lookups(paths: seq<seq<string>>) returns (results: seq<Option<Key>>)
      requires Valid()
      modifies this`keys
      ensures Valid() && |results| == |paths|
      ensures forall i :: 0 <= i < |paths| ==> Answered(paths[i], results[i])
      ensures old(Exact()) && (forall i :: 0 <= i < |paths| ==> SepFree(paths[i], '/')) ==>
                Exact() && forall i :: 0 <= i < |paths| ==> results[i] == Derived(paths[i])
    {
      results := [];
      for i := 0 to |paths|
        invariant Valid() && |results| == i
        invariant forall j :: 0 <= j < i ==> Answered(paths[j], results[j])
        invariant old(Exact()) && (forall j :: 0 <= j < i ==> SepFree(paths[j], '/')) ==>
                    Exact() && forall j :: 0 <= j < i ==> results[j] == Derived(paths[j])
      {
        var key := GetKey(paths[i]);
        results := results + [key];
      }
    }
  }

  ghost predicate Spells(p: seq<string>, s: string) { |p| > 0 && Join(p, '/') == s }

  /** Another spelling of the parent, extended, is another spelling of the path. */
  lemma {:induction false} SpellsSnoc(path: seq<string>, p: seq<string>)
    requires |path| > 0
    requires if |path| == 1 then p == [] else Spells(p, Join(path[..|path| - 1], '/'))
    ensures Spells(p + [path[|path| - 1]], Join(path, '/'))
    ensures (p + [path[|path| - 1]])[..|p|] == p
  {
    var init, last := path[..|path| - 1], path[|path| - 1];
    assert path == init + [last];
    if |path| > 1 {
      JoinSnoc(init, last, '/');
      JoinSnoc(p, last, '/');
    }
  }

  lemma {:induction false} FreeTree(tree: KeyTree<seq<string>>, p: seq<string>)
    requires tree.rootKey == [] && forall k, s :: tree.derive(k, s) == Some(k + [s])
    ensures tree.Derived(p) == Some(p)
    decreases |p|
  {
    if p != [] {
      FreeTree(tree, p[..|p| - 1]);
      assert p == p[..|p| - 1] + [p[|p| - 1]];
    }
  }

  /** Slashes mislead: for every path with a slash in a component there is a path with the same spelling, and on a tree
      whose keys are the paths themselves, once that one has been looked up, the first is answered with its key. */
  method SlashMisleads(path: seq<string>) returns (tree: KeyTree<seq<string>>, other: seq<string>,
                       key: Option<seq<string>>)
    requires !SepFree(path, '/')
    ensures tree.Derived(path) == Some(path)
    ensures other != path && SepFree(other, '/') && Join(other, '/') == Join(path, '/')
    ensures key == Some(other)
  {
    tree := new KeyTree([], (k: seq<string>, s: string) => Some(k + [s]));
    other := Split(Join(path, '/'), '/');
    JoinSplit(Join(path, '/'), '/');
    FreeTree(tree, path);
    FreeTree(tree, other);
    var first := tree.GetKey(other);
    key := tree.GetKey(path);
  }

  /** After `a`, `b` the path `a/b` is answered with the key of `a`, `b`. */
  method SlashCollides() returns (key: Option<seq<string>>)
    ensures key == Some(["a", "b"])
  {
    assert "a/b"[1] == '/';
    assert !SepFree(["a/b"], '/') by { assert '/' in ["a/b"][0]; }
    var tree, other;
    tree, other, key := SlashMisleads(["a/b"]);
    assert ["a", "b"][1..] == ["b"] && "a" + ['/'] + "b" == "a/b";
    JoinInjective(other, ["a", "b"], '/');
  }
}
