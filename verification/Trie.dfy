/** The affiliation trie: insertion by path, and the tree filled from it through a shared path slice. */
module Trie {
  import opened Strings
  import opened Paths
  import opened AffiliationTree
  import opened Options

  type Path = seq<string>

  class Node {
    ghost const path: Path
    var children: map<string, Node>

    constructor (ghost path: Path)
      ensures this.path == path && children == map[]
    {
      this.path := path;
      children := map[];
    }
  }

  /** The child pointer that leads to the node at `p`. */
  ghost predicate Linked(at: map<Path, Node>, p: Path)
    requires p in at && |p| > 0
    reads at.Values
  {
    var init, last := p[..|p| - 1], p[|p| - 1];
    init in at && last in at[init].children && at[init].children[last] == at[p]
  }

  ghost predicate ChildrenAt(at: map<Path, Node>, p: Path)
    requires p in at
    reads at.Values
  {
    forall k :: k in at[p].children ==> p + [k] in at && at[p + [k]] == at[p].children[k]
  }

  /** `at` names the nodes of a trie by their paths, and the child pointers are exactly the one-component extensions. */
  ghost predicate Valid(at: map<Path, Node>)
    reads at.Values
  {
    && [] in at
    && (forall p {:trigger Linked(at, p)} :: p in at && |p| > 0 ==> Linked(at, p))
    && (forall p {:trigger ChildrenAt(at, p)} :: p in at ==> ChildrenAt(at, p))
    && (forall p :: p in at ==> at[p].path == p)
  }

  /** `p` extended by the prefixes of `path`. */
  ghost function Extensions(p: Path, path: Path): set<Path> {
    set i | 0 <= i <= |path| :: p + path[..i]
  }

  lemma {:induction false} ExtensionsStep(p: Path, path: Path)
    requires |path| > 0
    ensures Extensions(p, path) == {p} + Extensions(p + [path[0]], path[1..])
  {
    var rest := Extensions(p + [path[0]], path[1..]);
    assert p + path[..0] == p;
    forall i | 1 <= i <= |path| ensures p + path[..i] == p + [path[0]] + path[1..][..i - 1] && p + path[..i] in rest {
      assert path[..i] == [path[0]] + path[1..][..i - 1];
    }
    forall q | q in rest ensures q in Extensions(p, path) {
      var i :| 0 <= i <= |path[1..]| && q == p + [path[0]] + path[1..][..i];
      assert path[..i + 1] == [path[0]] + path[1..][..i];
      assert q == p + path[..i + 1];
    }
  }

  lemma {:induction false} Snoc(q: seq<string>)
    requires |q| > 0
    ensures q == q[..|q| - 1] + [q[|q| - 1]]
  {
  }

  /** One missing child is created. */
  method AddChild(node: Node, key: string, ghost at: map<Path, Node>, ghost p: Path) returns (ghost at': map<Path,
                  Node>)
    requires Valid(at) && p in at && at[p] == node && key !in node.children
    modifies node
    ensures p + [key] !in at
    ensures key in node.children && fresh(node.children[key]) && at' == at[p + [key] := node.children[key]]
    ensures Valid(at')
  {
    ghost var ext := p + [key];
    assert ext[..|ext| - 1] == p;
    assert ext in at ==> Linked(at, ext);
    var child := new Node(ext);
    node.children := node.children[key := child];
    at' := at[ext := child];
    forall q | q in at' && |q| > 0 ensures Linked(at', q) {
      Snoc(q);
      if q != ext { assert old(Linked(at, q)); }
    }
    forall q | q in at' ensures ChildrenAt(at', q) {
      if q != ext { assert old(ChildrenAt(at, q)); }
    }
  }

  /** `insertByPath`, at the node named `p`: exactly the extensions of `p` by prefixes of the path are added. */
  method InsertByPath(node: Node, path: Path, ghost at: map<Path, Node>, ghost p: Path) returns (ghost at': map<Path,
                      Node>)
    requires Valid(at) && p in at && at[p] == node
    modifies at.Values
    ensures Valid(at') && at'.Keys == at.Keys + Extensions(p, path)
    ensures forall q :: q in at ==> at'[q] == at[q]
    ensures forall q :: q in at' && q !in at ==> fresh(at'[q])
    decreases |path|
  {
    at' := at;
    if |path| == 0 {
      assert p + path[..0] == p;
      assert Extensions(p, path) == {p};
      return;
    }
    ExtensionsStep(p, path);
    var key := path[0];
    if key !in node.children {
      at' := AddChild(node, key, at, p);
    } else {
      assert ChildrenAt(at, p);
    }
    ghost var mid := at';
    at' := InsertByPath(node.children[key], path[1..], mid, p + [key]);
    assert p + [key] + path[1..][..0] == p + [key];
  }

  // Filling the response tree

  /** What is stored strictly below `p`. */
  ghost function StoredBelow(keys: set<Path>, p: Path): set<Path> {
    set q | q in keys && p < q
  }

  /** `info` is the tree of the stored paths from `p` down: its children are the stored one-component extensions,
      each once. */
  ghost predicate FilledAt(info: Info, p: Path, keys: set<Path>)
    decreases info
  {
    && info.name == Join(p, '.')
    && info.identities == []
    && exists order: seq<string> :: FilledInOrder(info.affiliations, p, keys, order) && NamesChildren(order, p, keys)
  }

  /** `order` names exactly the stored children of `p`. */
  ghost predicate NamesChildren(order: seq<string>, p: Path, keys: set<Path>) {
    forall k {:trigger StoredChild(p, k, keys)} :: StoredChild(p, k, keys) <==> k in order
  }

  ghost predicate StoredChild(p: Path, k: string, keys: set<Path>) { p + [k] in keys }

  ghost predicate FilledInOrder(infos: seq<Info>, p: Path, keys: set<Path>, order: seq<string>)
    decreases infos
  {
    && |order| == |infos| && AllDistinct(order)
    && forall i :: 0 <= i < |infos| ==> FilledAt(infos[i], p + [order[i]], keys)
  }

  /** Go's `append(path, key)`: written in place when the slice has spare capacity, so siblings share the slot. */
  method Append(buf: array<string>, len: nat, key: string) returns (buf': array<string>)
    requires len <= buf.Length
    modifies buf
    ensures len < buf'.Length && buf'[..len + 1] == old(buf[..len]) + [key]
    ensures buf' == buf || fresh(buf')
    ensures buf[..len] == old(buf[..len])
  {
    if len < buf.Length {
      buf[len] := key;
      buf' := buf;
    } else {
      var prefix := buf[..len];
      buf' := new string[2 * len + 1](i => if 0 <= i < |prefix| then prefix[i] else "");
      buf'[len] := key;
    }
  }

  /** `fill`: the path slice is shared between siblings, but each name is built before the slot is reused. */
  method Fill(node: Node, buf: array<string>, len: nat, ghost at: map<Path, Node>, ghost p: Path) returns (info: Info)
    requires Valid(at) && p in at && at[p] == node
    requires len <= buf.Length && buf[..len] == p
    modifies buf
    ensures buf[..len] == p
    ensures FilledAt(info, p, at.Keys)
    decreases StoredBelow(at.Keys, p)
  {
    var name := Join(buf[..len], '.');
    var infos: seq<Info> := [];
    ghost var order: seq<string> := [];
    var rest := node.children.Keys;
    while rest != {}
      invariant rest <= node.children.Keys && buf[..len] == p
      invariant forall k :: k in order <==> k in node.children && k !in rest
      invariant FilledInOrder(infos, p, at.Keys, order)
      decreases rest
    {
      var key :| key in rest;
      assert ChildrenAt(at, p);
      var childBuf := Append(buf, len, key);
      BelowShrinks(at.Keys, p, key);
      var child := Fill(node.children[key], childBuf, len + 1, at, p + [key]);
      assert buf[..len] == p by {
        assert childBuf == buf ==> buf[..len] == buf[..len + 1][..len];
      }
      FilledSnoc(infos, child, p, at.Keys, order, key);
      infos, order := infos + [child], order + [key];
      rest := rest - {key};
    }
    forall k ensures StoredChild(p, k, at.Keys) <==> k in order {
      assert ChildrenAt(at, p);
      if p + [k] in at {
        assert Linked(at, p + [k]);
        assert (p + [k])[..|p|] == p;
      }
    }
    info := Info(name, [], infos);
    assert FilledInOrder(info.affiliations, p, at.Keys, order);
  }

  lemma {:induction false} BelowShrinks(keys: set<Path>, p: Path, key: string)
    requires p + [key] in keys
    ensures StoredBelow(keys, p + [key]) < StoredBelow(keys, p)
  {
    assert p + [key] in StoredBelow(keys, p);
  }

  lemma {:induction false} FilledSnoc(infos: seq<Info>, child: Info, p: Path, keys: set<Path>, order: seq<string>,
                                      key: string)
    requires FilledInOrder(infos, p, keys, order) && FilledAt(child, p + [key], keys) && key !in order
    ensures FilledInOrder(infos + [child], p, keys, order + [key])
  {
  }

  // What the filled tree lists

  ghost predicate PrefixClosed(keys: set<Path>) {
    forall q {:trigger q[..|q| - 1]} :: q in keys && |q| > 0 ==> q[..|q| - 1] in keys
  }

  ghost predicate DotFreeKeys(keys: set<Path>) {
    forall q :: q in keys ==> SepFree(q, '.')
  }

  lemma {:induction false} PrefixInKeys(keys: set<Path>, q: Path, i: nat)
    requires PrefixClosed(keys) && q in keys && i <= |q|
    ensures q[..i] in keys
    decreases |q|
  {
    if i < |q| {
      var init := q[..|q| - 1];
      PrefixInKeys(keys, init, i);
      assert init[..i] == q[..i];
    } else {
      assert q[..i] == q;
    }
  }

  /** The tree filled at `p` lists the dotted name of a path once if the path is stored at or below `p`, else never. */
  lemma {:induction false} FilledCount(info: Info, p: Path, keys: set<Path>, q: Path)
    requires FilledAt(info, p, keys) && PrefixClosed(keys) && DotFreeKeys(keys) && p in keys
    requires |p| > 0 && |q| > 0 && SepFree(q, '.')
    ensures Count(NamesIn(info), Join(q, '.')) == if q in keys && p <= q then 1 else 0
    decreases info, 1
  {
    var order :| FilledInOrder(info.affiliations, p, keys, order) && NamesChildren(order, p, keys);
    assert forall i :: 0 <= i < |order| ==> StoredChild(p, order[i], keys);
    var n := Join(q, '.');
    var names := NamesInAll(info.affiliations);
    FilledCountAll(info.affiliations, p, keys, order, q);
    assert Count(names, n) == if q in keys && p < q then 1 else 0 by { NextComponent(p, keys, q); }
    assert Count([info.name], n) == if p == q then 1 else 0 by {
      assert [info.name][..0] == [];
      if Join(p, '.') == n { JoinInjective(p, q, '.'); }
    }
    CountAppend([info.name], names, n);
    assert NamesIn(info) == [info.name] + names;
  }

  /** A stored path strictly below `p` goes through a stored child of `p`. */
  lemma {:induction false} NextComponent(p: Path, keys: set<Path>, q: Path)
    requires PrefixClosed(keys)
    ensures q in keys && p < q ==> StoredChild(p, q[|p|], keys)
  {
    if q in keys && p < q {
      PrefixInKeys(keys, q, |p| + 1);
      assert q[..|p| + 1] == p + [q[|p|]];
    }
  }

  lemma {:induction false} PrefixSnoc(p: Path, key: string, q: Path)
    ensures p + [key] <= q <==> p < q && q[|p|] == key
  {
  }

  lemma {:induction false} FilledCountAll(infos: seq<Info>, p: Path, keys: set<Path>, order: seq<string>, q: Path)
    requires FilledInOrder(infos, p, keys, order) && PrefixClosed(keys) && DotFreeKeys(keys)
    requires forall i :: 0 <= i < |order| ==> StoredChild(p, order[i], keys)
    requires |q| > 0 && SepFree(q, '.')
    ensures Count(NamesInAll(infos), Join(q, '.')) == if q in keys && p < q && q[|p|] in order then 1 else 0
    decreases infos, 0
  {
    if infos != [] {
      var init, last := infos[..|infos| - 1], infos[|infos| - 1];
      var order', key := order[..|order| - 1], order[|order| - 1];
      Snoc(order);
      assert FilledInOrder(init, p, keys, order');
      FilledCountAll(init, p, keys, order', q);
      FilledCount(last, p + [key], keys, q);
      CountAppend(NamesInAll(init), NamesIn(last), Join(q, '.'));
      PrefixSnoc(p, key, q);
      assert key !in order';
    }
  }

  /** In the filled tree every node lies under the node of its parent. */
  lemma {:induction false} FilledUnderParents(info: Info, p: Path, keys: set<Path>)
    requires FilledAt(info, p, keys) && DotFreeKeys(keys) && p != []
    ensures Faithful(info, [])
    decreases info
  {
    var order :| FilledInOrder(info.affiliations, p, keys, order) && NamesChildren(order, p, keys);
    forall i | 0 <= i < |order| ensures ChildOf(info.affiliations[i], info.name, []) {
      var q := p + [order[i]];
      assert StoredChild(p, order[i], keys);
      assert q[|p|] == order[i];
      FilledUnderParents(info.affiliations[i], q, keys);
      JoinSnoc(p, order[i], '.');
      ParentOfChild(Join(p, '.'), order[i]);
      assert Join(q, '.')[|Join(p, '.')|] == '.';
    }
  }

  /** The children of the root are the top-level names. */
  lemma {:induction false} FilledTops(info: Info, keys: set<Path>)
    requires FilledAt(info, [], keys) && DotFreeKeys(keys)
    ensures forall i :: 0 <= i < |info.affiliations| ==>
              !HasDot(info.affiliations[i].name) && Faithful(info.affiliations[i], [])
  {
    var order :| FilledInOrder(info.affiliations, [], keys, order) && NamesChildren(order, [], keys);
    forall i | 0 <= i < |order| ensures !HasDot(info.affiliations[i].name) && Faithful(info.affiliations[i], []) {
      var q := [] + [order[i]];
      assert StoredChild([], order[i], keys);
      assert q[0] == order[i] && Join(q, '.') == order[i];
      FilledUnderParents(info.affiliations[i], q, keys);
    }
  }

  // Building from a list of names

  lemma {:induction false} JoinAppend(a: Path, b: Path)
    requires |a| > 0 && |b| > 0
    ensures Join(a + b, '.') == Join(a, '.') + "." + Join(b, '.')
  {
    if |a| == 1 {
      assert (a + b)[1..] == b;
    } else {
      JoinAppend(a[1..], b);
      assert (a + b)[1..] == a[1..] + b;
    }
  }

  /** The prefixes of the components of `x` are its ancestors and itself. */
  lemma {:induction false} PrefixIsAncestor(x: string, n: string)
    ensures Split(n, '.') <= Split(x, '.') <==> InSubtree(n, x)
  {
    var parts, ps := Split(x, '.'), Split(n, '.');
    JoinSplit(x, '.');
    JoinSplit(n, '.');
    if ps <= parts && ps != parts {
      var rest := parts[|ps|..];
      assert parts == ps + rest;
      JoinAppend(ps, rest);
    }
    if n + "." <= x {
      var rest := x[|n| + 1..];
      assert x == n + ['.'] + rest;
      SplitConcat(n, rest, '.');
    }
  }

  lemma {:induction false} ExtensionsOfRoot(path: Path, q: Path)
    ensures q in Extensions([], path) <==> q <= path
  {
    if q <= path {
      assert q == [] + path[..|q|];
    }
    if q in Extensions([], path) {
      var i :| 0 <= i <= |path| && q == [] + path[..i];
    }
  }

  /** The rows are inserted one by one. */
  method InsertAll(root: Node, names: seq<string>) returns (ghost at: map<Path, Node>)
    requires root.children == map[] && root.path == []
    modifies root
    ensures Valid(at) && at[[]] == root
    ensures forall q :: q in at <==> q == [] || exists j :: 0 <= j < |names| && q <= Split(names[j], '.')
  {
    at := map[[] := root];
    for j := 0 to |names|
      invariant Valid(at) && at[[]] == root
      invariant forall q :: q in at && at[q] != root ==> fresh(at[q])
      invariant forall q :: q in at <==> q == [] || exists i :: 0 <= i < j && q <= Split(names[i], '.')
    {
      ghost var before := at;
      at := InsertByPath(root, Split(names[j], '.'), at, []);
      PathsOneMore(before.Keys, at.Keys, names, j);
    }
  }

  lemma {:induction false} PathsOneMore(before: set<Path>, after: set<Path>, names: seq<string>, j: nat)
    requires j < |names| && after == before + Extensions([], Split(names[j], '.'))
    requires forall q :: q in before <==> q == [] || exists i :: 0 <= i < j && q <= Split(names[i], '.')
    ensures forall q :: q in after <==> q == [] || exists i :: 0 <= i < j + 1 && q <= Split(names[i], '.')
  {
    forall q ensures q in after <==> q == [] || exists i :: 0 <= i < j + 1 && q <= Split(names[i], '.') {
      ExtensionsOfRoot(Split(names[j], '.'), q);
    }
  }

  lemma {:induction false} StoredKeys(keys: set<Path>, names: seq<string>)
    requires forall q :: q in keys <==> q == [] || exists j :: 0 <= j < |names| && q <= Split(names[j], '.')
    ensures PrefixClosed(keys) && DotFreeKeys(keys)
  {
    forall q | q in keys ensures SepFree(q, '.') && (|q| > 0 ==> q[..|q| - 1] in keys) {
      if q != [] {
        var j :| 0 <= j < |names| && q <= Split(names[j], '.');
        JoinSplit(names[j], '.');
        assert q[..|q| - 1] <= Split(names[j], '.');
      }
    }
  }

  /** `getAffiliations` and `GetRoot`: whatever the order of the rows, the children of the filled root list exactly the
      rows and their ancestors, each once and under its own parent. The answer is that root, or its only child; without
      rows there is none, and the original then dereferences nil. */
  method GetAffiliations(names: seq<string>) returns (result: Info, answer: Option<Info>)
    ensures forall n :: Count(NamesInAll(result.affiliations), n) == if AncestorOfSome(names, n) then 1 else 0
    ensures forall i :: 0 <= i < |result.affiliations| ==>
              !HasDot(result.affiliations[i].name) && Faithful(result.affiliations[i], [])
    ensures answer.None? <==> names == []
    ensures answer.Some? ==> answer.value == if |result.affiliations| == 1 then result.affiliations[0] else result
  {
    var root := new Node([]);
    ghost var at := InsertAll(root, names);
    var buf := new string[0];
    result := Fill(root, buf, 0, at, []);
    StoredKeys(at.Keys, names);
    forall n ensures Count(NamesInAll(result.affiliations), n) == if AncestorOfSome(names, n) then 1 else 0 {
      ListedOnce(result, at.Keys, names, n);
    }
    FilledTops(result, at.Keys);
    SomeListed(result, names);
    answer := if |result.affiliations| == 0 then None
              else Some(if |result.affiliations| == 1 then result.affiliations[0] else result);
  }

  lemma {:induction false} SomeListed(info: Info, names: seq<string>)
    requires forall n :: Count(NamesInAll(info.affiliations), n) == if AncestorOfSome(names, n) then 1 else 0
    ensures info.affiliations == [] <==> names == []
  {
    if names != [] {
      assert InSubtree(names[0], names[0]) && AncestorOfSome(names, names[0]);
    }
    if info.affiliations != [] {
      var last := info.affiliations[|info.affiliations| - 1];
      CountAppend(NamesInAll(info.affiliations[..|info.affiliations| - 1]), NamesIn(last), last.name);
      CountAppend([last.name], NamesInAll(last.affiliations), last.name);
      assert Count([last.name], last.name) == 1;
      assert AncestorOfSome(names, last.name) <==> Count(NamesInAll(info.affiliations), last.name) == 1;
    }
  }

  ghost predicate AncestorOfSome(names: seq<string>, n: string) {
    exists j :: 0 <= j < |names| && InSubtree(n, names[j])
  }

  lemma {:induction false} ListedOnce(info: Info, keys: set<Path>, names: seq<string>, n: string)
    requires FilledAt(info, [], keys) && PrefixClosed(keys) && DotFreeKeys(keys)
    requires forall q :: q in keys <==> q == [] || exists j :: 0 <= j < |names| && q <= Split(names[j], '.')
    ensures Count(NamesInAll(info.affiliations), n) == if AncestorOfSome(names, n) then 1 else 0
  {
    JoinSplit(n, '.');
    StoredOnce(info, keys, Split(n, '.'));
    StoredAreAncestors(keys, names, n);
  }

  lemma {:induction false} StoredOnce(info: Info, keys: set<Path>, q: Path)
    requires FilledAt(info, [], keys) && PrefixClosed(keys) && DotFreeKeys(keys) && q != [] && SepFree(q, '.')
    ensures Count(NamesInAll(info.affiliations), Join(q, '.')) == if q in keys then 1 else 0
  {
    var order :| FilledInOrder(info.affiliations, [], keys, order) && NamesChildren(order, [], keys);
    assert forall i :: 0 <= i < |order| ==> StoredChild([], order[i], keys);
    FilledCountAll(info.affiliations, [], keys, order, q);
    NextComponent([], keys, q);
  }

  lemma {:induction false} StoredAreAncestors(keys: set<Path>, names: seq<string>, n: string)
    requires forall q :: q in keys <==> q == [] || exists j :: 0 <= j < |names| && q <= Split(names[j], '.')
    ensures Split(n, '.') in keys <==> AncestorOfSome(names, n)
  {
    forall j | 0 <= j < |names| ensures Split(n, '.') <= Split(names[j], '.') <==> InSubtree(n, names[j]) {
      PrefixIsAncestor(names[j], n);
    }
  }
}
