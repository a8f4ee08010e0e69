/** Dotted affiliation names and the subtree order on them. */
module Paths {
  import opened Strings

  predicate HasDot(n: string) { '.' in n }

  /** Everything before the last dot; the empty string for a top-level name. */
  function Parent(n: string): (p: string)
    ensures n != "" ==> |p| < |n|
    ensures n == "" ==> p == ""
  {
    if n == "" then ""
    else if n[|n| - 1] == '.' then n[..|n| - 1]
    else Parent(n[..|n| - 1])
  }

  /** `n` is `root` or lies below it: `name = root OR name LIKE 'root.%'`. */
  predicate InSubtree(root: string, n: string) {
    n == root || root + "." <= n
  }

  /** Exact prefix substitution, for names that start with `old'`. */
  function Rebase(n: string, old': string, new': string): string {
    if old' <= n then new' + n[|old'|..] else n
  }

  lemma {:induction false} ParentSplits(n: string)
    requires HasDot(n)
    ensures |Parent(n)| < |n| && n[..|Parent(n)|] == Parent(n) && n[|Parent(n)|] == '.'
    ensures '.' !in n[|Parent(n)| + 1..] && forall i :: |Parent(n)| < i < |n| ==> n[i] != '.'
  {
    if n[|n| - 1] != '.' {
      var m := n[..|n| - 1];
      ParentSplits(m);
      assert forall i :: 0 <= i < |m| ==> m[i] == n[i];
    }
  }

  lemma {:induction false} DotFreeParent(n: string)
    requires !HasDot(n)
    ensures Parent(n) == ""
  {
    if n != "" { DotFreeParent(n[..|n| - 1]); }
  }

  lemma {:induction false} ParentOfChild(p: string, leaf: string)
    requires '.' !in leaf
    ensures Parent(p + "." + leaf) == p
  {
    var n := p + "." + leaf;
    if leaf == "" {
      assert n[..|n| - 1] == p;
    } else {
      assert n[..|n| - 1] == p + "." + leaf[..|leaf| - 1];
      ParentOfChild(p, leaf[..|leaf| - 1]);
    }
  }

  /** Names of one letter, and of two with a dot between them. */
  lemma {:induction false} Letters(x: char, y: char)
    requires x != '.' && y != '.'
    ensures Parent([x, '.', y]) == [x] && HasDot([x, '.', y]) && Parent([x]) == "" && !HasDot([x])
  {
    ParentOfChild([x], [y]);
    assert [x] + "." + [y] == [x, '.', y];
    assert [x, '.', y][1] == '.';
    DotFreeParent([x]);
  }

  /** A dotted name is its parent, a dot and a dot-free last component. */
  lemma {:induction false} ParentUnique(n: string, p: string)
    requires p + "." <= n && '.' !in n[|p| + 1..]
    ensures Parent(n) == p
  {
    assert n == p + "." + n[|p| + 1..];
    ParentOfChild(p, n[|p| + 1..]);
  }

  lemma {:induction false} SubtreeTransitive(a: string, b: string, c: string)
    requires InSubtree(a, b) && InSubtree(b, c)
    ensures InSubtree(a, c)
  {
    if a != b && b != c {
      assert c[..|a| + 1] == b[..|a| + 1];
    }
  }

  /** The parent of a name strictly below `root` is in the subtree of `root`, and conversely. */
  lemma {:induction false} ParentInSubtree(root: string, n: string)
    requires HasDot(n)
    ensures n != root && InSubtree(root, n) <==> InSubtree(root, Parent(n))
  {
    ParentSplits(n);
    var p := Parent(n);
    assert p + "." <= n;
    if n != root && InSubtree(root, n) {
      assert n[|root|] == '.';
      if |root| < |p| {
        assert p[..|root| + 1] == n[..|root| + 1];
      } else {
        assert n[..|root|] == root;
      }
    }
    if InSubtree(root, p) {
      SubtreeTransitive(root, p, n);
    }
  }

  predicate Below(root: string, n: string) { root + "." <= n }

  lemma {:induction false} BelowHasDot(root: string, n: string)
    requires Below(root, n)
    ensures HasDot(n)
  {
    assert n[|root|] == '.';
  }

  /** What is below a name is its children and what is below them. */
  lemma {:induction false} BelowParent(root: string, n: string)
    ensures Below(root, n) <==> HasDot(n) && (Parent(n) == root || Below(root, Parent(n)))
  {
    if Below(root, n) { BelowHasDot(root, n); }
    if HasDot(n) {
      ParentInSubtree(root, n);
      if n == root { ParentSplits(n); }
    }
  }

  lemma {:induction false} BelowChild(name: string, c: string, x: string)
    requires HasDot(c) && Parent(c) == name
    ensures Below(name, c) && !Below(c, name) && (Below(c, x) ==> Below(name, x))
  {
    ParentSplits(c);
    assert name + "." <= c;
    if Below(c, x) { SubtreeTransitive(name, c, x); }
  }

  lemma {:induction false} RebaseInSubtree(n: string, old': string, new': string)
    requires InSubtree(old', n)
    ensures old' <= n && InSubtree(new', Rebase(n, old', new'))
    ensures Rebase(Rebase(n, old', new'), new', old') == n
    ensures Rebase(n, old', new') == new' <==> n == old'
  {
    if n != old' {
      assert n[|old'|] == '.';
      assert Rebase(n, old', new')[..|new'| + 1] == new' + ".";
    }
  }

  /** Substitution below the root commutes with taking the parent. */
  lemma {:induction false} RebaseParent(n: string, old': string, new': string)
    requires n != old' && InSubtree(old', n)
    ensures HasDot(n) && HasDot(Rebase(n, old', new'))
    ensures InSubtree(old', Parent(n))
    ensures Parent(Rebase(n, old', new')) == Rebase(Parent(n), old', new')
  {
    BelowHasDot(old', n);
    ParentInSubtree(old', n);
    ParentSplits(n);
    var p := Parent(n);
    var m := Rebase(n, old', new');
    var q := Rebase(p, old', new');
    assert m[|q|..] == n[|p|..];
    assert m == q + "." + n[|p| + 1..];
    ParentUnique(m, q);
    assert m[|new'|] == '.';
  }

  /** `isChildAffiliation`: prefix test plus a comparison of component counts. */
  predicate IsChildAffiliation(name: string, child: string) {
    name + "." <= child && |Split(child, '.')| == |Split(name, '.')| + 1
  }

  /** The component count test is exactly "the parent of `child` is `name`". */
  lemma {:induction false} ChildIsParent(name: string, child: string)
    ensures IsChildAffiliation(name, child) <==> HasDot(child) && Parent(child) == name
  {
    if name + "." <= child {
      var rest := child[|name| + 1..];
      assert child == name + ['.'] + rest;
      SplitConcat(name, rest, '.');
      SplitSingle(rest, '.');
      BelowHasDot(name, child);
      ParentSplits(child);
      if '.' !in rest {
        ParentUnique(child, name);
      }
    } else if HasDot(child) {
      ParentSplits(child);
    }
  }
}
