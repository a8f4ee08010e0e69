/** In which order of the list the response names every affiliation once. */
module AffiliationOrder {
  import opened Paths
  import opened AffiliationTree

  // What one call places, and what it leaves for its callers to see

  ghost function Placed(s: seq<string>, name: string, ids: seq<Identity>): seq<string> {
    NamesInAll(FillFrom(s, name, ids).children)
  }

  ghost function Left(s: seq<string>, name: string, ids: seq<Identity>): (v: seq<string>)
    ensures |v| == |s|
  {
    FillFrom(s, name, ids).view
  }

  lemma {:induction false} NamesInAllCons(info: Info, infos: seq<Info>)
    ensures NamesInAll([info] + infos) == NamesIn(info) + NamesInAll(infos)
  {
    if infos == [] {
      assert [info] + infos == [] + [info];
      NamesInAllSnoc([], info);
    } else {
      var init, last := infos[..|infos| - 1], infos[|infos| - 1];
      NamesInAllCons(info, init);
      NamesInAllSnoc([info] + init, last);
      NamesInAllSnoc(init, last);
      assert infos == init + [last] && [info] + infos == [info] + init + [last];
      Regroup3(NamesIn(info), NamesInAll(init), NamesIn(last));
    }
  }

  lemma {:induction false} NamesInAllSnoc(infos: seq<Info>, last: Info)
    ensures NamesInAll(infos + [last]) == NamesInAll(infos) + NamesIn(last)
  {
    assert (infos + [last])[..|infos|] == infos;
  }

  lemma {:induction false} Regroup3<T>(a: seq<T>, b: seq<T>, c: seq<T>)
    ensures a + b + c == a + (b + c)
  {
  }

  lemma {:induction false} CountIn<T>(s: seq<T>, x: T)
    ensures Count(s, x) > 0 <==> x in s
  {
    if s != [] {
      CountIn(s[..|s| - 1], x);
      assert s == s[..|s| - 1] + [s[|s| - 1]];
    }
  }

  lemma {:induction false} CountOne<T>(x: T, y: T)
    ensures Count([x], y) == if x == y then 1 else 0
  {
    assert [x][..0] == [];
  }

  lemma {:induction false} CountOthers(s: seq<string>, name: string, x: string)
    requires HasChild(s, name)
    ensures Count(s, x) == Count(Others(s, name), x) + if x == Taken(s, name) then 1 else 0
    ensures |Others(s, name)| == |s| - 1 && IsChild(name, Taken(s, name))
    ensures s[|s| - 1] == Taken(s, name) || (|s| > 1 && s[|s| - 1] == Others(s, name)[|s| - 2])
  {
    var k := FirstChild(s, name, 0);
    FirstChildIsFirst(s, name, 0, k);
    var a, b := s[..k], s[k + 1..];
    assert s == a + ([s[k]] + b);
    CountAppend(a, [s[k]] + b, x);
    CountAppend([s[k]], b, x);
    CountAppend(a, b, x);
    CountOne(s[k], x);
  }

  /** One round, counted at one name. */
  lemma {:induction false} Round(s: seq<string>, name: string, ids: seq<Identity>, x: string)
    requires HasChild(s, name)
    ensures var c, t := Taken(s, name), Others(s, name);
            var v := Left(t, c, ids);
            && Count(Placed(s, name, ids), x) ==
               (if x == c then 1 else 0) + Count(Placed(t, c, ids), x) + Count(Placed(v, name, ids), x)
            && Left(s, name, ids) == Left(v, name, ids) + [s[|s| - 1]]
            && Count(Left(s, name, ids), x) == Count(Left(v, name, ids), x) + if x == s[|s| - 1] then 1 else 0
  {
    var c, t := Taken(s, name), Others(s, name);
    var sub := FillFrom(t, c, ids);
    var rest := FillFrom(sub.view, name, ids);
    var info := Info(c, IdentitiesOf(ids, c), sub.children);
    NamesInAllCons(info, rest.children);
    CountAppend(NamesIn(info), NamesInAll(rest.children), x);
    CountAppend([c], NamesInAll(sub.children), x);
    CountOne(c, x);
    CountAppend(rest.view, [s[|s| - 1]], x);
    CountOne(s[|s| - 1], x);
  }

  /** Names that are not below `name` stay visible to the callers, at least as often as before. */
  lemma {:induction false} Kept(s: seq<string>, name: string, ids: seq<Identity>, x: string)
    requires !Below(name, x)
    ensures Count(Left(s, name, ids), x) >= Count(s, x)
    decreases |s|
  {
    if HasChild(s, name) {
      var c, t := Taken(s, name), Others(s, name);
      Round(s, name, ids, x);
      CountOthers(s, name, x);
      BelowChild(name, c, x);
      Kept(t, c, ids, x);
      Kept(Left(t, c, ids), name, ids, x);
    }
  }

  /** `x` hangs on `name` by a chain of listed names. */
  ghost predicate Reachable(s: seq<string>, name: string, x: string)
    decreases |x|
  {
    x in s && HasDot(x) && (Parent(x) == name || Reachable(s, name, Parent(x)))
  }

  lemma {:induction false} ReachableIsBelow(s: seq<string>, name: string, x: string)
    requires Reachable(s, name, x)
    ensures Below(name, x)
    decreases |x|
  {
    BelowParent(name, x);
    if Parent(x) != name { ReachableIsBelow(s, name, Parent(x)); }
  }

  lemma {:induction false} ReachableInMore(s: seq<string>, more: seq<string>, name: string, x: string)
    requires Reachable(s, name, x) && forall y :: y in s ==> y in more
    ensures Reachable(more, name, x)
    decreases |x|
  {
    if Parent(x) != name { ReachableInMore(s, more, name, Parent(x)); }
  }

  lemma {:induction false} ReachableThrough(s: seq<string>, more: seq<string>, name: string, c: string, x: string)
    requires Reachable(s, c, x) && c in more && IsChild(name, c) && forall y :: y in s ==> y in more
    ensures Reachable(more, name, x)
    decreases |x|
  {
    if Parent(x) != c { ReachableThrough(s, more, name, c, Parent(x)); }
  }

  /** A chain to something below a child of `name` goes through that child. */
  lemma {:induction false} ThroughTheChild(s: seq<string>, name: string, c: string, x: string)
    requires Reachable(s, name, x) && IsChild(name, c) && Below(c, x)
    ensures c in s
    decreases |x|
  {
    BelowParent(c, x);
    BelowChild(name, c, x);
    if Parent(x) != name && Parent(x) != c { ThroughTheChild(s, name, c, Parent(x)); }
  }

  /** Nothing new shows up, and what is placed was reachable. */
  lemma {:induction false} OnlyListed(s: seq<string>, name: string, ids: seq<Identity>, x: string)
    ensures x in Left(s, name, ids) ==> x in s
    ensures Count(Placed(s, name, ids), x) > 0 ==> Reachable(s, name, x)
    decreases |s|
  {
    if HasChild(s, name) {
      var c, t := Taken(s, name), Others(s, name);
      var v := Left(t, c, ids);
      Round(s, name, ids, x);
      TakenOut(s, name);
      forall y | y in v ensures y in t && y in s { OnlyListed(t, c, ids, y); }
      OnlyListed(t, c, ids, x);
      OnlyListed(v, name, ids, x);
      if Reachable(t, c, x) { ReachableThrough(t, s, name, c, x); }
      if Reachable(v, name, x) { ReachableInMore(v, s, name, x); }
    }
  }

  lemma {:induction false} TakenOut(s: seq<string>, name: string)
    requires HasChild(s, name)
    ensures IsChild(name, Taken(s, name)) && Taken(s, name) in s
    ensures forall y :: y in s <==> y in Others(s, name) || y == Taken(s, name)
  {
    forall y ensures y in s <==> y in Others(s, name) || y == Taken(s, name) {
      CountOthers(s, name, y);
      CountIn(s, y);
      CountIn(Others(s, name), y);
    }
    CountOthers(s, name, "");
  }

  // Nothing is lost

  /** Every name of `T` is listed and hangs on `name` within `T`. */
  ghost predicate Hangs(T: set<string>, s: seq<string>, name: string) {
    forall y {:trigger Below(name, y)} :: y in T ==> y in s && Below(name, y) && (Parent(y) == name || Parent(y) in T)
  }

  lemma {:induction false} HangsOnAChild(T: set<string>, s: seq<string>, name: string, x: string)
    requires Hangs(T, s, name) && x in T
    ensures HasChild(s, name)
    decreases |x|
  {
    assert Below(name, x);
    BelowParent(name, x);
    if Parent(x) == name {
      var i :| 0 <= i < |s| && s[i] == x;
      FirstChildIsFirst(s, name, 0, |s|);
    } else {
      HangsOnAChild(T, s, name, Parent(x));
    }
  }

  /** In whatever order the names are listed, each is placed at least as often as it is listed. */
  lemma {:induction false} NothingLost(s: seq<string>, name: string, ids: seq<Identity>, T: set<string>, x: string)
    requires Hangs(T, s, name) && x in T
    ensures Count(Placed(s, name, ids), x) >= Count(s, x)
    decreases |s|
  {
    HangsOnAChild(T, s, name, x);
    var c, t := Taken(s, name), Others(s, name);
    var v := Left(t, c, ids);
    Round(s, name, ids, x);
    CountOthers(s, name, x);
    if Below(c, x) {
      var T' := set y | y in T && Below(c, y);
      HangsBelow(T, s, name, T');
      NothingLost(t, c, ids, T', x);
    } else if x != c || c in t {
      Kept(t, c, ids, x);
      var T' := set y | y in T && !Below(c, y) && (y != c || c in t);
      HangsBeside(T, s, name, ids, T');
      NothingLost(v, name, ids, T', x);
    } else {
      CountIn(t, c);
    }
  }

  lemma {:induction false} HangsBelow(T: set<string>, s: seq<string>, name: string, T': set<string>)
    requires Hangs(T, s, name) && HasChild(s, name) && T' == set y | y in T && Below(Taken(s, name), y)
    ensures Hangs(T', Others(s, name), Taken(s, name))
  {
    var c, t := Taken(s, name), Others(s, name);
    TakenOut(s, name);
    forall y | y in T' ensures y in t && Below(c, y) && (Parent(y) == c || Parent(y) in T') {
      assert Below(name, y);
      BelowParent(c, y);
      BelowChild(name, c, y);
    }
  }

  lemma {:induction false} HangsBeside(T: set<string>, s: seq<string>, name: string, ids: seq<Identity>,
                                       T': set<string>)
    requires Hangs(T, s, name) && HasChild(s, name)
    requires T' == set y | y in T && !Below(Taken(s, name), y) && (y != Taken(s, name) || y in Others(s, name))
    ensures Hangs(T', Left(Others(s, name), Taken(s, name), ids), name)
  {
    var c, t := Taken(s, name), Others(s, name);
    var v := Left(t, c, ids);
    TakenOut(s, name);
    forall y | y in T' ensures y in v && Below(name, y) && (Parent(y) == name || Parent(y) in T') {
      assert Below(name, y);
      Kept(t, c, ids, y);
      CountIn(t, y);
      CountIn(v, y);
      BelowParent(name, y);
      BelowParent(c, y);
    }
  }

  // When each name is placed once

  ghost predicate Unique(s: seq<string>) { forall x :: Count(s, x) <= 1 }

  /** As long as the last name cannot be reached, copies of it are all a call leaves behind. */
  lemma {:induction false} DeadEnd(s: seq<string>, name: string, ids: seq<Identity>, x: string)
    requires s != [] && !Reachable(s, name, s[|s| - 1])
    ensures Left(s, name, ids)[|s| - 1] == s[|s| - 1]
    ensures x != s[|s| - 1] ==> Count(Placed(s, name, ids), x) + Count(Left(s, name, ids), x) == Count(s, x)
    decreases |s|
  {
    if HasChild(s, name) {
      var c, t, z := Taken(s, name), Others(s, name), s[|s| - 1];
      var v := Left(t, c, ids);
      Round(s, name, ids, x);
      CountOthers(s, name, x);
      TakenOut(s, name);
      assert z != c;
      if Reachable(t, c, z) { ReachableThrough(t, s, name, c, z); }
      DeadEnd(t, c, ids, x);
      forall y | y in v ensures y in s { OnlyListed(t, c, ids, y); }
      if Reachable(v, name, z) { ReachableInMore(v, s, name, z); }
      DeadEnd(v, name, ids, x);
    }
  }

  /** Follow the first child that has children, down to the first node whose children have none. When the last child
      of that node is taken, the list must end in it or in the root. */
  predicate EndsWell(s: seq<string>, name: string, root: string)
    requires HasChild(s, name)
    decreases |s|
  {
    var c, t := Taken(s, name), Others(s, name);
    if HasChild(t, c) then EndsWell(t, c, root)
    else if HasChild(t, name) then EndsWell(t, name, root)
    else s[|s| - 1] == root || s[|s| - 1] == c
  }

  /** The order in which the filler lists each name once. Children of the root without children of their own do not
      matter. */
  predicate OnceOrder(s: seq<string>, root: string)
    decreases |s|
  {
    HasChild(s, root) ==>
      var c, t := Taken(s, root), Others(s, root);
      if HasChild(t, c) then EndsWell(t, c, root) else OnceOrder(t, root)
  }

  lemma {:induction false} OthersUnique(s: seq<string>, name: string)
    requires Unique(s) && HasChild(s, name)
    ensures Unique(Others(s, name)) && Taken(s, name) !in Others(s, name)
  {
    forall x ensures Count(Others(s, name), x) <= 1 { CountOthers(s, name, x); }
    CountOthers(s, name, Taken(s, name));
    CountIn(Others(s, name), Taken(s, name));
  }

  lemma {:induction false} LeafPlacesNothing(s: seq<string>, name: string, ids: seq<Identity>, x: string)
    requires !HasChild(s, name)
    ensures Count(Placed(s, name, ids), x) == 0 && Left(s, name, ids) == s
  {
  }

  /** A node below the root whose branch ends well: each name once, and only dead names left behind for the callers. */
  lemma {:induction false} BranchOnce(s: seq<string>, name: string, root: string, ids: seq<Identity>, x: string)
    requires Unique(s) && HasChild(s, name) && EndsWell(s, name, root) && !Below(name, root)
    ensures Count(Placed(s, name, ids), x) <= 1
    ensures s[|s| - 1] == root || Below(name, s[|s| - 1])
    ensures !Below(name, x) && x != root ==> Count(Left(s, name, ids), x) == Count(s, x)
    decreases |s|, 1
  {
    var c, t := Taken(s, name), Others(s, name);
    CountOthers(s, name, x);
    BelowChild(name, c, x);
    if HasChild(t, c) {
      AfterBranch(s, name, root, ids, x);
    } else {
      Round(s, name, ids, x);
      OthersUnique(s, name);
      LeafPlacesNothing(t, c, ids, x);
      if HasChild(t, name) {
        BranchOnce(t, name, root, ids, x);
        OnlyListed(t, name, ids, x);
      } else {
        LeafPlacesNothing(t, name, ids, x);
      }
    }
  }

  /** The same where the first child has children: after its branch only dead names are at the end of the list. */
  lemma {:induction false} AfterBranch(s: seq<string>, name: string, root: string, ids: seq<Identity>, x: string)
    requires Unique(s) && HasChild(s, name) && !Below(name, root)
    requires HasChild(Others(s, name), Taken(s, name)) && EndsWell(Others(s, name), Taken(s, name), root)
    ensures Count(Placed(s, name, ids), x) <= 1
    ensures s[|s| - 1] == root || Below(name, s[|s| - 1])
    ensures !Below(name, x) && x != root ==> Count(Left(s, name, ids), x) == Count(s, x)
    decreases |s|, 0
  {
    var c, t := Taken(s, name), Others(s, name);
    CountOthers(s, name, x);
    OthersUnique(s, name);
    BelowChild(name, c, root);
    BranchOnce(t, c, root, ids, x);
    BelowChild(name, c, t[|t| - 1]);
    AfterwardsOnce(s, name, root, ids, x);
  }

  /** Given what holds of the first branch, the rest of the round. */
  lemma {:induction false} AfterwardsOnce(s: seq<string>, name: string, root: string, ids: seq<Identity>, x: string)
    requires Unique(s) && HasChild(s, name) && !Below(name, root) && HasChild(Others(s, name), Taken(s, name))
    requires Taken(s, name) !in Others(s, name)
    requires var c, t := Taken(s, name), Others(s, name);
             && Count(Placed(t, c, ids), x) <= 1
             && (t[|t| - 1] == root || Below(c, t[|t| - 1]))
             && (!Below(c, x) && x != root ==> Count(Left(t, c, ids), x) == Count(t, x))
    ensures Count(Placed(s, name, ids), x) <= 1
    ensures !Below(name, x) && x != root ==> Count(Left(s, name, ids), x) == Count(s, x)
  {
    var c, t := Taken(s, name), Others(s, name);
    CountOthers(s, name, x);
    BelowChild(name, c, x);
    BelowChild(name, c, t[|t| - 1]);
    AfterwardsCounts(t, c, name, root, ids, x);
    Round(s, name, ids, x);
  }

  /** What the branch of `c` and the rounds after it place and leave, at one name. */
  lemma {:induction false} AfterwardsCounts(t: seq<string>, c: string, name: string, root: string, ids: seq<Identity>,
                                            x: string)
    requires IsChild(name, c) && c !in t && HasChild(t, c) && !Below(name, root)
    requires t[|t| - 1] == root || Below(c, t[|t| - 1])
    ensures !Below(c, x) ==> Count(Placed(t, c, ids), x) == 0
    ensures x == c || Below(c, x) || !Below(name, x) ==> Count(Placed(Left(t, c, ids), name, ids), x) == 0
    ensures Count(Placed(Left(t, c, ids), name, ids), x) <= Count(Left(t, c, ids), x)
    ensures x != t[|t| - 1] ==>
              Count(Placed(Left(t, c, ids), name, ids), x) + Count(Left(Left(t, c, ids), name, ids), x) ==
                                Count(Left(t, c, ids), x)
  {
    var v, z := Left(t, c, ids), t[|t| - 1];
    Round(t, c, ids, x);
    assert v[|v| - 1] == z;
    AfterwardsDead(t, c, name, root, ids, x);
    DeadEnd(v, name, ids, x);
    PlacedInside(t, c, ids, x);
    PlacedInside(v, name, ids, x);
  }

  lemma {:induction false} PlacedInside(s: seq<string>, name: string, ids: seq<Identity>, x: string)
    ensures Count(Placed(s, name, ids), x) > 0 ==> Reachable(s, name, x) && Below(name, x)
  {
    OnlyListed(s, name, ids, x);
    if Reachable(s, name, x) { ReachableIsBelow(s, name, x); }
  }

  /** What is left behind by the branch of `c` ends in a name that its parent cannot reach, as it cannot reach
      anything of that branch. */
  lemma {:induction false} AfterwardsDead(t: seq<string>, c: string, name: string, root: string, ids: seq<Identity>,
                                          x: string)
    requires IsChild(name, c) && c !in t && t != [] && !Below(name, root)
    requires t[|t| - 1] == root || Below(c, t[|t| - 1])
    ensures !Reachable(Left(t, c, ids), name, t[|t| - 1])
    ensures x == c || Below(c, x) ==> !Reachable(Left(t, c, ids), name, x)
  {
    var v, z := Left(t, c, ids), t[|t| - 1];
    OnlyListed(t, c, ids, c);
    if Reachable(v, name, z) {
      ReachableIsBelow(v, name, z);
      ThroughTheChild(v, name, c, z);
    }
    if Below(c, x) && Reachable(v, name, x) {
      ThroughTheChild(v, name, c, x);
    }
  }

  lemma {:induction false} OnceInOrder(s: seq<string>, root: string, ids: seq<Identity>, x: string)
    requires Unique(s) && OnceOrder(s, root)
    ensures Count(Placed(s, root, ids), x) <= 1
    decreases |s|
  {
    if HasChild(s, root) {
      var c, t := Taken(s, root), Others(s, root);
      if HasChild(t, c) {
        AfterBranch(s, root, root, ids, x);
      } else {
        Round(s, root, ids, x);
        OthersUnique(s, root);
        LeafPlacesNothing(t, c, ids, x);
        OnceInOrder(t, root, ids, x);
        OnlyListed(t, root, ids, x);
      }
    }
  }

  // When some name is placed twice

  /** Everything listed below `name` has its parent listed. */
  ghost predicate Closed(s: seq<string>, name: string) {
    forall y {:trigger Below(name, y)} :: y in s && Below(name, y) ==> Parent(y) == name || Parent(y) in s
  }

  ghost function ListedBelow(s: seq<string>, name: string): set<string> {
    set y | y in s && Below(name, y)
  }

  lemma {:induction false} ClosedHangs(s: seq<string>, name: string)
    requires Closed(s, name)
    ensures Hangs(ListedBelow(s, name), s, name)
  {
    forall y | y in ListedBelow(s, name) ensures Parent(y) == name || Parent(y) in ListedBelow(s, name) {
      BelowParent(name, y);
    }
  }

  lemma {:induction false} ClosedInBranch(s: seq<string>, name: string)
    requires Closed(s, name) && HasChild(s, name)
    ensures Closed(Others(s, name), Taken(s, name))
  {
    var c, t := Taken(s, name), Others(s, name);
    TakenOut(s, name);
    forall y | y in t && Below(c, y) ensures Parent(y) == c || Parent(y) in t {
      BelowChild(name, c, y);
      BelowParent(c, y);
    }
  }

  lemma {:induction false} ClosedWithout(s: seq<string>, name: string)
    requires Closed(s, name) && HasChild(s, name) && !HasChild(Others(s, name), Taken(s, name))
    ensures Closed(Others(s, name), name)
  {
    var c, t := Taken(s, name), Others(s, name);
    TakenOut(s, name);
    FirstChildIsFirst(t, c, 0, |t|);
    forall y | y in t && Below(name, y) ensures Parent(y) == name || Parent(y) in t {
      BelowParent(name, y);
      var i :| 0 <= i < |t| && t[i] == y;
      assert !IsChild(c, t[i]);
    }
  }

  lemma {:induction false} ClosedLeaf(s: seq<string>, name: string, x: string)
    requires Closed(s, name) && !HasChild(s, name) && x in s
    ensures !Below(name, x)
  {
    if Below(name, x) {
      ClosedHangs(s, name);
      HangsOnAChild(ListedBelow(s, name), s, name, x);
    }
  }

  /** `z` is placed twice if it is below `name`, and otherwise seen twice by the callers. */
  ghost predicate Doubled(s: seq<string>, name: string, ids: seq<Identity>, z: string) {
    if Below(name, z) then Count(Placed(s, name, ids), z) >= 2 else Count(Left(s, name, ids), z) >= 2
  }

  /** A branch that does not end well doubles the name at the end of the list. */
  lemma {:induction false} BranchTwice(s: seq<string>, name: string, root: string,
                                       ids: seq<Identity>) returns (z: string)
    requires Unique(s) && Closed(s, name) && HasChild(s, name) && !EndsWell(s, name, root)
    ensures z != root && z in s && Doubled(s, name, ids, z)
    decreases |s|, 1
  {
    var c, t := Taken(s, name), Others(s, name);
    TakenOut(s, name);
    if HasChild(t, c) {
      z := TwiceAfterBranch(s, name, root, ids);
    } else {
      OthersUnique(s, name);
      ClosedWithout(s, name);
      if HasChild(t, name) {
        z := BranchTwice(t, name, root, ids);
      } else {
        z := s[|s| - 1];
        CountOthers(s, name, z);
        ClosedLeaf(t, name, z);
        LeafPlacesNothing(t, name, ids, z);
        CountIn(t, z);
      }
      Round(s, name, ids, z);
      LeafPlacesNothing(t, c, ids, z);
    }
  }

  lemma {:induction false} TwiceAfterBranch(s: seq<string>, name: string, root: string,
                                            ids: seq<Identity>) returns (z: string)
    requires Unique(s) && Closed(s, name) && HasChild(s, name)
    requires HasChild(Others(s, name), Taken(s, name)) && !EndsWell(Others(s, name), Taken(s, name), root)
    ensures z != root && z in s && Doubled(s, name, ids, z)
    decreases |s|, 0
  {
    var c, t := Taken(s, name), Others(s, name);
    TakenOut(s, name);
    OthersUnique(s, name);
    ClosedInBranch(s, name);
    z := BranchTwice(t, c, root, ids);
    DoubledAbove(s, name, ids, z);
  }

  /** What a branch doubles stays doubled: the callers place it as often as they see it. */
  lemma {:induction false} DoubledAbove(s: seq<string>, name: string, ids: seq<Identity>, z: string)
    requires Closed(s, name) && HasChild(s, name) && Taken(s, name) !in Others(s, name) && z in Others(s, name)
    requires Doubled(Others(s, name), Taken(s, name), ids, z)
    ensures Doubled(s, name, ids, z)
  {
    var c, t := Taken(s, name), Others(s, name);
    var v := Left(t, c, ids);
    TakenOut(s, name);
    Round(s, name, ids, z);
    BelowChild(name, c, z);
    if !Below(c, z) {
      if Below(name, z) {
        var T := ListedBelow(s, name);
        var T' := set y | y in T && !Below(c, y) && (y != c || y in t);
        ClosedHangs(s, name);
        HangsBeside(T, s, name, ids, T');
        NothingLost(v, name, ids, T', z);
      } else {
        Kept(v, name, ids, z);
      }
    }
  }

  lemma {:induction false} TwiceOutOfOrder(s: seq<string>, root: string, ids: seq<Identity>) returns (z: string)
    requires Unique(s) && Closed(s, root) && !OnceOrder(s, root)
    ensures z != root && z in s && Doubled(s, root, ids, z)
    decreases |s|
  {
    var c, t := Taken(s, root), Others(s, root);
    TakenOut(s, root);
    if HasChild(t, c) {
      z := TwiceAfterBranch(s, root, root, ids);
    } else {
      OthersUnique(s, root);
      ClosedWithout(s, root);
      z := TwiceOutOfOrder(t, root, ids);
      Round(s, root, ids, z);
      LeafPlacesNothing(t, c, ids, z);
    }
  }

  // The whole listing

  /** A listing of one subtree, in any order: no repetition, and every name below the root has its parent listed. */
  ghost predicate SubtreeListing(names: seq<string>, root: string) {
    && root in names && AllDistinct(names)
    && (forall n {:trigger Below(root, n)} :: n in names && n != root ==> Below(root, n) && Parent(n) in names)
  }

  lemma {:induction false} DistinctUnique(s: seq<string>, x: string)
    requires AllDistinct(s)
    ensures Count(s, x) <= 1
  {
    if s != [] {
      var init, last := s[..|s| - 1], s[|s| - 1];
      DistinctUnique(init, x);
      CountIn(init, last);
    }
  }

  lemma {:induction false} ListingClosed(names: seq<string>, root: string)
    requires SubtreeListing(names, root)
    ensures Unique(names) && Closed(names, root)
  {
    forall x ensures Count(names, x) <= 1 { DistinctUnique(names, x); }
  }

  /** Every node of the response lies under the node of its parent and holds its own identities. */
  lemma {:induction false} FilledFaithful(s: seq<string>, name: string, ids: seq<Identity>)
    ensures Faithful(InfoOf(s, name, ids), ids)
    decreases |s|
  {
    if HasChild(s, name) {
      var c, t := Taken(s, name), Others(s, name);
      var v := Left(t, c, ids);
      FirstChildIsFirst(s, name, 0, FirstChild(s, name, 0));
      FilledFaithful(t, c, ids);
      FilledFaithful(v, name, ids);
      var children := FillFrom(s, name, ids).children;
      assert children == [InfoOf(t, c, ids)] + FillFrom(v, name, ids).children;
      forall i | 0 <= i < |children| ensures ChildOf(children[i], name, ids) {
        assert i > 0 ==> children[i] == InfoOf(v, name, ids).affiliations[i - 1];
      }
    }
  }

  /** In any order the response names exactly the listed affiliations. */
  lemma {:induction false} ExactlyListed(names: seq<string>, root: string, ids: seq<Identity>, x: string)
    requires SubtreeListing(names, root)
    ensures Count(NamesIn(InfoOf(names, root, ids)), x) == (if x == root then 1 else Count(Placed(names, root, ids), x))
    ensures Count(NamesIn(InfoOf(names, root, ids)), x) > 0 <==> x in names
  {
    CountAppend([root], Placed(names, root, ids), x);
    CountOne(root, x);
    OnlyListed(names, root, ids, x);
    if Reachable(names, root, x) { ReachableIsBelow(names, root, x); }
    if x in names && x != root {
      ListingClosed(names, root);
      ClosedHangs(names, root);
      assert Below(root, x);
      NothingLost(names, root, ids, ListedBelow(names, root), x);
      CountIn(names, x);
    }
  }

  /** Each affiliation is named once exactly when the list is in order. */
  lemma {:induction false} OnceExactly(names: seq<string>, root: string, ids: seq<Identity>)
    requires SubtreeListing(names, root)
    ensures OnceOrder(names, root) <==> forall x :: Count(NamesIn(InfoOf(names, root, ids)), x) <= 1
  {
    ListingClosed(names, root);
    if OnceOrder(names, root) {
      forall x ensures Count(NamesIn(InfoOf(names, root, ids)), x) <= 1 {
        ExactlyListed(names, root, ids, x);
        OnceInOrder(names, root, ids, x);
      }
    } else {
      var z := TwiceOutOfOrder(names, root, ids);
      assert Below(root, z);
      ExactlyListed(names, root, ids, z);
    }
  }

  lemma {:induction false} RootLastEndsWell(s: seq<string>, name: string, root: string)
    requires HasChild(s, name) && s[|s| - 1] == root && !Below(name, root)
    ensures EndsWell(s, name, root)
    decreases |s|
  {
    var c, t := Taken(s, name), Others(s, name);
    CountOthers(s, name, root);
    BelowChild(name, c, root);
    if HasChild(t, c) {
      RootLastEndsWell(t, c, root);
    } else if HasChild(t, name) {
      RootLastEndsWell(t, name, root);
    }
  }

  /** A list that ends in the root, as removal arranges it, is in order. */
  lemma {:induction false} RootLastInOrder(s: seq<string>, root: string)
    requires s != [] && s[|s| - 1] == root
    ensures OnceOrder(s, root)
    decreases |s|
  {
    if HasChild(s, root) {
      var c, t := Taken(s, root), Others(s, root);
      CountOthers(s, root, root);
      BelowChild(root, c, root);
      if HasChild(t, c) {
        RootLastEndsWell(t, c, root);
      } else {
        RootLastInOrder(t, root);
      }
    }
  }

  // A list out of order

  /** `name` has no child in the list, or its first child is at `k`. */
  lemma {:induction false} FirstIs(s: seq<string>, name: string, k: nat)
    requires k <= |s| && (forall i :: 0 <= i < k ==> !IsChild(name, s[i])) && (k < |s| ==> IsChild(name, s[k]))
    ensures HasChild(s, name) <==> k < |s|
    ensures k < |s| ==> Taken(s, name) == s[k] && Others(s, name) == s[..k] + s[k + 1..]
  {
    FirstChildIsFirst(s, name, 0, k);
  }

  /** `c` is the only child of `b`, which with `d` is a child of `a`. */
  ghost predicate SmallTree(a: string, b: string, c: string, d: string) {
    && IsChild(a, b) && IsChild(a, d) && IsChild(b, c) && !HasDot(a)
    && !IsChild(a, c) && !IsChild(b, d) && !IsChild(c, d) && !IsChild(d, d) && d != c && d != b && a != d && a != c
  }

  lemma {:induction false} SmallBranch(a: string, b: string, c: string, d: string, ids: seq<Identity>)
    requires SmallTree(a, b, c, d)
    ensures HasChild([a, c, d], b) && !EndsWell([a, c, d], b, a)
    ensures Left([a, c, d], b, ids) == [a, d, d] && Count(Placed([a, c, d], b, ids), d) == 0
  {
    FirstIs([a, c, d], b, 1);
    assert Others([a, c, d], b) == [a, d];
    FirstIs([a, d], c, 2);
    FirstIs([a, d], b, 2);
    LeafPlacesNothing([a, d], c, ids, d);
    LeafPlacesNothing([a, d], b, ids, d);
    Round([a, c, d], b, ids, d);
  }

  lemma {:induction false} SmallRest(a: string, b: string, c: string, d: string, ids: seq<Identity>)
    requires SmallTree(a, b, c, d)
    ensures Count(Placed([a, d, d], a, ids), d) == 2
  {
    FirstIs([a, d, d], a, 1);
    assert Others([a, d, d], a) == [a, d];
    FirstIs([a, d], d, 2);
    LeafPlacesNothing([a, d], d, ids, d);
    Round([a, d, d], a, ids, d);
    FirstIs([a, d], a, 1);
    assert Others([a, d], a) == [a];
    FirstIs([a], d, 1);
    FirstIs([a], a, 1);
    LeafPlacesNothing([a], d, ids, d);
    LeafPlacesNothing([a], a, ids, d);
    Round([a, d], a, ids, d);
  }

  lemma {:induction false} SmallListing(a: string, b: string, c: string, d: string, ids: seq<Identity>)
    requires SmallTree(a, b, c, d)
    ensures Count(NamesIn(InfoOf([a, b, c, d], a, ids)), d) == 2 && !OnceOrder([a, b, c, d], a)
  {
    FirstIs([a, b, c, d], a, 1);
    assert Others([a, b, c, d], a) == [a, c, d];
    SmallBranch(a, b, c, d, ids);
    SmallRest(a, b, c, d, ids);
    Round([a, b, c, d], a, ids, d);
    CountAppend([a], Placed([a, b, c, d], a, ids), d);
    CountOne(a, d);
  }

  /** Rows in the order of their insertion: the shift made for `a.b.c` leaves `a.d` twice in sight of the root. */
  lemma {:induction false} RootFirstListsTwice(ids: seq<Identity>)
    ensures Count(NamesIn(InfoOf(["a", "a.b", "a.b.c", "a.d"], "a", ids)), "a.d") == 2
    ensures !OnceOrder(["a", "a.b", "a.b.c", "a.d"], "a")
  {
    Letters('a', 'b');
    Letters('a', 'd');
    ParentOfChild("a.b", "c");
    assert "a.b.c" == "a.b" + "." + "c";
    assert |"a"| == 1 && |"a.b"| == 3 && |"a.d"| == 3 && |"a.b.c"| == 5 && "a.b"[2] != "a.d"[2];
    assert "a.b.c"[1] == '.';
    SmallListing("a", "a.b", "a.b.c", "a.d", ids);
  }
}
