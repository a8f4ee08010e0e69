/** Building the hierarchical response from a flat list of affiliations, in Go's shared-slice semantics. */
module AffiliationTree {
  import opened Strings
  import opened Paths

  datatype Identity = Identity(id: string, affiliation: string)

  datatype Info = Info(name: string, identities: seq<Identity>, affiliations: seq<Info>)

  // What a response says

  function NamesIn(info: Info): seq<string>
    decreases info
  {
    [info.name] + NamesInAll(info.affiliations)
  }

  function NamesInAll(infos: seq<Info>): seq<string>
    decreases infos
  {
    if infos == [] then [] else NamesInAll(infos[..|infos| - 1]) + NamesIn(infos[|infos| - 1])
  }

  function IdentitiesIn(info: Info): seq<Identity>
    decreases info
  {
    info.identities + IdentitiesInAll(info.affiliations)
  }

  function IdentitiesInAll(infos: seq<Info>): seq<Identity>
    decreases infos
  {
    if infos == [] then [] else IdentitiesInAll(infos[..|infos| - 1]) + IdentitiesIn(infos[|infos| - 1])
  }

  function IdentitiesOf(ids: seq<Identity>, name: string): seq<Identity> {
    if ids == [] then []
    else IdentitiesOf(ids[..|ids| - 1], name) +
         (if ids[|ids| - 1].affiliation == name then [ids[|ids| - 1]] else [])
  }

  /** Every node holds the identities of its own affiliation and lies under the node of its parent. */
  ghost predicate Faithful(info: Info, ids: seq<Identity>)
    decreases info, 0
  {
    && info.identities == IdentitiesOf(ids, info.name)
    && forall i :: 0 <= i < |info.affiliations| ==> ChildOf(info.affiliations[i], info.name, ids)
  }

  ghost predicate ChildOf(info: Info, name: string, ids: seq<Identity>)
    decreases info, 1
  {
    HasDot(info.name) && Parent(info.name) == name && Faithful(info, ids)
  }

  function Count<T(==)>(s: seq<T>, x: T): nat {
    if s == [] then 0 else Count(s[..|s| - 1], x) + if s[|s| - 1] == x then 1 else 0
  }

  lemma {:induction false} CountAppend<T>(a: seq<T>, b: seq<T>, x: T)
    ensures Count(a + b, x) == Count(a, x) + Count(b, x)
  {
    if b == [] {
      assert a + b == a;
    } else {
      CountAppend(a, b[..|b| - 1], x);
      assert (a + b)[..|a + b| - 1] == a + b[..|b| - 1];
    }
  }

  function Times(n: nat, c: nat): nat { if n == 0 then 0 else Times(n - 1, c) + c }

  lemma {:induction false} TimesAdd(m: nat, n: nat, c: nat)
    ensures Times(m + n, c) == Times(m, c) + Times(n, c)
  {
    if n > 0 { TimesAdd(m, n - 1, c); }
  }

  lemma {:induction false} IdentitiesOfCount(ids: seq<Identity>, name: string, x: Identity)
    ensures Count(IdentitiesOf(ids, name), x) == if x.affiliation == name then Count(ids, x) else 0
  {
    if ids != [] {
      var init, last := ids[..|ids| - 1], ids[|ids| - 1];
      IdentitiesOfCount(init, name, x);
      CountAppend(IdentitiesOf(init, name), if last.affiliation == name then [last] else [], x);
    }
  }

  /** An identity is listed as often as its affiliation is, times its own multiplicity. */
  lemma {:induction false} IdentityCount(info: Info, ids: seq<Identity>, x: Identity)
    requires Faithful(info, ids)
    ensures Count(IdentitiesIn(info), x) == Times(Count(NamesIn(info), x.affiliation), Count(ids, x))
    decreases info
  {
    var below := info.affiliations;
    IdentitiesOfCount(ids, info.name, x);
    IdentityCountAll(below, ids, x);
    CountAppend(info.identities, IdentitiesInAll(below), x);
    CountAppend([info.name], NamesInAll(below), x.affiliation);
    TimesAdd(Count([info.name], x.affiliation), Count(NamesInAll(below), x.affiliation), Count(ids, x));
  }

  lemma {:induction false} IdentityCountAll(infos: seq<Info>, ids: seq<Identity>, x: Identity)
    requires forall i :: 0 <= i < |infos| ==> Faithful(infos[i], ids)
    ensures Count(IdentitiesInAll(infos), x) == Times(Count(NamesInAll(infos), x.affiliation), Count(ids, x))
    decreases infos
  {
    if infos != [] {
      var init, last := infos[..|infos| - 1], infos[|infos| - 1];
      IdentityCountAll(init, ids, x);
      IdentityCount(last, ids, x);
      CountAppend(IdentitiesInAll(init), IdentitiesIn(last), x);
      CountAppend(NamesInAll(init), NamesIn(last), x.affiliation);
      TimesAdd(Count(NamesInAll(init), x.affiliation), Count(NamesIn(last), x.affiliation), Count(ids, x));
    }
  }

  ghost predicate AllDistinct<T>(s: seq<T>) {
    forall i, j :: 0 <= i < j < |s| ==> s[i] != s[j]
  }

  // The shared list

  predicate IsChild(name: string, x: string) { HasDot(x) && Parent(x) == name }

  /** The first child of `name` at or after position `k`, or the length of the list. */
  function FirstChild(s: seq<string>, name: string, k: nat): (r: nat)
    requires k <= |s|
    ensures k <= r <= |s|
    decreases |s| - k
  {
    if k == |s| || IsChild(name, s[k]) then k else FirstChild(s, name, k + 1)
  }

  lemma {:induction false} FirstChildIsFirst(s: seq<string>, name: string, k: nat, r: nat)
    requires k <= r <= |s|
    ensures r == FirstChild(s, name, k) <==>
            (forall i :: k <= i < r ==> !IsChild(name, s[i])) && (r < |s| ==> IsChild(name, s[r]))
    decreases |s| - k
  {
    if k < |s| && k < r && !IsChild(name, s[k]) {
      FirstChildIsFirst(s, name, k + 1, r);
    }
  }

  predicate HasChild(s: seq<string>, name: string) { FirstChild(s, name, 0) < |s| }

  function Taken(s: seq<string>, name: string): string
    requires HasChild(s, name)
  {
    s[FirstChild(s, name, 0)]
  }

  function Others(s: seq<string>, name: string): seq<string>
    requires HasChild(s, name)
  {
    var k := FirstChild(s, name, 0);
    s[..k] + s[k + 1..]
  }

  /** The infos built, and what the slots of the header show afterwards. */
  datatype Filled = Filled(children: seq<Info>, view: seq<string>)

  /** `fillAffiliationInfo` as a function of what its header shows: each child is taken out and its subtree is built
      from the shortened list; the slot that the shorter header gives up still shows the last name of the list. */
  function FillFrom(s: seq<string>, name: string, ids: seq<Identity>): (f: Filled)
    ensures |f.view| == |s|
    decreases |s|
  {
    if !HasChild(s, name) then Filled([], s)
    else
      var c := Taken(s, name);
      var sub := FillFrom(Others(s, name), c, ids);
      var rest := FillFrom(sub.view, name, ids);
      Filled([Info(c, IdentitiesOf(ids, c), sub.children)] + rest.children, rest.view + [s[|s| - 1]])
  }

  /** The response for one affiliation. */
  function InfoOf(s: seq<string>, name: string, ids: seq<Identity>): Info {
    Info(name, IdentitiesOf(ids, name), FillFrom(s, name, ids).children)
  }

  /** `affiliations = append(affiliations[:idx], affiliations[idx+1:]...)`: a shift inside the shared array. */
  method DeleteAt(a: array<string>, idx: nat, len: nat)
    requires idx < len <= a.Length
    modifies a
    ensures a[..][..len] == old(a[..])[..len][..idx] + old(a[..])[..len][idx + 1..] + [old(a[len - 1])]
    ensures a[..][len..] == old(a[..])[len..]
  {
    for k := idx to len - 1
      invariant forall i :: 0 <= i < idx ==> a[i] == old(a[i])
      invariant forall i :: idx <= i < k ==> a[i] == old(a[i + 1])
      invariant forall i :: k <= i < a.Length ==> a[i] == old(a[i])
    {
      a[k] := a[k + 1];
    }
  }

  /** Search for a child of `name`; if there is one, take it out of the list. */
  method TakeChild(name: string, a: array<string>, len: nat) returns (found: bool, child: string)
    requires len <= a.Length
    modifies a
    ensures found <==> HasChild(old(a[..])[..len], name)
    ensures !found ==> a[..] == old(a[..])
    ensures found ==> len > 0 && child == Taken(old(a[..])[..len], name)
    ensures found ==> a[..][..len] == Others(old(a[..])[..len], name) + [old(a[len - 1])]
    ensures a[..][len..] == old(a[..])[len..]
  {
    ghost var s := a[..][..len];
    for idx := 0 to len
      invariant a[..] == old(a[..])
      invariant forall i :: 0 <= i < idx ==> !IsChild(name, s[i])
    {
      ChildIsParent(name, a[idx]);
      if IsChildAffiliation(name, a[idx]) {
        FirstChildIsFirst(s, name, 0, idx);
        found, child := true, a[idx];
        DeleteAt(a, idx, len);
        return;
      }
    }
    FirstChildIsFirst(s, name, 0, len);
    found, child := false, "";
  }

  /** The identities of one affiliation. */
  method SelectIdentities(ids: seq<Identity>, name: string) returns (r: seq<Identity>)
    ensures r == IdentitiesOf(ids, name)
  {
    r := [];
    for i := 0 to |ids|
      invariant r == IdentitiesOf(ids[..i], name)
    {
      assert ids[..i + 1][..i] == ids[..i];
      JoinSplit(ids[i].affiliation, '.');
      if Join(Split(ids[i].affiliation, '.'), '.') == name {
        r := r + [ids[i]];
      }
    }
    assert ids[..|ids|] == ids;
  }

  /** `fillAffiliationInfo`: all frames delete in one array, each with its own header length. It terminates on every
      list, in whatever order. */
  method FillAffiliationInfo(name: string, ids: seq<Identity>, a: array<string>, len: nat) returns (info: Info)
    requires len <= a.Length
    modifies a
    ensures info == InfoOf(old(a[..])[..len], name, ids)
    ensures a[..][..len] == FillFrom(old(a[..])[..len], name, ids).view
    ensures a[..][len..] == old(a[..])[len..]
    decreases len, 3
  {
    var identities := SelectIdentities(ids, name);
    var children := PlaceChildren(name, ids, a, len);
    info := Info(name, identities, children);
  }

  /** The loop: children are taken out and built one by one until none is found. */
  method PlaceChildren(name: string, ids: seq<Identity>, a: array<string>, len: nat) returns (children: seq<Info>)
    requires len <= a.Length
    modifies a
    ensures children == FillFrom(old(a[..])[..len], name, ids).children
    ensures a[..][..len] == FillFrom(old(a[..])[..len], name, ids).view
    ensures a[..][len..] == old(a[..])[len..]
    decreases len, 2
  {
    children := [];
    var n := len;
    var found := true;
    ghost var all := FillFrom(a[..][..n], name, ids);
    while found
      invariant n <= len && a[..][len..] == old(a[..])[len..]
      invariant found ==> Building(all, children, a[..], n, len, name, ids)
      invariant !found ==> all == Filled(children, a[..][..len])
      decreases found, n
    {
      var childInfo;
      found, childInfo := PlaceNext(name, ids, a, n, len, all, children);
      if found {
        n := n - 1;
        children := children + [childInfo];
      }
    }
  }

  /** With `n` names of a header of length `len` still to be searched, what is built and what is to come add up. */
  ghost predicate Building(all: Filled, children: seq<Info>, now: seq<string>, n: int, len: int, name: string,
                           ids: seq<Identity>) {
    && 0 <= n <= len <= |now|
    && var left := FillFrom(now[..n], name, ids);
       all.children == children + left.children && all.view == left.view + now[n..len]
  }

  method PlaceNext(name: string, ids: seq<Identity>, a: array<string>, n: int, len: nat, ghost all: Filled,
                   children: seq<Info>)
    returns (found: bool, childInfo: Info)
    requires Building(all, children, a[..], n, len, name, ids)
    modifies a
    ensures a[..][len..] == old(a[..])[len..]
    ensures found ==> n > 0 && Building(all, children + [childInfo], a[..], n - 1, len, name, ids)
    ensures !found ==> all == Filled(children, a[..][..len])
    decreases n, 1
  {
    ghost var before := a[..];
    found, childInfo := PlaceChild(name, ids, a, n);
    if found {
      RoundKeeps(all, children, childInfo, FillFrom(before[..n], name, ids), FillFrom(a[..][..n - 1], name, ids),
                 before, a[..], n, len);
    } else {
      assert before[..n] + before[n..len] == before[..len];
    }
  }

  /** The bookkeeping of one round. */
  lemma {:induction false} RoundKeeps(all: Filled, children: seq<Info>, childInfo: Info, left: Filled, rest: Filled,
                                      before: seq<string>, after: seq<string>, n: nat, len: nat)
    requires 0 < n <= len <= |before| == |after| && after[n..] == before[n..]
    requires all.children == children + left.children && all.view == left.view + before[n..len]
    requires left.children == [childInfo] + rest.children && left.view == rest.view + [after[n - 1]]
    ensures all.children == children + [childInfo] + rest.children && all.view == rest.view + after[n - 1..len]
    ensures after[len..] == before[len..]
  {
    assert before[n..len] == before[n..][..len - n] && after[n..len] == after[n..][..len - n];
    assert before[len..] == before[n..][len - n..] && after[len..] == after[n..][len - n..];
    assert after[n - 1..len] == [after[n - 1]] + after[n..len];
  }

  /** One round of the loop: find a child, take it out, and build its subtree from the shortened list. */
  method PlaceChild(name: string, ids: seq<Identity>, a: array<string>, n: nat) returns (found: bool, childInfo: Info)
    requires n <= a.Length
    modifies a
    ensures a[..][n..] == old(a[..])[n..]
    ensures found <==> HasChild(old(a[..])[..n], name)
    ensures !found ==> a[..] == old(a[..])
    ensures found ==> n > 0
    ensures found ==>
              FillFrom(old(a[..])[..n], name, ids).children == [childInfo] +
                  FillFrom(a[..][..n - 1], name, ids).children
    ensures found ==> FillFrom(old(a[..])[..n], name, ids).view == FillFrom(a[..][..n - 1], name, ids).view + [a[n - 1]]
    decreases n, 0
  {
    ghost var before := a[..];
    var child;
    found, child := TakeChild(name, a, n);
    childInfo := Info("", [], []);
    if found {
      ghost var mid := a[..];
      OneSlotLess(before, mid, name, n);
      childInfo := FillAffiliationInfo(child, ids, a, n - 1);
      SlotsAbove(mid, a[..], n);
    }
  }

  lemma {:induction false} OneSlotLess(before: seq<string>, mid: seq<string>, name: string, n: nat)
    requires n <= |before| == |mid| && HasChild(before[..n], name)
    requires mid[..n] == Others(before[..n], name) + [before[n - 1]]
    ensures mid[..n - 1] == Others(before[..n], name) && mid[n - 1] == before[..n][n - 1]
  {
    assert mid[..n - 1] == mid[..n][..n - 1] && mid[n - 1] == mid[..n][n - 1];
  }

  lemma {:induction false} SlotsAbove(mid: seq<string>, after: seq<string>, n: nat)
    requires 0 < n <= |mid| == |after| && after[n - 1..] == mid[n - 1..]
    ensures after[n - 1] == mid[n - 1] && after[n..] == mid[n..]
  {
    assert after[n - 1] == after[n - 1..][0] && mid[n - 1] == mid[n - 1..][0];
    assert after[n..] == after[n - 1..][1..] && mid[n..] == mid[n - 1..][1..];
  }
}
