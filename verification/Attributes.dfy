/** Attribute lists, the map an identity reads them through, and `getNewAttributes`. */
module Attributes {

  datatype Attr = Attr(name: string, value: string, ecert: bool)

  const ROLES := "hf.Registrar.Roles"
  const DELEGATE_ROLES := "hf.Registrar.DelegateRoles"
  const REVOKER := "hf.Revoker"
  const INTERMEDIATE_CA := "hf.IntermediateCA"
  const GEN_CRL := "hf.GenCRL"
  const REGISTRAR_ATTR := "hf.Registrar.Attributes"
  const AFFILIATION_MGR := "hf.AffiliationMgr"
  const ENROLLMENT_ID := "hf.EnrollmentID"
  const TYPE := "hf.Type"
  const AFFILIATION := "hf.Affiliation"

  /** The attributes as an identity sees them: of two entries with one name the later wins. */
  function View(attrs: seq<Attr>): map<string, Attr> {
    if attrs == [] then map[] else map[attrs[0].name := attrs[0]] + View(attrs[1..])
  }

  /** The value read for `name`; an absent attribute counts as empty. */
  function Value(attrs: seq<Attr>, name: string): string {
    var m := View(attrs);
    if name in m then m[name].value else ""
  }

  function Occurrences(attrs: seq<Attr>, name: string): nat {
    if attrs == [] then 0
    else (if attrs[0].name == name then 1 else 0) + Occurrences(attrs[1..], name)
  }

  ghost predicate Distinct(attrs: seq<Attr>) {
    forall x :: Occurrences(attrs, x) <= 1
  }

  lemma {:induction false} ViewAppend(a: seq<Attr>, b: seq<Attr>)
    ensures View(a + b) == View(a) + View(b)
  {
    if a == [] {
      assert a + b == b;
    } else {
      ViewAppend(a[1..], b);
      assert (a + b)[1..] == a[1..] + b;
    }
  }

  lemma {:induction false} OccurrencesAppend(a: seq<Attr>, b: seq<Attr>, x: string)
    ensures Occurrences(a + b, x) == Occurrences(a, x) + Occurrences(b, x)
  {
    if a == [] {
      assert a + b == b;
    } else {
      OccurrencesAppend(a[1..], b, x);
      assert (a + b)[1..] == a[1..] + b;
    }
  }

  lemma {:induction false} InViewIffOccurs(attrs: seq<Attr>, x: string)
    ensures x in View(attrs) <==> Occurrences(attrs, x) > 0
    ensures x in View(attrs) ==> View(attrs)[x].name == x && View(attrs)[x] in attrs
  {
    if attrs != [] {
      InViewIffOccurs(attrs[1..], x);
      assert forall a :: a in attrs[1..] ==> a in attrs;
    }
  }

  /** `newDBUser`: the attribute map filled entry by entry. */
  method NewAttributeMap(attrs: seq<Attr>) returns (m: map<string, Attr>)
    ensures m == View(attrs)
  {
    m := map[];
    for i := 0 to |attrs|
      invariant m == View(attrs[..i])
    {
      m := m[attrs[i].name := attrs[i]];
      ViewAppend(attrs[..i], [attrs[i]]);
      assert attrs[..i + 1] == attrs[..i] + [attrs[i]];
    }
    assert attrs[..|attrs|] == attrs;
  }

  lemma {:induction false} AppendFresh(attrs: seq<Attr>, a: Attr)
    requires Distinct(attrs) && a.name !in View(attrs)
    ensures View(attrs + [a]) == View(attrs)[a.name := a] && Distinct(attrs + [a])
  {
    ViewAppend(attrs, [a]);
    assert View([a]) == map[a.name := a];
    InViewIffOccurs(attrs, a.name);
    forall y ensures Occurrences(attrs + [a], y) <= 1 {
      OccurrencesAppend(attrs, [a], y);
    }
  }

  /** `GetAttributes(nil)`: the values of the map, in no particular order. */
  method ListAttributes(m: map<string, Attr>) returns (attrs: seq<Attr>)
    requires forall x :: x in m ==> m[x].name == x
    ensures View(attrs) == m && Distinct(attrs)
  {
    attrs := [];
    var rest := m.Keys;
    while rest != {}
      invariant rest <= m.Keys
      invariant View(attrs).Keys == m.Keys - rest
      invariant forall x :: x in View(attrs) ==> View(attrs)[x] == m[x]
      invariant Distinct(attrs)
    {
      var x :| x in rest;
      AppendFresh(attrs, m[x]);
      attrs := attrs + [m[x]];
      rest := rest - {x};
    }
  }

  /** One requested change to an attribute map: an empty value deletes. */
  function Change(m: map<string, Attr>, a: Attr): map<string, Attr> {
    if a.value == "" then m - {a.name} else m[a.name := a]
  }

  function Changes(m: map<string, Attr>, new': seq<Attr>): map<string, Attr>
    decreases |new'|
  {
    if new' == [] then m else Changes(Change(m, new'[0]), new'[1..])
  }

  /** One change to an attribute list: only the first entry of that name is touched. */
  function Put(attrs: seq<Attr>, a: Attr): seq<Attr> {
    if attrs == [] then (if a.value == "" then [] else [a])
    else if attrs[0].name == a.name then (if a.value == "" then [] else [a]) + attrs[1..]
    else [attrs[0]] + Put(attrs[1..], a)
  }

  function PutAll(attrs: seq<Attr>, new': seq<Attr>): seq<Attr>
    decreases |new'|
  {
    if new' == [] then attrs else PutAll(Put(attrs, new'[0]), new'[1..])
  }

  lemma {:induction false} PutNotFound(attrs: seq<Attr>, a: Attr)
    requires forall j :: 0 <= j < |attrs| ==> attrs[j].name != a.name
    ensures Put(attrs, a) == if a.value == "" then attrs else attrs + [a]
  {
    if attrs != [] { PutNotFound(attrs[1..], a); }
  }

  lemma {:induction false} PutFound(attrs: seq<Attr>, a: Attr, i: nat)
    requires i < |attrs| && attrs[i].name == a.name
    requires forall j :: 0 <= j < i ==> attrs[j].name != a.name
    ensures Put(attrs, a) == attrs[..i] + (if a.value == "" then [] else [a]) + attrs[i + 1..]
  {
    if i > 0 {
      PutFound(attrs[1..], a, i - 1);
      assert attrs[1..][i..] == attrs[i + 1..];
      assert attrs[..i] == [attrs[0]] + attrs[1..][..i - 1];
    }
  }

  lemma {:induction false} PutAllSnoc(attrs: seq<Attr>, new': seq<Attr>, a: Attr)
    ensures PutAll(attrs, new' + [a]) == Put(PutAll(attrs, new'), a)
    decreases |new'|
  {
    if new' == [] {
      assert (new' + [a])[1..] == [];
    } else {
      PutAllSnoc(Put(attrs, new'[0]), new'[1..], a);
      assert (new' + [a])[1..] == new'[1..] + [a];
    }
  }

  /** `getNewAttributes`: nested scan that edits, deletes from and appends to the list. */
  method GetNewAttributes(current: seq<Attr>, new': seq<Attr>) returns (attrs: seq<Attr>)
    ensures attrs == PutAll(current, new')
  {
    attrs := current;
    for k := 0 to |new'|
      invariant attrs == PutAll(current, new'[..k])
    {
      PutAllSnoc(current, new'[..k], new'[k]);
      assert new'[..k + 1] == new'[..k] + [new'[k]];
      attrs := PutOne(attrs, new'[k]);
    }
    assert new'[..|new'|] == new';
  }

  /** The inner loop: the first entry of the name is edited or deleted; without one the request is appended. */
  method PutOne(current: seq<Attr>, a: Attr) returns (attrs: seq<Attr>)
    ensures attrs == Put(current, a)
  {
    attrs := current;
    for i := 0 to |current|
      invariant attrs == current && forall j :: 0 <= j < i ==> current[j].name != a.name
    {
      if attrs[i].name == a.name {
        PutFound(current, a, i);
        if a.value == "" {
          attrs := if i == |attrs| - 1 then attrs[..|attrs| - 1] else attrs[..i] + attrs[i + 1..];
        } else {
          attrs := attrs[i := attrs[i].(value := a.value, ecert := a.ecert)];
        }
        return;
      }
    }
    PutNotFound(current, a);
    if a.value != "" {
      attrs := attrs + [a];
    }
  }

  /** A change keeps the number of entries of every other name, and of its own name when that was at most one. */
  lemma {:induction false} PutOccurrences(attrs: seq<Attr>, a: Attr, x: string)
    ensures x != a.name ==> Occurrences(Put(attrs, a), x) == Occurrences(attrs, x)
    ensures Occurrences(attrs, x) <= 1 ==> Occurrences(Put(attrs, a), x) <= 1
  {
    if attrs != [] {
      PutOccurrences(attrs[1..], a, x);
      if attrs[0].name == a.name {
        if a.value != "" {
          assert ([a] + attrs[1..])[1..] == attrs[1..];
        } else {
          assert [] + attrs[1..] == attrs[1..];
        }
      } else {
        assert ([attrs[0]] + Put(attrs[1..], a))[1..] == Put(attrs[1..], a);
      }
    }
  }

  /** A change as read at one name. */
  lemma {:induction false} PutRead(attrs: seq<Attr>, a: Attr, x: string)
    ensures x != a.name ==> (x in View(Put(attrs, a)) <==> x in View(attrs))
    ensures x != a.name && x in View(attrs) ==> View(Put(attrs, a))[x] == View(attrs)[x]
    ensures x == a.name && Occurrences(attrs, x) <= 1 ==> (x in View(Put(attrs, a)) <==> a.value != "")
    ensures x == a.name && Occurrences(attrs, x) <= 1 && a.value != "" ==> View(Put(attrs, a))[x] == a
  {
    if attrs != [] {
      var rest := attrs[1..];
      if attrs[0].name == a.name {
        InViewIffOccurs(rest, x);
        if a.value != "" {
          assert ([a] + rest)[1..] == rest;
        } else {
          assert [] + rest == rest;
        }
      } else {
        PutRead(rest, a, x);
        assert ([attrs[0]] + Put(rest, a))[1..] == Put(rest, a);
      }
    }
  }

  /** On a name listed at most once a change of the list is the change of the map. */
  lemma {:induction false} PutView(attrs: seq<Attr>, a: Attr)
    requires Occurrences(attrs, a.name) <= 1
    ensures View(Put(attrs, a)) == Change(View(attrs), a)
  {
    var m, m' := Change(View(attrs), a), View(Put(attrs, a));
    forall x ensures x in m <==> x in m' {
      PutRead(attrs, a, x);
    }
    forall x | x in m ensures m[x] == m'[x] {
      PutRead(attrs, a, x);
    }
  }

  /** On a name listed twice or more a change is lost: the last entry, the one that is read, stays. */
  lemma {:induction false} PutShadowed(attrs: seq<Attr>, a: Attr)
    requires Occurrences(attrs, a.name) > 1
    ensures View(Put(attrs, a)) == View(attrs)
  {
    var rest := attrs[1..];
    InViewIffOccurs(rest, a.name);
    if attrs[0].name == a.name {
      if a.value != "" {
        assert ([a] + rest)[1..] == rest;
      } else {
        assert [] + rest == rest;
      }
    } else {
      PutShadowed(rest, a);
      assert ([attrs[0]] + Put(rest, a))[1..] == Put(rest, a);
    }
  }

  /** Such a change: a registration that lists a name twice, and a later request for it. */
  lemma {:induction false} ShadowedChange(ecert: bool)
    ensures var registered := [Attr("x", "1", ecert), Attr("x", "2", ecert)];
            Value(PutAll(registered, [Attr("x", "3", ecert)]), "x") == "2"
  {
    var one, two, three := Attr("x", "1", ecert), Attr("x", "2", ecert), Attr("x", "3", ecert);
    assert [one, two][1..] == [two] && [two][1..] == [] && [three][1..] == [];
    assert Occurrences([two], "x") == 1;
    PutShadowed([one, two], three);
    assert View([two]) == map["x" := two];
    assert PutAll([one, two], [three]) == Put([one, two], three);
  }

  /** On distinct names `getNewAttributes` is the last-writer-wins map update, and names stay distinct. */
  lemma {:induction false} PutAllView(attrs: seq<Attr>, new': seq<Attr>)
    requires Distinct(attrs)
    ensures View(PutAll(attrs, new')) == Changes(View(attrs), new')
    ensures Distinct(PutAll(attrs, new'))
    decreases |new'|
  {
    if new' != [] {
      PutView(attrs, new'[0]);
      forall x ensures Occurrences(Put(attrs, new'[0]), x) <= 1 {
        PutOccurrences(attrs, new'[0], x);
      }
      PutAllView(Put(attrs, new'[0]), new'[1..]);
    }
  }

  /** What a run of changes does to one name listed at most once: the last request for it decides. */
  lemma {:induction false} PutAllOneName(attrs: seq<Attr>, new': seq<Attr>, x: string)
    requires Occurrences(attrs, x) <= 1
    ensures Occurrences(PutAll(attrs, new'), x) <= 1
    ensures Value(PutAll(attrs, new'), x) == if Occurrences(new', x) > 0 then Value(new', x) else Value(attrs, x)
    decreases |new'|
  {
    if new' != [] {
      var a := new'[0];
      PutOccurrences(attrs, a, x);
      PutRead(attrs, a, x);
      PutAllOneName(Put(attrs, a), new'[1..], x);
      InViewIffOccurs(new'[1..], x);
    }
  }
}
