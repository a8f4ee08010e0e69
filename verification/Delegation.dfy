/** Who may register what: the attribute, type and affiliation checks behind a registration. */
module Delegation {
  import opened Options
  import opened Strings
  import opened Paths
  import opened Attributes

  // Comma-separated lists

  /** `StrContained`: membership up to letter case. */
  predicate StrContained(s: string, items: seq<string>) {
    exists i :: 0 <= i < |items| && ToLower(items[i]) == ToLower(s)
  }

  /** `util.IsSubsetOf`: every nonempty item of one comma list is an item of the other. */
  predicate IsSubsetOf(small: string, big: string) {
    var items := Split(small, ',');
    forall i :: 0 <= i < |items| ==> items[i] == "" || StrContained(items[i], Split(big, ','))
  }

  function TrimLeadingSpace(s: string): string {
    if " " <= s then s[1..] else s
  }

  /** `ListContains`: an item of the comma list, one leading blank ignored. */
  predicate ListContains(list: string, find: string) {
    var items := Split(list, ',');
    exists i :: 0 <= i < |items| && TrimLeadingSpace(items[i]) == find
  }

  /** `GetSliceFromList`. */
  function Slice(list: string): seq<string> {
    Split(Remove(list, ' '), ',')
  }

  datatype ParsedBool = True | False | Invalid

  /** Go's `strconv.ParseBool`. */
  function ParseBool(s: string): ParsedBool {
    if s in ["1", "t", "T", "TRUE", "true", "True"] then True
    else if s in ["0", "f", "F", "FALSE", "false", "False"] then False
    else Invalid
  }

  // The attribute checks

  datatype AttrType = Boolean | ListType | Fixed | Custom

  /** `initAttrs` and `getAttributeControl`; `None` is a reserved name without a definition. */
  function AttributeControl(name: string): Option<AttrType> {
    if name in [REVOKER, INTERMEDIATE_CA, GEN_CRL, AFFILIATION_MGR] then Some(Boolean)
    else if name in [ROLES, DELEGATE_ROLES, REGISTRAR_ATTR] then Some(ListType)
    else if name in [ENROLLMENT_ID, TYPE, AFFILIATION] then Some(Fixed)
    else if "hf." <= name then None
    else Some(Custom)
  }

  /** Does one entry of `hf.Registrar.Attributes` cover an attribute name? */
  predicate Covers(pattern: string, name: string) {
    if pattern != "" && pattern[|pattern| - 1] == '*' then TrimRight(pattern, '*') <= name else name == pattern
  }

  predicate CanRegisterAttr(name: string, patterns: seq<string>) {
    exists i :: 0 <= i < |patterns| && Covers(patterns[i], name)
  }

  predicate Exists(attrs: seq<Attr>, name: string) {
    exists i :: 0 <= i < |attrs| && attrs[i].name == name
  }

  /** `GetAttrValue`: the first entry of that name. */
  function AttrValue(attrs: seq<Attr>, name: string): string {
    if attrs == [] then "" else if attrs[0].name == name then attrs[0].value else AttrValue(attrs[1..], name)
  }

  /** Attributes the identity already owns; `None` for a new registration. */
  type Owned = Option<map<string, Attr>>

  predicate Owns(user: Owned, name: string) { user.Some? && name in user.value }

  predicate CheckRegistrarAttrValues(req: Attr, reqs: seq<Attr>, user: Owned, patterns: seq<string>) {
    var values := Slice(req.value);
    forall i :: 0 <= i < |values| ==>
      CanRegisterAttr(values[i], patterns) &&
      ("hf." <= values[i] ==> Exists(reqs, values[i]) || Owns(user, values[i]))
  }

  predicate CheckDelegateRoles(reqs: seq<Attr>, user: Owned) {
    var requested := AttrValue(reqs, ROLES);
    var roles := if requested == "" && Owns(user, ROLES) then user.value[ROLES].value else requested;
    ListContains(roles, "*") || IsSubsetOf(AttrValue(reqs, DELEGATE_ROLES), roles)
  }

  predicate ValidBoolean(req: Attr, callers: string) {
    ParseBool(callers) == True && (req.value == "" || ParseBool(req.value) != Invalid)
  }

  predicate ValidList(req: Attr, callers: string, reqs: seq<Attr>, user: Owned) {
    || req.value == ""
    || (if req.name == REGISTRAR_ATTR then CheckRegistrarAttrValues(req, reqs, user, Slice(callers))
        else (ListContains(callers, "*") || IsSubsetOf(req.value, callers)) &&
             (req.name == DELEGATE_ROLES ==> CheckDelegateRoles(reqs, user)))
  }

  predicate RegistrarAuthorized(req: Attr, reqs: seq<Attr>, user: Owned, registrar: map<string, Attr>) {
    match AttributeControl(req.name)
    case None => false
    case Some(Boolean) => req.name in registrar && ValidBoolean(req, registrar[req.name].value)
    case Some(ListType) => req.name in registrar && ValidList(req, registrar[req.name].value, reqs, user)
    case Some(Fixed) => false
    case Some(Custom) => true
  }

  predicate CanRegisterAttribute(req: Attr, reqs: seq<Attr>, user: Owned, registrar: map<string, Attr>) {
    && REGISTRAR_ATTR in registrar
    && registrar[REGISTRAR_ATTR].value != ""
    && CanRegisterAttr(req.name, Slice(registrar[REGISTRAR_ATTR].value))
    && RegistrarAuthorized(req, reqs, user, registrar)
  }

  predicate CanRegisterRequestedAttributes(reqs: seq<Attr>, user: Owned, registrar: map<string, Attr>) {
    forall i :: 0 <= i < |reqs| ==> CanRegisterAttribute(reqs[i], reqs, user, registrar)
  }

  // Types and affiliations

  /** The part of a caller that decides its authority. */
  datatype Registrar = Registrar(affiliation: string, attrs: map<string, Attr>)

  predicate ContainsAffiliation(caller: Registrar, affiliation: string) {
    caller.affiliation == "" || affiliation == caller.affiliation || caller.affiliation + "." <= affiliation
  }

  predicate IsRegistrar(caller: Registrar) {
    ROLES in caller.attrs && caller.attrs[ROLES].value != ""
  }

  predicate CanActOnType(caller: Registrar, requested: string) {
    && IsRegistrar(caller)
    && var types := caller.attrs[ROLES].value;
       ListContains(types, "*") || StrContained(if requested == "" then "client" else requested, Split(types, ','))
  }

  /** `CanManageUser`. */
  predicate CanManage(caller: Registrar, affiliation: string, utype: string) {
    ContainsAffiliation(caller, affiliation) && CanActOnType(caller, utype)
  }

  // Registration

  datatype Request = Request(name: string, secret: string, utype: string, affiliation: string,
                             attributes: seq<Attr>, maxEnrollments: int)

  /** `normalizeRegistrationRequest`. */
  function Normalize(req: Request, registrar: Registrar, registrarType: string): Request {
    req.(affiliation := if req.affiliation == "" then registrar.affiliation
                        else if req.affiliation == "." then "" else req.affiliation,
         utype := if req.utype == "" then registrarType else req.utype)
  }

  /** `canRegister` on a normalised request, with the names of the affiliations table. */
  predicate CanRegister(registrar: Registrar, req: Request, affiliations: set<string>) {
    && CanActOnType(registrar, req.utype)
    && ContainsAffiliation(registrar, req.affiliation)
    && (req.affiliation == "" || req.affiliation in affiliations)
    && CanRegisterRequestedAttributes(req.attributes, None, registrar.attrs)
  }

  /** The attribute list stored for a registration: the requested ones and the three fixed ones. */
  function StoredAttributes(req: Request): seq<Attr> {
    req.attributes + [Attr(ENROLLMENT_ID, req.name, true), Attr(TYPE, req.utype, true),
                      Attr(AFFILIATION, req.affiliation, true)]
  }

  /** The registrar that a registration creates. */
  function Registered(req: Request): Registrar {
    Registrar(req.affiliation, View(StoredAttributes(req)))
  }

  // Authority never grows

  lemma {:induction false} LowerPreservesEmptiness(s: string, t: string)
    requires ToLower(s) == ToLower(t)
    ensures s == "" <==> t == ""
  {
  }

  lemma {:induction false} SubsetTransitive(a: string, b: string, c: string)
    requires IsSubsetOf(a, b) && IsSubsetOf(b, c)
    ensures IsSubsetOf(a, c)
  {
    var items := Split(a, ',');
    forall i | 0 <= i < |items| && items[i] != "" ensures StrContained(items[i], Split(c, ',')) {
      MemberOfSuperset(items[i], b, c);
    }
  }

  lemma {:induction false} MemberOfSuperset(s: string, b: string, c: string)
    requires s != "" && StrContained(s, Split(b, ',')) && IsSubsetOf(b, c)
    ensures StrContained(s, Split(c, ','))
  {
    var bs := Split(b, ',');
    var j :| 0 <= j < |bs| && ToLower(bs[j]) == ToLower(s);
    LowerPreservesEmptiness(bs[j], s);
    var cs := Split(c, ',');
    var k :| 0 <= k < |cs| && ToLower(cs[k]) == ToLower(bs[j]);
  }

  /** A list that contains the wildcard is a subset only of lists that contain it too. */
  lemma {:induction false} WildcardInSuperset(b: string, c: string)
    requires ListContains(b, "*") && IsSubsetOf(b, c)
    ensures ListContains(c, "*")
  {
    var bs := Split(b, ',');
    var j :| 0 <= j < |bs| && TrimLeadingSpace(bs[j]) == "*";
    assert bs[j] == "*" || bs[j] == " *" by {
      if " " <= bs[j] { assert bs[j] == " " + bs[j][1..]; }
    }
    var cs := Split(c, ',');
    var k :| 0 <= k < |cs| && ToLower(cs[k]) == ToLower(bs[j]);
    NoLetters(cs[k], bs[j]);
    assert TrimLeadingSpace(cs[k]) == "*";
  }

  lemma {:induction false} NoLetters(s: string, t: string)
    requires ToLower(s) == ToLower(t) && (t == "*" || t == " *")
    ensures s == t
  {
    forall i | 0 <= i < |t| ensures s[i] == t[i] {
      assert LowerChar(t[i]) == t[i];
      assert LowerChar(s[i]) == ToLower(s)[i] == ToLower(t)[i] == t[i];
    }
  }

  /** Patterns compose: what a delegated pattern covers, the pattern that covered it covers. */
  lemma {:induction false} CoversCompose(outer: string, inner: string, name: string)
    requires Covers(outer, inner) && Covers(inner, name)
    ensures Covers(outer, name)
  {
    var wild := outer != "" && outer[|outer| - 1] == '*';
    if wild && inner != "" && inner[|inner| - 1] == '*' {
      var p, q := TrimRight(outer, '*'), TrimRight(inner, '*');
      assert p == "" || p[|p| - 1] == inner[|p| - 1];
      assert |p| <= |q|;
      assert p <= q;
    }
  }

  lemma {:induction false} CanRegisterAttrComposes(outer: seq<string>, inner: seq<string>, name: string)
    requires CanRegisterAttr(name, inner)
    requires forall i :: 0 <= i < |inner| ==> CanRegisterAttr(inner[i], outer)
    ensures CanRegisterAttr(name, outer)
  {
    var i :| 0 <= i < |inner| && Covers(inner[i], name);
    var j :| 0 <= j < |outer| && Covers(outer[j], inner[i]);
    CoversCompose(outer[j], inner[i], name);
  }

  /** Every attribute the new identity reads, other than the fixed ones, passed the registrar's checks. */
  lemma {:induction false} ReadAttributesWereChecked(req: Request, registrar: map<string, Attr>, name: string)
    requires CanRegisterRequestedAttributes(req.attributes, None, registrar)
    requires AttributeControl(name) != Some(Fixed) && name in View(StoredAttributes(req))
    ensures View(StoredAttributes(req))[name].name == name
    ensures CanRegisterAttribute(View(StoredAttributes(req))[name], req.attributes, None, registrar)
  {
    var stored := StoredAttributes(req);
    InViewIffOccurs(stored, name);
    var a := View(stored)[name];
    assert a in stored;
    assert a in req.attributes;
    var i :| 0 <= i < |req.attributes| && req.attributes[i] == a;
  }

  /** The delegate's role list is covered by its registrar's. */
  lemma {:induction false} RolesShrink(req: Request, registrar: Registrar, name: string)
    requires CanRegisterRequestedAttributes(req.attributes, None, registrar.attrs)
    requires name in [ROLES, DELEGATE_ROLES] && name in Registered(req).attrs
    ensures name in registrar.attrs
    ensures Registered(req).attrs[name].value != "" ==>
              ListContains(registrar.attrs[name].value, "*") ||
              IsSubsetOf(Registered(req).attrs[name].value, registrar.attrs[name].value)
  {
    ReadAttributesWereChecked(req, registrar.attrs, name);
  }

  lemma {:induction false} PatternsShrink(req: Request, registrar: Registrar, name: string)
    requires CanRegisterRequestedAttributes(req.attributes, None, registrar.attrs)
    requires REGISTRAR_ATTR in Registered(req).attrs && Registered(req).attrs[REGISTRAR_ATTR].value != ""
    requires CanRegisterAttr(name, Slice(Registered(req).attrs[REGISTRAR_ATTR].value))
    ensures REGISTRAR_ATTR in registrar.attrs && registrar.attrs[REGISTRAR_ATTR].value != ""
    ensures CanRegisterAttr(name, Slice(registrar.attrs[REGISTRAR_ATTR].value))
  {
    ReadAttributesWereChecked(req, registrar.attrs, REGISTRAR_ATTR);
    CanRegisterAttrComposes(Slice(registrar.attrs[REGISTRAR_ATTR].value),
                            Slice(Registered(req).attrs[REGISTRAR_ATTR].value), name);
  }

  lemma {:induction false} TypesShrink(req: Request, registrar: Registrar, affs: set<string>, utype: string)
    requires CanRegister(registrar, req, affs) && CanActOnType(Registered(req), utype)
    ensures CanActOnType(registrar, utype)
  {
    RolesShrink(req, registrar, ROLES);
    var mine, theirs := Registered(req).attrs[ROLES].value, registrar.attrs[ROLES].value;
    if !ListContains(theirs, "*") {
      if ListContains(mine, "*") {
        WildcardInSuperset(mine, theirs);
      } else {
        MemberOfSuperset(if utype == "" then "client" else utype, mine, theirs);
      }
    }
  }

  lemma {:induction false} AffiliationsShrink(req: Request, registrar: Registrar, affs: set<string>,
                                              affiliation: string)
    requires CanRegister(registrar, req, affs) && ContainsAffiliation(Registered(req), affiliation)
    ensures ContainsAffiliation(registrar, affiliation)
  {
    if registrar.affiliation != "" {
      SubtreeTransitive(registrar.affiliation, req.affiliation, affiliation);
    }
  }

  lemma {:induction false} ListsShrink(req: Request, registrar: Registrar, a: Attr, reqs: seq<Attr>)
    requires CanRegisterRequestedAttributes(req.attributes, None, registrar.attrs)
    requires a.name in [ROLES, DELEGATE_ROLES] && a.name in Registered(req).attrs
    requires ValidList(a, Registered(req).attrs[a.name].value, reqs, None)
    ensures a.name in registrar.attrs && ValidList(a, registrar.attrs[a.name].value, reqs, None)
  {
    RolesShrink(req, registrar, a.name);
    var mine, theirs := Registered(req).attrs[a.name].value, registrar.attrs[a.name].value;
    if a.value != "" && !ListContains(theirs, "*") {
      if mine == "" {
        SplitSingle("", ',');
        assert IsSubsetOf("", theirs);
      }
      if ListContains(mine, "*") {
        WildcardInSuperset(mine, theirs);
      } else {
        SubsetTransitive(a.value, mine, theirs);
      }
    }
  }

  lemma {:induction false} ListAttributeShrinks(req: Request, registrar: Registrar, a: Attr, reqs: seq<Attr>)
    requires CanRegisterRequestedAttributes(req.attributes, None, registrar.attrs)
    requires AttributeControl(a.name) == Some(ListType)
    requires CanRegisterAttribute(a, reqs, None, Registered(req).attrs)
    ensures a.name in registrar.attrs && ValidList(a, registrar.attrs[a.name].value, reqs, None)
  {
    if a.name == REGISTRAR_ATTR {
      PatternsShrink(req, registrar, a.name);
      if a.value != "" {
        var values := Slice(a.value);
        forall i | 0 <= i < |values|
          ensures CanRegisterAttr(values[i], Slice(registrar.attrs[REGISTRAR_ATTR].value))
        {
          PatternsShrink(req, registrar, values[i]);
        }
      }
    } else {
      ListsShrink(req, registrar, a, reqs);
    }
  }

  lemma {:induction false} AttributeShrinks(req: Request, registrar: Registrar, a: Attr, reqs: seq<Attr>)
    requires CanRegisterRequestedAttributes(req.attributes, None, registrar.attrs)
    requires CanRegisterAttribute(a, reqs, None, Registered(req).attrs)
    ensures CanRegisterAttribute(a, reqs, None, registrar.attrs)
  {
    PatternsShrink(req, registrar, a.name);
    var control := AttributeControl(a.name);
    if control == Some(Boolean) {
      ReadAttributesWereChecked(req, registrar.attrs, a.name);
    } else if control == Some(ListType) {
      ListAttributeShrinks(req, registrar, a, reqs);
    }
  }

  /** What an identity may register, its registrar may register. */
  lemma {:induction false} AuthorityShrinks(registrar: Registrar, req: Request, affs: set<string>, next: Request,
                                            affs': set<string>)
    requires CanRegister(registrar, req, affs)
    requires CanRegister(Registered(req), next, affs')
    ensures CanRegister(registrar, next, affs')
  {
    TypesShrink(req, registrar, affs, next.utype);
    AffiliationsShrink(req, registrar, affs, next.affiliation);
    forall i | 0 <= i < |next.attributes|
      ensures CanRegisterAttribute(next.attributes[i], next.attributes, None, registrar.attrs)
    {
      AttributeShrinks(req, registrar, next.attributes[i], next.attributes);
    }
  }

  // What a new identity holds, its registrar holds

  ghost predicate WithinRoles(delegates: string, roles: string) {
    ListContains(roles, "*") || IsSubsetOf(delegates, roles)
  }

  lemma {:induction false} ParseBoolValues()
    ensures ParseBool("true") == True && ParseBool("1") == True && ParseBool("TRUE") == True
    ensures ParseBool("false") == False && ParseBool("0") == False
    ensures ParseBool("") == Invalid && ParseBool("yes") == Invalid && ParseBool("tRUE") == Invalid
  {
    assert |"true"| == 4 && |"false"| == 5 && |"yes"| == 3 && |"1"| == 1 && |"TRUE"| == 4 && |"True"| == 4;
    assert |"tRUE"| == 4;
    assert "yes"[0] == 'y' && "tRUE"[1] == 'R' && "true"[1] == 'r' && "True"[1] == 'r' && "tRUE"[0] == 't';
    assert "TRUE"[0] == 'T' && "t"[0] == 't' && "T"[0] == 'T' && "f"[0] == 'f' && "F"[0] == 'F' && "0"[0] == '0';
    assert |"0"| == 1 && |"t"| == 1 && |"T"| == 1 && |"f"| == 1 && |"F"| == 1 && |"FALSE"| == 5 && |"False"| == 5;
  }

  /** Does the identity read `name` as true? */
  predicate ReadsTrue(attrs: map<string, Attr>, name: string) {
    name in attrs && ParseBool(attrs[name].value) == True
  }

  /** A boolean power of the new identity is one of its registrar. */
  lemma {:induction false} BooleansHeld(registrar: Registrar, req: Request, affs: set<string>, b: string)
    requires CanRegister(registrar, req, affs) && b in [REVOKER, INTERMEDIATE_CA, GEN_CRL, AFFILIATION_MGR]
    requires ReadsTrue(Registered(req).attrs, b)
    ensures ReadsTrue(registrar.attrs, b)
  {
    ReadAttributesWereChecked(req, registrar.attrs, b);
  }

  /** A role list of the new identity is covered by that of its registrar, and its affiliation lies below. */
  lemma {:induction false} RolesHeld(registrar: Registrar, req: Request, affs: set<string>, name: string)
    requires CanRegister(registrar, req, affs) && name in [ROLES, DELEGATE_ROLES] && name in Registered(req).attrs
    ensures name in registrar.attrs
    ensures WithinRoles(Registered(req).attrs[name].value, registrar.attrs[name].value)
    ensures registrar.affiliation == "" || InSubtree(registrar.affiliation, Registered(req).affiliation)
  {
    RolesShrink(req, registrar, name);
    SplitSingle("", ',');
  }

  lemma {:induction false} WithinTransitive(a: string, b: string, c: string)
    requires WithinRoles(a, b) && WithinRoles(b, c)
    ensures WithinRoles(a, c)
  {
    if !ListContains(c, "*") {
      if ListContains(b, "*") { WildcardInSuperset(b, c); } else { SubsetTransitive(a, b, c); }
    }
  }

  /** A chain of registrations, each by the identity the previous one created, against whatever tables were current. */
  ghost predicate Chain(head: Registrar, reqs: seq<Request>, tables: seq<set<string>>)
    requires |tables| == |reqs|
    decreases |reqs|
  {
    reqs == [] || (CanRegister(head, reqs[0], tables[0]) && Chain(Registered(reqs[0]), reqs[1..], tables[1..]))
  }

  /** The identity created last in a chain. */
  function LastOf(head: Registrar, reqs: seq<Request>): Registrar {
    if reqs == [] then head else Registered(reqs[|reqs| - 1])
  }

  lemma {:induction false} ChainTail(head: Registrar, reqs: seq<Request>, tables: seq<set<string>>)
    requires |tables| == |reqs| && Chain(head, reqs, tables) && reqs != []
    ensures CanRegister(head, reqs[0], tables[0]) && Chain(Registered(reqs[0]), reqs[1..], tables[1..])
    ensures LastOf(head, reqs) == LastOf(Registered(reqs[0]), reqs[1..])
  {
  }

  /** Along a chain of any length the head holds every boolean power of the last identity ... */
  lemma {:induction false} HeadHoldsBooleans(head: Registrar, reqs: seq<Request>, tables: seq<set<string>>, b: string)
    requires |tables| == |reqs| && Chain(head, reqs, tables)
    requires b in [REVOKER, INTERMEDIATE_CA, GEN_CRL, AFFILIATION_MGR] && ReadsTrue(LastOf(head, reqs).attrs, b)
    ensures ReadsTrue(head.attrs, b)
    decreases |reqs|
  {
    if reqs != [] {
      ChainTail(head, reqs, tables);
      HeadHoldsBooleans(Registered(reqs[0]), reqs[1..], tables[1..], b);
      BooleansHeld(head, reqs[0], tables[0], b);
    }
  }

  /** ... its roles cover those of the last, and its subtree contains the last one's affiliation. */
  lemma {:induction false} HeadHoldsRoles(head: Registrar, reqs: seq<Request>, tables: seq<set<string>>, name: string)
    requires |tables| == |reqs| && Chain(head, reqs, tables) && reqs != []
    requires name in [ROLES, DELEGATE_ROLES] && name in LastOf(head, reqs).attrs
    ensures name in head.attrs && WithinRoles(LastOf(head, reqs).attrs[name].value, head.attrs[name].value)
    ensures head.affiliation == "" || InSubtree(head.affiliation, LastOf(head, reqs).affiliation)
    decreases |reqs|
  {
    ChainTail(head, reqs, tables);
    var next := Registered(reqs[0]);
    if |reqs| > 1 {
      HeadHoldsRoles(next, reqs[1..], tables[1..], name);
      RolesHeld(head, reqs[0], tables[0], name);
      WithinTransitive(LastOf(head, reqs).attrs[name].value, next.attrs[name].value, head.attrs[name].value);
      if head.affiliation != "" {
        SubtreeTransitive(head.affiliation, next.affiliation, LastOf(head, reqs).affiliation);
      }
    } else {
      RolesHeld(head, reqs[0], tables[0], name);
    }
  }

  /** Along a chain of any length the head could have made every registration itself. */
  lemma {:induction false} AuthorityNeverGrows(head: Registrar, reqs: seq<Request>, tables: seq<set<string>>, i: nat)
    requires |tables| == |reqs| && Chain(head, reqs, tables) && i < |reqs|
    ensures CanRegister(head, reqs[i], tables[i])
    decreases |reqs|
  {
    if i > 0 {
      AuthorityNeverGrows(Registered(reqs[0]), reqs[1..], tables[1..], i - 1);
      assert reqs[1..][i - 1] == reqs[i] && tables[1..][i - 1] == tables[i];
      AuthorityShrinks(head, reqs[0], tables[0], reqs[i], tables[i]);
    }
  }

  lemma {:induction false} FixedNeverGranted(req: Attr, reqs: seq<Attr>, user: Owned, registrar: map<string, Attr>)
    requires AttributeControl(req.name) == Some(Fixed)
    ensures !CanRegisterAttribute(req, reqs, user, registrar)
  {
  }

  /** A fixed attribute is never granted, so a checked request names none of them. */
  lemma {:induction false} FixedNeverRequested(reqs: seq<Attr>, user: Owned, registrar: map<string, Attr>, name: string)
    requires CanRegisterRequestedAttributes(reqs, user, registrar) && AttributeControl(name) == Some(Fixed)
    ensures Occurrences(reqs, name) == 0
  {
    InViewIffOccurs(reqs, name);
    if Occurrences(reqs, name) > 0 {
      var a := View(reqs)[name];
      var i :| 0 <= i < |reqs| && reqs[i] == a;
      FixedNeverGranted(reqs[i], reqs, user, registrar);
    }
  }

  // Delegate roles within roles

  /** The check reads the first entry of a name, the identity the last: the same if there is at most one. */
  lemma {:induction false} FirstIsLast(reqs: seq<Attr>, name: string)
    requires Occurrences(reqs, name) <= 1
    ensures AttrValue(reqs, name) == Value(reqs, name)
  {
    if reqs != [] {
      FirstIsLast(reqs[1..], name);
      InViewIffOccurs(reqs[1..], name);
    }
  }

  lemma {:induction false} StoredValue(req: Request, name: string)
    requires name in [ROLES, DELEGATE_ROLES]
    ensures Value(StoredAttributes(req), name) == Value(req.attributes, name)
  {
    var fixed := [Attr(ENROLLMENT_ID, req.name, true), Attr(TYPE, req.utype, true),
                  Attr(AFFILIATION, req.affiliation, true)];
    ViewAppend(req.attributes, fixed);
    InViewIffOccurs(fixed, name);
    assert fixed[1..] == [fixed[1], fixed[2]] && fixed[1..][1..] == [fixed[2]] && fixed[1..][1..][1..] == [];
  }

  /** The delegate roles a new identity reads are within the roles it reads, if neither is requested twice. */
  lemma {:induction false} DelegatesWithinRoles(req: Request, registrar: map<string, Attr>)
    requires CanRegisterRequestedAttributes(req.attributes, None, registrar)
    requires Occurrences(req.attributes, ROLES) <= 1 && Occurrences(req.attributes, DELEGATE_ROLES) <= 1
    ensures WithinRoles(Value(StoredAttributes(req), DELEGATE_ROLES), Value(StoredAttributes(req), ROLES))
  {
    var reqs := req.attributes;
    StoredValue(req, ROLES);
    StoredValue(req, DELEGATE_ROLES);
    FirstIsLast(reqs, ROLES);
    FirstIsLast(reqs, DELEGATE_ROLES);
    InViewIffOccurs(reqs, DELEGATE_ROLES);
    if Value(reqs, DELEGATE_ROLES) == "" {
      SplitSingle("", ',');
    } else {
      var a := View(reqs)[DELEGATE_ROLES];
      var i :| 0 <= i < |reqs| && reqs[i] == a;
      assert CanRegisterAttribute(reqs[i], reqs, None, registrar);
    }
  }

  lemma {:induction false} StarAllows(name: string)
    ensures ListContains("*", "*") && CanRegisterAttr(name, Slice("*"))
  {
    SplitSingle("*", ',');
    assert "*"[1..] == "" && Remove("*", ' ') == "*" && Slice("*") == ["*"];
    assert "*"[..0] == "" && TrimRight("*", '*') == "";
    assert Split("*", ',')[0] == "*" && TrimLeadingSpace("*") == "*";
    assert Covers(Slice("*")[0], name);
  }

  /** A registrar who may grant everything, and a request that lists the delegate roles twice. */
  function Everything(): map<string, Attr> {
    map[ROLES := Attr(ROLES, "*", false), DELEGATE_ROLES := Attr(DELEGATE_ROLES, "*", false),
        REGISTRAR_ATTR := Attr(REGISTRAR_ATTR, "*", false)]
  }

  function TwiceRequested(roles: string, checked: string, read: string): seq<Attr> {
    [Attr(ROLES, roles, false), Attr(DELEGATE_ROLES, checked, false), Attr(DELEGATE_ROLES, read, false)]
  }

  lemma {:induction false} TwiceValues(roles: string, checked: string, read: string)
    ensures var reqs := TwiceRequested(roles, checked, read);
            && AttrValue(reqs, ROLES) == roles && AttrValue(reqs, DELEGATE_ROLES) == checked
            && Value(reqs, ROLES) == roles && Value(reqs, DELEGATE_ROLES) == read
  {
    var r, d, e := Attr(ROLES, roles, false), Attr(DELEGATE_ROLES, checked, false), Attr(DELEGATE_ROLES, read, false);
    assert [r, d, e][1..] == [d, e] && [d, e][1..] == [e] && [e][1..] == [];
    assert View([e]) == map[DELEGATE_ROLES := e] && View([d, e]) == map[DELEGATE_ROLES := e];
    assert View([r, d, e]) == map[ROLES := r, DELEGATE_ROLES := e];
  }

  /** Requested twice, they need not be: only the first list is checked, and the second is read. */
  lemma {:induction false} SecondUnchecked(roles: string, checked: string, read: string)
    requires WithinRoles(checked, roles)
    ensures CanRegisterRequestedAttributes(TwiceRequested(roles, checked, read), None, Everything())
    ensures Value(TwiceRequested(roles, checked, read), DELEGATE_ROLES) == read
  {
    var reqs := TwiceRequested(roles, checked, read);
    TwiceValues(roles, checked, read);
    forall i | 0 <= i < |reqs| ensures CanRegisterAttribute(reqs[i], reqs, None, Everything()) {
      StarAllows(reqs[i].name);
      StarGrants(reqs[i], reqs);
    }
  }

  lemma {:induction false} StarGrants(a: Attr, reqs: seq<Attr>)
    requires a.name in [ROLES, DELEGATE_ROLES] && CheckDelegateRoles(reqs, None)
    ensures RegistrarAuthorized(a, reqs, None, Everything())
  {
    StarAllows(a.name);
  }

  /** For example `peer`, then `client`, for an identity with the role `peer`. */
  lemma {:induction false} SecondDelegateUnchecked()
    ensures CanRegisterRequestedAttributes(TwiceRequested("peer", "peer", "client"), None, Everything())
    ensures var reqs := TwiceRequested("peer", "peer", "client");
            !WithinRoles(Value(reqs, DELEGATE_ROLES), Value(reqs, ROLES))
  {
    PeerOnly();
    SecondUnchecked("peer", "peer", "client");
    TwiceValues("peer", "peer", "client");
  }

  lemma {:induction false} SingleLists(a: string, b: string)
    requires ',' !in a && ',' !in b && a != ""
    ensures IsSubsetOf(a, b) <==> ToLower(a) == ToLower(b)
    ensures ListContains(b, "*") <==> TrimLeadingSpace(b) == "*"
  {
    SplitSingle(a, ',');
    SplitSingle(b, ',');
    assert Split(a, ',')[0] == a && Split(b, ',')[0] == b;
  }

  lemma {:induction false} PeerOnly()
    ensures IsSubsetOf("peer", "peer") && !WithinRoles("client", "peer")
  {
    SingleLists("peer", "peer");
    SingleLists("client", "peer");
    assert |ToLower("peer")| == 4 && |ToLower("client")| == 6;
  }
}
