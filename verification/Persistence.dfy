/** Policies as JSON values: saving, loading, and what survives the trip. */
module Persistence {
  import opened Sequences
  import opened Permissions
  import opened Identities
  import opened Decisions
  import opened PolicyStores
  import opened JsonTrees

  type Fields = map<string, Json>

  /** A string member, or the default; None stands for the exception thrown at another type. */
  function GetString(o: Fields, key: string, default_: string): Option<string> {
    if key !in o then Some(default_) else if o[key].Str? then Some(o[key].s) else None
  }

  function EffectText(e: Effect): string {
    match e
    case Allow => "allow"
    case Deny => "deny"
    case Unknown => "unknown"
  }

  function EffectOf(text: string): Effect {
    if text == "allow" then Allow else if text == "deny" then Deny else Unknown
  }

  // ---- saving ----

  /** A member that is written only when it is not empty. */
  function TextField(key: string, text: string): Fields {
    if text == "" then map[] else map[key := Str(text)]
  }

  function RealmOut(r: Realm): Fields {
    TextField("type", r.kind) + TextField("uuid", r.uuid) + TextField("name", r.name)
    + TextField("description", r.description) + TextField("image", r.image)
  }

  function RefOut(r: IdentityRef): Fields {
    var o: Fields := map["type" := Str(r.kind), "name" := Str(r.name)];
    if r.realm.Empty() then o else o["realm" := Obj(RealmOut(r.realm))]
  }

  function EntryOut(permission: Permission, effect: Effect): Fields {
    map["permission" := Str(ToString(permission)), "mode" := Str(EffectText(effect))]
  }

  function EntriesOut(entries: seq<ACEntry>): seq<Json> {
    if entries == [] then []
    else [Obj(EntryOut(entries[0].permission, entries[0].effect))] + EntriesOut(entries[1..])
  }

  function AclOut(acl: ACList): Fields {
    TextField("id", acl.id) + map["entries" := Arr(EntriesOut(acl.entries))]
  }

  function GrantOut(g: AccessGrant): Fields {
    EntryOut(g.permission, g.effect)["identity" := Obj(RefOut(g.identity))]
  }

  function BindingOut(b: PolicyBinding): Fields {
    map["aclId" := Str(b.aclId), "identity" := Obj(RefOut(b.identity))]
  }

  function AclsOut(acls: seq<ACList>): seq<Json> {
    if acls == [] then [] else [Obj(AclOut(acls[0]))] + AclsOut(acls[1..])
  }

  function GrantsOut(grants: seq<AccessGrant>): seq<Json> {
    if grants == [] then [] else [Obj(GrantOut(grants[0]))] + GrantsOut(grants[1..])
  }

  function BindingsOut(bindings: seq<PolicyBinding>): seq<Json> {
    if bindings == [] then [] else [Obj(BindingOut(bindings[0]))] + BindingsOut(bindings[1..])
  }

  function ArrayField(key: string, items: seq<Json>): Fields {
    if items == [] then map[] else map[key := Arr(items)]
  }

  /** The members a store adds to an object it is saved into. */
  function Saved(p: Policies): Fields {
    ArrayField("aclists", AclsOut(p.acls)) + ArrayField("bindings", BindingsOut(p.bindings))
    + ArrayField("grants", GrantsOut(p.grants))
  }

  // ---- loading; None and false stand for an exception on the way ----

  function RealmIn(j: Json): Option<Realm> {
    match j
    case Str(s) => Some(NO_REALM.(name := s))
    case Obj(o) =>
      (match (GetString(o, "type", ""), GetString(o, "uuid", ""), GetString(o, "name", ""),
              GetString(o, "description", ""), GetString(o, "image", ""))
       case (Some(kind), Some(uuid), Some(name), Some(description), Some(image)) =>
         Some(Realm(kind, uuid, name, description, image))
       case _ => None)
    case _ => Some(NO_REALM)
  }

  function RefIn(o: Fields): Option<IdentityRef> {
    match (GetString(o, "type", ""), GetString(o, "name", ""),
           if "realm" in o then RealmIn(o["realm"]) else Some(NO_REALM))
    case (Some(kind), Some(name), Some(realm)) => Some(IdentityRef(kind, realm, name))
    case _ => None
  }

  /** The identity member of a grant or binding; anything but an object leaves the blank identity. */
  function IdentityIn(o: Fields): Option<IdentityRef> {
    if "identity" in o && o["identity"].Obj? then RefIn(o["identity"].fields)
    else Some(IdentityRef("", NO_REALM, ""))
  }

  function EntryIn(o: Fields, defaultMode: string): Option<ACEntry> {
    match (GetString(o, "permission", ""), GetString(o, "mode", defaultMode))
    case (Some(permission), Some(mode)) => Some(ACEntry(Parsed(permission), EffectOf(mode)))
    case _ => None
  }

  function EntryListIn(items: seq<Json>): Option<seq<ACEntry>> {
    if items == [] then Some([])
    else if !items[0].Obj? then EntryListIn(items[1..])
    else match (EntryIn(items[0].fields, ""), EntryListIn(items[1..]))
         case (Some(entry), Some(rest)) => Some([entry] + rest)
         case _ => None
  }

  function AclIn(o: Fields): Option<ACList> {
    match (GetString(o, "id", ""),
           if "entries" in o && o["entries"].Arr? then EntryListIn(o["entries"].items) else Some([]))
    case (Some(id), Some(entries)) => Some(ACList(id, entries))
    case _ => None
  }

  /** A grant from its own members, or from an object member named rule. */
  function GrantIn(o: Fields): Option<AccessGrant> {
    match (IdentityIn(o),
           if "rule" in o && o["rule"].Obj? then EntryIn(o["rule"].fields, "") else EntryIn(o, "unknown"))
    case (Some(identity), Some(entry)) => Some(AccessGrant(identity, entry.permission, entry.effect))
    case _ => None
  }

  function BindingIn(o: Fields): Option<PolicyBinding> {
    match (GetString(o, "aclId", ""), GetString(o, "policyId", ""), IdentityIn(o))
    case (Some(aclId), Some(policyId), Some(identity)) =>
      Some(PolicyBinding(if aclId != "" then aclId else policyId, identity))
    case (Some(aclId), None, Some(identity)) =>
      if aclId != "" then Some(PolicyBinding(aclId, identity)) else None
    case _ => None
  }

  function LoadAcls(items: seq<Json>, p: Policies): (Policies, bool) {
    if items == [] then (p, true)
    else if !items[0].Obj? then LoadAcls(items[1..], p)
    else match AclIn(items[0].fields)
         case None => (p, false)
         case Some(acl) => LoadAcls(items[1..], if acl.id != "" then AddedAcl(p, acl) else p)
  }

  function LoadBindings(items: seq<Json>, p: Policies): (Policies, bool) {
    if items == [] then (p, true)
    else if !items[0].Obj? then LoadBindings(items[1..], p)
    else match BindingIn(items[0].fields)
         case None => (p, false)
         case Some(b) => LoadBindings(items[1..], if b.aclId != "" then p.(bindings := p.bindings + [b]) else p)
  }

  function LoadGrants(items: seq<Json>, p: Policies): (Policies, bool) {
    if items == [] then (p, true)
    else if !items[0].Obj? then LoadGrants(items[1..], p)
    else match GrantIn(items[0].fields)
         case None => (p, false)
         case Some(g) => LoadGrants(items[1..], p.(grants := p.grants + [g]))
  }

  function ItemsOf(o: Fields, key: string, oldKey: string): seq<Json> {
    if key in o then (if o[key].Arr? then o[key].items else [])
    else if oldKey in o && o[oldKey].Arr? then o[oldKey].items
    else []
  }

  /** What loading an object leaves in a store, and whether it went through. */
  function Loaded(o: Fields): (Policies, bool) {
    var (p, ok) := LoadAcls(ItemsOf(o, "aclists", "policies"), NO_POLICIES);
    if !ok then (p, false)
    else
      var (q, ok') := LoadBindings(ItemsOf(o, "bindings", "bindings"), p);
      if !ok' then (q, false) else LoadGrants(ItemsOf(o, "grants", "entries"), q)
  }

  // ---- what else can be loaded ----

  /** The member is absent or a string. */
  predicate IsText(o: Fields, key: string) {
    key in o ==> o[key].Str?
  }

  /** The mode decides the effect by its exact text; any other text, and no text, is unknown. */
  lemma ModeDecides(o: Fields)
    requires IsText(o, "permission") && IsText(o, "mode") && "rule" !in o && IdentityIn(o).Some?
    ensures var effect := if "mode" !in o then Unknown
                          else if o["mode"].s == "allow" then Allow
                          else if o["mode"].s == "deny" then Deny
                          else Unknown;
            var permission := if "permission" in o then Parsed(o["permission"].s) else ALL;
            && EntryListIn([Obj(o)]) == Some([ACEntry(permission, effect)])
            && GrantIn(o) == Some(AccessGrant(IdentityIn(o).value, permission, effect))
  {
    ParseEmpty(ALL);
    assert "unknown"[0] != "allow"[0] && "unknown"[0] != "deny"[0];
    assert [Obj(o)][1..] == [] && EntryListIn([]) == Some([]);
    hide Parsed, IdentityIn;
    var entry := EntryIn(o, "").value;
    assert [entry] + [] == [entry];
  }

  /** Lists and grants are also read under their old names, unless the new one is there. */
  lemma OldNames(o: Fields)
    ensures "aclists" !in o && "policies" in o ==> Loaded(o) == Loaded(o["aclists" := o["policies"]])
    ensures "aclists" in o ==> Loaded(o) == Loaded(o - {"policies"})
    ensures "grants" !in o && "entries" in o ==> Loaded(o) == Loaded(o["grants" := o["entries"]])
    ensures "grants" in o ==> Loaded(o) == Loaded(o - {"entries"})
  {
    assert "aclists"[0] == 'a' && "bindings"[0] == 'b' && "grants"[0] == 'g';
    assert "policies"[0] == 'p' && "entries"[0] == 'e';
    hide LoadAcls, LoadBindings, LoadGrants;
  }

  /** A binding names its list under an old name too. */
  lemma OldBindingName(o: Fields)
    requires "policyId" in o && o["policyId"].Str?
    ensures ("aclId" !in o || o["aclId"] == Str("")) ==> BindingIn(o) == BindingIn(o["aclId" := o["policyId"]])
    ensures "aclId" in o ==> o["aclId"] != Str("") ==> BindingIn(o) == BindingIn(o - {"policyId"})
  {
    assert "aclId"[0] == 'a' && "policyId"[0] == 'p' && "identity"[0] == 'i';
    hide RefIn;
  }

  /** The three texts of an effect. */
  lemma ModeWritten(permission: Permission)
    ensures EntryOut(permission, Allow)["mode"] == Str("allow")
    ensures EntryOut(permission, Deny)["mode"] == Str("deny")
    ensures EntryOut(permission, Unknown)["mode"] == Str("unknown")
  {
    assert "permission"[0] != "mode"[0];
  }

  predicate IsObject(j: Json) {
    j.Obj?
  }

  /** Items that are no objects are passed over. */
  lemma {:induction false} MalformedSkipped(items: seq<Json>, p: Policies)
    ensures LoadAcls(items, p) == LoadAcls(Filter(items, IsObject), p)
    ensures LoadBindings(items, p) == LoadBindings(Filter(items, IsObject), p)
    ensures LoadGrants(items, p) == LoadGrants(Filter(items, IsObject), p)
    ensures EntryListIn(items) == EntryListIn(Filter(items, IsObject))
    decreases |items|
  {
    hide AclIn, BindingIn, GrantIn, EntryIn, AddedAcl;
    if items != [] {
      var rest := items[1..];
      MalformedSkipped(rest, p);
      if items[0].Obj? {
        assert ([items[0]] + Filter(rest, IsObject))[1..] == Filter(rest, IsObject);
        var acl, b, g := AclIn(items[0].fields), BindingIn(items[0].fields), GrantIn(items[0].fields);
        if acl.Some? {
          MalformedSkipped(rest, if acl.value.id != "" then AddedAcl(p, acl.value) else p);
        }
        if b.Some? {
          MalformedSkipped(rest, if b.value.aclId != "" then p.(bindings := p.bindings + [b.value]) else p);
        }
        if g.Some? {
          MalformedSkipped(rest, p.(grants := p.grants + [g.value]));
        }
      }
    }
  }

  /** Items load one after the other; after one that fails nothing more is read, and what came before stays. */
  lemma {:induction false} LoadAppend(a: seq<Json>, b: seq<Json>, p: Policies)
    ensures LoadAcls(a + b, p) == var (q, ok) := LoadAcls(a, p); if ok then LoadAcls(b, q) else (q, false)
    ensures LoadBindings(a + b, p) == var (q, ok) := LoadBindings(a, p); if ok then LoadBindings(b, q) else (q, false)
    ensures LoadGrants(a + b, p) == var (q, ok) := LoadGrants(a, p); if ok then LoadGrants(b, q) else (q, false)
    decreases |a|
  {
    hide AclIn, BindingIn, GrantIn, AddedAcl;
    if a == [] {
      assert a + b == b;
    } else {
      assert (a + b)[0] == a[0] && (a + b)[1..] == a[1..] + b;
      LoadAppend(a[1..], b, p);
      if a[0].Obj? {
        var acl, bound, g := AclIn(a[0].fields), BindingIn(a[0].fields), GrantIn(a[0].fields);
        if acl.Some? {
          LoadAppend(a[1..], b, if acl.value.id != "" then AddedAcl(p, acl.value) else p);
        }
        if bound.Some? {
          LoadAppend(a[1..], b, if bound.value.aclId != "" then p.(bindings := p.bindings + [bound.value]) else p);
        }
        if g.Some? {
          LoadAppend(a[1..], b, p.(grants := p.grants + [g.value]));
        }
      }
    }
  }

  /** One item fails exactly at a member it needs that is no string, or at an identity or rule that fails so. */
  lemma {:induction false} ItemFails(o: Fields, p: Policies)
    requires "identity" !in o && "rule" !in o && "entries" !in o
    ensures LoadAcls([Obj(o)], p).1 <==> IsText(o, "id")
    ensures LoadBindings([Obj(o)], p).1
       <==> IsText(o, "aclId") && (("aclId" in o && o["aclId"].s != "") || IsText(o, "policyId"))
    ensures LoadGrants([Obj(o)], p).1 <==> IsText(o, "permission") && IsText(o, "mode")
  {
    assert [Obj(o)][1..] == [];
    hide Parsed, AddedAcl;
  }

  /** A realm that is a string is a name, and one that is neither string nor object is empty. */
  lemma RealmFromText(o: Fields)
    requires IsText(o, "type") && IsText(o, "name") && "realm" in o && !o["realm"].Obj?
    ensures RefIn(o).Some?
    ensures RefIn(o).value.realm == if o["realm"].Str? then Realm("", "", o["realm"].s, "", "") else NO_REALM
  {
  }

  /** A member that is no array holds nothing. */
  lemma NoArrayIsEmpty(o: Fields, key: string)
    requires key in {"aclists", "bindings", "grants"} && key in o && !o[key].Arr?
    ensures Loaded(o) == Loaded(o[key := Arr([])])
  {
    assert "aclists"[0] == 'a' && "bindings"[0] == 'b' && "grants"[0] == 'g';
    assert "policies"[0] == 'p' && "entries"[0] == 'e';
    hide LoadAcls, LoadBindings, LoadGrants;
  }

  /** A list that fails ends the loading before any binding or grant, a binding that fails before any grant. */
  lemma FailureStops(o: Fields)
    requires "policies" !in o && "entries" !in o && forall key :: key in o ==> o[key].Arr?
    ensures var acls, rest := if "aclists" in o then LoadAcls(o["aclists"].items, NO_POLICIES) else (NO_POLICIES, true),
                              if "bindings" in o then o["bindings"].items else [];
            if !acls.1 then Loaded(o) == acls
            else if !LoadBindings(rest, acls.0).1 then Loaded(o) == LoadBindings(rest, acls.0)
            else Loaded(o) == LoadGrants(if "grants" in o then o["grants"].items else [], LoadBindings(rest, acls.0).0)
  {
    assert LoadAcls([], NO_POLICIES) == (NO_POLICIES, true);
    hide LoadAcls, LoadBindings, LoadGrants;
  }

  lemma KeysOfSaved()
    ensures "aclists" !in {"bindings", "grants"} && "bindings" != "grants"
    ensures "id" != "entries" && "realm" !in {"type", "name"}
  {
    assert "aclists"[0] == 'a' && "bindings"[0] == 'b' && "grants"[0] == 'g';
    assert "id"[0] == 'i' && "entries"[0] == 'e' && "realm"[0] == 'r' && "type"[0] == 't' && "name"[0] == 'n';
  }

  /** Only lists that are not empty are written. */
  lemma OnlyFilledWritten(p: Policies)
    ensures "aclists" in Saved(p) <==> p.acls != []
    ensures "bindings" in Saved(p) <==> p.bindings != []
    ensures "grants" in Saved(p) <==> p.grants != []
  {
    KeysOfSaved();
    hide AclOut, BindingOut, GrantOut;
  }

  /** Of a realm only fields that are not empty, ... */
  lemma RealmFieldsWritten(r: Realm)
    ensures var o := RealmOut(r);
            && ("type" in o <==> r.kind != "") && ("uuid" in o <==> r.uuid != "") && ("name" in o <==> r.name != "")
            && ("description" in o <==> r.description != "") && ("image" in o <==> r.image != "")
  {
    hide TextField;
    RealmKeysDiffer();
    FieldWritten("type", r.kind);
    FieldWritten("uuid", r.uuid);
    FieldWritten("name", r.name);
    FieldWritten("description", r.description);
    FieldWritten("image", r.image);
  }

  /** ... of an identity only a realm that is not empty, and of a list only an id that is not. */
  lemma OnlyFieldsWritten(acl: ACList, r: IdentityRef)
    ensures "id" in AclOut(acl) <==> acl.id != ""
    ensures "realm" in RefOut(r) <==> !r.realm.Empty()
  {
    hide EntriesOut, TextField, RealmOut;
    KeysOfSaved();
    FieldWritten("id", acl.id);
  }

  lemma FieldWritten(key: string, text: string)
    ensures TextField(key, text).Keys == if text == "" then {} else {key}
  {
  }

  // ---- loading inverts saving ----

  lemma TextFieldRead(o: Fields, key: string, text: string, other: string)
    requires key !in o
    ensures GetString(o + TextField(key, text), key, "") == Some(text)
    ensures other != key ==> GetString(o + TextField(key, text), other, "") == GetString(o, other, "")
    ensures other != key && other !in o ==> other !in o + TextField(key, text)
  {
  }

  lemma RealmKeysDiffer()
    ensures "type" != "uuid" && "type" != "name" && "uuid" != "name"
    ensures "description" !in {"type", "uuid", "name"} && "image" !in {"type", "uuid", "name", "description"}
  {
    assert "type"[0] != "uuid"[0] && "type"[0] != "name"[0] && "uuid"[0] != "name"[0];
    assert |"description"| == 11 && |"image"| == 5;
  }

  lemma RealmRoundTrip(r: Realm)
    ensures RealmIn(Obj(RealmOut(r))) == Some(r)
  {
    RealmKeysDiffer();
    hide TextField, GetString;
    var o1 := TextField("type", r.kind);
    var o2 := o1 + TextField("uuid", r.uuid);
    var o3 := o2 + TextField("name", r.name);
    var o4 := o3 + TextField("description", r.description);
    OneField("type", r.kind);
    forall other | other in {"type", "name", "description", "image"} {
      TextFieldRead(o1, "uuid", r.uuid, other);
    }
    forall other | other in {"type", "uuid", "description", "image"} {
      TextFieldRead(o2, "name", r.name, other);
    }
    forall other | other in {"type", "uuid", "name", "image"} {
      TextFieldRead(o3, "description", r.description, other);
    }
    forall other | other in {"type", "uuid", "name", "description"} {
      TextFieldRead(o4, "image", r.image, other);
    }
  }

  lemma OneField(key: string, text: string)
    ensures GetString(TextField(key, text), key, "") == Some(text)
    ensures forall other :: other != key ==> other !in TextField(key, text)
  {
  }

  lemma RefRoundTrip(r: IdentityRef)
    ensures RefIn(RefOut(r)) == Some(r)
  {
    RealmRoundTrip(r.realm);
    hide RealmIn, RealmOut;
  }

  lemma EntryRoundTrip(permission: Permission, effect: Effect, defaultMode: string)
    ensures EntryIn(EntryOut(permission, effect), defaultMode) == Some(ACEntry(permission, effect))
  {
    ParseToString(permission);
    hide ToString, Parsed;
  }

  lemma {:induction false} EntriesRoundTrip(entries: seq<ACEntry>)
    ensures EntryListIn(EntriesOut(entries)) == Some(entries)
  {
    hide EntryIn, EntryOut;
    if entries != [] {
      EntryRoundTrip(entries[0].permission, entries[0].effect, "");
      EntriesRoundTrip(entries[1..]);
      assert entries == [entries[0]] + entries[1..];
    }
  }

  lemma AclRoundTrip(acl: ACList)
    ensures AclIn(AclOut(acl)) == Some(acl)
  {
    EntriesRoundTrip(acl.entries);
    hide EntryListIn, EntriesOut;
  }

  lemma GrantRoundTrip(g: AccessGrant)
    ensures GrantIn(GrantOut(g)) == Some(g)
  {
    RefRoundTrip(g.identity);
    EntryRoundTrip(g.permission, g.effect, "unknown");
    hide RefIn, RefOut, ToString, Parsed;
  }

  lemma BindingRoundTrip(b: PolicyBinding)
    ensures BindingIn(BindingOut(b)) == Some(b)
  {
    RefRoundTrip(b.identity);
    hide RefIn, RefOut;
  }

  predicate HasId(acl: ACList) {
    acl.id != ""
  }

  predicate NamesAcl(b: PolicyBinding) {
    b.aclId != ""
  }

  function NamedAcls(acls: seq<ACList>): seq<ACList> {
    Filter(acls, HasId)
  }

  function NamedBindings(bindings: seq<PolicyBinding>): seq<PolicyBinding> {
    Filter(bindings, NamesAcl)
  }

  /** Adding a list whose id is new, while nothing is bound, appends it. */
  lemma AddNewAcl(p: Policies, acl: ACList)
    requires p.bindings == [] && forall k :: 0 <= k < |p.acls| ==> p.acls[k].id != acl.id
    ensures AddedAcl(p, acl) == p.(acls := p.acls + [acl])
  {
    FilterAll(p.acls, (a: ACList) => a.id != acl.id);
    FilterAll(p.bindings, (b: PolicyBinding) => b.aclId != acl.id);
  }

  lemma {:induction false} AclsRoundTrip(acls: seq<ACList>, p: Policies)
    requires p.bindings == [] && UniqueIds(p.acls + acls)
    ensures LoadAcls(AclsOut(acls), p) == (p.(acls := p.acls + NamedAcls(acls)), true)
    decreases |acls|
  {
    hide AclIn, AclOut, AddedAcl;
    if acls == [] {
      assert p.acls + [] == p.acls;
    } else {
      AclRoundTrip(acls[0]);
      var n := |p.acls|;
      assert (p.acls + acls)[n] == acls[0];
      if acls[0].id != "" {
        forall k | 0 <= k < n
          ensures p.acls[k].id != acls[0].id
        {
          assert (p.acls + acls)[k] == p.acls[k];
        }
        AddNewAcl(p, acls[0]);
        assert p.acls + [acls[0]] + acls[1..] == p.acls + acls;
        AclsRoundTrip(acls[1..], p.(acls := p.acls + [acls[0]]));
        assert p.acls + [acls[0]] + NamedAcls(acls[1..]) == p.acls + NamedAcls(acls);
      } else {
        UniqueWithout(p.acls, acls);
        AclsRoundTrip(acls[1..], p);
      }
    }
  }

  lemma UniqueWithout(a: seq<ACList>, b: seq<ACList>)
    requires b != [] && UniqueIds(a + b)
    ensures UniqueIds(a + b[1..])
  {
    var ab, ac := a + b, a + b[1..];
    forall i, j | 0 <= i < j < |ac|
      ensures ac[i].id != ac[j].id
    {
      var i', j' := if i < |a| then i else i + 1, if j < |a| then j else j + 1;
      assert ab[i'].id != ab[j'].id;
    }
  }

  lemma {:induction false} BindingsRoundTrip(bindings: seq<PolicyBinding>, p: Policies)
    ensures LoadBindings(BindingsOut(bindings), p)
         == (p.(bindings := p.bindings + NamedBindings(bindings)), true)
    decreases |bindings|
  {
    hide BindingIn, BindingOut;
    if bindings == [] {
      assert p.bindings + [] == p.bindings;
    } else {
      BindingRoundTrip(bindings[0]);
      if bindings[0].aclId != "" {
        BindingsRoundTrip(bindings[1..], p.(bindings := p.bindings + [bindings[0]]));
        assert p.bindings + [bindings[0]] + NamedBindings(bindings[1..]) == p.bindings + NamedBindings(bindings);
      } else {
        BindingsRoundTrip(bindings[1..], p);
      }
    }
  }

  lemma {:induction false} GrantsRoundTrip(grants: seq<AccessGrant>, p: Policies)
    ensures LoadGrants(GrantsOut(grants), p) == (p.(grants := p.grants + grants), true)
    decreases |grants|
  {
    hide GrantIn, GrantOut;
    if grants == [] {
      assert p.grants + [] == p.grants;
    } else {
      GrantRoundTrip(grants[0]);
      GrantsRoundTrip(grants[1..], p.(grants := p.grants + [grants[0]]));
      assert p.grants + [grants[0]] + grants[1..] == p.grants + grants;
    }
  }

  lemma SavedItems(p: Policies)
    ensures ItemsOf(Saved(p), "aclists", "policies") == AclsOut(p.acls)
    ensures ItemsOf(Saved(p), "bindings", "bindings") == BindingsOut(p.bindings)
    ensures ItemsOf(Saved(p), "grants", "entries") == GrantsOut(p.grants)
  {
    hide AclsOut, BindingsOut, GrantsOut;
  }

  /** Loading what was saved gives back everything that has an id, in order and field by field. */
  lemma LoadSaved(p: Policies)
    requires UniqueIds(p.acls)
    ensures Loaded(Saved(p)) == (Policies(NamedAcls(p.acls), p.grants, NamedBindings(p.bindings)), true)
  {
    SavedItems(p);
    hide LoadAcls, LoadBindings, LoadGrants, ItemsOf, Saved, AclsOut, BindingsOut, GrantsOut, NamedAcls, NamedBindings;
    assert [] + p.acls == p.acls;
    AclsRoundTrip(p.acls, NO_POLICIES);
    var q := NO_POLICIES.(acls := [] + NamedAcls(p.acls));
    BindingsRoundTrip(p.bindings, q);
    GrantsRoundTrip(p.grants, q.(bindings := [] + NamedBindings(p.bindings)));
    assert [] + p.grants == p.grants && [] + NamedAcls(p.acls) == NamedAcls(p.acls);
    assert [] + NamedBindings(p.bindings) == NamedBindings(p.bindings);
  }

  lemma {:induction false} FilterLoses<T>(s: seq<T>, keep: T -> bool)
    ensures |Filter(s, keep)| <= |s|
    ensures Filter(s, keep) == s <==> forall k :: 0 <= k < |s| ==> keep(s[k])
  {
    if s != [] {
      FilterLoses(s[1..], keep);
      if keep(s[0]) {
        assert Filter(s, keep) == [s[0]] + Filter(s[1..], keep);
        assert s == [s[0]] + s[1..];
        assert forall k :: 0 < k < |s| ==> s[k] == s[1..][k - 1];
        if Filter(s, keep) == s {
          assert Filter(s, keep)[1..] == s[1..];
        }
        if forall k :: 0 <= k < |s| ==> keep(s[k]) {
          assert forall k :: 0 <= k < |s[1..]| ==> keep(s[1..][k]);
        }
      }
    }
  }

  /** A store survives saving and loading exactly when no list and no binding has an empty id. */
  lemma RoundTripExactly(p: Policies)
    requires UniqueIds(p.acls)
    ensures Loaded(Saved(p)) == (p, true)
       <==> (forall k :: 0 <= k < |p.acls| ==> p.acls[k].id != "")
            && (forall k :: 0 <= k < |p.bindings| ==> p.bindings[k].aclId != "")
  {
    LoadSaved(p);
    FilterLoses(p.acls, HasId);
    FilterLoses(p.bindings, NamesAcl);
    hide Loaded, Saved, Filter;
  }
}
