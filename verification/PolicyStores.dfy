/** Policy stores: named lists of entries, bindings and grants, and routing by realm. */
module PolicyStores {
  import opened Sequences
  import opened Permissions
  import opened Identities
  import opened Decisions

  datatype ACList = ACList(id: string, entries: seq<ACEntry>)

  datatype AccessGrant = AccessGrant(identity: IdentityRef, permission: Permission, effect: Effect)

  datatype PolicyBinding = PolicyBinding(aclId: string, identity: IdentityRef)

  /** The contents of a plain store. */
  datatype Policies = Policies(acls: seq<ACList>, grants: seq<AccessGrant>, bindings: seq<PolicyBinding>)

  const NO_POLICIES := Policies([], [], [])

  /** Equality of grants and of bindings compares identities as references. */
  predicate SameGrant(a: AccessGrant, b: AccessGrant) {
    a.identity.Equals(b.identity) && a.permission == b.permission && a.effect == b.effect
  }

  predicate SameBinding(a: PolicyBinding, b: PolicyBinding) {
    a.aclId == b.aclId && a.identity.Equals(b.identity)
  }

  /** Where realms have keys, that is equality of everything. */
  lemma SameExactly(g: AccessGrant, h: AccessGrant, a: PolicyBinding, b: PolicyBinding)
    requires g.identity.realm == h.identity.realm && g.identity.realm.HasKey()
    requires a.identity.realm == b.identity.realm && a.identity.realm.HasKey()
    ensures SameGrant(g, h) <==> g == h
    ensures SameBinding(a, b) <==> a == b
  {
    EqualsInRealm(g.identity, h.identity);
    EqualsInRealm(a.identity, b.identity);
  }

  /** An identity without a realm stands for the one of that kind and name in every realm. */
  lemma SameInAnyRealm(realm: Realm, kind: string, name: string, p: Permission, effect: Effect, aclId: string)
    ensures SameGrant(AccessGrant(IdentityRef(kind, NO_REALM, name), p, effect),
                      AccessGrant(IdentityRef(kind, realm, name), p, effect))
    ensures SameBinding(PolicyBinding(aclId, IdentityRef(kind, NO_REALM, name)),
                        PolicyBinding(aclId, IdentityRef(kind, realm, name)))
  {
  }

  // ---- queries ----

  function FindAcl(acls: seq<ACList>, id: string): Option<ACList> {
    if acls == [] then None else if acls[0].id == id then Some(acls[0]) else FindAcl(acls[1..], id)
  }

  function GrantedEntries(grants: seq<AccessGrant>, identity: IdentityRef): seq<ACEntry> {
    if grants == [] then []
    else if grants[0].identity.Equals(identity) then
      [ACEntry(grants[0].permission, grants[0].effect)] + GrantedEntries(grants[1..], identity)
    else GrantedEntries(grants[1..], identity)
  }

  function BoundEntries(bindings: seq<PolicyBinding>, acls: seq<ACList>, identity: IdentityRef): seq<ACEntry> {
    if bindings == [] then []
    else
      var rest := BoundEntries(bindings[1..], acls, identity);
      if !bindings[0].identity.Equals(identity) then rest
      else match FindAcl(acls, bindings[0].aclId)
           case Some(acl) => acl.entries + rest
           case None => rest
  }

  function EntriesIn(p: Policies, identity: IdentityRef): seq<ACEntry> {
    GrantedEntries(p.grants, identity) + BoundEntries(p.bindings, p.acls, identity)
  }

  /** The entries come in the order of the grants and of the bindings. */
  lemma {:induction false} EntriesInOrder(
      grants: seq<AccessGrant>, g: AccessGrant, bindings: seq<PolicyBinding>, b: PolicyBinding, acls: seq<ACList>,
      identity: IdentityRef)
    ensures GrantedEntries(grants + [g], identity)
         == GrantedEntries(grants, identity)
            + if g.identity.Equals(identity) then [ACEntry(g.permission, g.effect)] else []
    ensures BoundEntries(bindings + [b], acls, identity)
         == BoundEntries(bindings, acls, identity)
            + if b.identity.Equals(identity) && FindAcl(acls, b.aclId).Some? then FindAcl(acls, b.aclId).value.entries
              else []
    decreases |grants| + |bindings|
  {
    if grants != [] {
      EntriesInOrder(grants[1..], g, bindings, b, acls, identity);
      assert (grants + [g])[1..] == grants[1..] + [g];
    } else if bindings != [] {
      EntriesInOrder(grants, g, bindings[1..], b, acls, identity);
      assert (bindings + [b])[1..] == bindings[1..] + [b];
    } else {
      assert [g][1..] == [] && [b][1..] == [];
      assert grants + [g] == [g] && bindings + [b] == [b];
    }
  }

  // ---- changes ----

  function RemovedAcl(p: Policies, id: string): Policies {
    p.(acls := Filter(p.acls, (acl: ACList) => acl.id != id),
       bindings := Filter(p.bindings, (b: PolicyBinding) => b.aclId != id))
  }

  function AddedAcl(p: Policies, acl: ACList): Policies {
    var q := RemovedAcl(p, acl.id);
    q.(acls := q.acls + [acl])
  }

  /** Replaces the first list with the same id in place, else appends. */
  function Replaced(acls: seq<ACList>, acl: ACList): seq<ACList> {
    if acls == [] then [acl]
    else if acls[0].id == acl.id then [acl] + acls[1..]
    else [acls[0]] + Replaced(acls[1..], acl)
  }

  // ---- uniqueness of list ids ----

  ghost predicate UniqueIds(acls: seq<ACList>) {
    forall i, j :: 0 <= i < j < |acls| ==> acls[i].id != acls[j].id
  }

  /** Looking up an id finds the list that has it. */
  lemma {:induction false} FindAclExactly(acls: seq<ACList>, id: string, acl: ACList)
    requires UniqueIds(acls)
    ensures FindAcl(acls, id) == Some(acl) <==> acl in acls && acl.id == id
  {
    if acls != [] {
      assert UniqueIds(acls[1..]);
      FindAclExactly(acls[1..], id, acl);
      assert acl in acls <==> acl == acls[0] || acl in acls[1..];
    }
  }

  lemma {:induction false} FilterUnique(acls: seq<ACList>, keep: ACList -> bool)
    requires UniqueIds(acls)
    ensures UniqueIds(Filter(acls, keep))
  {
    if acls != [] {
      assert UniqueIds(acls[1..]);
      FilterUnique(acls[1..], keep);
      var rest := Filter(acls[1..], keep);
      forall i | 0 <= i < |rest|
        ensures rest[i].id != acls[0].id
      {
        FilterMember(acls[1..], keep, rest[i]);
        var k :| 0 <= k < |acls[1..]| && acls[1..][k] == rest[i];
        assert acls[k + 1] == rest[i];
      }
    }
  }

  lemma AddKeepsUnique(p: Policies, acl: ACList)
    requires UniqueIds(p.acls)
    ensures UniqueIds(AddedAcl(p, acl).acls)
  {
    var keep := (a: ACList) => a.id != acl.id;
    FilterUnique(p.acls, keep);
    var kept := Filter(p.acls, keep);
    forall i | 0 <= i < |kept|
      ensures kept[i].id != acl.id
    {
      FilterMember(p.acls, keep, kept[i]);
    }
  }

  lemma {:induction false} ReplaceKeepsUnique(acls: seq<ACList>, acl: ACList)
    requires UniqueIds(acls)
    ensures UniqueIds(Replaced(acls, acl))
    ensures forall a :: a in Replaced(acls, acl) ==> a == acl || a in acls
  {
    if acls != [] && acls[0].id != acl.id {
      assert UniqueIds(acls[1..]);
      ReplaceKeepsUnique(acls[1..], acl);
      var rest := Replaced(acls[1..], acl);
      forall i | 0 <= i < |rest|
        ensures rest[i].id != acls[0].id
      {
        assert rest[i] in rest;
        if rest[i] != acl {
          var k :| 0 <= k < |acls[1..]| && acls[1..][k] == rest[i];
          assert acls[k + 1] == rest[i];
        }
      }
    }
  }

  // ---- what lookups find after a change ----

  lemma {:induction false} FilterFinds(acls: seq<ACList>, id: string, other: string)
    ensures FindAcl(Filter(acls, (a: ACList) => a.id != id), other)
         == if other == id then None else FindAcl(acls, other)
  {
    if acls != [] {
      FilterFinds(acls[1..], id, other);
    }
  }

  lemma {:induction false} AppendFinds(acls: seq<ACList>, acl: ACList, id: string)
    ensures FindAcl(acls + [acl], id)
         == if FindAcl(acls, id).Some? then FindAcl(acls, id) else if acl.id == id then Some(acl) else None
  {
    if acls == [] {
      assert acls + [acl] == [acl] && [acl][1..] == [];
    } else {
      assert (acls + [acl])[1..] == acls[1..] + [acl];
      AppendFinds(acls[1..], acl, id);
    }
  }

  /** A removed list is not found any more and nothing is bound to it; other lists and bindings are untouched. */
  lemma {:induction false} RemovedFinds(p: Policies, id: string, other: string, b: PolicyBinding)
    ensures var q := RemovedAcl(p, id);
            && FindAcl(q.acls, other) == (if other == id then None else FindAcl(p.acls, other))
            && (b in q.bindings <==> b in p.bindings && b.aclId != id)
            && q.grants == p.grants
  {
    FilterFinds(p.acls, id, other);
    FilterMember(p.bindings, (x: PolicyBinding) => x.aclId != id, b);
  }

  /** An added list is found under its id, with nothing bound to it; other lists and bindings are untouched. */
  lemma {:induction false} AddedFinds(p: Policies, acl: ACList, other: string, b: PolicyBinding)
    ensures var q := AddedAcl(p, acl);
            && FindAcl(q.acls, other) == (if other == acl.id then Some(acl) else FindAcl(p.acls, other))
            && (b in q.bindings <==> b in p.bindings && b.aclId != acl.id)
            && q.grants == p.grants
  {
    RemovedFinds(p, acl.id, other, b);
    AppendFinds(RemovedAcl(p, acl.id).acls, acl, other);
  }

  /** An updated list is found under its id; other lists are untouched. */
  lemma {:induction false} ReplacedFinds(acls: seq<ACList>, acl: ACList, other: string)
    ensures FindAcl(Replaced(acls, acl), other) == if other == acl.id then Some(acl) else FindAcl(acls, other)
  {
    if acls == [] {
      assert [acl][1..] == [];
    } else if acls[0].id == acl.id {
      assert ([acl] + acls[1..])[1..] == acls[1..];
    } else {
      assert ([acls[0]] + Replaced(acls[1..], acl))[1..] == Replaced(acls[1..], acl);
      ReplacedFinds(acls[1..], acl, other);
    }
  }

  // ---- stores ----

  /** A plain store, a router by realm key with a global store behind it, or a wrapper. */
  datatype Store =
    | Plain(policies: Policies)
    | Routed(byKey: map<string, Store>, global: Option<Store>)
    | Decorated(wrapped: Store)

  /** The store a router hands an identity to. */
  function RouteTo(byKey: map<string, Store>, global: Option<Store>, realm: Realm): Option<Store> {
    if realm.HasKey() && realm.StorageKey() in byKey then Some(byKey[realm.StorageKey()]) else global
  }

  /** All entries that apply to an identity. */
  function EffectiveEntries(store: Store, identity: IdentityRef): seq<ACEntry>
    decreases store
  {
    match store
    case Plain(policies) => EntriesIn(policies, identity)
    case Decorated(wrapped) => EffectiveEntries(wrapped, identity)
    case Routed(byKey, global) =>
      if identity.realm.HasKey() && identity.realm.StorageKey() in byKey then
        EffectiveEntries(byKey[identity.realm.StorageKey()], identity)
      else match global
           case Some(g) => EffectiveEntries(g, identity)
           case None => []
  }
}
