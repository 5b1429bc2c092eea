/** The in-memory policy store: an object whose lists the operations change in place. */
module DefaultPolicyStores {
  import opened Sequences
  import opened Identities
  import opened Decisions
  import opened PolicyStores
  import opened JsonTrees
  import opened Persistence

  class DefaultPolicyStore {
    var acls: seq<ACList>
    var grants: seq<AccessGrant>
    var bindings: seq<PolicyBinding>

    ghost function Contents(): Policies
      reads this
    {
      Policies(acls, grants, bindings)
    }

    /** No two lists have the same id. */
    ghost predicate Valid()
      reads this
    {
      UniqueIds(acls)
    }

    constructor ()
      ensures Valid() && Contents() == NO_POLICIES
    {
      acls, grants, bindings := [], [], [];
    }

    method GetAcl(id: string) returns (r: Option<ACList>)
      ensures r == FindAcl(acls, id)
    {
      assert acls[0..] == acls;
      for i := 0 to |acls|
        invariant FindAcl(acls, id) == FindAcl(acls[i..], id)
      {
        if acls[i].id == id {
          return Some(acls[i]);
        }
        assert acls[i..][1..] == acls[i + 1..];
      }
      r := None;
    }

    method RemoveAcl(id: string)
      requires Valid()
      modifies this
      ensures Valid() && Contents() == RemovedAcl(old(Contents()), id)
    {
      FilterUnique(acls, (acl: ACList) => acl.id != id);
      acls := Filter(acls, (acl: ACList) => acl.id != id);
      bindings := Filter(bindings, (b: PolicyBinding) => b.aclId != id);
    }

    method AddAcl(acl: ACList)
      requires Valid()
      modifies this
      ensures Valid() && Contents() == AddedAcl(old(Contents()), acl)
    {
      AddKeepsUnique(Contents(), acl);
      RemoveAcl(acl.id);
      acls := acls + [acl];
    }

    method UpdateAcl(acl: ACList)
      requires Valid()
      modifies this
      ensures Valid() && Contents() == old(Contents()).(acls := Replaced(old(acls), acl))
    {
      ReplaceKeepsUnique(acls, acl);
      assert acls[0..] == acls;
      for i := 0 to |acls|
        invariant acls == old(acls) && grants == old(grants) && bindings == old(bindings)
        invariant Replaced(acls, acl) == acls[..i] + Replaced(acls[i..], acl)
      {
        if acls[i].id == acl.id {
          assert acls[i..][1..] == acls[i + 1..];
          assert acls[i := acl] == acls[..i] + ([acl] + acls[i + 1..]);
          acls := acls[i := acl];
          return;
        }
        assert acls[i..][1..] == acls[i + 1..];
        assert acls[..i] + ([acls[i]] + Replaced(acls[i + 1..], acl)) == acls[..i + 1] + Replaced(acls[i + 1..], acl);
      }
      assert acls[..|acls|] == acls;
      acls := acls + [acl];
    }

    method AddGrant(grant: AccessGrant)
      requires Valid()
      modifies this
      ensures Valid() && Contents() == old(Contents()).(grants := old(grants) + [grant])
    {
      grants := grants + [grant];
    }

    /** Removes exactly the grants that equal the given one as references, keeping the order of the others. */
    method RemoveGrant(grant: AccessGrant)
      requires Valid()
      modifies this
      ensures Valid() && Contents() == old(Contents()).(grants := grants)
      ensures IsSelection(old(grants), grants, (g: AccessGrant) => !SameGrant(g, grant))
    {
      var others := (g: AccessGrant) => !SameGrant(g, grant);
      FilterSelects(grants, others);
      grants := Filter(grants, others);
    }

    method AddBinding(binding: PolicyBinding)
      requires Valid()
      modifies this
      ensures Valid() && Contents() == old(Contents()).(bindings := old(bindings) + [binding])
    {
      bindings := bindings + [binding];
    }

    /** Removes exactly the bindings that equal the given one, keeping the order of the others. */
    method RemoveBinding(binding: PolicyBinding)
      requires Valid()
      modifies this
      ensures Valid() && Contents() == old(Contents()).(bindings := bindings)
      ensures IsSelection(old(bindings), bindings, (b: PolicyBinding) => !SameBinding(b, binding))
    {
      var others := (b: PolicyBinding) => !SameBinding(b, binding);
      FilterSelects(bindings, others);
      bindings := Filter(bindings, others);
    }

    method EffectiveEntriesOf(identity: IdentityRef) returns (entries: seq<ACEntry>)
      ensures entries == EntriesIn(Contents(), identity)
    {
      entries := GrantEntriesOf(identity);
      ghost var granted := entries;
      assert bindings[0..] == bindings;
      for i := 0 to |bindings|
        invariant granted + BoundEntries(bindings, acls, identity)
               == entries + BoundEntries(bindings[i..], acls, identity)
      {
        assert bindings[i..][1..] == bindings[i + 1..];
        if bindings[i].identity.Equals(identity) {
          var acl := GetAcl(bindings[i].aclId);
          if acl.Some? {
            ghost var rest := BoundEntries(bindings[i + 1..], acls, identity);
            assert entries + (acl.value.entries + rest) == entries + acl.value.entries + rest;
            entries := entries + acl.value.entries;
          }
        }
      }
    }

    method GrantEntriesOf(identity: IdentityRef) returns (entries: seq<ACEntry>)
      ensures entries == GrantedEntries(grants, identity)
    {
      entries := [];
      assert grants[0..] == grants;
      for i := 0 to |grants|
        invariant GrantedEntries(grants, identity) == entries + GrantedEntries(grants[i..], identity)
      {
        assert grants[i..][1..] == grants[i + 1..];
        if grants[i].identity.Equals(identity) {
          entries := entries + [ACEntry(grants[i].permission, grants[i].effect)];
        }
      }
    }

    method Clear()
      modifies this
      ensures Valid() && Contents() == NO_POLICIES
    {
      acls, grants, bindings := [], [], [];
    }

    /** Adds the members that describe the store to an object. */
    method JsonOut(o: Fields) returns (r: Fields)
      ensures r == o + Saved(Contents())
    {
      NothingOut(Contents());
      MapConcat(o, ArrayField("aclists", AclsOut(acls)), ArrayField("bindings", BindingsOut(bindings)),
                ArrayField("grants", GrantsOut(grants)));
      hide AclsOut, BindingsOut, GrantsOut;
      hide ArrayField;
      r := o;
      if acls != [] {
        r := AddArray(r, "aclists", AclsOut(acls));
      }
      if bindings != [] {
        r := AddArray(r, "bindings", BindingsOut(bindings));
      }
      if grants != [] {
        r := AddArray(r, "grants", GrantsOut(grants));
      }
    }

    static method AddArray(o: Fields, key: string, items: seq<Json>) returns (r: Fields)
      requires items != []
      ensures r == o + ArrayField(key, items)
    {
      r := o[key := Arr(items)];
    }

    static lemma NothingOut(p: Policies)
      ensures AclsOut(p.acls) == [] <==> p.acls == []
      ensures BindingsOut(p.bindings) == [] <==> p.bindings == []
      ensures GrantsOut(p.grants) == [] <==> p.grants == []
      ensures forall o: Fields, key: string :: o + ArrayField(key, []) == o
    {
    }

    static lemma MapConcat(o: Fields, a: Fields, b: Fields, c: Fields)
      ensures o + a + b + c == o + (a + b + c)
    {
    }

    method LoadAclArray(items: seq<Json>) returns (ok: bool)
      requires Valid()
      modifies this
      ensures Valid() && (Contents(), ok) == LoadAcls(items, old(Contents()))
    {
      hide AddedAcl, AclIn;
      assert items[0..] == items;
      for i := 0 to |items|
        invariant Valid()
        invariant LoadAcls(items, old(Contents())) == LoadAcls(items[i..], Contents())
      {
        assert items[i..][1..] == items[i + 1..];
        if items[i].Obj? {
          var acl := AclIn(items[i].fields);
          if acl.None? {
            return false;
          }
          if acl.value.id != "" {
            AddAcl(acl.value);
          }
        }
      }
      ok := true;
    }

    method LoadBindingArray(items: seq<Json>) returns (ok: bool)
      requires Valid()
      modifies this
      ensures Valid() && (Contents(), ok) == LoadBindings(items, old(Contents()))
    {
      hide BindingIn;
      assert items[0..] == items;
      for i := 0 to |items|
        invariant Valid()
        invariant LoadBindings(items, old(Contents())) == LoadBindings(items[i..], Contents())
      {
        assert items[i..][1..] == items[i + 1..];
        if items[i].Obj? {
          var binding := BindingIn(items[i].fields);
          if binding.None? {
            return false;
          }
          if binding.value.aclId != "" {
            AddBinding(binding.value);
          }
        }
      }
      ok := true;
    }

    method LoadGrantArray(items: seq<Json>) returns (ok: bool)
      requires Valid()
      modifies this
      ensures Valid() && (Contents(), ok) == LoadGrants(items, old(Contents()))
    {
      hide GrantIn;
      assert items[0..] == items;
      for i := 0 to |items|
        invariant Valid()
        invariant LoadGrants(items, old(Contents())) == LoadGrants(items[i..], Contents())
      {
        assert items[i..][1..] == items[i + 1..];
        if items[i].Obj? {
          var grant := GrantIn(items[i].fields);
          if grant.None? {
            return false;
          }
          AddGrant(grant.value);
        }
      }
      ok := true;
    }

    /** Replaces the contents by what an object describes; false when a member has a wrong type. */
    method JsonIn(o: Fields) returns (ok: bool)
      modifies this
      ensures Valid() && (Contents(), ok) == Loaded(o)
    {
      hide LoadAcls, LoadBindings, LoadGrants, ItemsOf;
      Clear();
      ok := LoadAclArray(ItemsOf(o, "aclists", "policies"));
      if !ok {
        return;
      }
      ok := LoadBindingArray(ItemsOf(o, "bindings", "bindings"));
      if !ok {
        return;
      }
      ok := LoadGrantArray(ItemsOf(o, "grants", "entries"));
    }
  }
}
