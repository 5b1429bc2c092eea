/** The two ways to a decision: evaluating a subject, and checking the active session. */
module Authorization {
  import opened Sequences
  import opened Permissions
  import opened Globs
  import opened Identities
  import opened Decisions
  import opened PolicyStores

  /** The entries of all identities, in order. */
  function AllEntries(store: Store, identities: seq<Identity>): seq<ACEntry> {
    if identities == [] then []
    else EffectiveEntries(store, identities[0].Ref()) + AllEntries(store, identities[1..])
  }

  function ActiveOnly(identities: seq<Identity>, now: int): seq<Identity> {
    if identities == [] then []
    else if identities[0].IsActive(now) then [identities[0]] + ActiveOnly(identities[1..], now)
    else ActiveOnly(identities[1..], now)
  }

  /** What the entries of a list of identities decide, undecided counting as denied. */
  ghost function Outcome(store: Store, identities: seq<Identity>, request: Permission): Effect {
    if Verdict(ScoredEntries(request, AllEntries(store, identities))) == Allow then Allow else Deny
  }

  /** The store whose entries are looked up: the routed one where there is one. */
  function ResolvePolicyStore(store: Store, identity: IdentityRef): Store {
    if store.Routed? then
      match RouteTo(store.byKey, store.global, identity.realm)
      case Some(resolved) => resolved
      case None => store
    else store
  }

  /** Resolving the route first finds the same entries. */
  lemma {:induction false} RouteFindsSameEntries(store: Store, identity: IdentityRef)
    ensures EffectiveEntries(ResolvePolicyStore(store, identity), identity) == EffectiveEntries(store, identity)
  {
  }

  /** A router hands an identity to the store filed under its realm, and to the global store otherwise. */
  lemma RoutedTo(byKey: map<string, Store>, global: Store, identity: IdentityRef)
    requires identity.realm.uuid != ""
    ensures ResolvePolicyStore(Routed(byKey, Some(global)), identity)
         == if "uuid:" + identity.realm.uuid in byKey then byKey["uuid:" + identity.realm.uuid] else global
    ensures var bare := IdentityRef(identity.kind, NO_REALM, identity.name);
            ResolvePolicyStore(Routed(byKey, Some(global)), bare) == global
  {
  }

  method PolicyFind(store: Store, identity: IdentityRef, request: Permission) returns (matches: seq<ACEMatch>)
    ensures ScoredMatches(matches) == ScoredEntries(request, EffectiveEntries(store, identity))
    ensures forall m :: m in matches ==> m.identity == identity && m.identitySpecificity == 10
  {
    var entries := EffectiveEntries(ResolvePolicyStore(store, identity), identity);
    RouteFindsSameEntries(store, identity);
    hide EffectiveEntries, ResolvePolicyStore, Covers, Specificity;
    matches := [];
    assert entries[0..] == entries;
    for i := 0 to |entries|
      invariant ScoredEntries(request, entries) == ScoredMatches(matches) + ScoredEntries(request, entries[i..])
      invariant forall m :: m in matches ==> m.identity == identity && m.identitySpecificity == 10
    {
      assert entries[i..][1..] == entries[i + 1..];
      if Covers(entries[i].permission, request) {
        var score := ComputeSpecificity(entries[i].permission);
        var match_ := ACEMatch(entries[i], identity, score, 10);
        ScoredMatchesAppend(matches, [match_]);
        matches := matches + [match_];
      }
    }
  }

  lemma {:induction false} ScoredMatchesAppend(a: seq<ACEMatch>, b: seq<ACEMatch>)
    ensures ScoredMatches(a + b) == ScoredMatches(a) + ScoredMatches(b)
  {
    assert forall k :: 0 <= k < |a + b| ==> ScoredMatches(a + b)[k] == (ScoredMatches(a) + ScoredMatches(b))[k];
  }

  /** Adds the priority of the identity's source to every match. */
  function Prioritized(matches: seq<ACEMatch>, priority: int): (r: seq<ACEMatch>)
    ensures |r| == |matches|
    ensures forall k :: 0 <= k < |r| ==>
              r[k] == matches[k].(identitySpecificity := matches[k].identitySpecificity + priority)
  {
    seq(|matches|, k requires 0 <= k < |matches| =>
      matches[k].(identitySpecificity := matches[k].identitySpecificity + priority))
  }

  /** Collects the matches of the active identities and resolves them. */
  method PolicyCheckAny(store: Store, identities: seq<Identity>, request: Permission, now: int) returns (effect: Effect)
    ensures effect == Verdict(ScoredEntries(request, AllEntries(store, ActiveOnly(identities, now))))
  {
    var all := [];
    ghost var entries := AllEntries(store, ActiveOnly(identities, now));
    assert identities[0..] == identities;
    hide EffectiveEntries, Covers, Specificity, ScoredEntries;
    assert ScoredMatches([]) == [];
    for i := 0 to |identities|
      invariant ScoredEntries(request, entries)
             == ScoredMatches(all) + ScoredEntries(request, AllEntries(store, ActiveOnly(identities[i..], now)))
    {
      assert identities[i..][1..] == identities[i + 1..];
      if !identities[i].IsActive(now) {
        continue;
      }
      var matches := PolicyFind(store, identities[i].Ref(), request);
      var weighted := Prioritized(matches, identities[i].source.Priority());
      assert ScoredMatches(weighted) == ScoredMatches(matches);
      ScoredMatchesAppend(all, weighted);
      AllEntriesStep(store, request, identities, i, now, ScoredMatches(all));
      all := all + weighted;
    }
    NoEntries(request);
    assert ScoredMatches(all) + [] == ScoredMatches(all);
    assert AllEntries(store, ActiveOnly(identities[|identities|..], now)) == [];
    effect := ResolveMatches(all);
  }

  lemma {:induction false} NoEntries(request: Permission)
    ensures ScoredEntries(request, []) == []
  {
  }

  lemma {:induction false} AllEntriesStep(
      store: Store, request: Permission, identities: seq<Identity>, i: nat, now: int, done: seq<Scored>)
    requires i < |identities| && identities[i].IsActive(now)
    ensures done + ScoredEntries(request, AllEntries(store, ActiveOnly(identities[i..], now)))
         == done + ScoredEntries(request, EffectiveEntries(store, identities[i].Ref()))
            + ScoredEntries(request, AllEntries(store, ActiveOnly(identities[i + 1..], now)))
  {
    hide EffectiveEntries, ScoredEntries;
    assert identities[i..][1..] == identities[i + 1..];
    var rest := ActiveOnly(identities[i + 1..], now);
    assert ActiveOnly(identities[i..], now) == [identities[i]] + rest;
    assert ([identities[i]] + rest)[1..] == rest;
    var here := EffectiveEntries(store, identities[i].Ref());
    ScoredEntriesAppend(request, here, AllEntries(store, rest));
    assert done + (ScoredEntries(request, here) + ScoredEntries(request, AllEntries(store, rest)))
        == done + ScoredEntries(request, here) + ScoredEntries(request, AllEntries(store, rest));
  }

  /** Collects the entries of every identity of the subject and resolves them. */
  method Evaluate(store: Store, identities: seq<Identity>, request: Permission) returns (d: Decision)
    ensures d.permission == request && d.Effect() == Outcome(store, identities, request)
    ensures d.kind == if Outcome(store, identities, request) == Allow then AllowType else DenyType
    ensures d.reason == "no matching ACE"
       <==> forall e :: e in AllEntries(store, identities) ==> !Covers(e.permission, request)
  {
    var entries := [];
    assert identities[0..] == identities;
    hide EffectiveEntries, ScoredEntries, Verdict, Covers;
    for i := 0 to |identities|
      invariant AllEntries(store, identities) == entries + AllEntries(store, identities[i..])
    {
      assert identities[i..][1..] == identities[i + 1..];
      entries := entries + EffectiveEntries(store, identities[i].Ref());
    }
    assert identities[|identities|..] == [] && entries + [] == entries;
    d := ResolveEntries(request, entries);
    NoneCover(request, entries);
    ReasonsDiffer();
  }

  lemma ReasonsDiffer()
    ensures "no matching ACE" !in {"explicit deny", "explicit allow", "no decisive ACE"}
  {
    assert "no matching ACE"[0] == 'n' && "no matching ACE"[3] == 'm' && "no decisive ACE"[3] == 'd';
    assert "explicit deny"[0] == "explicit allow"[0] == 'e';
  }

  lemma {:induction false} NoneCover(request: Permission, entries: seq<ACEntry>)
    ensures ScoredEntries(request, entries) == [] <==> forall e :: e in entries ==> !Covers(e.permission, request)
  {
    hide Covers, Specificity;
    if entries != [] {
      NoneCover(request, entries[1..]);
      assert forall e :: e in entries <==> e == entries[0] || e in entries[1..];
    }
  }

  /** The decision for the session: what the active identities decide, undecided counting as denied. */
  method CheckPermission(store: Store, identities: seq<Identity>, request: Permission, now: int)
    returns (effect: Effect)
    ensures effect == Outcome(store, ActiveOnly(identities, now), request)
  {
    effect := PolicyCheckAny(store, identities, request, now);
    if effect == Unknown {
      effect := Deny;
    }
  }

  /** The two paths agree whenever no identity has expired or been revoked. */
  lemma {:induction false} PathsAgree(store: Store, identities: seq<Identity>, request: Permission, now: int)
    requires forall k :: 0 <= k < |identities| ==> identities[k].IsActive(now)
    ensures ActiveOnly(identities, now) == identities
    ensures Outcome(store, ActiveOnly(identities, now), request) == Outcome(store, identities, request)
  {
    if identities != [] {
      PathsAgree(store, identities[1..], request, now);
      assert identities == [identities[0]] + identities[1..];
    }
  }

  /** A store that grants everything to one reference and nothing to any other. */
  function GrantAll(ref: IdentityRef): Store {
    Plain(Policies([], [AccessGrant(ref, ALL, Allow)], []))
  }

  /** The store grants everything to the identities of the list that satisfy p, and nothing to the others. */
  ghost predicate GrantsOnly(store: Store, identities: seq<Identity>, p: Identity -> bool) {
    forall x, e :: x in identities ==>
      (e in EffectiveEntries(store, x.Ref()) <==> e == ACEntry(ALL, Allow) && p(x))
  }

  /** Such a store allows whatever is asked exactly when an identity of the list satisfies p. */
  lemma {:induction false} GrantsOnlyOutcome(
      store: Store, identities: seq<Identity>, p: Identity -> bool, request: Permission)
    requires GrantsOnly(store, identities, p)
    ensures Outcome(store, identities, request) == Allow <==> exists x :: x in identities && p(x)
  {
    var entries, entry := AllEntries(store, identities), ACEntry(ALL, Allow);
    forall e
      ensures e in entries <==> e == entry && exists x :: x in identities && p(x)
    {
      AllEntriesMember(store, identities, e);
      hide AllEntries, EffectiveEntries;
    }
    assert Covers(ALL, request);
    EntriesDecide(request, entries);
    hide AllEntries, EffectiveEntries, Covers, Specificity;
    if entry in entries {
      assert IsTopEntry(request, entries, entry);
    }
  }

  lemma {:induction false} GrantAllEntries(ref: IdentityRef, to: IdentityRef, e: ACEntry)
    ensures e in EffectiveEntries(GrantAll(ref), to) <==> e == ACEntry(ALL, Allow) && ref.Equals(to)
  {
    GrantedMember([AccessGrant(ref, ALL, Allow)], to, e);
    assert BoundEntries([], [], to) == [];
  }

  /** A store that grants everything to one reference allows the lists in which the reference has an equal. */
  lemma {:induction false} GrantAllOutcome(ref: IdentityRef, identities: seq<Identity>, request: Permission)
    ensures Outcome(GrantAll(ref), identities, request) == Allow
       <==> exists x :: x in identities && ref.Equals(x.Ref())
  {
    var p := (x: Identity) => ref.Equals(x.Ref());
    forall x, e | x in identities
      ensures e in EffectiveEntries(GrantAll(ref), x.Ref()) <==> e == ACEntry(ALL, Allow) && p(x)
    {
      GrantAllEntries(ref, x.Ref(), e);
    }
    hide GrantAll, EffectiveEntries, Outcome;
    assert GrantsOnly(GrantAll(ref), identities, p);
    GrantsOnlyOutcome(GrantAll(ref), identities, p, request);
  }

  /** A router that has an empty store for every realm with a key, and grants globally to a kind and a name. */
  function GrantKeyless(identities: seq<Identity>, kind: string, name: string): Store {
    var keys := set x | x in identities && x.realm.HasKey() :: x.realm.StorageKey();
    Routed(map key | key in keys :: Plain(NO_POLICIES), Some(GrantAll(IdentityRef(kind, NO_REALM, name))))
  }

  lemma {:induction false} GrantKeylessEntries(
      identities: seq<Identity>, kind: string, name: string, x: Identity, e: ACEntry)
    requires x in identities
    ensures e in EffectiveEntries(GrantKeyless(identities, kind, name), x.Ref())
       <==> e == ACEntry(ALL, Allow) && !x.realm.HasKey() && x.kind == kind && x.name == name
  {
    if x.realm.HasKey() {
      assert EffectiveEntries(Plain(NO_POLICIES), x.Ref()) == [];
    } else {
      GrantAllEntries(IdentityRef(kind, NO_REALM, name), x.Ref(), e);
    }
  }

  lemma {:induction false} ActiveMember(identities: seq<Identity>, now: int, x: Identity)
    ensures x in ActiveOnly(identities, now) <==> x in identities && x.IsActive(now)
  {
    if identities != [] {
      ActiveMember(identities[1..], now, x);
      assert x in identities <==> x == identities[0] || x in identities[1..];
    }
  }

  /** One inactive identity is evaluated all the same, but never counts for the session. */
  lemma {:induction false} PathsDisagree(identities: seq<Identity>, k: nat, request: Permission, now: int)
    requires Distinct(identities) && k < |identities| && !identities[k].IsActive(now)
    requires identities[k].Ref().Equals(identities[k].Ref())
    ensures var store := GrantAll(identities[k].Ref());
            && Outcome(store, identities, request) == Allow
            && Outcome(store, ActiveOnly(identities, now), request) == Deny
  {
    var ref := identities[k].Ref();
    GrantAllOutcome(ref, identities, request);
    GrantAllOutcome(ref, ActiveOnly(identities, now), request);
    assert identities[k] in identities;
    forall x | x in ActiveOnly(identities, now)
      ensures !ref.Equals(x.Ref())
    {
      ActiveMember(identities, now, x);
      var j :| 0 <= j < |identities| && identities[j] == x;
      SameIsScopedOrEmpty(ref.realm, x.realm);
    }
    hide GrantAll, AllEntries;
  }

  ghost predicate AlwaysAgree(identities: seq<Identity>, now: int) {
    forall store, request ::
      Outcome(store, ActiveOnly(identities, now), request) == Outcome(store, identities, request)
  }

  // ---- order and repetition do not matter ----

  /** Only the set of entries decides. */
  lemma {:induction false} EntriesPermute(request: Permission, a: seq<ACEntry>, b: seq<ACEntry>)
    requires forall e :: e in a <==> e in b
    ensures Verdict(ScoredEntries(request, a)) == Verdict(ScoredEntries(request, b))
  {
    forall m
      ensures m in ScoredEntries(request, a) <==> m in ScoredEntries(request, b)
    {
      ScoredMember(request, a, m);
      ScoredMember(request, b, m);
    }
    VerdictPermutes(ScoredEntries(request, a), ScoredEntries(request, b));
    hide Verdict, ScoredEntries;
  }

  lemma {:induction false} AllEntriesMember(store: Store, identities: seq<Identity>, e: ACEntry)
    ensures e in AllEntries(store, identities)
       <==> exists x :: x in identities && e in EffectiveEntries(store, x.Ref())
  {
    hide EffectiveEntries;
    if identities != [] {
      AllEntriesMember(store, identities[1..], e);
      assert forall x :: x in identities <==> x == identities[0] || x in identities[1..];
    }
  }

  /** Reordering or repeating identities never changes a decision. */
  lemma IdentitiesPermute(store: Store, a: seq<Identity>, b: seq<Identity>, request: Permission)
    requires forall x :: x in a <==> x in b
    ensures Outcome(store, a, request) == Outcome(store, b, request)
  {
    forall e
      ensures e in AllEntries(store, a) <==> e in AllEntries(store, b)
    {
      AllEntriesMember(store, a, e);
      AllEntriesMember(store, b, e);
    }
    EntriesPermute(request, AllEntries(store, a), AllEntries(store, b));
    hide Verdict, ScoredEntries, AllEntries;
  }

  /**
   * Entries of lower specificity than one that covers the request can come and go in a store, for
   * all identities at once, without changing a decision.
   */
  lemma {:induction false} OutcomeIgnoresLower(
      s: Store, t: Store, identities: seq<Identity>, request: Permission, top: ACEntry)
    requires top in AllEntries(s, identities) && top in AllEntries(t, identities)
    requires Covers(top.permission, request)
    requires forall e :: AtLeast(request, e, top) ==>
               (e in AllEntries(s, identities) <==> e in AllEntries(t, identities))
    ensures Outcome(s, identities, request) == Outcome(t, identities, request)
  {
    LowerEntriesIgnored(request, AllEntries(s, identities), AllEntries(t, identities), top);
  }

  lemma {:induction false} GrantedMember(grants: seq<AccessGrant>, identity: IdentityRef, e: ACEntry)
    ensures e in GrantedEntries(grants, identity)
       <==> exists g :: g in grants && g.identity.Equals(identity) && e == ACEntry(g.permission, g.effect)
  {
    if grants != [] {
      GrantedMember(grants[1..], identity, e);
      assert forall g :: g in grants <==> g == grants[0] || g in grants[1..];
    }
  }

  /** The binding gives the identity a list that holds the entry. */
  ghost predicate Binds(acls: seq<ACList>, b: PolicyBinding, identity: IdentityRef, e: ACEntry) {
    && b.identity.Equals(identity)
    && FindAcl(acls, b.aclId).Some?
    && e in FindAcl(acls, b.aclId).value.entries
  }

  lemma {:induction false} BoundMember(
      bindings: seq<PolicyBinding>, acls: seq<ACList>, identity: IdentityRef, e: ACEntry)
    ensures e in BoundEntries(bindings, acls, identity) <==> exists b :: b in bindings && Binds(acls, b, identity, e)
  {
    if bindings != [] {
      BoundMember(bindings[1..], acls, identity, e);
      var head, rest := Binds(acls, bindings[0], identity, e), BoundEntries(bindings[1..], acls, identity);
      assert e in BoundEntries(bindings, acls, identity) <==> head || e in rest;
      if b :| b in bindings && Binds(acls, b, identity, e) {
        assert b == bindings[0] || b in bindings[1..];
      }
      if b :| b in bindings[1..] && Binds(acls, b, identity, e) {
        assert b in bindings;
      }
      assert bindings[0] in bindings;
    }
  }

  // ---- what a plain store allows ----

  /** A grant to the identity, or a list bound to it, holds the entry. */
  ghost predicate Holds(p: Policies, identity: IdentityRef, e: ACEntry) {
    || (exists g :: g in p.grants && g.identity.Equals(identity) && e == ACEntry(g.permission, g.effect))
    || (exists b, acl ::
          && b in p.bindings && b.identity.Equals(identity)
          && acl in p.acls && acl.id == b.aclId && e in acl.entries)
  }

  /** The entry is one of the identities' and the request is within it. */
  ghost predicate Applies(p: Policies, identities: seq<Identity>, request: Permission, e: ACEntry) {
    Within(e.permission, request) && exists x :: x in identities && Holds(p, x.Ref(), e)
  }

  /** The entry yields to an allowing one: it is less specific, or as specific and no deny. */
  predicate Yields(e: ACEntry, allowing: ACEntry) {
    var a, b := Specificity(e.permission), Specificity(allowing.permission);
    a < b || (a == b && e.effect != Deny)
  }

  lemma {:induction false} HoldsExactly(p: Policies, identity: IdentityRef, e: ACEntry)
    requires UniqueIds(p.acls)
    ensures e in EntriesIn(p, identity) <==> Holds(p, identity, e)
  {
    GrantedMember(p.grants, identity, e);
    BoundMember(p.bindings, p.acls, identity, e);
    forall id, acl
      ensures FindAcl(p.acls, id) == Some(acl) <==> acl in p.acls && acl.id == id
    {
      FindAclExactly(p.acls, id, acl);
    }
    hide GrantedEntries, BoundEntries, FindAcl;
    if b :| b in p.bindings && Binds(p.acls, b, identity, e) {
      var acl := FindAcl(p.acls, b.aclId).value;
      assert acl in p.acls && e in acl.entries;
    }
    if b, acl :| b in p.bindings && b.identity.Equals(identity)
                 && acl in p.acls && acl.id == b.aclId && e in acl.entries {
      assert Binds(p.acls, b, identity, e);
    }
  }

  lemma {:induction false} AppliesExactly(p: Policies, identities: seq<Identity>, request: Permission, e: ACEntry)
    requires UniqueIds(p.acls)
    ensures e in AllEntries(Plain(p), identities) && Covers(e.permission, request)
       <==> Applies(p, identities, request, e)
  {
    CoversExactly(e.permission, request);
    AllEntriesMember(Plain(p), identities, e);
    hide Within, Covers, Holds, AllEntries, EntriesIn;
    forall x: Identity
      ensures e in EffectiveEntries(Plain(p), x.Ref()) <==> Holds(p, x.Ref(), e)
    {
      HoldsExactly(p, x.Ref(), e);
    }
  }

  /**
   * A plain store allows a request exactly when some allowing entry applies to which every other
   * entry that applies yields.
   */
  lemma {:induction false} AllowsExactly(p: Policies, identities: seq<Identity>, request: Permission)
    requires UniqueIds(p.acls)
    ensures Outcome(Plain(p), identities, request) == Allow
       <==> exists e ::
              && Applies(p, identities, request, e) && e.effect == Allow
              && forall f :: Applies(p, identities, request, f) ==> Yields(f, e)
  {
    var entries := AllEntries(Plain(p), identities);
    EntriesDecide(request, entries);
    forall e
      ensures e in entries && Covers(e.permission, request) <==> Applies(p, identities, request, e)
    {
      AppliesExactly(p, identities, request, e);
    }
    hide Covers, Specificity, Applies, AllEntries, Verdict, ScoredEntries;
    if TopEntryHas(request, entries, Allow) && !TopEntryHas(request, entries, Deny) {
      var e :| IsTopEntry(request, entries, e) && e.effect == Allow;
      forall f | Applies(p, identities, request, f)
        ensures Yields(f, e)
      {
        assert Specificity(f.permission) == Specificity(e.permission) ==> IsTopEntry(request, entries, f);
      }
    }
    if e :| && Applies(p, identities, request, e) && e.effect == Allow
            && forall f :: Applies(p, identities, request, f) ==> Yields(f, e) {
      assert IsTopEntry(request, entries, e);
      assert forall f :: IsTopEntry(request, entries, f) ==> Yields(f, e);
    }
  }

  /** What a single grant allows, and to whom. */
  lemma {:induction false} OneGrantExactly(g: AccessGrant, identities: seq<Identity>, request: Permission)
    ensures Outcome(Plain(Policies([], [g], [])), identities, request) == Allow
       <==> && g.effect == Allow && Within(g.permission, request)
            && exists x :: x in identities && g.identity.Equals(x.Ref())
  {
    var p := Policies([], [g], []);
    AllowsExactly(p, identities, request);
    hide Outcome, Within, Specificity;
    var entry := ACEntry(g.permission, g.effect);
    forall x: IdentityRef, e
      ensures Holds(p, x, e) <==> g.identity.Equals(x) && e == entry
    {
      assert g in p.grants;
    }
    hide Holds;
    if x :| x in identities && g.identity.Equals(x.Ref()) && Within(g.permission, request) {
      assert Holds(p, x.Ref(), entry);
      assert Applies(p, identities, request, entry);
    }
  }

  /** Reordering or repeating grants and bindings of a store never changes a decision either. */
  lemma {:induction false} GrantsPermute(p: Policies, q: Policies, identity: IdentityRef, request: Permission)
    requires p.acls == q.acls
    requires forall g :: g in p.grants <==> g in q.grants
    requires forall b :: b in p.bindings <==> b in q.bindings
    ensures Verdict(ScoredEntries(request, EntriesIn(p, identity)))
         == Verdict(ScoredEntries(request, EntriesIn(q, identity)))
  {
    forall e
      ensures e in EntriesIn(p, identity) <==> e in EntriesIn(q, identity)
    {
      GrantedMember(p.grants, identity, e);
      GrantedMember(q.grants, identity, e);
      BoundMember(p.bindings, p.acls, identity, e);
      BoundMember(q.bindings, q.acls, identity, e);
    }
    EntriesPermute(request, EntriesIn(p, identity), EntriesIn(q, identity));
    hide Verdict, ScoredEntries, EntriesIn;
  }

  // ---- when the two paths agree ----

  /** A twin of the identity is active. */
  predicate HasActiveTwin(identities: seq<Identity>, x: Identity, now: int) {
    exists y :: y in identities && y.IsActive(now) && Twins(x, y)
  }

  /** No store tells twins apart: grants and bindings reach both or neither, and both go to the global store. */
  lemma {:induction false} TwinsShareEntries(store: Store, a: Identity, b: Identity)
    requires Twins(a, b)
    ensures EffectiveEntries(store, a.Ref()) == EffectiveEntries(store, b.Ref())
    decreases store
  {
    match store {
      case Plain(policies) =>
        TwinsGranted(policies.grants, a, b);
        TwinsBound(policies.bindings, policies.acls, a, b);
      case Decorated(wrapped) => TwinsShareEntries(wrapped, a, b);
      case Routed(byKey, global) =>
        if global.Some? {
          TwinsShareEntries(global.value, a, b);
        }
    }
  }

  lemma {:induction false} TwinsGranted(grants: seq<AccessGrant>, a: Identity, b: Identity)
    requires Twins(a, b)
    ensures GrantedEntries(grants, a.Ref()) == GrantedEntries(grants, b.Ref())
  {
    if grants != [] {
      TwinsGranted(grants[1..], a, b);
    }
  }

  lemma {:induction false} TwinsBound(bindings: seq<PolicyBinding>, acls: seq<ACList>, a: Identity, b: Identity)
    requires Twins(a, b)
    ensures BoundEntries(bindings, acls, a.Ref()) == BoundEntries(bindings, acls, b.Ref())
  {
    if bindings != [] {
      TwinsBound(bindings[1..], acls, a, b);
    }
  }

  /** With an active twin for every inactive identity the active ones bring all entries there are. */
  lemma {:induction false} TwinsCover(store: Store, identities: seq<Identity>, request: Permission, now: int)
    requires forall x :: x in identities ==> x.IsActive(now) || HasActiveTwin(identities, x, now)
    ensures Outcome(store, ActiveOnly(identities, now), request) == Outcome(store, identities, request)
  {
    var active := ActiveOnly(identities, now);
    forall e
      ensures e in AllEntries(store, active) <==> e in AllEntries(store, identities)
    {
      AllEntriesMember(store, active, e);
      AllEntriesMember(store, identities, e);
      hide AllEntries, EffectiveEntries, ActiveOnly;
      forall x
        ensures x in active <==> x in identities && x.IsActive(now)
      {
        ActiveMember(identities, now, x);
      }
      if x :| x in identities && e in EffectiveEntries(store, x.Ref()) && !x.IsActive(now) {
        var y :| y in identities && y.IsActive(now) && Twins(x, y);
        TwinsShareEntries(store, x, y);
        assert y in active;
      }
    }
    EntriesPermute(request, AllEntries(store, active), AllEntries(store, identities));
    hide Verdict, ScoredEntries, AllEntries, ActiveOnly;
  }

  /** An inactive identity in a bare realm without an active twin is told apart behind a router. */
  lemma {:induction false} RouterDisagrees(identities: seq<Identity>, k: nat, request: Permission, now: int)
    requires Distinct(identities) && k < |identities| && !identities[k].IsActive(now)
    requires identities[k].realm.Bare() && !HasActiveTwin(identities, identities[k], now)
    ensures var store := GrantKeyless(identities, identities[k].kind, identities[k].name);
            && Outcome(store, identities, request) == Allow
            && Outcome(store, ActiveOnly(identities, now), request) == Deny
  {
    var me, active := identities[k], ActiveOnly(identities, now);
    var store := GrantKeyless(identities, me.kind, me.name);
    var p := (x: Identity) => !x.realm.HasKey() && x.kind == me.kind && x.name == me.name;
    forall x
      ensures x in active <==> x in identities && x.IsActive(now)
    {
      ActiveMember(identities, now, x);
    }
    forall x, e | x in identities
      ensures e in EffectiveEntries(store, x.Ref()) <==> e == ACEntry(ALL, Allow) && p(x)
    {
      GrantKeylessEntries(identities, me.kind, me.name, x, e);
    }
    hide GrantKeyless, EffectiveEntries, ActiveOnly;
    assert GrantsOnly(store, identities, p) && GrantsOnly(store, active, p);
    GrantsOnlyOutcome(store, identities, p, request);
    GrantsOnlyOutcome(store, active, p, request);
    assert me in identities && p(me);
    forall x | x in active
      ensures !p(x)
    {
      var j :| 0 <= j < |identities| && identities[j] == x;
      SameIsScopedOrEmpty(me.realm, x.realm);
      assert x.IsActive(now) && !Twins(me, x);
      assert !me.Ref().Equals(x.Ref());
    }
  }

  /**
   * On identities with pairwise unequal references, which a session always holds, the two paths
   * agree under every store and for every permission exactly when each identity is active or has
   * an active twin.
   */
  lemma {:induction false} PathsAgreeExactly(identities: seq<Identity>, now: int)
    requires Distinct(identities)
    ensures AlwaysAgree(identities, now)
       <==> forall x :: x in identities ==> x.IsActive(now) || HasActiveTwin(identities, x, now)
  {
    if x :| x in identities && !x.IsActive(now) && !HasActiveTwin(identities, x, now) {
      var k :| 0 <= k < |identities| && identities[k] == x;
      SameReflexive(x.realm);
      if x.realm.Bare() {
        RouterDisagrees(identities, k, ALL, now);
      } else {
        PathsDisagree(identities, k, ALL, now);
      }
      hide Outcome;
    } else {
      forall store, request
        ensures Outcome(store, ActiveOnly(identities, now), request) == Outcome(store, identities, request)
      {
        TwinsCover(store, identities, request, now);
      }
    }
  }

  /** Where every reference equals itself there are no twins, and all identities must be active. */
  lemma {:induction false} SelfEqualAgreeExactly(identities: seq<Identity>, now: int)
    requires Distinct(identities)
    requires forall k :: 0 <= k < |identities| ==> identities[k].Ref().Equals(identities[k].Ref())
    ensures AlwaysAgree(identities, now)
       <==> forall k :: 0 <= k < |identities| ==> identities[k].IsActive(now)
  {
    PathsAgreeExactly(identities, now);
    forall k | 0 <= k < |identities|
      ensures identities[k] in identities && !HasActiveTwin(identities, identities[k], now)
    {
      SameReflexive(identities[k].realm);
    }
    hide AlwaysAgree;
  }

  /** An inactive identity that goes unnoticed: its twin is active. */
  lemma {:induction false} TwinHidesInactive(x: Identity, y: Identity, now: int)
    requires Twins(x, y) && !x.IsActive(now) && y.IsActive(now)
    ensures Distinct([x, y]) && AlwaysAgree([x, y], now)
  {
    assert y in [x, y];
    assert HasActiveTwin([x, y], x, now);
    assert Distinct([x, y]);
    PathsAgreeExactly([x, y], now);
    hide AlwaysAgree;
  }
}
