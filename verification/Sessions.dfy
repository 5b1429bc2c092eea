/** The login session: which identities are active after activations and logouts. */
module Sessions {
  import opened Sequences
  import opened Identities

  datatype IdentitySet = IdentitySet(primary: Option<Identity>, identities: seq<Identity>)

  type Active = seq<Identity>

  // ---- activation, step by step ----

  predicate InScope(x: Identity, realm: Realm) {
    x.IsLoginSession() && x.realm.ScopedEqual(realm)
  }

  predicate CoveredBy(realms: seq<Realm>, realm: Realm) {
    exists k :: 0 <= k < |realms| && realms[k].ScopedEqual(realm)
  }

  /** Remembers the realm of a login identity unless a remembered one is scoped-equal to it. */
  function Consider(realms: seq<Realm>, x: Identity): seq<Realm> {
    if !x.IsLoginSession() || !x.realm.HasKey() || CoveredBy(realms, x.realm) then realms
    else realms + [x.realm]
  }

  function ConsiderAll(realms: seq<Realm>, xs: seq<Identity>): seq<Realm>
    decreases |xs|
  {
    if xs == [] then realms else ConsiderAll(Consider(realms, xs[0]), xs[1..])
  }

  function Members(s: IdentitySet): seq<Identity> {
    s.identities + if s.primary.Some? then [s.primary.value] else []
  }

  function RealmsToClear(s: IdentitySet): seq<Realm> {
    ConsiderAll([], Members(s))
  }

  /** The primary identity first, then the others that are not equal to it. */
  function ToAdd(s: IdentitySet): seq<Identity> {
    if s.primary.None? then s.identities
    else [s.primary.value] + Filter(s.identities, (x: Identity) => !x.Ref().Equals(s.primary.value.Ref()))
  }

  function Clear(active: Active, realm: Realm): Active {
    Filter(active, (x: Identity) => !InScope(x, realm))
  }

  function ClearAll(active: Active, realms: seq<Realm>): Active
    decreases |realms|
  {
    if realms == [] then active else ClearAll(Clear(active, realms[0]), realms[1..])
  }

  function Without(active: Active, ref: IdentityRef): Active {
    Filter(active, (x: Identity) => !x.Ref().Equals(ref))
  }

  function AddAll(active: Active, xs: seq<Identity>): Active
    decreases |xs|
  {
    if xs == [] then active else AddAll(Without(active, xs[0].Ref()) + [xs[0]], xs[1..])
  }

  function Activated(active: Active, s: IdentitySet): Active {
    AddAll(ClearAll(active, RealmsToClear(s)), ToAdd(s))
  }

  // ---- activation in one piece ----

  predicate EqualsAny(x: Identity, xs: seq<Identity>) {
    exists k :: 0 <= k < |xs| && x.Ref().Equals(xs[k].Ref())
  }

  predicate InScopeOfAny(x: Identity, realms: seq<Realm>) {
    exists k :: 0 <= k < |realms| && InScope(x, realms[k])
  }

  /** An active identity survives: out of scope of every cleared realm and equal to no new identity. */
  predicate Survives(x: Identity, s: IdentitySet) {
    !InScopeOfAny(x, RealmsToClear(s)) && !EqualsAny(x, ToAdd(s))
  }

  /** Of identities that equal a later one only the later one is kept. */
  function KeepLast(xs: seq<Identity>): seq<Identity> {
    if xs == [] then []
    else if EqualsAny(xs[0], xs[1..]) then KeepLast(xs[1..])
    else [xs[0]] + KeepLast(xs[1..])
  }

  lemma {:induction false} FilterTwice<T>(s: seq<T>, p: T -> bool, q: T -> bool, r: T -> bool)
    requires forall k :: 0 <= k < |s| ==> (r(s[k]) <==> p(s[k]) && q(s[k]))
    ensures Filter(Filter(s, p), q) == Filter(s, r)
  {
    if s != [] {
      assert forall k :: 0 <= k < |s[1..]| ==> s[1..][k] == s[k + 1];
      FilterTwice(s[1..], p, q, r);
      if p(s[0]) {
        assert ([s[0]] + Filter(s[1..], p))[1..] == Filter(s[1..], p);
      }
    }
  }

  lemma {:induction false} ClearAllIsFilter(active: Active, realms: seq<Realm>)
    ensures ClearAll(active, realms) == Filter(active, (x: Identity) => !InScopeOfAny(x, realms))
    decreases |realms|
  {
    var keep := (x: Identity) => !InScopeOfAny(x, realms);
    if realms == [] {
      FilterAll(active, keep);
    } else {
      ClearAllIsFilter(Clear(active, realms[0]), realms[1..]);
      var first := (x: Identity) => !InScope(x, realms[0]);
      var rest := (x: Identity) => !InScopeOfAny(x, realms[1..]);
      forall x: Identity
        ensures InScopeOfAny(x, realms) <==> InScope(x, realms[0]) || InScopeOfAny(x, realms[1..])
      {
        InScopeStep(x, realms);
      }
      FilterTwice(active, first, rest, keep);
    }
  }

  lemma InScopeStep(x: Identity, realms: seq<Realm>)
    requires realms != []
    ensures InScopeOfAny(x, realms) <==> InScope(x, realms[0]) || InScopeOfAny(x, realms[1..])
  {
    hide InScope;
    assert forall k :: 0 < k < |realms| ==> realms[k] == realms[1..][k - 1];
    if k :| 0 <= k < |realms[1..]| && InScope(x, realms[1..][k]) {
      assert InScope(x, realms[k + 1]);
    }
  }

  lemma EqualsAnyStep(x: Identity, xs: seq<Identity>)
    requires xs != []
    ensures EqualsAny(x, xs) <==> x.Ref().Equals(xs[0].Ref()) || EqualsAny(x, xs[1..])
  {
    assert forall k :: 0 < k < |xs| ==> xs[k] == xs[1..][k - 1];
    if k :| 0 <= k < |xs[1..]| && x.Ref().Equals(xs[1..][k].Ref()) {
      assert x.Ref().Equals(xs[k + 1].Ref());
    }
  }

  /** Adding identities one by one drops what equals any of them, and all but the last of equal ones. */
  lemma {:induction false} AddAllIsFilter(active: Active, xs: seq<Identity>)
    ensures AddAll(active, xs) == Filter(active, (x: Identity) => !EqualsAny(x, xs)) + KeepLast(xs)
    decreases |xs|
  {
    if xs == [] {
      FilterAll(active, (x: Identity) => !EqualsAny(x, xs));
      hide EqualsAny;
      assert Filter(active, (x: Identity) => !EqualsAny(x, xs)) + []
          == Filter(active, (x: Identity) => !EqualsAny(x, xs));
    } else {
      AddOneMore(active, xs);
      AddAllIsFilter(Without(active, xs[0].Ref()) + [xs[0]], xs[1..]);
      hide EqualsAny, Without, KeepLast, Filter;
    }
  }

  lemma {:induction false} AddOneMore(active: Active, xs: seq<Identity>)
    requires xs != []
    ensures Filter(Without(active, xs[0].Ref()) + [xs[0]], (x: Identity) => !EqualsAny(x, xs[1..])) + KeepLast(xs[1..])
         == Filter(active, (x: Identity) => !EqualsAny(x, xs)) + KeepLast(xs)
  {
    hide EqualsAny, KeepLast, Filter, Without;
    var rest := (x: Identity) => !EqualsAny(x, xs[1..]);
    FilterAppend(Without(active, xs[0].Ref()), [xs[0]], rest);
    KeepLastStep(xs);
    WithoutAny(active, xs);
    var kept, one := Filter(active, (x: Identity) => !EqualsAny(x, xs)), Filter([xs[0]], rest);
    assert kept + one + KeepLast(xs[1..]) == kept + (one + KeepLast(xs[1..]));
  }

  lemma {:induction false} WithoutAny(active: Active, xs: seq<Identity>)
    requires xs != []
    ensures Filter(Without(active, xs[0].Ref()), (x: Identity) => !EqualsAny(x, xs[1..]))
         == Filter(active, (x: Identity) => !EqualsAny(x, xs))
  {
    forall k | 0 <= k < |active|
      ensures EqualsAny(active[k], xs) <==> active[k].Ref().Equals(xs[0].Ref()) || EqualsAny(active[k], xs[1..])
    {
      EqualsAnyStep(active[k], xs);
    }
    hide EqualsAny, Filter;
    FilterTwice(active, (x: Identity) => !x.Ref().Equals(xs[0].Ref()), (x: Identity) => !EqualsAny(x, xs[1..]),
                (x: Identity) => !EqualsAny(x, xs));
  }

  lemma {:induction false} KeepLastStep(xs: seq<Identity>)
    requires xs != []
    ensures KeepLast(xs) == Filter([xs[0]], (x: Identity) => !EqualsAny(x, xs[1..])) + KeepLast(xs[1..])
  {
    FilterOne(xs[0], (x: Identity) => !EqualsAny(x, xs[1..]));
  }

  lemma FilterOne<T>(x: T, p: T -> bool)
    ensures Filter([x], p) == if p(x) then [x] else []
  {
    assert [x][1..] == [];
  }

  /** Activation keeps the survivors in order and appends the new identities, later ones winning. */
  lemma {:induction false} ActivatedIs(active: Active, s: IdentitySet)
    ensures Activated(active, s) == Filter(active, (x: Identity) => Survives(x, s)) + KeepLast(ToAdd(s))
  {
    var realms, xs := RealmsToClear(s), ToAdd(s);
    ClearAllIsFilter(active, realms);
    AddAllIsFilter(ClearAll(active, realms), xs);
    FilterTwice(active, (x: Identity) => !InScopeOfAny(x, realms), (x: Identity) => !EqualsAny(x, xs),
                (x: Identity) => Survives(x, s));
    hide AddAll, ClearAll, KeepLast;
  }

  // ---- whole runs ----

  datatype Op =
    | Activate(set_: IdentitySet)
    | Logout(ref: IdentityRef)
    | LogoutType(kind: string)
    | LogoutRealm(realm: Realm)
    | LogoutAll

  function Step(active: Active, op: Op): Active {
    match op
    case Activate(s) => Activated(active, s)
    case Logout(ref) => Without(active, ref)
    case LogoutType(kind) => Filter(active, (x: Identity) => x.kind != kind)
    case LogoutRealm(realm) => Clear(active, realm)
    case LogoutAll => []
  }

  function Run(active: Active, ops: seq<Op>): Active
    decreases |ops|
  {
    if ops == [] then active else Step(Run(active, ops[..|ops| - 1]), ops[|ops| - 1])
  }

  lemma {:induction false} FilterDistinct(active: Active, p: Identity -> bool)
    requires Distinct(active)
    ensures Distinct(Filter(active, p))
  {
    if active != [] {
      assert forall k :: 0 <= k < |active[1..]| ==> active[1..][k] == active[k + 1];
      FilterDistinct(active[1..], p);
      var rest := Filter(active[1..], p);
      forall j | 0 <= j < |rest|
        ensures !active[0].Ref().Equals(rest[j].Ref())
      {
        FilterMember(active[1..], p, rest[j]);
        assert rest[j] in active[1..];
      }
    }
  }

  lemma AppendDistinct(active: Active, x: Identity)
    requires Distinct(active)
    ensures Distinct(Without(active, x.Ref()) + [x])
  {
    var keep := (y: Identity) => !y.Ref().Equals(x.Ref());
    FilterDistinct(active, keep);
    forall i | 0 <= i < |Without(active, x.Ref())|
      ensures !Without(active, x.Ref())[i].Ref().Equals(x.Ref())
    {
      FilterMember(active, keep, Without(active, x.Ref())[i]);
    }
  }

  lemma {:induction false} AddAllDistinct(active: Active, xs: seq<Identity>)
    requires Distinct(active)
    ensures Distinct(AddAll(active, xs))
    decreases |xs|
  {
    if xs != [] {
      AppendDistinct(active, xs[0]);
      AddAllDistinct(Without(active, xs[0].Ref()) + [xs[0]], xs[1..]);
    }
  }

  lemma StepDistinct(active: Active, op: Op)
    requires Distinct(active)
    ensures Distinct(Step(active, op))
  {
    match op {
      case Activate(s) =>
        ClearAllIsFilter(active, RealmsToClear(s));
        FilterDistinct(active, (x: Identity) => !InScopeOfAny(x, RealmsToClear(s)));
        AddAllDistinct(ClearAll(active, RealmsToClear(s)), ToAdd(s));
      case Logout(ref) => FilterDistinct(active, (x: Identity) => !x.Ref().Equals(ref));
      case LogoutType(kind) => FilterDistinct(active, (x: Identity) => x.kind != kind);
      case LogoutRealm(realm) => FilterDistinct(active, (x: Identity) => !InScope(x, realm));
      case LogoutAll =>
    }
  }

  /** Over any run no two active identities ever have equal references. */
  lemma {:induction false} RunDistinct(active: Active, ops: seq<Op>)
    requires Distinct(active)
    ensures Distinct(Run(active, ops))
    decreases |ops|
  {
    if ops != [] {
      RunDistinct(active, ops[..|ops| - 1]);
      StepDistinct(Run(active, ops[..|ops| - 1]), ops[|ops| - 1]);
    }
  }

  /** The operation drops the identity from the session. */
  predicate Evicts(op: Op, x: Identity) {
    match op
    case Activate(s) => !Survives(x, s)
    case Logout(ref) => x.Ref().Equals(ref)
    case LogoutType(kind) => x.kind == kind
    case LogoutRealm(realm) => InScope(x, realm)
    case LogoutAll => true
  }

  /** The operation brings the identity into the session. */
  predicate Brings(op: Op, x: Identity) {
    op.Activate? && x in KeepLast(ToAdd(op.set_))
  }

  lemma StepMember(active: Active, op: Op, x: Identity)
    ensures x in Step(active, op) <==> (x in active && !Evicts(op, x)) || Brings(op, x)
  {
    match op {
      case Activate(s) =>
        ActivatedIs(active, s);
        FilterMember(active, (y: Identity) => Survives(y, s), x);
        hide Activated, KeepLast, ToAdd, Survives;
      case Logout(ref) => FilterMember(active, (y: Identity) => !y.Ref().Equals(ref), x);
      case LogoutType(kind) => FilterMember(active, (y: Identity) => y.kind != kind, x);
      case LogoutRealm(realm) => FilterMember(active, (y: Identity) => !InScope(y, realm), x);
      case LogoutAll =>
    }
  }

  /** Operation number i brought the identity in, and nothing after it dropped it. */
  ghost predicate BroughtAt(ops: seq<Op>, i: nat, x: Identity) {
    i < |ops| && Brings(ops[i], x) && forall j :: i < j < |ops| ==> !Evicts(ops[j], x)
  }

  /**
   * An identity is active after a run exactly when some activation brought it in and no later
   * operation dropped it, or it was active before and no operation dropped it.
   */
  lemma {:induction false} RunMember(active: Active, ops: seq<Op>, x: Identity)
    ensures x in Run(active, ops)
       <==> (exists i :: BroughtAt(ops, i, x)) || (x in active && forall j :: 0 <= j < |ops| ==> !Evicts(ops[j], x))
    decreases |ops|
  {
    hide Evicts, Brings, Step;
    if ops != [] {
      var n := |ops| - 1;
      var front := ops[..n];
      RunMember(active, front, x);
      StepMember(Run(active, front), ops[n], x);
      if i: nat :| BroughtAt(front, i, x) && !Evicts(ops[n], x) {
        assert BroughtAt(ops, i, x);
      }
      if i: nat :| BroughtAt(ops, i, x) {
        assert i < n ==> BroughtAt(front, i, x);
      }
      if Brings(ops[n], x) {
        assert BroughtAt(ops, n, x);
      }
    }
  }

  // ---- password logins ----

  /** The identity set a successful password login produces: the user and the roles, in one realm. */
  function LoginSet(user: Identity, roles: seq<Identity>): IdentitySet {
    IdentitySet(Some(user), [user] + roles)
  }

  /** The user and role identities of a password login in a realm, whose type is never empty. */
  predicate IsLogin(user: Identity, roles: seq<Identity>, realm: Realm) {
    && realm.kind != ""
    && user.kind == "user" && user.source == Login && user.realm == realm
    && forall k :: 0 <= k < |roles| ==> roles[k].kind == "role" && roles[k].source == Login && roles[k].realm == realm
  }

  lemma {:induction false} ConsiderSame(realm: Realm, xs: seq<Identity>)
    requires realm.ScopedEqual(realm)
    requires forall k :: 0 <= k < |xs| ==> xs[k].realm == realm
    ensures ConsiderAll([realm], xs) == [realm]
    decreases |xs|
  {
    if xs != [] {
      assert CoveredBy([realm], xs[0].realm) by { assert [realm][0].ScopedEqual(xs[0].realm); }
      assert forall k :: 0 <= k < |xs[1..]| ==> xs[1..][k] == xs[k + 1];
      ConsiderSame(realm, xs[1..]);
    }
  }

  lemma LoginSetParts(user: Identity, roles: seq<Identity>, realm: Realm)
    requires IsLogin(user, roles, realm)
    ensures RealmsToClear(LoginSet(user, roles)) == [realm]
    ensures ToAdd(LoginSet(user, roles)) == [user] + roles
  {
    var s := LoginSet(user, roles);
    SameReflexive(realm);
    var rest := roles + [user];
    assert Members(s) == [user] + rest;
    assert Members(s)[0] == user && Members(s)[1..] == rest;
    assert Consider([], user) == [realm];
    ConsiderSame(realm, rest);
    var other := (x: Identity) => !x.Ref().Equals(user.Ref());
    assert s.identities[0] == user && s.identities[1..] == roles;
    assert user.Ref().Equals(user.Ref());
    FilterAll(roles, other);
  }

  lemma {:induction false} KeepLastWithin(xs: seq<Identity>, x: Identity)
    ensures x in KeepLast(xs) ==> x in xs
  {
    if xs != [] {
      KeepLastWithin(xs[1..], x);
    }
  }

  /** In one realm with a key, every identity is kept or has its place taken by one of the same name. */
  lemma {:induction false} KeepLastCovers(xs: seq<Identity>, realm: Realm, i: nat)
    requires i < |xs| && realm.HasKey()
    requires forall k :: 0 <= k < |xs| ==> xs[k].realm == realm
    ensures exists y :: y in KeepLast(xs) && y.kind == xs[i].kind && y.name == xs[i].name
  {
    assert forall k :: 0 <= k < |xs[1..]| ==> xs[1..][k] == xs[k + 1];
    if i > 0 {
      KeepLastCovers(xs[1..], realm, i - 1);
      var y :| y in KeepLast(xs[1..]) && y.kind == xs[i].kind && y.name == xs[i].name;
      assert y in KeepLast(xs);
    } else if EqualsAny(xs[0], xs[1..]) {
      var k :| 0 <= k < |xs[1..]| && xs[0].Ref().Equals(xs[1..][k].Ref());
      KeepLastCovers(xs[1..], realm, k);
    } else {
      assert xs[0] in KeepLast(xs);
    }
  }

  /** One of the roles, under the given name, is active. */
  ghost predicate HasRole(active: Active, roles: seq<Identity>, name: string) {
    exists y :: y in active && y.kind == "role" && y.name == name && y in roles
  }

  /**
   * After a password login the session holds the user and every role of the login, and no other
   * login identity whose realm is scoped-equal to that of the login.
   */
  lemma LoginReplacesSession(active: Active, user: Identity, roles: seq<Identity>, realm: Realm)
    requires IsLogin(user, roles, realm)
    ensures var after := Activated(active, LoginSet(user, roles));
            && user in after
            && (forall k :: 0 <= k < |roles| ==> HasRole(after, roles, roles[k].name))
            && (forall x :: x in after && InScope(x, realm) ==> x == user || x in roles)
  {
    LoginPresent(active, user, roles, realm);
    forall x | x in Activated(active, LoginSet(user, roles)) && InScope(x, realm)
      ensures x == user || x in roles
    {
      ScopeIsLogin(active, user, roles, realm, x);
    }
  }

  lemma ScopeIsLogin(active: Active, user: Identity, roles: seq<Identity>, realm: Realm, x: Identity)
    requires IsLogin(user, roles, realm)
    requires x in Activated(active, LoginSet(user, roles)) && InScope(x, realm)
    ensures x == user || x in roles
  {
    var s, added := LoginSet(user, roles), [user] + roles;
    LoginSetParts(user, roles, realm);
    ActivatedIs(active, s);
    FilterMember(active, (y: Identity) => Survives(y, s), x);
    KeepLastWithin(added, x);
    assert InScope(x, [realm][0]);
    hide KeepLast, Activated;
  }

  lemma LoginPresent(active: Active, user: Identity, roles: seq<Identity>, realm: Realm)
    requires IsLogin(user, roles, realm)
    ensures var after := Activated(active, LoginSet(user, roles));
            && user in after
            && forall k :: 0 <= k < |roles| ==> HasRole(after, roles, roles[k].name)
  {
    var s, added := LoginSet(user, roles), [user] + roles;
    LoginSetParts(user, roles, realm);
    ActivatedIs(active, s);
    var after := Activated(active, s);
    assert forall y :: y in KeepLast(added) ==> y in after;
    hide Activated;
    var u := Representative(added, realm, 0);
    assert u == user;
    forall k | 0 <= k < |roles|
      ensures HasRole(after, roles, roles[k].name)
    {
      assert added[k + 1] == roles[k];
      var y := Representative(added, realm, k + 1);
      assert y in after && y in roles;
    }
  }

  /** The kept identity with the kind and name of a given one. */
  lemma Representative(xs: seq<Identity>, realm: Realm, i: nat) returns (y: Identity)
    requires i < |xs| && realm.HasKey()
    requires forall k :: 0 <= k < |xs| ==> xs[k].realm == realm
    ensures y in KeepLast(xs) && y in xs && y.kind == xs[i].kind && y.name == xs[i].name
  {
    KeepLastCovers(xs, realm, i);
    y :| y in KeepLast(xs) && y.kind == xs[i].kind && y.name == xs[i].name;
    KeepLastWithin(xs, y);
  }

  /** Login identities unrelated to the login, by realm and by reference, stay, in their order. */
  lemma {:induction false} UnrelatedStay(active: Active, user: Identity, roles: seq<Identity>, realm: Realm)
    requires IsLogin(user, roles, realm)
    ensures Activated(active, LoginSet(user, roles))
         == Filter(active, (x: Identity) => !InScope(x, realm) && !EqualsAny(x, [user] + roles))
            + KeepLast([user] + roles)
  {
    var s := LoginSet(user, roles);
    LoginSetParts(user, roles, realm);
    ActivatedIs(active, s);
    forall k | 0 <= k < |active|
      ensures InScopeOfAny(active[k], [realm]) <==> InScope(active[k], realm)
    {
      assert [realm][0] == realm;
    }
    FilterTwice(active, (x: Identity) => true, (x: Identity) => Survives(x, s), (x: Identity) => Survives(x, s));
    FilterTwice(active, (x: Identity) => true, (x: Identity) => Survives(x, s),
                (x: Identity) => !InScope(x, realm) && !EqualsAny(x, [user] + roles));
    hide KeepLast, Activated, Survives;
  }

  // ---- what an activation adds and clears ----

  lemma EqualsSymmetric(a: IdentityRef, b: IdentityRef)
    ensures a.Equals(b) <==> b.Equals(a)
  {
    SameIsScopedOrEmpty(a.realm, b.realm);
  }

  /** The primary identity is active afterwards, member of the set or not. */
  lemma {:induction false} PrimaryActive(active: Active, s: IdentitySet)
    requires s.primary.Some?
    ensures s.primary.value in Activated(active, s)
  {
    var p := s.primary.value;
    var others := (x: Identity) => !x.Ref().Equals(p.Ref());
    var rest := Filter(s.identities, others);
    assert ToAdd(s) == [p] + rest && ([p] + rest)[1..] == rest;
    forall k | 0 <= k < |rest|
      ensures !p.Ref().Equals(rest[k].Ref())
    {
      FilterMember(s.identities, others, rest[k]);
      EqualsSymmetric(p.Ref(), rest[k].Ref());
    }
    assert p in KeepLast(ToAdd(s));
    ActivatedIs(active, s);
    hide KeepLast, Activated;
  }

  /** Of the identities that pass, each is kept or equal to one that comes after it. */
  lemma {:induction false} KeptOrLater(xs: seq<Identity>, p: Identity -> bool, i: nat)
    requires i < |xs| && p(xs[i])
    ensures xs[i] in KeepLast(Filter(xs, p)) || exists j :: i < j < |xs| && xs[i].Ref().Equals(xs[j].Ref())
  {
    var rest := Filter(xs[1..], p);
    if i > 0 {
      KeptOrLater(xs[1..], p, i - 1);
      assert p(xs[0]) ==> ([xs[0]] + rest)[1..] == rest;
      if j :| i - 1 < j < |xs[1..]| && xs[1..][i - 1].Ref().Equals(xs[1..][j].Ref()) {
        assert xs[i].Ref().Equals(xs[j + 1].Ref());
      }
    } else {
      assert ([xs[0]] + rest)[1..] == rest;
      if k :| 0 <= k < |rest| && xs[0].Ref().Equals(rest[k].Ref()) {
        FilterMember(xs[1..], p, rest[k]);
        var j :| 0 <= j < |xs[1..]| && xs[1..][j] == rest[k];
        assert xs[0].Ref().Equals(xs[j + 1].Ref());
      }
    }
  }

  /** Every member is active afterwards, unless the primary or a later member equals it. */
  lemma {:induction false} MemberActive(active: Active, s: IdentitySet, i: nat)
    requires i < |s.identities|
    ensures var x := s.identities[i];
            || x in Activated(active, s)
            || (s.primary.Some? && x.Ref().Equals(s.primary.value.Ref()))
            || exists j :: i < j < |s.identities| && x.Ref().Equals(s.identities[j].Ref())
  {
    ActivatedIs(active, s);
    hide Activated;
    if s.primary.None? {
      var all := (x: Identity) => true;
      FilterAll(s.identities, all);
      KeptOrLater(s.identities, all, i);
    } else {
      var p := s.primary.value;
      var others := (x: Identity) => !x.Ref().Equals(p.Ref());
      var rest := Filter(s.identities, others);
      assert ToAdd(s) == [p] + rest && ([p] + rest)[1..] == rest;
      if others(s.identities[i]) {
        KeptOrLater(s.identities, others, i);
        assert forall x :: x in KeepLast(rest) ==> x in KeepLast(ToAdd(s));
      }
    }
  }

  lemma {:induction false} ToAddWithin(s: IdentitySet, x: Identity)
    ensures x in ToAdd(s) ==> x in Members(s)
  {
    if s.primary.Some? {
      FilterMember(s.identities, (y: Identity) => !y.Ref().Equals(s.primary.value.Ref()), x);
    }
  }

  /** Whatever is active and was not before is a member of the set or its primary. */
  lemma {:induction false} NewFromSet(active: Active, s: IdentitySet, x: Identity)
    requires x in Activated(active, s) && x !in active
    ensures x in s.identities || s.primary == Some(x)
  {
    ActivatedIs(active, s);
    FilterMember(active, (y: Identity) => Survives(y, s), x);
    KeepLastWithin(ToAdd(s), x);
    ToAddWithin(s, x);
    hide KeepLast, Activated, Survives, ToAdd;
  }

  /** The realm of a login identity that has a key: the only kind of realm that is cleared. */
  ghost predicate LoginRealm(xs: seq<Identity>, k: nat, realm: Realm) {
    && k < |xs| && xs[k].source == Login && xs[k].realm == realm
    && (realm.kind != "" || realm.uuid != "" || realm.name != "")
  }

  lemma {:induction false} ConsideredAre(realms: seq<Realm>, xs: seq<Identity>, r: Realm)
    requires r in ConsiderAll(realms, xs)
    ensures r in realms || exists k :: LoginRealm(xs, k, r)
    decreases |xs|
  {
    if xs != [] {
      ConsideredAre(Consider(realms, xs[0]), xs[1..], r);
      if r !in realms {
        if r in Consider(realms, xs[0]) {
          assert LoginRealm(xs, 0, r);
        } else {
          var k: nat :| LoginRealm(xs[1..], k, r);
          assert LoginRealm(xs, k + 1, r);
        }
      }
    }
  }

  lemma {:induction false} RemembersAll(realms: seq<Realm>, xs: seq<Identity>, r: Realm)
    ensures r in realms ==> r in ConsiderAll(realms, xs)
    decreases |xs|
  {
    if xs != [] {
      RemembersAll(Consider(realms, xs[0]), xs[1..], r);
    }
  }

  /** The first login realm of its scope is remembered. */
  lemma {:induction false} FirstRemembered(realms: seq<Realm>, xs: seq<Identity>, k: nat, r: Realm)
    requires LoginRealm(xs, k, r) && !CoveredBy(realms, r)
    requires forall j: nat, q :: j < k && LoginRealm(xs, j, q) ==> !q.ScopedEqual(r)
    ensures r in ConsiderAll(realms, xs)
    decreases |xs|
  {
    if k == 0 {
      RemembersAll(Consider(realms, xs[0]), xs[1..], r);
      assert r in Consider(realms, xs[0]);
    } else {
      forall j: nat, q | LoginRealm(xs[1..], j, q)
        ensures LoginRealm(xs, j + 1, q)
      {
      }
      if xs[0].source == Login && xs[0].realm.HasKey() {
        assert LoginRealm(xs, 0, xs[0].realm);
      }
      FirstRemembered(Consider(realms, xs[0]), xs[1..], k - 1, r);
    }
  }

  /**
   * An active identity stays when it equals nothing in the set and, if it is a login itself, no
   * login of the set that has a realm with a key is in its scope.
   */
  lemma {:induction false} OthersStay(active: Active, s: IdentitySet, x: Identity)
    requires x in active && forall y :: y in Members(s) ==> !x.Ref().Equals(y.Ref())
    requires x.source == Login ==> forall k, r :: LoginRealm(Members(s), k, r) ==> !x.realm.ScopedEqual(r)
    ensures x in Activated(active, s)
  {
    hide Activated, KeepLast, ConsiderAll, ToAdd;
    forall k | 0 <= k < |RealmsToClear(s)|
      ensures !InScope(x, RealmsToClear(s)[k])
    {
      ConsideredAre([], Members(s), RealmsToClear(s)[k]);
    }
    forall k | 0 <= k < |ToAdd(s)|
      ensures !x.Ref().Equals(ToAdd(s)[k].Ref())
    {
      ToAddWithin(s, ToAdd(s)[k]);
    }
    assert Survives(x, s);
    StepMember(active, Activate(s), x);
  }

  /** A set without logins, or with logins in realms without a key only, drops nothing but what equals it. */
  lemma {:induction false} NoLoginClearsNothing(active: Active, s: IdentitySet, x: Identity)
    requires forall k, r :: !LoginRealm(Members(s), k, r)
    requires x in active && forall y :: y in Members(s) ==> !x.Ref().Equals(y.Ref())
    ensures x in Activated(active, s)
  {
    OthersStay(active, s, x);
  }

  /** The first login realm of its scope is cleared: logins in its scope that are active come from the set. */
  lemma {:induction false} FirstLoginClears(active: Active, s: IdentitySet, k: nat, r: Realm, x: Identity)
    requires LoginRealm(Members(s), k, r)
    requires forall j: nat, q :: j < k && LoginRealm(Members(s), j, q) ==> !q.ScopedEqual(r)
    requires x in Activated(active, s) && x.source == Login && x.realm.ScopedEqual(r)
    ensures x in s.identities || s.primary == Some(x)
  {
    FirstRemembered([], Members(s), k, r);
    var i :| 0 <= i < |RealmsToClear(s)| && RealmsToClear(s)[i] == r;
    assert InScope(x, RealmsToClear(s)[i]);
    ActivatedMember(active, s, x);
    ToAddWithin(s, x);
    hide Activated, ConsiderAll, ToAdd;
  }

  /** The anonymous login: the primary is no member of the set, and both end up active. */
  lemma {:induction false} AnonymousLogin(anonymous: Identity, public: Identity)
    requires anonymous.kind == "anonymous" && public.kind == "public"
    ensures Activated([], IdentitySet(Some(anonymous), [public])) == [anonymous, public]
  {
    var s := IdentitySet(Some(anonymous), [public]);
    assert "anonymous"[0] != "public"[0];
    FilterOne(public, (x: Identity) => !x.Ref().Equals(anonymous.Ref()));
    assert ToAdd(s) == [anonymous, public];
    assert [anonymous, public][1..] == [public] && [public][1..] == [];
    assert !EqualsAny(anonymous, [public]);
    assert KeepLast([public]) == [public];
    assert KeepLast([anonymous, public]) == [anonymous, public];
    ActivatedIs([], s);
  }

  // ---- sets of identities from several realms ----

  /** Every realm in the scope of the given one is in the scope of one of the list. */
  ghost predicate Absorbed(realms: seq<Realm>, realm: Realm) {
    forall r: Realm :: r.ScopedEqual(realm) ==> Reaches(realms, r)
  }

  predicate Reaches(realms: seq<Realm>, r: Realm) {
    exists k :: 0 <= k < |realms| && r.ScopedEqual(realms[k])
  }

  /** Whatever was active before, the logins in the scope of a realm all come from the set. */
  ghost predicate ReplacesScope(s: IdentitySet, realm: Realm) {
    forall active: Active, x: Identity ::
      x in Activated(active, s) && InScope(x, realm) ==> x in ToAdd(s)
  }

  function Longest(xs: seq<Identity>): (name: string)
    ensures forall k :: 0 <= k < |xs| ==> |xs[k].name| <= |name|
  {
    if xs == [] then ""
    else
      var rest := Longest(xs[1..]);
      if |xs[0].name| > |rest| then xs[0].name else rest
  }

  /** A login in the given realm that no identity of the list equals. */
  function Stranger(xs: seq<Identity>, realm: Realm): (x: Identity)
    ensures x.IsLoginSession() && x.realm == realm && x !in xs && !EqualsAny(x, xs)
  {
    Identity("user", Longest(xs) + "x", realm, "", "", Login, IdentityState.Active, 0, None)
  }

  /*
   * The scope of a realm has up to three parts: logins with its uuid, logins with its name that
   * no uuid tells apart from it, and logins of its kind that neither uuid nor name tells apart.
   * What a cleared realm must have in common with it to reach a part:
   */

  /** Reaches the logins with the uuid of the realm that name no kind, or one the realm does not fix. */
  predicate TakesUuid(r: Realm, realm: Realm) {
    r.uuid == realm.uuid && (realm.kind != "" || r.kind == "")
  }

  /** Reaches the logins with the uuid and the kind of the realm. */
  predicate TakesUuidOfKind(r: Realm, realm: Realm) {
    || (r.uuid == realm.uuid && r.kind in {"", realm.kind})
    || (r.kind == realm.kind && r.uuid == "" && r.name == "")
  }

  /** Reaches the logins with the name of the realm that name no kind, or one the realm does not fix. */
  predicate TakesName(r: Realm, realm: Realm) {
    r.name == realm.name && (realm.uuid != "" || r.uuid == "") && (realm.kind != "" || r.kind == "")
  }

  /** Reaches the logins with the name and the kind of the realm. */
  predicate TakesNameOfKind(r: Realm, realm: Realm) {
    && (realm.uuid != "" || r.uuid == "")
    && ((r.name == realm.name && r.kind in {"", realm.kind}) || (r.name == "" && r.kind == realm.kind))
  }

  /** Reaches the logins of the kind of the realm. */
  predicate TakesKind(r: Realm, realm: Realm) {
    r.kind == realm.kind && (realm.uuid != "" || r.uuid == "") && (realm.name != "" || r.name == "")
  }

  /** Every part of the scope of the realm has what reaches it in the list, not all the same one. */
  predicate TakesAllParts(realms: seq<Realm>, realm: Realm) {
    && (realm.uuid != "" ==>
          && (exists k :: 0 <= k < |realms| && TakesUuid(realms[k], realm))
          && (exists k :: 0 <= k < |realms| && TakesUuidOfKind(realms[k], realm)))
    && (realm.name != "" ==>
          && (exists k :: 0 <= k < |realms| && TakesName(realms[k], realm))
          && (exists k :: 0 <= k < |realms| && TakesNameOfKind(realms[k], realm)))
    && (realm.kind != "" ==> exists k :: 0 <= k < |realms| && TakesKind(realms[k], realm))
    && (realm.Empty() ==> exists k :: 0 <= k < |realms| && realms[k].Empty())
  }

  /** A text that is no field of any realm of the list. */
  function Fresh(realms: seq<Realm>): (f: string)
    ensures f != ""
    ensures forall k :: 0 <= k < |realms| ==> f != realms[k].kind && f != realms[k].uuid && f != realms[k].name
    ensures forall k :: 0 <= k < |realms| ==>
              |realms[k].kind| < |f| && |realms[k].uuid| < |f| && |realms[k].name| < |f|
  {
    if realms == [] then "x"
    else
      var f := Fresh(realms[1..]) + realms[0].kind + realms[0].uuid + realms[0].name;
      assert forall k :: 0 < k < |realms| ==> realms[k] == realms[1..][k - 1];
      f
  }

  lemma PartReached(realms: seq<Realm>, realm: Realm, r: Realm)
    requires TakesAllParts(realms, realm) && r.ScopedEqual(realm)
    ensures Reaches(realms, r)
  {
  }

  lemma PartsNeeded(realms: seq<Realm>, realm: Realm)
    requires Absorbed(realms, realm)
    ensures TakesAllParts(realms, realm)
  {
    var f := Fresh(realms);
    if realm.uuid != "" {
      assert Reaches(realms, Realm(if realm.kind == "" then f else "", realm.uuid, f, "", ""));
      assert Reaches(realms, Realm(if realm.kind == "" then f else realm.kind, realm.uuid, f, "", ""));
    }
    if realm.name != "" {
      var uuid := if realm.uuid == "" then f else "";
      assert Reaches(realms, Realm(if realm.kind == "" then f else "", uuid, realm.name, "", ""));
      assert Reaches(realms, Realm(if realm.kind == "" then f else realm.kind, uuid, realm.name, "", ""));
    }
    if realm.kind != "" {
      var uuid, name := if realm.uuid == "" then f else "", if realm.name == "" then f else "";
      assert Reaches(realms, Realm(realm.kind, uuid, name, "", ""));
    }
    if realm.Empty() {
      assert Reaches(realms, realm);
    }
  }

  /**
   * An activation replaces all logins in the scope of a realm exactly when the realms it clears
   * reach every part of that scope. Scoped equality is not transitive, so being scoped-equal to
   * one of them is not enough.
   */
  lemma ReplacesScopeExactly(s: IdentitySet, realm: Realm)
    ensures ReplacesScope(s, realm) <==> TakesAllParts(RealmsToClear(s), realm)
  {
    ReplacesScopeAbsorbed(s, realm);
    var realms := RealmsToClear(s);
    if TakesAllParts(realms, realm) {
      forall r: Realm | r.ScopedEqual(realm)
        ensures Reaches(realms, r)
      {
        PartReached(realms, realm, r);
      }
    }
    if Absorbed(realms, realm) {
      PartsNeeded(realms, realm);
    }
    hide ReplacesScope, TakesAllParts;
  }

  lemma ReplacesScopeAbsorbed(s: IdentitySet, realm: Realm)
    ensures ReplacesScope(s, realm) <==> Absorbed(RealmsToClear(s), realm)
  {
    if Absorbed(RealmsToClear(s), realm) {
      forall active: Active, x: Identity | x in Activated(active, s) && InScope(x, realm)
        ensures x in ToAdd(s)
      {
        ActivatedMember(active, s, x);
        assert Reaches(RealmsToClear(s), x.realm);
      }
    }
    if ReplacesScope(s, realm) {
      forall r: Realm | r.ScopedEqual(realm)
        ensures Reaches(RealmsToClear(s), r)
      {
        var x := Stranger(ToAdd(s), r);
        StepMember([x], Activate(s), x);
        assert InScope(x, realm) && x in [x];
        assert x !in Activated([x], s);
        assert InScopeOfAny(x, RealmsToClear(s));
      }
    }
  }

  lemma ActivatedMember(active: Active, s: IdentitySet, x: Identity)
    requires x in Activated(active, s)
    ensures x in ToAdd(s) || !InScopeOfAny(x, RealmsToClear(s))
  {
    ActivatedIs(active, s);
    FilterMember(active, (y: Identity) => Survives(y, s), x);
    KeepLastWithin(ToAdd(s), x);
    hide KeepLast, Activated;
  }

  /** One realm absorbs another when it has the same key, or adds a name to a bare uuid. */
  predicate Absorbs(r: Realm, realm: Realm) {
    r.kind == realm.kind && r.uuid == realm.uuid && (r.name == realm.name || (realm.kind == "" && realm.name == ""))
  }

  /** Absorbing is taking all parts alone. */
  lemma AbsorbsAlone(r: Realm, realm: Realm)
    requires r.HasKey() && realm.HasKey()
    ensures TakesAllParts([r], realm) <==> Absorbs(r, realm)
  {
    assert [r][0] == r;
  }

  /**
   * Of two logins in scoped-equal realms the first realm alone is cleared; the scope of the second
   * is then replaced too exactly when the first absorbs it.
   */
  lemma TwoLoginsExactly(a: Identity, b: Identity)
    requires a.IsLoginSession() && a.realm.HasKey() && b.realm.HasKey() && a.realm.ScopedEqual(b.realm)
    ensures ReplacesScope(IdentitySet(None, [a, b]), b.realm) <==> Absorbs(a.realm, b.realm)
  {
    FirstRealmOnly(a, b);
    ReplacesScopeExactly(IdentitySet(None, [a, b]), b.realm);
    AbsorbsAlone(a.realm, b.realm);
    hide ReplacesScope, TakesAllParts, Absorbs;
  }

  /** The failing side on one input: two logins of one kind, and a third whose uuid differs from the first's. */
  lemma StaleLoginStays(stale: Identity, a: Identity, b: Identity)
    requires stale.kind == a.kind == b.kind == "user" && stale.source == a.source == b.source == Login
    requires stale.name == "x" && a.name == "y" && b.name == "z"
    requires a.realm == Realm("app", "1", "", "", "")
    requires b.realm == Realm("app", "", "", "", "")
    requires stale.realm == Realm("app", "2", "", "", "")
    ensures InScope(stale, b.realm)
    ensures stale in Activated([stale], IdentitySet(None, [a, b]))
  {
    var s := IdentitySet(None, [a, b]);
    assert "2"[0] != "1"[0] && "x"[0] != "y"[0] && "x"[0] != "z"[0];
    assert !InScope(stale, a.realm) && a.realm.ScopedEqual(b.realm);
    FirstRealmOnly(a, b);
    assert forall k :: 0 <= k < |[a.realm]| ==> [a.realm][k] == a.realm;
    assert forall k :: 0 <= k < |[a, b]| ==> [a, b][k] == a || [a, b][k] == b;
    assert Survives(stale, s);
    StepMember([stale], Activate(s), stale);
  }

  /** Two realms can take all parts of a scope that neither of them absorbs. */
  lemma TakenTogether()
    ensures var one, other := Realm("k", "u", "m", "", ""), Realm("k", "v", "n", "", "");
            var realm := Realm("k", "u", "n", "", "");
            TakesAllParts([one, other], realm) && !Absorbs(one, realm) && !Absorbs(other, realm)
  {
    var one, other := Realm("k", "u", "m", "", ""), Realm("k", "v", "n", "", "");
    var realm := Realm("k", "u", "n", "", "");
    var realms := [one, other];
    assert "m"[0] != "n"[0] && "u"[0] != "v"[0];
    assert TakesUuid(realms[0], realm) && TakesUuidOfKind(realms[0], realm) && TakesKind(realms[0], realm);
    assert TakesName(realms[1], realm) && TakesNameOfKind(realms[1], realm);
  }

  lemma FirstRealmOnly(a: Identity, b: Identity)
    requires a.IsLoginSession() && a.realm.HasKey() && a.realm.ScopedEqual(b.realm)
    ensures RealmsToClear(IdentitySet(None, [a, b])) == [a.realm]
    ensures ToAdd(IdentitySet(None, [a, b])) == [a, b]
  {
    var s := IdentitySet(None, [a, b]);
    assert Members(s) == [a, b] && [a, b][1..] == [b] && [b][1..] == [];
    assert CoveredBy([a.realm], b.realm) by { assert [a.realm][0].ScopedEqual(b.realm); }
    assert Consider([], a) == [a.realm] && Consider([a.realm], b) == [a.realm];
    assert ConsiderAll([a.realm], [b]) == ConsiderAll([a.realm], []) == [a.realm];
    assert ConsiderAll([], [a, b]) == ConsiderAll([a.realm], [b]);
  }

  // ---- the session object ----

  /** The active identities and whether automatic login is suppressed. */
  class Session {
    var active: Active
    var suppressAutoLogin: bool

    ghost predicate Valid()
      reads this
    {
      Distinct(active)
    }

    constructor ()
      ensures Valid() && active == [] && !suppressAutoLogin
    {
      active, suppressAutoLogin := [], false;
    }

    method ClearLoginSession(realm: Realm)
      requires Valid()
      modifies this`active
      ensures Valid() && active == Clear(old(active), realm)
    {
      StepDistinct(active, Op.LogoutRealm(realm));
      active := Filter(active, (x: Identity) => !InScope(x, realm));
    }

    method RemoveIdentityRef(ref: IdentityRef)
      requires Valid()
      modifies this`active
      ensures Valid() && active == Without(old(active), ref)
    {
      StepDistinct(active, Op.Logout(ref));
      active := Filter(active, (x: Identity) => !x.Ref().Equals(ref));
    }

    static method CollectRealms(realms: seq<Realm>, xs: seq<Identity>) returns (r: seq<Realm>)
      ensures r == ConsiderAll(realms, xs)
    {
      r := realms;
      assert xs[0..] == xs;
      for i := 0 to |xs|
        invariant ConsiderAll(realms, xs) == ConsiderAll(r, xs[i..])
      {
        assert xs[i..][1..] == xs[i + 1..];
        if xs[i].IsLoginSession() && xs[i].realm.HasKey() {
          var covered := false;
          for k := 0 to |r|
            invariant covered <==> exists j :: 0 <= j < k && r[j].ScopedEqual(xs[i].realm)
          {
            if r[k].ScopedEqual(xs[i].realm) {
              covered := true;
            }
          }
          if !covered {
            r := r + [xs[i].realm];
          }
        }
      }
    }

    lemma {:induction false} ConsiderAllAppend(realms: seq<Realm>, a: seq<Identity>, b: seq<Identity>)
      ensures ConsiderAll(realms, a + b) == ConsiderAll(ConsiderAll(realms, a), b)
      decreases |a|
    {
      if a == [] {
        assert a + b == b;
      } else {
        assert (a + b)[1..] == a[1..] + b && (a + b)[0] == a[0];
        ConsiderAllAppend(Consider(realms, a[0]), a[1..], b);
      }
    }

    /** Ends the login sessions the set replaces, then adds its identities one by one. */
    method Activate(s: IdentitySet)
      requires Valid()
      modifies this`active
      ensures Valid() && active == Activated(old(active), s)
    {
      hide Distinct, Consider;
      var realms := CollectRealms([], s.identities);
      if s.primary.Some? {
        realms := CollectRealms(realms, [s.primary.value]);
        ConsiderAllAppend([], s.identities, [s.primary.value]);
      } else {
        assert s.identities + [] == s.identities;
      }
      assert realms == RealmsToClear(s);
      ghost var before := active;
      assert realms[0..] == realms;
      for i := 0 to |realms|
        invariant Valid() && ClearAll(before, realms) == ClearAll(active, realms[i..])
      {
        assert realms[i..][1..] == realms[i + 1..];
        ClearLoginSession(realms[i]);
      }
      var toAdd := CollectToAdd(s);
      ghost var cleared := active;
      assert toAdd[0..] == toAdd;
      for i := 0 to |toAdd|
        invariant Valid() && AddAll(cleared, toAdd) == AddAll(active, toAdd[i..])
      {
        assert toAdd[i..][1..] == toAdd[i + 1..];
        AppendDistinct(active, toAdd[i]);
        RemoveIdentityRef(toAdd[i].Ref());
        active := active + [toAdd[i]];
      }
    }

    static method CollectToAdd(s: IdentitySet) returns (toAdd: seq<Identity>)
      ensures toAdd == ToAdd(s)
    {
      toAdd := [];
      if s.primary.Some? {
        toAdd := [s.primary.value];
      } else {
        KeepEverything(s.identities);
      }
      ghost var all := s.identities;
      ghost var keep := (x: Identity) => s.primary.None? || !x.Ref().Equals(s.primary.value.Ref());
      ghost var first := toAdd;
      assert all[0..] == all;
      for i := 0 to |s.identities|
        invariant first + Filter(all, keep) == toAdd + Filter(all[i..], keep)
      {
        assert all[i..][1..] == all[i + 1..];
        if s.primary.Some? && s.identities[i].Ref().Equals(s.primary.value.Ref()) {
          continue;
        }
        assert toAdd + ([all[i]] + Filter(all[i + 1..], keep)) == toAdd + [all[i]] + Filter(all[i + 1..], keep);
        toAdd := toAdd + [s.identities[i]];
      }
      assert toAdd + [] == toAdd;
      if s.primary.None? {
        FilterAll(all, keep);
        assert [] + all == all;
      } else {
        FilterTwice(all, (x: Identity) => true, keep, keep);
        FilterTwice(all, (x: Identity) => true, keep, (x: Identity) => !x.Ref().Equals(s.primary.value.Ref()));
      }
    }

    static lemma KeepEverything(xs: seq<Identity>)
      ensures Filter(xs, (x: Identity) => true) == xs
    {
      FilterAll(xs, (x: Identity) => true);
    }

    method Logout(ref: IdentityRef)
      requires Valid()
      modifies this
      ensures Valid() && active == Step(old(active), Op.Logout(ref)) && suppressAutoLogin
    {
      suppressAutoLogin := true;
      RemoveIdentityRef(ref);
    }

    method LogoutType(kind: string)
      requires Valid()
      modifies this
      ensures Valid() && active == Step(old(active), Op.LogoutType(kind)) && suppressAutoLogin
    {
      StepDistinct(active, Op.LogoutType(kind));
      suppressAutoLogin := true;
      active := Filter(active, (x: Identity) => x.kind != kind);
    }

    method LogoutAll()
      requires Valid()
      modifies this
      ensures Valid() && active == Step(old(active), Op.LogoutAll) && suppressAutoLogin
    {
      suppressAutoLogin := true;
      active := [];
    }

    method LogoutRealm(realm: Realm)
      requires Valid()
      modifies this
      ensures Valid() && active == Step(old(active), Op.LogoutRealm(realm)) && suppressAutoLogin
    {
      suppressAutoLogin := true;
      ClearLoginSession(realm);
    }
  }
}
