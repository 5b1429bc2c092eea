/** Realms, identity references and identities, with their partial equalities. */
module Identities {
  import opened Sequences

  datatype Realm = Realm(kind: string, uuid: string, name: string, description: string, image: string) {
    predicate Empty() {
      kind == "" && uuid == "" && name == "" && description == "" && image == ""
    }

    predicate HasKey() {
      kind != "" || uuid != "" || name != ""
    }

    /** Only a description or an image: equal to no realm but the empty one, not even to itself. */
    predicate Bare() {
      !HasKey() && !Empty()
    }

    /** Equality for references; an empty realm equals every realm. */
    predicate Same(o: Realm) {
      if Empty() || o.Empty() then true
      else if kind != "" && o.kind != "" && kind != o.kind then false
      else if uuid != "" && o.uuid != "" then uuid == o.uuid
      else if name != "" && o.name != "" then name == o.name
      else if kind != "" && o.kind != "" then kind == o.kind
      else false
    }

    /** Equality for login sessions; an empty realm equals the empty realm only. */
    predicate ScopedEqual(o: Realm) {
      if kind != "" && o.kind != "" && kind != o.kind then false
      else if uuid != "" && o.uuid != "" then uuid == o.uuid
      else if name != "" && o.name != "" then name == o.name
      else if kind != "" && o.kind != "" then kind == o.kind
      else Empty() && o.Empty()
    }

    /** The key under which the policy store of the realm is filed. */
    function StorageKey(): string {
      if uuid != "" then "uuid:" + uuid
      else if kind != "" && name != "" then kind + ":" + name
      else if name != "" then "name:" + name
      else if kind != "" then "type:" + kind
      else "global"
    }
  }

  const NO_REALM := Realm("", "", "", "", "")

  /** The two equalities differ in the wildcard only; both are symmetric. */
  lemma SameIsScopedOrEmpty(a: Realm, b: Realm)
    ensures a.Same(b) <==> a.Empty() || b.Empty() || a.ScopedEqual(b)
    ensures a.Same(b) <==> b.Same(a)
    ensures a.ScopedEqual(b) <==> b.ScopedEqual(a)
  {
  }

  /** A realm equals itself exactly when it has a key or is empty altogether. */
  lemma SameReflexive(a: Realm)
    ensures a.Same(a) <==> a.Empty() || a.HasKey()
    ensures a.ScopedEqual(a) <==> a.Empty() || a.HasKey()
  {
  }

  /** Scoped equality carries over through a realm exactly when that realm has no key. */
  lemma ScopedTransitiveThrough(b: Realm)
    ensures (forall a: Realm, c: Realm :: a.ScopedEqual(b) && b.ScopedEqual(c) ==> a.ScopedEqual(c)) <==> !b.HasKey()
  {
    if b.HasKey() {
      var (a, c) := Linked(b);
      assert a.ScopedEqual(b) && b.ScopedEqual(c) && !a.ScopedEqual(c);
    }
  }

  /** Reference equality does so exactly through realms with a description or an image only. */
  lemma SameTransitiveThrough(b: Realm)
    ensures (forall a: Realm, c: Realm :: a.Same(b) && b.Same(c) ==> a.Same(c)) <==> !b.HasKey() && !b.Empty()
  {
    if b.HasKey() || b.Empty() {
      var (a, c) := if b.HasKey() then Linked(b) else (Realm("", "1", "", "", ""), Realm("", "2", "", "", ""));
      assert "1"[0] != "2"[0];
      assert a.Same(b) && b.Same(c) && !a.Same(c);
    }
  }

  /** Two realms that a third one with a key links, although they differ from each other. */
  function Linked(b: Realm): (r: (Realm, Realm))
    requires b.HasKey()
    ensures r.0.ScopedEqual(b) && b.ScopedEqual(r.1) && !r.0.ScopedEqual(r.1)
    ensures !r.0.Empty() && !r.1.Empty()
  {
    assert "1"[0] != "2"[0];
    if b.uuid == "" then (Realm(b.kind, "1", b.name, "", ""), Realm(b.kind, "2", b.name, "", ""))
    else if b.kind == "" then (Realm("1", b.uuid, "", "", ""), Realm("2", b.uuid, "", "", ""))
    else (Realm("", b.uuid, "", "", ""), Realm(b.kind, "", "", "", ""))
  }

  datatype IdentityRef = IdentityRef(kind: string, realm: Realm, name: string) {
    predicate Equals(o: IdentityRef) {
      kind == o.kind && name == o.name && realm.Same(o.realm)
    }
  }

  /** In one realm with a key, references are equal exactly when they are identical. */
  lemma EqualsInRealm(a: IdentityRef, b: IdentityRef)
    requires a.realm == b.realm && a.realm.HasKey()
    ensures a.Equals(b) <==> a == b
  {
    SameReflexive(a.realm);
  }

  datatype Source = UnknownSource | Direct | Derived | Login | Auto | System {
    function Priority(): nat {
      match this
      case Direct => 4
      case Login => 4
      case Derived => 3
      case Auto => 2
      case System => 1
      case UnknownSource => 0
    }
  }

  /** Direct and login identities weigh most, then derived, automatic and system ones, an unknown source nothing. */
  lemma SourcesRanked()
    ensures Direct.Priority() == Login.Priority() == Derived.Priority() + 1 == Auto.Priority() + 2
    ensures Auto.Priority() == System.Priority() + 1 == UnknownSource.Priority() + 2 == 2
  {
  }

  datatype IdentityState = UnknownState | Active | Expired | Revoked | LoggedOut

  datatype Identity = Identity(
      kind: string, name: string, realm: Realm, displayName: string, serviceId: string,
      source: Source, state: IdentityState, issuedAt: int, expiresAt: Option<int>) {
    function Ref(): IdentityRef {
      IdentityRef(kind, realm, name)
    }

    predicate IsActive(now: int) {
      state == Active && !(expiresAt.Some? && now >= expiresAt.value)
    }

    predicate IsLoginSession() {
      source == Login
    }
  }

  /** The two parts of a storage key. */
  function KeyParts(r: Realm): (string, string) {
    if r.uuid != "" then ("uuid", r.uuid)
    else if r.name != "" then (if r.kind != "" then r.kind else "name", r.name)
    else ("type", r.kind)
  }

  lemma {:induction false} PartsApart(a: string, x: string, b: string, y: string)
    requires ':' !in a && ':' !in b && a + (":" + x) == b + (":" + y)
    ensures a == b && x == y
  {
    var s, t := a + (":" + x), b + (":" + y);
    assert s[|a|] == ':' && t[|b|] == ':';
    assert (forall k :: 0 <= k < |a| ==> s[k] != ':') && (forall k :: 0 <= k < |b| ==> t[k] != ':');
    assert |a| == |b|;
    assert a == s[..|a|] == t[..|b|] == b;
    assert x == s[|a| + 1..] == t[|b| + 1..] == y;
  }

  /** Realms whose kinds hold no colon are filed under the same key exactly when both parts are the same. */
  lemma {:induction false} SameKeyExactly(a: Realm, b: Realm)
    requires a.HasKey() && b.HasKey() && ':' !in a.kind && ':' !in b.kind
    ensures a.StorageKey() == b.StorageKey() <==> KeyParts(a) == KeyParts(b)
  {
    var (p, x) := KeyParts(a);
    var (q, y) := KeyParts(b);
    assert a.StorageKey() == p + (":" + x) && b.StorageKey() == q + (":" + y);
    if a.StorageKey() == b.StorageKey() {
      PartsApart(p, x, q, y);
    }
  }

  /** So unequal realms can share a key, and equal ones can be filed apart. */
  lemma KeysAgainstEquality()
    ensures var uuid, kind := Realm("", "1", "", "", ""), Realm("uuid", "", "1", "", "");
            uuid.StorageKey() == kind.StorageKey() && !uuid.Same(kind)
    ensures var full, named := Realm("app", "1", "n", "", ""), Realm("app", "", "n", "", "");
            full.ScopedEqual(named) && full.StorageKey() != named.StorageKey()
    ensures NO_REALM.StorageKey() == "global"
  {
    assert "uuid" + ":" + "1" == "uuid:" + "1";
    assert ("uuid:" + "1")[0] != ("app" + ":" + "n")[0];
  }

  /** An active identity was active before, and it stops being so at its expiry, if it has one. */
  lemma ActiveUntilExpiry(x: Identity, now: int, later: int)
    requires now <= later
    ensures x.IsActive(later) ==> x.IsActive(now)
    ensures x.IsActive(now) ==> x.state == Active
    ensures x.state == Active && x.expiresAt == None ==> x.IsActive(now)
    ensures x.expiresAt == Some(later) ==> !x.IsActive(later)
    ensures x.state == Active && x.expiresAt == Some(later) && now < later ==> x.IsActive(now)
  {
  }

  /** No two identities are equal as references, a relation that is not transitive. */
  ghost predicate Distinct(identities: seq<Identity>) {
    forall i, j :: 0 <= i < j < |identities| ==> !identities[i].Ref().Equals(identities[j].Ref())
  }

  /** Two identities of one kind and name that no store can tell apart, though their references differ. */
  predicate Twins(a: Identity, b: Identity) {
    a.kind == b.kind && a.name == b.name && a.realm.Bare() && b.realm.Bare()
  }
}
