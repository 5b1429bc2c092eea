/** Access decisions: resolving matched entries, and the two paths that reach a decision. */
module Decisions {
  import opened Sequences
  import opened Permissions
  import opened Globs
  import opened Identities

  datatype Effect = Unknown | Allow | Deny

  datatype ACEntry = ACEntry(permission: Permission, effect: Effect)

  const INT_MIN := -0x8000_0000

  /** A score is no lower than where the search for the highest one starts. */
  type Level = s: int | INT_MIN <= s

  datatype ACEMatch = ACEMatch(
    entry: ACEntry, identity: IdentityRef, permissionSpecificity: Level, identitySpecificity: int)

  datatype DecisionType = AllowType | DenyType | ChallengeRequired | Error

  datatype Decision = Decision(kind: DecisionType, permission: Permission, reason: string) {
    function Effect(): Effect {
      if kind.AllowType? then Allow else Deny
    }
  }

  // ---- what a decision means ----

  /** What counts of a matched entry: its effect and how specific its permission is. */
  datatype Scored = Scored(effect: Effect, specificity: Level)

  predicate IsTop(ms: seq<Scored>, m: Scored) {
    m in ms && forall k :: 0 <= k < |ms| ==> ms[k].specificity <= m.specificity
  }

  ghost predicate TopHas(ms: seq<Scored>, effect: Effect) {
    exists m :: IsTop(ms, m) && m.effect == effect
  }

  /** Among the most specific entries a deny decides, then an allow; nothing else does. */
  ghost function Verdict(ms: seq<Scored>): Effect {
    if TopHas(ms, Deny) then Deny else if TopHas(ms, Allow) then Allow else Unknown
  }

  /** The verdict depends on nothing but the set of most specific entries. */
  lemma VerdictByTop(a: seq<Scored>, b: seq<Scored>)
    requires forall m :: IsTop(a, m) <==> IsTop(b, m)
    ensures Verdict(a) == Verdict(b)
  {
  }

  lemma TopBySet(ms: seq<Scored>, m: Scored)
    ensures IsTop(ms, m) <==> m in ms && forall x :: x in ms ==> x.specificity <= m.specificity
  {
  }

  /** Reordering the entries, or repeating some, changes nothing. */
  lemma VerdictPermutes(a: seq<Scored>, b: seq<Scored>)
    requires forall m :: m in a <==> m in b
    ensures Verdict(a) == Verdict(b)
  {
    forall m
      ensures IsTop(a, m) <==> IsTop(b, m)
    {
      TopBySet(a, m);
      TopBySet(b, m);
    }
    VerdictByTop(a, b);
  }

  /** Entries below the highest specificity can come and go. */
  lemma VerdictIgnoresLower(a: seq<Scored>, extra: seq<Scored>, top: Scored)
    requires top in a
    requires forall x :: x in extra ==> x.specificity < top.specificity
    ensures Verdict(a + extra) == Verdict(a)
  {
    forall m
      ensures IsTop(a + extra, m) <==> IsTop(a, m)
    {
      TopBySet(a, m);
      TopBySet(a + extra, m);
    }
    VerdictByTop(a + extra, a);
  }

  // ---- the two resolvers ----

  /** The entries that cover the request, with their scores, in order. */
  function ScoredEntries(request: Permission, entries: seq<ACEntry>): seq<Scored> {
    if entries == [] then []
    else if Covers(entries[0].permission, request) then
      [Scored(entries[0].effect, Specificity(entries[0].permission))] + ScoredEntries(request, entries[1..])
    else ScoredEntries(request, entries[1..])
  }

  function ScoredMatches(matches: seq<ACEMatch>): (r: seq<Scored>)
    ensures |r| == |matches|
    ensures forall k :: 0 <= k < |r| ==> r[k] == Scored(matches[k].entry.effect, matches[k].permissionSpecificity)
  {
    if matches == [] then []
    else [Scored(matches[0].entry.effect, matches[0].permissionSpecificity)] + ScoredMatches(matches[1..])
  }

  lemma {:induction false} ScoredEntriesAppend(request: Permission, a: seq<ACEntry>, b: seq<ACEntry>)
    ensures ScoredEntries(request, a + b) == ScoredEntries(request, a) + ScoredEntries(request, b)
  {
    if a == [] {
      assert a + b == b;
    } else {
      assert (a + b)[1..] == a[1..] + b && (a + b)[0] == a[0];
      ScoredEntriesAppend(request, a[1..], b);
      hide Covers, Specificity;
    }
  }

  /** m is the score of an entry that covers the request. */
  ghost predicate ScoreOf(request: Permission, e: ACEntry, m: Scored) {
    Covers(e.permission, request) && m == Scored(e.effect, Specificity(e.permission))
  }

  lemma {:induction false} ScoredMember(request: Permission, entries: seq<ACEntry>, m: Scored)
    ensures m in ScoredEntries(request, entries) <==> exists e :: e in entries && ScoreOf(request, e, m)
  {
    hide Covers, Specificity;
    if entries != [] {
      ScoredMember(request, entries[1..], m);
      var head, rest := ScoreOf(request, entries[0], m), ScoredEntries(request, entries[1..]);
      assert m in ScoredEntries(request, entries) <==> head || m in rest;
      if e :| e in entries && ScoreOf(request, e, m) {
        assert e == entries[0] || e in entries[1..];
      }
      if e :| e in entries[1..] && ScoreOf(request, e, m) {
        assert e in entries;
      }
      assert entries[0] in entries;
    }
  }

  /** e covers the request and no entry that does is more specific. */
  ghost predicate IsTopEntry(request: Permission, entries: seq<ACEntry>, e: ACEntry) {
    && e in entries && Covers(e.permission, request)
    && forall f :: f in entries && Covers(f.permission, request) ==>
         Specificity(f.permission) <= Specificity(e.permission)
  }

  ghost predicate TopEntryHas(request: Permission, entries: seq<ACEntry>, effect: Effect) {
    exists e :: IsTopEntry(request, entries, e) && e.effect == effect
  }

  lemma {:induction false} TopEntryScore(request: Permission, entries: seq<ACEntry>, effect: Effect)
    ensures TopHas(ScoredEntries(request, entries), effect) <==> TopEntryHas(request, entries, effect)
  {
    var ms := ScoredEntries(request, entries);
    hide ScoredEntries, Covers, Specificity;
    if m :| IsTop(ms, m) && m.effect == effect {
      ScoredMember(request, entries, m);
      var e :| e in entries && ScoreOf(request, e, m);
      forall f | f in entries && Covers(f.permission, request)
        ensures Specificity(f.permission) <= Specificity(e.permission)
      {
        var s := Scored(f.effect, Specificity(f.permission));
        assert ScoreOf(request, f, s);
        ScoredMember(request, entries, s);
      }
      assert IsTopEntry(request, entries, e);
    }
    if e :| IsTopEntry(request, entries, e) && e.effect == effect {
      var m := Scored(e.effect, Specificity(e.permission));
      assert ScoreOf(request, e, m);
      ScoredMember(request, entries, m);
      forall x | x in ms
        ensures x.specificity <= m.specificity
      {
        ScoredMember(request, entries, x);
      }
      TopBySet(ms, m);
    }
  }

  /**
   * The verdict in terms of the entries themselves: one deny among the most specific covering
   * entries denies, and without one an allow among them allows.
   */
  lemma {:induction false} EntriesDecide(request: Permission, entries: seq<ACEntry>)
    ensures Verdict(ScoredEntries(request, entries)) == Deny <==> TopEntryHas(request, entries, Deny)
    ensures Verdict(ScoredEntries(request, entries)) == Allow
       <==> TopEntryHas(request, entries, Allow) && !TopEntryHas(request, entries, Deny)
  {
    TopEntryScore(request, entries, Deny);
    TopEntryScore(request, entries, Allow);
    hide TopHas, TopEntryHas, ScoredEntries;
  }

  /** One deny among the most specific covering entries wins, whatever else the list holds. */
  lemma {:induction false} DenyWins(request: Permission, entries: seq<ACEntry>, e: ACEntry)
    requires IsTopEntry(request, entries, e) && e.effect == Deny
    ensures Verdict(ScoredEntries(request, entries)) == Deny
  {
    EntriesDecide(request, entries);
    hide Verdict, ScoredEntries;
  }

  /** e covers the request and is no less specific than top. */
  predicate AtLeast(request: Permission, e: ACEntry, top: ACEntry) {
    Covers(e.permission, request) && Specificity(top.permission) <= Specificity(e.permission)
  }

  /** Covering entries below one that stays can come and go, anywhere in the list. */
  lemma {:induction false} LowerEntriesIgnored(request: Permission, a: seq<ACEntry>, b: seq<ACEntry>, top: ACEntry)
    requires top in a && top in b && Covers(top.permission, request)
    requires forall e :: AtLeast(request, e, top) ==> (e in a <==> e in b)
    ensures Verdict(ScoredEntries(request, a)) == Verdict(ScoredEntries(request, b))
  {
    hide ScoredEntries, Covers, Specificity;
    forall e
      ensures IsTopEntry(request, a, e) <==> IsTopEntry(request, b, e)
    {
      TopTransfers(request, a, b, top, e);
      TopTransfers(request, b, a, top, e);
    }
    EntriesDecide(request, a);
    EntriesDecide(request, b);
  }

  lemma {:induction false} TopTransfers(request: Permission, a: seq<ACEntry>, b: seq<ACEntry>, top: ACEntry, e: ACEntry)
    requires top in a && Covers(top.permission, request)
    requires forall f :: AtLeast(request, f, top) ==> (f in a <==> f in b)
    ensures IsTopEntry(request, a, e) ==> IsTopEntry(request, b, e)
  {
    hide Covers, Specificity;
    if IsTopEntry(request, a, e) {
      assert AtLeast(request, e, top);
      forall f | f in b && Covers(f.permission, request)
        ensures Specificity(f.permission) <= Specificity(e.permission)
      {
        if !AtLeast(request, f, top) {
          assert Specificity(f.permission) < Specificity(top.permission);
        }
      }
    }
  }

  /** The highest specificity in a list, INT_MIN for the empty one. */
  method MaxSpecificity(ms: seq<Scored>) returns (max: Level)
    ensures forall k :: 0 <= k < |ms| ==> ms[k].specificity <= max
    ensures ms != [] ==> exists k :: 0 <= k < |ms| && ms[k].specificity == max
  {
    max := INT_MIN;
    ghost var at := 0;
    for i := 0 to |ms|
      invariant INT_MIN <= max && (i == 0 ==> max == INT_MIN)
      invariant forall k :: 0 <= k < i ==> ms[k].specificity <= max
      invariant i > 0 ==> 0 <= at < i && ms[at].specificity == max
    {
      if i == 0 || max < ms[i].specificity {
        at := i;
      }
      max := if max < ms[i].specificity then ms[i].specificity else max;
    }
  }

  lemma TopHasAt(ms: seq<Scored>, max: Level, k: nat, effect: Effect)
    requires k < |ms| && ms[k] == Scored(effect, max)
    requires forall j :: 0 <= j < |ms| ==> ms[j].specificity <= max
    ensures TopHas(ms, effect)
  {
    assert IsTop(ms, ms[k]);
  }

  lemma TopHasNot(ms: seq<Scored>, max: Level, at: nat, effect: Effect)
    requires at < |ms| && ms[at].specificity == max
    requires forall j :: 0 <= j < |ms| ==> ms[j].specificity <= max
    requires forall j :: 0 <= j < |ms| ==> ms[j] != Scored(effect, max)
    ensures !TopHas(ms, effect)
  {
    forall m | IsTop(ms, m)
      ensures m.effect != effect
    {
      assert ms[at].specificity <= m.specificity;
    }
  }

  /** The decision for a request: from the matching entries of highest specificity, deny by default. */
  method ResolveEntries(request: Permission, entries: seq<ACEntry>) returns (d: Decision)
    ensures d.permission == request
    ensures d.kind == if Verdict(ScoredEntries(request, entries)) == Allow then AllowType else DenyType
    ensures d.reason ==
            if ScoredEntries(request, entries) == [] then "no matching ACE"
            else match Verdict(ScoredEntries(request, entries))
                 case Deny => "explicit deny"
                 case Allow => "explicit allow"
                 case Unknown => "no decisive ACE"
  {
    var matched := [];
    assert entries[0..] == entries;
    ghost var all := ScoredEntries(request, entries);
    hide Covers, Specificity, Verdict, TopHas;
    for i := 0 to |entries|
      invariant all == matched + ScoredEntries(request, entries[i..])
    {
      assert entries[i..][1..] == entries[i + 1..];
      if Covers(entries[i].permission, request) {
        var score := ComputeSpecificity(entries[i].permission);
        matched := matched + [Scored(entries[i].effect, score)];
      }
    }
    assert matched == all;
    if matched == [] {
      NoVerdict();
      return Decision(DenyType, request, "no matching ACE");
    }
    var effect := ResolveTop(matched);
    match effect {
      case Deny => d := Decision(DenyType, request, "explicit deny");
      case Allow => d := Decision(AllowType, request, "explicit allow");
      case Unknown => d := Decision(DenyType, request, "no decisive ACE");
    }
  }

  lemma NoVerdict()
    ensures Verdict([]) == Unknown
  {
  }

  /** The two loops over the matched entries: the highest specificity, then the effects found at it. */
  method ResolveTop(matched: seq<Scored>) returns (effect: Effect)
    requires matched != []
    ensures effect == Verdict(matched)
  {
    var maxSpec := MaxSpecificity(matched);
    var hasAllow, hasDeny := false, false;
    for i := 0 to |matched|
      invariant hasDeny <==> exists k :: 0 <= k < i && matched[k] == Scored(Deny, maxSpec)
      invariant hasAllow <==> exists k :: 0 <= k < i && matched[k] == Scored(Allow, maxSpec)
    {
      if matched[i].specificity == maxSpec {
        if matched[i].effect == Deny {
          hasDeny := true;
        } else if matched[i].effect == Allow && !hasAllow {
          hasAllow := true;
        }
      }
    }
    VerdictAt(matched, maxSpec);
    effect := if hasDeny then Deny else if hasAllow then Allow else Unknown;
  }

  /** The verdict, read off at the highest specificity. */
  lemma VerdictAt(ms: seq<Scored>, max: Level)
    requires ms != [] && exists k :: 0 <= k < |ms| && ms[k].specificity == max
    requires forall k :: 0 <= k < |ms| ==> ms[k].specificity <= max
    ensures Verdict(ms) == if exists k :: 0 <= k < |ms| && ms[k] == Scored(Deny, max) then Deny
                           else if exists k :: 0 <= k < |ms| && ms[k] == Scored(Allow, max) then Allow
                           else Unknown
  {
    var at :| 0 <= at < |ms| && ms[at].specificity == max;
    forall effect
      ensures TopHas(ms, effect) <==> exists k :: 0 <= k < |ms| && ms[k] == Scored(effect, max)
    {
      if k :| 0 <= k < |ms| && ms[k] == Scored(effect, max) {
        TopHasAt(ms, max, k, effect);
      } else {
        TopHasNot(ms, max, at, effect);
      }
    }
  }

  /** The older resolver over scored matches; identity specificity only picks among equal allows. */
  method ResolveMatches(matches: seq<ACEMatch>) returns (effect: Effect)
    ensures effect == Verdict(ScoredMatches(matches))
  {
    if matches == [] {
      NoVerdict();
      return Unknown;
    }
    var ms := ScoredMatches(matches);
    var max := MaxSpecificity(ms);
    VerdictAt(ms, max);
    hide Verdict, ScoredMatches;
    var top := CollectTop(matches, ms, max);
    effect := ResolveCollected(top);
    OnTop(matches, ms, top, Deny, max);
    OnTop(matches, ms, top, Allow, max);
  }

  method CollectTop(matches: seq<ACEMatch>, ghost ms: seq<Scored>, max: Level) returns (top: seq<ACEMatch>)
    requires |ms| == |matches|
    requires forall k :: 0 <= k < |ms| ==> ms[k] == Scored(matches[k].entry.effect, matches[k].permissionSpecificity)
    ensures Collected(matches, ms, top, max)
  {
    top := [];
    for i := 0 to |matches|
      invariant forall m :: m in top <==> exists k :: 0 <= k < i && matches[k] == m && m.permissionSpecificity == max
    {
      if matches[i].permissionSpecificity == max {
        top := top + [matches[i]];
      }
    }
  }

  /** The deny among the collected matches, else the allow of the most specific identity. */
  method ResolveCollected(top: seq<ACEMatch>) returns (effect: Effect)
    ensures effect == if exists k :: 0 <= k < |top| && top[k].entry.effect == Deny then Deny
                      else if exists k :: 0 <= k < |top| && top[k].entry.effect == Allow then Allow
                      else Unknown
  {
    for i := 0 to |top|
      invariant forall k :: 0 <= k < i ==> top[k].entry.effect != Deny
    {
      if top[i].entry.effect == Deny {
        return Deny;
      }
    }
    var bestAllow: Option<ACEMatch> := None;
    for i := 0 to |top|
      invariant bestAllow.Some? <==> exists k :: 0 <= k < i && top[k].entry.effect == Allow
    {
      if top[i].entry.effect == Allow {
        if bestAllow.None? || top[i].identitySpecificity > bestAllow.value.identitySpecificity {
          bestAllow := Some(top[i]);
        }
      }
    }
    effect := if bestAllow.Some? then Allow else Unknown;
  }

  ghost predicate Collected(matches: seq<ACEMatch>, ms: seq<Scored>, top: seq<ACEMatch>, max: Level) {
    && |ms| == |matches|
    && (forall k :: 0 <= k < |ms| ==> ms[k] == Scored(matches[k].entry.effect, matches[k].permissionSpecificity))
    && (forall m :: m in top <==> exists k :: 0 <= k < |matches| && matches[k] == m && m.permissionSpecificity == max)
  }

  lemma OnTop(matches: seq<ACEMatch>, ms: seq<Scored>, top: seq<ACEMatch>, effect: Effect, max: Level)
    requires Collected(matches, ms, top, max)
    ensures (exists k :: 0 <= k < |top| && top[k].entry.effect == effect)
       <==> (exists k :: 0 <= k < |ms| && ms[k] == Scored(effect, max))
  {
    if i :| 0 <= i < |top| && top[i].entry.effect == effect {
      assert top[i] in top;
      var k :| 0 <= k < |matches| && matches[k] == top[i] && top[i].permissionSpecificity == max;
      assert ms[k] == Scored(effect, max);
    }
    if k :| 0 <= k < |ms| && ms[k] == Scored(effect, max) {
      assert matches[k] in top;
    }
  }
}
