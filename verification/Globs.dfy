/** Token globs: matching with * and **, and how specific a pattern is. */
module Globs {
  import opened Sequences
  import opened Permissions
  import Pointers

  /** ** stands for any number of tokens, * for exactly one, everything else for itself. */
  predicate Matches(pattern: Tokens, tokens: Tokens)
    decreases |pattern|
  {
    if pattern == [] then tokens == []
    else if pattern[0] == "**" then exists k :: 0 <= k <= |tokens| && Matches(pattern[1..], tokens[k..])
    else tokens != [] && (pattern[0] == "*" || pattern[0] == tokens[0]) && Matches(pattern[1..], tokens[1..])
  }

  /** The backtracking matcher on positions. */
  method MatchTokens(pattern: Tokens, pi: nat, tokens: Tokens, gi: nat) returns (r: bool)
    requires pi <= |pattern| && gi <= |tokens|
    ensures r == Matches(pattern[pi..], tokens[gi..])
    decreases |pattern| - pi
  {
    var p, t := pattern[pi..], tokens[gi..];
    if pi == |pattern| {
      return gi == |tokens|;
    }
    assert p[1..] == pattern[pi + 1..];
    if pattern[pi] == "**" {
      var k := gi;
      while k <= |tokens|
        invariant gi <= k <= |tokens| + 1
        invariant forall j :: 0 <= j < k - gi ==> !Matches(p[1..], t[j..])
      {
        r := MatchTokens(pattern, pi + 1, tokens, k);
        assert tokens[k..] == t[k - gi..];
        if r {
          return true;
        }
        k := k + 1;
      }
      return false;
    }
    if gi >= |tokens| {
      return false;
    }
    assert t[1..] == tokens[gi + 1..];
    if pattern[pi] == "*" || pattern[pi] == tokens[gi] {
      r := MatchTokens(pattern, pi + 1, tokens, gi + 1);
      return;
    }
    r := false;
  }

  /** The token list splits after k tokens into a part matched by p and a part matched by q. */
  predicate SplitsAt(p: Tokens, q: Tokens, tokens: Tokens, k: nat) {
    k <= |tokens| && Matches(p, tokens[..k]) && Matches(q, tokens[k..])
  }

  /** Matching is compositional: p + q matches exactly the lists that split between p and q. */
  lemma {:induction false} MatchesAppend(p: Tokens, q: Tokens, tokens: Tokens)
    ensures Matches(p + q, tokens) <==> exists k :: SplitsAt(p, q, tokens, k)
    decreases |p|
  {
    if p == [] {
      assert p + q == q && tokens[0..] == tokens && tokens[..0] == [];
      assert Matches(q, tokens) <==> SplitsAt(p, q, tokens, 0);
    } else {
      assert (p + q)[1..] == p[1..] + q && (p + q)[0] == p[0];
      if p[0] == "**" {
        StarStarAppend(p, q, tokens);
      } else {
        OneAppend(p, q, tokens);
      }
    }
  }

  lemma {:induction false} OneAppend(p: Tokens, q: Tokens, tokens: Tokens)
    requires p != [] && p[0] != "**"
    ensures Matches(p + q, tokens) <==> exists k :: SplitsAt(p, q, tokens, k)
    decreases |p|, 0
  {
    assert (p + q)[1..] == p[1..] + q && (p + q)[0] == p[0];
    if tokens != [] {
      MatchesAppend(p[1..], q, tokens[1..]);
      forall k: nat | k < |tokens|
        ensures SplitsAt(p, q, tokens, k + 1)
           <==> (p[0] == "*" || p[0] == tokens[0]) && SplitsAt(p[1..], q, tokens[1..], k)
      {
        assert tokens[..k + 1][1..] == tokens[1..][..k] && tokens[k + 1..] == tokens[1..][k..];
      }
      if k: nat :| SplitsAt(p[1..], q, tokens[1..], k) {
        assert SplitsAt(p, q, tokens, k + 1) <==> p[0] == "*" || p[0] == tokens[0];
      }
      if k: nat :| SplitsAt(p, q, tokens, k) {
        assert k > 0;
        assert SplitsAt(p[1..], q, tokens[1..], k - 1);
      }
    }
  }

  lemma {:induction false} StarStarAppend(p: Tokens, q: Tokens, tokens: Tokens)
    requires p != [] && p[0] == "**"
    ensures Matches(p + q, tokens) <==> exists k :: SplitsAt(p, q, tokens, k)
    decreases |p|, 0
  {
    assert (p + q)[1..] == p[1..] + q && (p + q)[0] == p[0];
    if Matches(p + q, tokens) {
      var j :| 0 <= j <= |tokens| && Matches(p[1..] + q, tokens[j..]);
      MatchesAppend(p[1..], q, tokens[j..]);
      var i: nat :| SplitsAt(p[1..], q, tokens[j..], i);
      assert tokens[j..][..i] == tokens[..j + i][j..] && tokens[j..][i..] == tokens[j + i..];
      assert SplitsAt(p, q, tokens, j + i);
    }
    if k: nat :| SplitsAt(p, q, tokens, k) {
      var j :| 0 <= j <= k && Matches(p[1..], tokens[..k][j..]);
      MatchesAppend(p[1..], q, tokens[j..]);
      assert tokens[..k][j..] == tokens[j..][..k - j] && tokens[k..] == tokens[j..][k - j..];
      assert SplitsAt(p[1..], q, tokens[j..], k - j);
      assert Matches((p + q)[1..], tokens[j..]);
    }
  }

  /** How much one token of an action pattern counts. */
  function TokenScore(token: string): nat {
    if token == "**" then 0 else if token == "*" then 1 else 10
  }

  function Score(pattern: Tokens): nat {
    if pattern == [] then 0 else TokenScore(pattern[0]) + Score(pattern[1..])
  }

  /** A step from a literal to * or from * to **. */
  predicate Widens(token: string, wider: string) {
    (wider == "*" && token !in {"*", "**"}) || (wider == "**" && token == "*")
  }

  /** Widening one token of a pattern never loses a match and strictly lowers its score. */
  lemma {:induction false} WidenMatches(pattern: Tokens, i: nat, wider: string, tokens: Tokens)
    requires i < |pattern| && Widens(pattern[i], wider)
    ensures Matches(pattern, tokens) ==> Matches(pattern[i := wider], tokens)
    ensures Score(pattern[i := wider]) < Score(pattern)
    decreases i
  {
    var w := pattern[i := wider];
    if i == 0 {
      assert w[1..] == pattern[1..];
      if Matches(pattern, tokens) && wider == "**" {
        assert Matches(w[1..], tokens[1..]);
      }
    } else {
      assert w[1..] == pattern[1..][i - 1 := wider];
      if pattern[0] == "**" && Matches(pattern, tokens) {
        var k :| 0 <= k <= |tokens| && Matches(pattern[1..], tokens[k..]);
        WidenMatches(pattern[1..], i - 1, wider, tokens[k..]);
        assert Matches(w[1..], tokens[k..]);
      } else if tokens != [] {
        WidenMatches(pattern[1..], i - 1, wider, tokens[1..]);
      }
      WidenMatches(pattern[1..], i - 1, wider, []);
    }
  }

  /** Without wildcards a pattern matches itself only. */
  lemma {:induction false} LiteralMatchesItself(pattern: Tokens, tokens: Tokens)
    requires "*" !in pattern && "**" !in pattern
    ensures Matches(pattern, tokens) <==> pattern == tokens
    decreases |pattern|
  {
    if pattern != [] && tokens != [] {
      LiteralMatchesItself(pattern[1..], tokens[1..]);
      assert pattern == [pattern[0]] + pattern[1..] && tokens == [tokens[0]] + tokens[1..];
    }
  }

  /** One token: * matches any, ** matches every list, anything else matches itself. */
  lemma {:induction false} OneToken(token: string, tokens: Tokens)
    ensures Matches([token], tokens)
       <==> token == "**" || (|tokens| == 1 && (token == "*" || tokens == [token]))
  {
    assert [token][1..] == [] && tokens[|tokens|..] == [];
    if token == "**" {
      assert Matches([token][1..], tokens[|tokens|..]);
    }
  }

  /** Ten for each literal of a pattern, one for each *, and nothing for **. */
  function Points(pattern: Tokens): nat {
    10 * |Filter(pattern, t => t !in {"*", "**"})| + |Filter(pattern, t => t == "*")|
  }

  lemma {:induction false} ScoreCounts(pattern: Tokens)
    ensures Score(pattern) == Points(pattern)
  {
    if pattern != [] {
      ScoreCounts(pattern[1..]);
    }
  }

  // ---- actions and resources ----

  /** The dot-separated tokens of an action; nothing after a final dot. */
  method SplitPermissionTokens(permission: string) returns (tokens: Tokens)
    ensures tokens == Pointers.Split(permission, '.')
  {
    hide Pointers.Split;
    tokens := [];
    var start := 0;
    assert permission[0..] == permission;
    while start < |permission|
      invariant start <= |permission|
      invariant Pointers.Split(permission, '.') == tokens + Pointers.Split(permission[start..], '.')
      decreases |permission| - start
    {
      var dot := Pointers.Find(permission, '.', start);
      SplitFrom(permission, start, dot, tokens);
      if dot == |permission| {
        tokens := tokens + [permission[start..]];
        return;
      }
      tokens := tokens + [permission[start..dot]];
      start := dot + 1;
    }
    SplitEnds("", '.');
    assert permission[start..] == "";
  }

  lemma {:induction false} SplitEnds(s: string, c: char)
    requires Pointers.Find(s, c, 0) == |s|
    ensures Pointers.Split(s, c) == if s == "" then [] else [s]
  {
  }

  lemma {:induction false} SplitFrom(s: string, from: nat, dot: nat, done: Tokens)
    requires from < |s| && dot == Pointers.Find(s, '.', from)
    ensures var all := done + Pointers.Split(s[from..], '.');
            all == if dot == |s| then done + [s[from..]]
                   else done + [s[from..dot]] + Pointers.Split(s[dot + 1..], '.')
  {
    hide Pointers.Split;
    var rest := s[from..];
    FindInSuffix(s, '.', from);
    if dot == |s| {
      SplitEnds(rest, '.');
    } else {
      Pointers.SplitStep(done, rest, '.');
      assert rest[..dot - from] == s[from..dot];
      assert rest[dot - from + 1..] == s[dot + 1..];
    }
  }

  lemma {:induction false} FindInSuffix(s: string, c: char, from: nat)
    requires from <= |s|
    ensures Pointers.Find(s[from..], c, 0) == Pointers.Find(s, c, from) - from
  {
    Pointers.FindIs(s[from..], c, 0, Pointers.Find(s, c, from) - from);
  }

  predicate ActionMatches(pattern: string, action: string) {
    pattern == "" || action == "" || Matches(Pointers.Split(pattern, '.'), Pointers.Split(action, '.'))
  }

  function TrimSlashes(text: string): string {
    if text != "" && text[|text| - 1] == '/' then TrimSlashes(text[..|text| - 1]) else text
  }

  /** All pieces between slashes, empty ones included. */
  function Pieces(text: string): Tokens {
    var i := Pointers.Find(text, '/', 0);
    if i == |text| then [text] else [text[..i]] + Pieces(text[i + 1..])
  }

  /** The path tokens of a resource, without one leading and all final slashes. */
  function SplitPath(text: string): Tokens {
    if text == "" then []
    else Pieces(TrimSlashes(if text[0] == '/' then text[1..] else text))
  }

  predicate IsSuffix(suffix: string, text: string) {
    |suffix| <= |text| && text[|text| - |suffix|..] == suffix
  }

  predicate ResourceMatches(pattern: string, resource: string) {
    if pattern == "" || resource == "" || pattern == "*" || resource == "*" then true
    else if |pattern| >= 2 && pattern[0] == '*' && pattern[1] == '.' then IsSuffix(pattern[1..], resource)
    else if '/' in pattern || '*' in pattern then Matches(SplitPath(pattern), SplitPath(resource))
    else pattern == resource
  }

  /** Whether an entry's permission pattern covers a requested permission. */
  predicate Covers(pattern: Permission, request: Permission) {
    ActionMatches(pattern.action, request.action) && ResourceMatches(pattern.resource, request.resource)
  }

  // ---- what an entry covers ----

  function Slashes(n: nat): string {
    seq(n, _ => '/')
  }

  /** The tokens joined by slashes, with at most one slash in front of them and any number behind. */
  ghost predicate SpellsPath(text: string, tokens: Tokens, n: nat) {
    && tokens != [] && (forall k :: 0 <= k < |tokens| ==> '/' !in tokens[k])
    && (tokens == [""] || tokens[|tokens| - 1] != "")
    && (|| (tokens[0] != "" && text == Pointers.Joined(tokens, '/') + Slashes(n))
        || text == "/" + (Pointers.Joined(tokens, '/') + Slashes(n)))
  }

  lemma {:induction false} PiecesJoined(tokens: Tokens)
    requires tokens != [] && forall k :: 0 <= k < |tokens| ==> '/' !in tokens[k]
    ensures Pieces(Pointers.Joined(tokens, '/')) == tokens
  {
    var text := Pointers.Joined(tokens, '/');
    Pointers.FindIs(text, '/', 0, |tokens[0]|);
    if |tokens| > 1 {
      PiecesJoined(tokens[1..]);
      assert text[..|tokens[0]|] == tokens[0] && text[|tokens[0]| + 1..] == Pointers.Joined(tokens[1..], '/');
    }
  }

  lemma {:induction false} JoinedPieces(text: string)
    ensures Pieces(text) != [] && Pointers.Joined(Pieces(text), '/') == text
    ensures forall k :: 0 <= k < |Pieces(text)| ==> '/' !in Pieces(text)[k]
  {
    var i := Pointers.Find(text, '/', 0);
    if i < |text| {
      JoinedPieces(text[i + 1..]);
      assert Pieces(text)[1..] == Pieces(text[i + 1..]);
      assert text == text[..i] + "/" + text[i + 1..];
    }
  }

  /** The last character of joined tokens is a slash exactly when an empty token ends a longer list. */
  lemma {:induction false} JoinedEnd(tokens: Tokens)
    requires tokens != [] && forall k :: 0 <= k < |tokens| ==> '/' !in tokens[k]
    ensures var text := Pointers.Joined(tokens, '/');
            && (tokens == [""] <==> text == "")
            && (text != "" ==> (text[|text| - 1] == '/' <==> tokens[|tokens| - 1] == ""))
            && (tokens[0] != "" <==> text != "" && text[0] != '/')
  {
    if |tokens| > 1 {
      JoinedEnd(tokens[1..]);
    }
  }

  lemma {:induction false} TrimmedSlashes(text: string, n: nat)
    requires text == "" || text[|text| - 1] != '/'
    ensures TrimSlashes(text + Slashes(n)) == text
  {
    var s := text + Slashes(n);
    if n > 0 {
      TrimmedSlashes(text, n - 1);
      assert s[..|s| - 1] == text + Slashes(n - 1);
    } else {
      assert s == text;
    }
  }

  lemma {:induction false} SlashesTrimmed(text: string) returns (n: nat)
    ensures var t := TrimSlashes(text);
            text == t + Slashes(n) && (t == "" || t[|t| - 1] != '/')
  {
    if text != "" && text[|text| - 1] == '/' {
      n := SlashesTrimmed(text[..|text| - 1]);
      n := n + 1;
      assert text == text[..|text| - 1] + "/";
      assert Slashes(n - 1) + "/" == Slashes(n);
    } else {
      n := 0;
      assert text + Slashes(0) == text;
    }
  }

  ghost predicate IsPathOf(text: string, tokens: Tokens) {
    exists n :: SpellsPath(text, tokens, n)
  }

  lemma {:induction false} SpelledSplits(text: string, tokens: Tokens, n: nat)
    requires SpellsPath(text, tokens, n)
    ensures SplitPath(text) == tokens
  {
    var joined := Pointers.Joined(tokens, '/');
    JoinedEnd(tokens);
    TrimmedSlashes(joined, n);
    PiecesJoined(tokens);
    assert ("/" + (joined + Slashes(n)))[1..] == joined + Slashes(n);
    hide Pointers.Joined, Slashes, Pieces, TrimSlashes;
  }

  lemma FirstNoSlash(joined: string, n: nat)
    requires joined + Slashes(n) != "" && (joined + Slashes(n))[0] != '/'
    ensures joined != "" && joined[0] != '/'
  {
  }

  lemma {:induction false} SplitIsSpelled(text: string)
    requires text != ""
    ensures IsPathOf(text, SplitPath(text))
  {
    hide TrimSlashes, Pieces, Pointers.Joined, Slashes;
    var tokens := SplitPath(text);
    var bare := if text[0] == '/' then text[1..] else text;
    var n := SlashesTrimmed(bare);
    var joined := TrimSlashes(bare);
    JoinedPieces(joined);
    JoinedEnd(tokens);
    if text[0] == '/' {
      assert text == "/" + (joined + Slashes(n));
    } else {
      FirstNoSlash(joined, n);
    }
    assert SpellsPath(text, tokens, n);
  }

  /** Splitting a resource gives the tokens that spell it, and nothing else spells it. */
  lemma {:induction false} SplitPathExactly(text: string, tokens: Tokens)
    requires text != ""
    ensures SplitPath(text) == tokens <==> IsPathOf(text, tokens)
  {
    SplitIsSpelled(text);
    if n :| SpellsPath(text, tokens, n) {
      SpelledSplits(text, tokens, n);
    }
    hide SplitPath, SpellsPath;
  }

  /** The action is everything, or its dotted tokens match the pattern's. */
  ghost predicate ActionWithin(pattern: string, action: string) {
    pattern == "" || action == ""
    || exists p, t :: Pointers.Spells(pattern, p, '.') && Pointers.Spells(action, t, '.') && Matches(p, t)
  }

  ghost predicate PathWithin(pattern: string, resource: string) {
    exists p, t :: IsPathOf(pattern, p) && IsPathOf(resource, t) && Matches(p, t)
  }

  /** An extension matches by suffix, a path or glob by its tokens, anything else itself. */
  ghost predicate ResourceWithin(pattern: string, resource: string) {
    || pattern in {"", "*"} || resource in {"", "*"}
    || if "*." <= pattern then exists front :: resource == front + pattern[1..]
       else if '/' in pattern || '*' in pattern then PathWithin(pattern, resource)
       else pattern == resource
  }

  lemma ActionExactly(pattern: string, action: string)
    ensures ActionMatches(pattern, action) <==> ActionWithin(pattern, action)
  {
    var p, t := Pointers.Split(pattern, '.'), Pointers.Split(action, '.');
    forall tokens
      ensures Pointers.Spells(pattern, tokens, '.') <==> tokens == p
      ensures Pointers.Spells(action, tokens, '.') <==> tokens == t
    {
      Pointers.SplitExactly(pattern, tokens, '.');
      Pointers.SplitExactly(action, tokens, '.');
    }
    hide Pointers.Spells, Pointers.Split, Matches;
  }

  lemma PathExactly(pattern: string, resource: string)
    requires pattern != "" && resource != ""
    ensures Matches(SplitPath(pattern), SplitPath(resource)) <==> PathWithin(pattern, resource)
  {
    var p, t := SplitPath(pattern), SplitPath(resource);
    forall tokens
      ensures IsPathOf(pattern, tokens) <==> tokens == p
      ensures IsPathOf(resource, tokens) <==> tokens == t
    {
      SplitPathExactly(pattern, tokens);
      SplitPathExactly(resource, tokens);
    }
    hide IsPathOf, SplitPath, Matches;
  }

  /** The request is within the pattern: in terms of the texts and of token lists that spell them. */
  ghost predicate Within(pattern: Permission, request: Permission) {
    ActionWithin(pattern.action, request.action) && ResourceWithin(pattern.resource, request.resource)
  }

  /** What covering means. */
  lemma CoversExactly(pattern: Permission, request: Permission)
    ensures Covers(pattern, request) <==> Within(pattern, request)
  {
    ActionExactly(pattern.action, request.action);
    var p, r := pattern.resource, request.resource;
    if p != "" && r != "" {
      PathExactly(p, r);
    }
    if "*." <= p {
      forall front
        ensures r == front + p[1..] ==> IsSuffix(p[1..], r)
      {
      }
      assert IsSuffix(p[1..], r) ==> r == r[..|r| - |p[1..]|] + p[1..];
    }
    assert "*." <= p <==> |p| >= 2 && p[0] == '*' && p[1] == '.';
    hide ActionMatches, ActionWithin, PathWithin, SplitPath, Matches;
  }

  /** A resource without slashes and stars is covered by itself only, besides everything. */
  lemma PlainResource(resource: string, request: Permission)
    requires resource != "" && '/' !in resource && '*' !in resource
    ensures Covers(Permission("", resource), request) <==> request.resource in {"", "*", resource}
  {
  }

  /** An extension covers what ends in it. */
  lemma {:induction false} ExtensionResource(extension: string, request: Permission)
    ensures Covers(Permission("", "*." + extension), request)
       <==> request.resource in {"", "*"} || exists front :: request.resource == front + "." + extension
  {
    var p, r := "*." + extension, request.resource;
    CoversExactly(Permission("", p), request);
    assert "*." <= p && p[1..] == "." + extension;
    forall front: string
      ensures front + "." + extension == front + p[1..]
    {
    }
    hide Covers;
  }

  /** Dotted actions: the token lists decide. */
  lemma {:induction false} DottedAction(p: Tokens, t: Tokens, request: Permission)
    requires forall k :: 0 <= k < |p| ==> p[k] != "" && '.' !in p[k]
    requires forall k :: 0 <= k < |t| ==> t[k] != "" && '.' !in t[k]
    requires request.action == Pointers.Joined(t, '.')
    ensures Covers(Permission(Pointers.Joined(p, '.'), ""), request) <==> p == [] || t == [] || Matches(p, t)
  {
    Pointers.SplitJoined(p, '.');
    Pointers.SplitJoined(t, '.');
    hide Pointers.Split, Matches;
  }

  /** Paths: the token lists decide. */
  lemma {:induction false} PathResource(p: Tokens, t: Tokens, request: Permission)
    requires p != [] && forall k :: 0 <= k < |p| ==> p[k] != "" && '/' !in p[k]
    requires t != [] && forall k :: 0 <= k < |t| ==> t[k] != "" && '/' !in t[k]
    requires request.resource in {Pointers.Joined(t, '/'), "/" + Pointers.Joined(t, '/')}
    ensures Covers(Permission("", "/" + Pointers.Joined(p, '/')), request)
       <==> request.resource == "*" || Matches(p, t)
  {
    var pattern, resource := "/" + Pointers.Joined(p, '/'), request.resource;
    assert Slashes(0) == [];
    assert SpellsPath(pattern, p, 0) && SpellsPath(resource, t, 0);
    JoinedEnd(t);
    SpelledSplits(pattern, p, 0);
    SpelledSplits(resource, t, 0);
    hide SplitPath, SpellsPath, Matches;
  }

  function Specificity(pattern: Permission): nat {
    (if pattern.resource != "" && pattern.resource != "*" then 20 else 0)
    + if pattern.action == "" then 0 else Score(Pointers.Split(pattern.action, '.'))
  }

  /** A resource that is not everything adds twenty to the points of the action's tokens. */
  lemma {:induction false} SpecificityCounts(pattern: Permission, tokens: Tokens)
    requires Pointers.Spells(pattern.action, tokens, '.')
    ensures Specificity(pattern) == Points(tokens) + if pattern.resource in {"", "*"} then 0 else 20
  {
    Pointers.SplitExactly(pattern.action, tokens, '.');
    ScoreCounts(tokens);
    hide Pointers.Spells;
  }

  method ComputeSpecificity(pattern: Permission) returns (score: nat)
    ensures score == Specificity(pattern)
  {
    score := 0;
    if pattern.resource != "" && pattern.resource != "*" {
      score := score + 20;
    }
    if pattern.action == "" {
      return;
    }
    var tokens := SplitPermissionTokens(pattern.action);
    ghost var total := score + Score(tokens);
    assert tokens[0..] == tokens;
    for i := 0 to |tokens|
      invariant total == score + Score(tokens[i..])
    {
      assert tokens[i..][1..] == tokens[i + 1..];
      if tokens[i] == "**" {
        score := score + 0;
      } else if tokens[i] == "*" {
        score := score + 1;
      } else {
        score := score + 10;
      }
    }
  }
}
