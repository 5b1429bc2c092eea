/** Parsing a URI into its components and composing it again, after sections 3 and 5.3 of RFC 3986. */
module Uris {
  import opened Sequences

  predicate IsAlpha(c: char) {
    'A' <= c <= 'Z' || 'a' <= c <= 'z'
  }

  predicate IsSchemeChar(c: char) {
    IsAlpha(c) || '0' <= c <= '9' || c == '+' || c == '-' || c == '.'
  }

  /** The characters that end a component. */
  predicate EndsAuthority(c: char) { c == '/' || c == '?' || c == '#' }

  predicate EndsPath(c: char) { c == '?' || c == '#' }

  predicate EndsQuery(c: char) { c == '#' }

  predicate EndsScheme(c: char) { !IsSchemeChar(c) }

  /** Length of the longest prefix without a character at which to stop. */
  function Span(s: string, stop: char -> bool): (n: nat)
    ensures n <= |s|
    ensures forall k :: 0 <= k < n ==> !stop(s[k])
    ensures n < |s| ==> stop(s[n])
  {
    if s == "" || stop(s[0]) then 0 else 1 + Span(s[1..], stop)
  }

  /** The components of a URI; an undefined one is None, a defined one may be empty. */
  datatype Components = Components(
    scheme: Option<string>,
    authority: Option<string>,
    path: Option<string>,
    query: Option<string>,
    fragment: Option<string>)

  /** A component and the text that follows it. */
  datatype Part = Part(text: Option<string>, rest: string)

  /** Whether s starts with a scheme and a colon. */
  predicate HasScheme(s: string) {
    s != "" && IsAlpha(s[0]) && var n := Span(s, EndsScheme); n < |s| && s[n] == ':'
  }

  function SchemeOf(s: string): Part {
    if HasScheme(s) then var n := Span(s, EndsScheme); Part(Some(s[..n]), s[n + 1..])
    else Part(None, s)
  }

  predicate StartsAuthority(s: string) {
    |s| >= 2 && s[0] == '/' && s[1] == '/'
  }

  /** Two slashes are consumed even when the authority after them is empty and stays undefined. */
  function AuthorityOf(s: string): Part {
    if StartsAuthority(s) then
      var n := Span(s[2..], EndsAuthority);
      Part(if n > 0 then Some(s[2..][..n]) else None, s[2..][n..])
    else Part(None, s)
  }

  function PathOf(s: string): Part {
    var n := Span(s, EndsPath);
    Part(if n > 0 then Some(s[..n]) else None, s[n..])
  }

  function QueryOf(s: string): Part {
    if s != "" && s[0] == '?' then
      var n := Span(s[1..], EndsQuery);
      Part(Some(s[1..][..n]), s[1..][n..])
    else Part(None, s)
  }

  function FragmentOf(s: string): Option<string> {
    if s != "" && s[0] == '#' then Some(s[1..]) else None
  }

  /** The components after the scheme and the authority. */
  function TailOf(scheme: Option<string>, authority: Option<string>, s: string): Components {
    var path := PathOf(s);
    var query := QueryOf(path.rest);
    Components(scheme, authority, path.text, query.text, FragmentOf(query.rest))
  }

  function Parsed(s: string): Components {
    var scheme := SchemeOf(s);
    if scheme.text.Some? then
      var authority := AuthorityOf(scheme.rest);
      TailOf(scheme.text, authority.text, authority.rest)
    else TailOf(None, None, s)
  }

  function Optional(o: Option<string>): string {
    if o.Some? then o.value else ""
  }

  function Prefixed(mark: string, o: Option<string>): string {
    if o.Some? then mark + o.value else ""
  }

  function Suffixed(o: Option<string>, mark: string): string {
    if o.Some? then o.value + mark else ""
  }

  function TailText(c: Components): string {
    Optional(c.path) + (Prefixed("?", c.query) + Prefixed("#", c.fragment))
  }

  /** The text of the components. */
  function Composed(c: Components): string {
    Suffixed(c.scheme, ":") + (Prefixed("//", c.authority) + TailText(c))
  }

  /** A scheme is followed by two slashes and no authority. */
  predicate DropsSlashes(s: string) {
    && HasScheme(s)
    && var rest := SchemeOf(s).rest;
       StartsAuthority(rest) && (|rest| == 2 || EndsAuthority(rest[2]))
  }

  /** Text that is empty or starts with a question mark or a number sign. */
  predicate AfterPath(s: string) {
    s == "" || EndsPath(s[0])
  }

  predicate AfterQuery(s: string) {
    s == "" || EndsQuery(s[0])
  }

  /** Cutting a text in two behind a mark loses nothing. */
  lemma Rejoin(mark: string, t: string, m: nat)
    requires m <= |t|
    ensures (mark + t[..m]) + t[m..] == mark + t
  {
  }

  lemma SchemeComposes(s: string)
    requires HasScheme(s)
    ensures s == Suffixed(SchemeOf(s).text, ":") + SchemeOf(s).rest
  {
    var n := Span(s, EndsScheme);
    assert s == (s[..n] + ":") + s[n + 1..];
  }

  lemma SlashesFirst(s: string)
    requires StartsAuthority(s)
    ensures s == "//" + s[2..] && (|s| > 2 ==> s[2..][0] == s[2])
  {
  }

  lemma AuthorityComposes(s: string)
    ensures var dropped := StartsAuthority(s) && (|s| == 2 || EndsAuthority(s[2]));
            Prefixed("//", AuthorityOf(s).text) + AuthorityOf(s).rest == if dropped then s[2..] else s
  {
    if StartsAuthority(s) {
      var t, m := s[2..], Span(s[2..], EndsAuthority);
      Rejoin("//", t, m);
      SlashesFirst(s);
      assert m == 0 <==> t == "" || EndsAuthority(t[0]);
      hide Span;
      assert m == 0 ==> t[m..] == t;
    }
  }

  lemma PathComposes(s: string)
    ensures Optional(PathOf(s).text) + PathOf(s).rest == s
    ensures AfterPath(PathOf(s).rest)
  {
    var n := Span(s, EndsPath);
    assert s == s[..n] + s[n..];
  }

  lemma QueryComposes(s: string)
    requires AfterPath(s)
    ensures Prefixed("?", QueryOf(s).text) + QueryOf(s).rest == s
    ensures AfterQuery(QueryOf(s).rest)
  {
    if s != "" && s[0] == '?' {
      Rejoin("?", s[1..], Span(s[1..], EndsQuery));
      assert s == "?" + s[1..];
    }
  }

  lemma FragmentComposes(s: string)
    requires AfterQuery(s)
    ensures Prefixed("#", FragmentOf(s)) == s
  {
  }

  lemma TailComposes(scheme: Option<string>, authority: Option<string>, s: string)
    ensures TailText(TailOf(scheme, authority, s)) == s
  {
    PathComposes(s);
    QueryComposes(PathOf(s).rest);
    FragmentComposes(QueryOf(PathOf(s).rest).rest);
    hide PathOf, QueryOf, FragmentOf, Optional, Prefixed;
  }

  /**
   * Composing a parsed text gives it back, except that two slashes after a
   * scheme without an authority are dropped.
   */
  lemma {:induction false} ComposeParsed(s: string)
    ensures !DropsSlashes(s) ==> Composed(Parsed(s)) == s
    ensures DropsSlashes(s) ==>
              var n := Span(s, EndsScheme) + 1;
              s[n..n + 2] == "//" && Composed(Parsed(s)) == s[..n] + s[n + 2..]
  {
    if HasScheme(s) {
      var rest := SchemeOf(s).rest;
      var authority := AuthorityOf(rest);
      SchemeComposes(s);
      AuthorityComposes(rest);
      TailComposes(SchemeOf(s).text, authority.text, authority.rest);
      if DropsSlashes(s) {
        SlashesDropped(s);
      }
      hide AuthorityOf, TailOf, TailText, Prefixed, Span, HasScheme;
    } else {
      TailComposes(None, None, s);
      hide TailOf, TailText;
    }
  }

  lemma {:induction false} SlashesDropped(s: string)
    requires DropsSlashes(s)
    ensures var n := Span(s, EndsScheme) + 1;
            n + 2 <= |s| && s[n..n + 2] == "//"
            && Suffixed(SchemeOf(s).text, ":") + SchemeOf(s).rest[2..] == s[..n] + s[n + 2..]
  {
    CutTwo(s, Span(s, EndsScheme) + 1);
    hide Span;
  }

  lemma CutTwo(s: string, n: nat)
    requires 1 <= n && n + 2 <= |s|
    ensures s[..n] == s[..n - 1] + [s[n - 1]]
    ensures s[n..n + 2] == [s[n..][0], s[n..][1]]
    ensures s[n..][2..] == s[n + 2..]
  {
  }

  /** Parsing loses nothing exactly when no empty authority follows a scheme. */
  lemma LosslessExactly(s: string)
    ensures Composed(Parsed(s)) == s <==> !DropsSlashes(s)
  {
    ComposeParsed(s);
    if DropsSlashes(s) {
      var n := Span(s, EndsScheme) + 1;
      assert |s[..n] + s[n + 2..]| == |s| - 2;
    }
  }

  predicate Free(s: string, stop: char -> bool) {
    forall k :: 0 <= k < |s| ==> !stop(s[k])
  }

  /**
   * The components that a text can spell without being read differently: each
   * one is free of the characters that end it, and the path does not look like
   * what may come before it.
   */
  predicate WellFormed(c: Components) {
    && (c.scheme.Some? ==> c.scheme.value != "" && IsAlpha(c.scheme.value[0]) && Free(c.scheme.value, EndsScheme))
    && (c.authority.Some? ==> c.scheme.Some? && c.authority.value != "" && Free(c.authority.value, EndsAuthority))
    && (c.path.Some? ==>
          && c.path.value != "" && Free(c.path.value, EndsPath)
          && (c.authority.Some? ==> c.path.value[0] == '/')
          && (c.scheme.Some? && c.authority.None? ==> !StartsAuthority(c.path.value))
          && (c.scheme.None? ==> !HasScheme(c.path.value)))
    && (c.query.Some? ==> Free(c.query.value, EndsQuery))
  }

  lemma {:induction false} SpanIs(a: string, rest: string, stop: char -> bool)
    requires Free(a, stop) && (rest == "" || stop(rest[0]))
    ensures Span(a + rest, stop) == |a|
    ensures (a + rest)[..|a|] == a && (a + rest)[|a|..] == rest
  {
    if a == "" {
      assert a + rest == rest;
    } else {
      SpanIs(a[1..], rest, stop);
      assert (a + rest)[1..] == a[1..] + rest;
    }
  }

  lemma PathParsed(c: Components, rest: string)
    requires WellFormed(c) && AfterPath(rest)
    ensures PathOf(Optional(c.path) + rest) == Part(c.path, rest)
  {
    SpanIs(Optional(c.path), rest, EndsPath);
  }

  lemma QueryParsed(c: Components, rest: string)
    requires WellFormed(c) && AfterQuery(rest)
    ensures QueryOf(Prefixed("?", c.query) + rest) == Part(c.query, rest)
    ensures AfterPath(Prefixed("?", c.query) + rest)
  {
    if c.query.Some? {
      SpanIs(c.query.value, rest, EndsQuery);
      assert ("?" + c.query.value + rest)[1..] == c.query.value + rest;
    } else {
      assert "" + rest == rest;
    }
  }

  lemma TailParsed(c: Components)
    requires WellFormed(c)
    ensures TailOf(c.scheme, c.authority, TailText(c)) == c
  {
    var fragment := Prefixed("#", c.fragment);
    assert AfterQuery(fragment) && FragmentOf(fragment) == c.fragment by {
      assert c.fragment.Some? ==> ("#" + c.fragment.value)[1..] == c.fragment.value;
    }
    QueryParsed(c, fragment);
    PathParsed(c, Prefixed("?", c.query) + fragment);
    hide PathOf, QueryOf, FragmentOf, Optional, Prefixed, WellFormed;
  }

  /** Parsing what was composed from well-formed components gives them back. */
  lemma ParseComposed(c: Components)
    requires WellFormed(c)
    ensures Parsed(Composed(c)) == c
  {
    TailParsed(c);
    if c.scheme.None? {
      NoScheme(c);
    } else {
      var rest := Prefixed("//", c.authority) + TailText(c);
      SchemeParsed(c.scheme.value, rest);
      AuthorityParsed(c);
    }
  }

  lemma SchemeParsed(scheme: string, rest: string)
    requires scheme != "" && IsAlpha(scheme[0]) && Free(scheme, EndsScheme)
    ensures var s := (scheme + ":") + rest;
            HasScheme(s) && SchemeOf(s) == Part(Some(scheme), rest)
  {
    SpanIs(scheme, ":" + rest, EndsScheme);
    assert (scheme + ":") + rest == scheme + (":" + rest);
    assert (":" + rest)[1..] == rest;
  }

  lemma SkipMark(mark: string, a: string, b: string)
    ensures (mark + a) + b == mark + (a + b)
    ensures ((mark + a) + b)[|mark|..] == a + b
  {
  }

  lemma NoAuthority(c: Components)
    requires WellFormed(c) && c.scheme.Some? && c.authority.None?
    ensures !StartsAuthority(TailText(c))
  {
    var p, rest := Optional(c.path), Prefixed("?", c.query) + Prefixed("#", c.fragment);
    assert AfterPath(rest);
    hide Prefixed;
    assert rest != "" ==> (p + rest)[|p|] == rest[0];
    assert |p| >= 2 ==> (p + rest)[0] == p[0] && (p + rest)[1] == p[1];
  }

  lemma AfterAuthority(c: Components)
    requires WellFormed(c) && c.authority.Some?
    ensures TailText(c) == "" || EndsAuthority(TailText(c)[0])
  {
    assert c.path.Some? ==> TailText(c)[0] == c.path.value[0];
  }

  lemma AuthorityParsed(c: Components)
    requires WellFormed(c) && c.scheme.Some?
    ensures AuthorityOf(Prefixed("//", c.authority) + TailText(c)) == Part(c.authority, TailText(c))
  {
    var tail := TailText(c);
    if c.authority.Some? {
      AfterAuthority(c);
      hide TailText;
      SpanIs(c.authority.value, tail, EndsAuthority);
      SkipMark("//", c.authority.value, tail);
    } else {
      NoAuthority(c);
      hide TailText, WellFormed;
      assert "" + tail == tail;
    }
  }

  /** A path that has no scheme has none when a query or a fragment follows it. */
  lemma SchemeInPath(p: string, rest: string)
    requires AfterPath(rest) && HasScheme(p + rest)
    ensures HasScheme(p)
  {
    var s := p + rest;
    var n := Span(s, EndsScheme);
    assert rest != "" ==> s[|p|] == rest[0];
    assert n < |p|;
    assert forall k :: 0 <= k < n ==> p[k] == s[k];
    SpanIs(p[..n], p[n..], EndsScheme);
    assert p == p[..n] + p[n..];
  }

  lemma NoScheme(c: Components)
    requires WellFormed(c) && c.scheme.None?
    ensures Composed(c) == TailText(c) && !HasScheme(TailText(c))
  {
    var p, rest := Optional(c.path), Prefixed("?", c.query) + Prefixed("#", c.fragment);
    assert AfterPath(rest);
    hide Span;
    if HasScheme(p + rest) {
      SchemeInPath(p, rest);
    }
  }

  lemma SchemeFacts(s: string)
    requires HasScheme(s)
    ensures var scheme := SchemeOf(s).text.value;
            scheme != "" && IsAlpha(scheme[0]) && Free(scheme, EndsScheme)
  {
  }

  lemma AuthorityFacts(s: string)
    ensures var part := AuthorityOf(s);
            && (part.text.Some? ==>
                  && part.text.value != "" && Free(part.text.value, EndsAuthority)
                  && (part.rest == "" || EndsAuthority(part.rest[0])))
            && (part.text.None? && StartsAuthority(s) ==>
                  part.rest == s[2..] && (|s| == 2 || EndsAuthority(s[2])))
            && (part.text.None? && !StartsAuthority(s) ==> part.rest == s)
            && (part.text.Some? ==> StartsAuthority(s) && |s| > 2 && !EndsAuthority(s[2]))
  {
    if StartsAuthority(s) {
      var n := Span(s[2..], EndsAuthority);
      assert n > 0 ==> s[2..][0] == s[2];
      assert n < |s[2..]| ==> s[2..][n..][0] == s[2..][n];
      hide Span;
    }
  }

  lemma PathFacts(s: string)
    ensures var p := PathOf(s).text;
            && (p.Some? ==> s != "" && p.value != "" && Free(p.value, EndsPath) && p.value[0] == s[0])
            && (p.Some? && StartsAuthority(p.value) <==> StartsAuthority(s))
            && (p.Some? && HasScheme(p.value) ==> HasScheme(s))
  {
    var n := Span(s, EndsPath);
    if n > 0 && HasScheme(s[..n]) {
      SchemeBeyond(s[..n], s[n..]);
      assert s == s[..n] + s[n..];
    }
  }

  lemma SchemeBeyond(p: string, rest: string)
    requires HasScheme(p)
    ensures HasScheme(p + rest)
  {
    var m := Span(p, EndsScheme);
    SpanIs(p[..m], p[m..] + rest, EndsScheme);
    assert p + rest == p[..m] + (p[m..] + rest);
  }

  lemma QueryFacts(s: string)
    ensures QueryOf(s).text.Some? ==> Free(QueryOf(s).text.value, EndsQuery)
  {
  }

  lemma TailWellFormed(scheme: Option<string>, authority: Option<string>, s: string)
    requires scheme.Some? ==> scheme.value != "" && IsAlpha(scheme.value[0]) && Free(scheme.value, EndsScheme)
    requires authority.Some? ==> scheme.Some? && authority.value != "" && Free(authority.value, EndsAuthority)
    requires authority.Some? ==> s == "" || EndsAuthority(s[0])
    requires scheme.None? ==> !HasScheme(s)
    ensures WellFormed(TailOf(scheme, authority, s)) <==> !(scheme.Some? && authority.None? && StartsAuthority(s))
  {
    PathFacts(s);
    QueryFacts(PathOf(s).rest);
    hide PathOf, QueryOf, FragmentOf, StartsAuthority, HasScheme;
  }

  /** The only text whose components cannot be composed and parsed again is one whose path starts with two slashes. */
  lemma ParsedWellFormed(s: string)
    ensures WellFormed(Parsed(s)) <==> !(DropsSlashes(s) && StartsAuthority(SchemeOf(s).rest[2..]))
  {
    if HasScheme(s) {
      var scheme := SchemeOf(s);
      var authority := AuthorityOf(scheme.rest);
      SchemeFacts(s);
      AuthorityFacts(scheme.rest);
      TailWellFormed(scheme.text, authority.text, authority.rest);
      hide AuthorityOf, TailOf, WellFormed, Free;
    } else {
      TailWellFormed(None, None, s);
      hide TailOf, WellFormed, Free;
    }
  }

  /** Composing and parsing again is the identity on exactly the well-formed components. */
  lemma ParseComposedExactly(c: Components)
    ensures Parsed(Composed(c)) == c <==> WellFormed(c)
  {
    if WellFormed(c) {
      ParseComposed(c);
    } else if Parsed(Composed(c)) == c {
      LosslessExactly(Composed(c));
      ParsedWellFormed(Composed(c));
    }
  }

  /** The text consists of ASCII letters, digits and the three marks, and starts with a letter. */
  predicate IsSchemeText(t: string) {
    && t != "" && ('a' <= t[0] <= 'z' || 'A' <= t[0] <= 'Z')
    && forall k :: 0 <= k < |t| ==>
         'a' <= t[k] <= 'z' || 'A' <= t[k] <= 'Z' || '0' <= t[k] <= '9' || t[k] in {'+', '-', '.'}
  }

  /** The usual shape of a URI, whatever its scheme, host and path. */
  lemma {:induction false} HostAndPath(scheme: string, host: string, path: string)
    requires IsSchemeText(scheme) && host != "" && path != "" && path[0] == '/'
    requires forall k :: 0 <= k < |host| ==> host[k] !in {'/', '?', '#'}
    requires forall k :: 0 <= k < |path| ==> path[k] !in {'?', '#'}
    ensures Parsed((scheme + ":") + ("//" + host + path))
         == Components(Some(scheme), Some(host), Some(path), None, None)
  {
    var c := Components(Some(scheme), Some(host), Some(path), None, None);
    ParseComposedExactly(c);
    assert path + ("" + "") == path && "//" + host + path == ("//" + host) + path;
    hide Parsed;
  }

  /** A digit in a scheme. */
  lemma {:induction false} DigitInScheme()
    ensures Parsed("s3://b/k") == Components(Some("s3"), Some("b"), Some("/k"), None, None)
  {
    hide Parsed;
    HostAndPath("s3", "b", "/k");
    assert ("s3" + ":") + ("//" + "b" + "/k") == "s3://b/k";
  }

  /** A parsed text reads the same after composing, unless dropping two slashes exposes two more. */
  lemma ReparseExactly(s: string)
    ensures Parsed(Composed(Parsed(s))) == Parsed(s)
       <==> !(DropsSlashes(s) && StartsAuthority(SchemeOf(s).rest[2..]))
  {
    ParseComposedExactly(Parsed(s));
    ParsedWellFormed(s);
  }

  /** The failing sides: two slashes between a scheme and a path are lost, and two more become an authority. */
  lemma {:induction false} SlashesLost(scheme: string, path: string)
    requires scheme != "" && IsAlpha(scheme[0]) && Free(scheme, EndsScheme)
    requires path != "" && path[0] == '/'
    ensures var s := (scheme + ":") + ("//" + path);
            && DropsSlashes(s) && Composed(Parsed(s)) == (scheme + ":") + path
            && (StartsAuthority(path) ==> Parsed(Composed(Parsed(s))) != Parsed(s))
  {
    var s, rest := (scheme + ":") + ("//" + path), "//" + path;
    SchemeParsed(scheme, rest);
    SpanIs(scheme, ":" + rest, EndsScheme);
    SlashesBefore(scheme, path);
    assert DropsSlashes(s) by { hide Span, HasScheme, SchemeOf; }
    ComposeParsed(s);
    ReparseExactly(s);
    hide *;
  }

  lemma {:induction false} SlashesBefore(scheme: string, path: string)
    requires path != ""
    ensures var s, rest, n := (scheme + ":") + ("//" + path), "//" + path, |scheme| + 1;
            && s == scheme + (":" + rest)
            && s[..n] == scheme + ":" && s[n + 2..] == path
            && StartsAuthority(rest) && rest[2..] == path && rest[2] == path[0]
  {
  }

  /** Two inputs on which that happens. */
  lemma {:induction false} SlashesLostOn()
    ensures DropsSlashes("a:///x") && Composed(Parsed("a:///x")) == "a:/x"
    ensures Parsed(Composed(Parsed("a:////x"))) != Parsed("a:////x")
  {
    hide Span, HasScheme, Composed, Parsed, DropsSlashes, StartsAuthority;
    assert StartsAuthority("//x") by { Slashes(); }
    SlashesLost("a", "/x");
    SlashesLost("a", "//x");
    assert ("a" + ":") + ("//" + "/x") == "a:///x" && ("a" + ":") + "/x" == "a:/x";
    assert ("a" + ":") + ("//" + "//x") == "a:////x";
  }

  lemma Slashes()
    ensures StartsAuthority("//x")
  {
  }

  /** Position of the last slash, -1 when there is none. */
  function LastSlash(p: string): (at: int)
    ensures -1 <= at < |p|
    ensures at >= 0 ==> p[at] == '/'
    ensures forall k :: at < k < |p| ==> p[k] != '/'
  {
    if p == "" then -1
    else if p[|p| - 1] == '/' then |p| - 1
    else LastSlash(p[..|p| - 1])
  }

  function DirOf(p: string): Option<string> {
    var last := LastSlash(p);
    if last < 0 then None else if last == 0 then Some("/") else Some(p[..last])
  }

  function BaseOf(p: string): string {
    p[LastSlash(p) + 1..]
  }

  /** A path from its directory and base; the root directory already ends in a slash. */
  function JoinedPath(dir: Option<string>, base: string): string {
    if dir.None? then base else if dir.value == "/" then "/" + base else dir.value + "/" + base
  }

  lemma SlashRejoined(p: string, last: nat)
    requires last < |p| && p[last] == '/'
    ensures p[..last] + "/" + p[last + 1..] == p
  {
  }

  /** Directory and base compose the path again, except where the only directory is an empty name below the root. */
  lemma {:induction false} DirBaseExactly(p: string)
    ensures JoinedPath(DirOf(p), BaseOf(p)) == p <==> !(LastSlash(p) == 1 && p[0] == '/')
  {
    var last := LastSlash(p);
    hide LastSlash;
    if last < 0 {
      assert p[0..] == p;
    } else if last == 0 {
      assert p == "/" + p[1..];
    } else if last == 1 && p[0] == '/' {
      assert p[..1] == "/";
      assert |JoinedPath(DirOf(p), BaseOf(p))| == |p| - 1;
    } else {
      SlashRejoined(p, last);
      assert p[..last][0] == p[0];
    }
  }

  /** So they do not determine the path. */
  lemma DirBaseAmbiguous(base: string)
    requires forall k :: 0 <= k < |base| ==> base[k] != '/'
    ensures DirOf("/" + base) == DirOf("//" + base) == Some("/")
    ensures BaseOf("/" + base) == BaseOf("//" + base) == base
  {
    var p, q := "/" + base, "//" + base;
    assert p[0] == '/' && q[1] == '/' && q[..1] == "/";
    assert LastSlash(p) == 0 && LastSlash(q) == 1;
    assert p[1..] == base == q[2..];
  }

  /** A scan from start that stops at i has found the span there. */
  lemma Scanned(s: string, start: nat, i: nat, stop: char -> bool)
    requires start <= i <= |s|
    requires forall k :: start <= k < i ==> !stop(s[k])
    requires i == |s| || stop(s[i])
    ensures Span(s[start..], stop) == i - start
    ensures s[start..][..i - start] == s[start..i] && s[start..][i - start..] == s[i..]
  {
    assert s[start..] == s[start..i] + s[i..];
    SpanIs(s[start..i], s[i..], stop);
  }

  /** The text of a scheme at the front of s and where it ends; empty when no letter comes first. */
  method TrimScheme(s: string) returns (scheme: string, i: nat)
    ensures i <= |s| && scheme == s[..i]
    ensures i == if s != "" && IsAlpha(s[0]) then Span(s, EndsScheme) else 0
  {
    if s == "" || !IsAlpha(s[0]) {
      return "", 0;
    }
    i := 0;
    while i < |s|
      invariant i <= |s|
      invariant forall k :: 0 <= k < i ==> IsSchemeChar(s[k])
    {
      if !IsSchemeChar(s[i]) {
        break;
      }
      i := i + 1;
    }
    scheme := s[..i];
    Scanned(s, 0, i, EndsScheme);
    assert s[0..] == s;
  }

  /** A scheme is there when a colon follows what was trimmed. */
  lemma {:induction false} SchemeTrimmed(s: string, i: nat)
    requires i <= |s|
    requires i == if s != "" && IsAlpha(s[0]) then Span(s, EndsScheme) else 0
    ensures HasScheme(s) <==> s[..i] != "" && i < |s| && s[i] == ':'
    ensures SchemeOf(s) == if HasScheme(s) then Part(Some(s[..i]), s[i + 1..]) else Part(None, s)
  {
    assert s != "" && IsAlpha(s[0]) ==> i > 0;
  }

  class Uri {
    var scheme: Option<string>
    var authority: Option<string>
    var path: Option<string>
    var dir: Option<string>
    var base: Option<string>
    var query: Option<string>
    var fragment: Option<string>

    ghost function Value(): Components
      reads this
    {
      Components(scheme, authority, path, query, fragment)
    }

    constructor ()
      ensures Value() == Components(None, None, None, None, None)
      ensures dir == None && base == None
    {
      scheme, authority, path, dir, base, query, fragment := None, None, None, None, None, None, None;
    }

    method Parse(s: string)
      modifies this
      ensures Value() == Parsed(s)
      ensures path.None? ==> dir == None && base == None
      ensures path.Some? ==> dir == DirOf(path.value) && base == Some(BaseOf(path.value))
    {
      hide Span, AuthorityOf, PathOf, QueryOf, HasScheme, SchemeOf, DirOf, BaseOf;
      scheme, authority, path, dir, base, query, fragment := None, None, None, None, None, None, None;
      if s == "" {
        NothingParsed();
        return;
      }
      var sch, i := TrimScheme(s);
      SchemeTrimmed(s, i);
      if sch != "" && i < |s| && s[i] == ':' {
        scheme := Some(sch);
        i := i + 1;
        i := ParseAuthority(s, i);
      } else {
        i := 0;
        assert s[0..] == s;
      }
      i := ParsePath(s, i);
      i := ParseQuery(s, i);
      if i < |s| && s[i] == '#' {
        i := i + 1;
        fragment := Some(s[i..]);
      }
    }

    /** The authority that follows two slashes at i. */
    method ParseAuthority(s: string, i: nat) returns (j: nat)
      requires i <= |s| && authority == None
      modifies `authority
      ensures j <= |s| && AuthorityOf(s[i..]) == Part(authority, s[j..])
    {
      j := i;
      if j + 2 <= |s| && s[j] == '/' && s[j + 1] == '/' {
        j := j + 2;
        var start := j;
        while j < |s| && s[j] != '/' && s[j] != '?' && s[j] != '#'
          invariant start <= j <= |s|
          invariant forall k :: start <= k < j ==> !EndsAuthority(s[k])
          modifies {}
        {
          j := j + 1;
        }
        if j > start {
          authority := Some(s[start..j]);
        }
        Scanned(s, start, j, EndsAuthority);
        assert s[i..][2..] == s[start..];
      }
    }

    /** The path from i on, with its directory and base. */
    method ParsePath(s: string, i: nat) returns (j: nat)
      requires i <= |s| && path == None && dir == None && base == None
      modifies `path, `dir, `base
      ensures j <= |s| && PathOf(s[i..]) == Part(path, s[j..])
      ensures path.None? ==> dir == None && base == None
      ensures path.Some? ==> dir == DirOf(path.value) && base == Some(BaseOf(path.value))
    {
      hide DirOf, BaseOf, Span;
      j := i;
      while j < |s| && s[j] != '?' && s[j] != '#'
        invariant i <= j <= |s|
        invariant forall k :: i <= k < j ==> !EndsPath(s[k])
        modifies {}
      {
        j := j + 1;
      }
      Scanned(s, i, j, EndsPath);
      if j > i {
        path := Some(s[i..j]);
        DeriveDirBase();
      }
    }

    /** The query after a question mark at i. */
    method ParseQuery(s: string, i: nat) returns (j: nat)
      requires i <= |s| && query == None
      modifies `query
      ensures j <= |s| && QueryOf(s[i..]) == Part(query, s[j..])
    {
      j := i;
      if j < |s| && s[j] == '?' {
        j := j + 1;
        var start := j;
        while j < |s| && s[j] != '#'
          invariant start <= j <= |s|
          invariant forall k :: start <= k < j ==> !EndsQuery(s[k])
          modifies {}
        {
          j := j + 1;
        }
        query := Some(s[start..j]);
        Scanned(s, start, j, EndsQuery);
        assert s[i..][1..] == s[start..];
      }
    }

    method DeriveDirBase()
      modifies `dir, `base
      ensures path.None? || path.value == "" ==> dir == old(dir) && base == old(base)
      ensures path.Some? && path.value != "" ==> dir == DirOf(path.value) && base == Some(BaseOf(path.value))
    {
      if path.None? {
        return;
      }
      var p := path.value;
      if p == "" {
        return;
      }
      var last := LastSlash(p);
      if last == -1 {
        assert p[0..] == p;
        dir := None;
        base := Some(p);
        return;
      }
      if last == 0 {
        dir := Some("/");
        base := Some(if last + 1 < |p| then p[last + 1..] else "");
        return;
      }
      dir := Some(p[..last]);
      base := Some(if last + 1 < |p| then p[last + 1..] else "");
    }

    method Spec() returns (o: string)
      ensures o == Composed(Value())
    {
      hide Composed, TailText;
      o := "";
      if scheme.Some? { o := o + scheme.value + ":"; }
      assert o == Suffixed(scheme, ":");
      ghost var o1 := o;
      if authority.Some? { o := o + "//" + authority.value; }
      Appended(o1, "//", authority);
      ghost var o2 := o;
      if path.Some? { o := o + path.value; }
      assert o2 + "" == o2;
      ghost var o3 := o;
      if query.Some? { o := o + "?" + query.value; }
      Appended(o3, "?", query);
      ghost var o4 := o;
      if fragment.Some? { o := o + "#" + fragment.value; }
      Appended(o4, "#", fragment);
      InOrder(Value());
    }
  }

  lemma Appended(o: string, mark: string, part: Option<string>)
    ensures o + Prefixed(mark, part) == if part.Some? then o + mark + part.value else o
  {
    assert part.Some? ==> o + (mark + part.value) == o + mark + part.value;
  }

  /** Appending the components one after the other composes them. */
  lemma InOrder(c: Components)
    ensures Suffixed(c.scheme, ":") + Prefixed("//", c.authority) + Optional(c.path)
            + Prefixed("?", c.query) + Prefixed("#", c.fragment) == Composed(c)
  {
    Reassociate(Suffixed(c.scheme, ":"), Prefixed("//", c.authority), Optional(c.path),
                Prefixed("?", c.query), Prefixed("#", c.fragment));
    hide Suffixed, Prefixed, Optional;
  }

  lemma Reassociate(a: string, b: string, c: string, d: string, e: string)
    ensures a + b + c + d + e == a + (b + (c + (d + e)))
  {
    assert a + b + c + d + e == a + b + c + (d + e);
    assert a + b + c + (d + e) == a + b + (c + (d + e));
  }

  lemma NothingParsed()
    ensures Parsed("") == Components(None, None, None, None, None)
  {
  }
}
