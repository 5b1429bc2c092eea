/** Permissions and their text form action=...;resource=... */
module Permissions {
  import opened Sequences

  /** Empty fields mean everything. */
  datatype Permission = Permission(action: string, resource: string)

  const ALL := Permission("", "")

  predicate IsSpecial(c: char) {
    c == ';' || c == '=' || c == '"' || c == '\'' || IsSpace(c)
  }

  // ---- printing ----

  function Escaped(value: string): string {
    if value == [] then []
    else (if value[0] == '"' || value[0] == '\\' then ['\\', value[0]] else [value[0]]) + Escaped(value[1..])
  }

  predicate NeedsQuotes(value: string) {
    exists k :: 0 <= k < |value| && IsSpecial(value[k])
  }

  /** The value as it is, or between double quotes with quotes and backslashes escaped. */
  function Quoted(value: string): string {
    if NeedsQuotes(value) then "\"" + Escaped(value) + "\"" else value
  }

  /** Quotes are put around a value exactly when it holds a semicolon, an equals sign, a quote or white space. */
  lemma {:induction false} QuotedExactly(value: string)
    ensures Quoted(value) == value
       <==> forall k :: 0 <= k < |value| ==> value[k] !in {';', '=', '"', '\''} && !IsSpace(value[k])
    ensures Quoted(value) != value ==> Quoted(value) == "\"" + Escaped(value) + "\""
  {
    EscapedLonger(value);
    assert NeedsQuotes(value) ==> |Quoted(value)| > |value|;
  }

  lemma {:induction false} EscapedLonger(value: string)
    ensures |Escaped(value)| >= |value|
  {
    if value != [] {
      EscapedLonger(value[1..]);
    }
  }

  method QuoteValue(value: string) returns (r: string)
    ensures r == Quoted(value)
  {
    var needs := false;
    for i := 0 to |value|
      invariant needs <==> exists k :: 0 <= k < i && IsSpecial(value[k])
    {
      if IsSpecial(value[i]) {
        needs := true;
      }
    }
    if !needs {
      return value;
    }
    r := "\"";
    for i := 0 to |value|
      invariant r + Escaped(value[i..]) == "\"" + Escaped(value)
    {
      if value[i] == '"' || value[i] == '\\' {
        r := r + "\\";
      }
      r := r + [value[i]];
      assert value[i..][1..] == value[i + 1..];
    }
    r := r + "\"";
  }

  datatype Key = ActionKey | ResourceKey

  function Name(key: Key): string {
    match key
    case ActionKey => "action"
    case ResourceKey => "resource"
  }

  /** The text of one field: nothing when it is empty. */
  function Field(key: Key, value: string): string {
    if value == "" then "" else Name(key) + ("=" + Quoted(value))
  }

  /** The fields that are not empty, separated by a semicolon. */
  function ToString(p: Permission): string {
    if p.action == "" then Field(ResourceKey, p.resource)
    else if p.resource == "" then Field(ActionKey, p.action)
    else Field(ActionKey, p.action) + (";" + Field(ResourceKey, p.resource))
  }

  /** Values without special characters are written as they are, the action first. */
  lemma PlainText(action: string, resource: string)
    requires action != "" && resource != "" && !NeedsQuotes(action) && !NeedsQuotes(resource)
    ensures ToString(Permission(action, resource))
         == "action" + ("=" + action) + (";" + ("resource" + ("=" + resource)))
    ensures ToString(Permission(action, "")) == "action" + ("=" + action)
    ensures ToString(Permission("", resource)) == "resource" + ("=" + resource)
    ensures ToString(Permission("", "")) == ""
  {
    hide NeedsQuotes;
  }

  method Print(p: Permission) returns (out: string)
    ensures out == ToString(p)
  {
    out := "";
    if p == ALL {
      return;
    }
    if p.action != "" {
      var action := QuoteValue(p.action);
      out := out + "action=" + action;
    }
    if p.resource != "" {
      if out != "" {
        out := out + ";";
      }
      var resource := QuoteValue(p.resource);
      out := out + "resource=" + resource;
    }
    assert "" + "action=" == Name(ActionKey) + "=" && "" + "resource=" == Name(ResourceKey) + "=";
    assert "action=" == Name(ActionKey) + "=" && ";" + "resource=" == ";" + (Name(ResourceKey) + "=");
  }

  // ---- parsing ----

  /** Length of the run of characters at the front that satisfy p. */
  function RunLength(s: string, p: char -> bool): (n: nat)
    ensures n <= |s|
    ensures n < |s| ==> !p(s[n])
    ensures n == 0 ==> s == [] || !p(s[0])
  {
    if s == [] || !p(s[0]) then 0 else 1 + RunLength(s[1..], p)
  }

  function TakeWhile(s: string, p: char -> bool): string {
    s[..RunLength(s, p)]
  }

  function DropWhile(s: string, p: char -> bool): string {
    s[RunLength(s, p)..]
  }

  lemma {:induction false} RunLengthIs(s: string, p: char -> bool, n: nat)
    requires n <= |s|
    requires forall k :: 0 <= k < n ==> p(s[k])
    requires n < |s| ==> !p(s[n])
    ensures RunLength(s, p) == n
  {
    if n > 0 {
      RunLengthIs(s[1..], p, n - 1);
    }
  }

  function TrimEnd(s: string): (r: string)
    ensures |r| <= |s|
  {
    if s != [] && IsSpace(s[|s| - 1]) then TrimEnd(s[..|s| - 1]) else s
  }

  predicate IsSeparator(c: char) { c == ';' || IsSpace(c) }

  predicate InKey(c: char) { c != '=' && c != ';' }

  predicate InSegment(c: char) { c != ';' }

  /** The value up to the closing quote, and the text behind it. */
  function ParseQuoted(s: string, quote: char): (r: (string, string))
    ensures |r.1| <= |s|
  {
    if s == [] then ([], [])
    else if s[0] == '\\' && |s| > 1 then
      var (value, rest) := ParseQuoted(s[2..], quote); ([s[1]] + value, rest)
    else if s[0] == quote then ([], s[1..])
    else
      var (value, rest) := ParseQuoted(s[1..], quote); ([s[0]] + value, rest)
  }

  /** A possibly quoted value, and the text behind it. */
  function ParsedValue(s: string): (r: (string, string))
    ensures |r.1| <= |s|
  {
    var t := DropWhile(s, IsSpace);
    if t == [] then ([], [])
    else if t[0] == '"' || t[0] == '\'' then ParseQuoted(t[1..], t[0])
    else (TrimEnd(TakeWhile(t, InSegment)), DropWhile(t, InSegment))
  }

  function Assigned(p: Permission, key: string, value: string): Permission {
    if key == "action" then p.(action := value)
    else if key == "resource" then p.(resource := value)
    else p
  }

  /** The permission p after the segments of s; every segment takes at least one character. */
  function Segments(s: string, p: Permission): Permission
    decreases |s|
  {
    var t := DropWhile(s, IsSeparator);
    if t == [] then p
    else
      var u := DropWhile(t, InKey);
      if u == [] || u[0] != '=' then Segments(u, p)
      else
        var (value, rest) := ParsedValue(u[1..]);
        Segments(rest, Assigned(p, TrimEnd(TakeWhile(t, InKey)), value))
  }

  function Parsed(text: string): Permission {
    var t := TrimEnd(DropWhile(text, IsSpace));
    if t == [] then ALL
    else if '=' in t then Segments(t, ALL)
    else Shorthand(t)
  }

  // ---- parsing inverts printing ----

  lemma DropPrefix(a: string, b: string, c: string)
    ensures (a + b + c)[|a|..] == b + c
    ensures a != [] ==> (a + b + c)[0] == a[0]
    ensures |a| > 1 ==> (a + b + c)[1] == a[1]
  {
  }

  lemma {:induction false} ParseEscaped(value: string, tail: string)
    ensures ParseQuoted(Escaped(value) + ("\"" + tail), '"') == (value, tail)
  {
    var s := Escaped(value) + ("\"" + tail);
    if value == [] {
      assert s[1..] == tail;
    } else {
      ParseEscaped(value[1..], tail);
      var e := if value[0] == '"' || value[0] == '\\' then ['\\', value[0]] else [value[0]];
      DropPrefix(e, Escaped(value[1..]), "\"" + tail);
      assert [value[0]] + value[1..] == value;
    }
  }

  lemma TakeDropAppend(v: string, tail: string, p: char -> bool)
    requires forall k :: 0 <= k < |v| ==> p(v[k])
    requires tail == [] || !p(tail[0])
    ensures TakeWhile(v + tail, p) == v && DropWhile(v + tail, p) == tail
  {
    RunLengthIs(v + tail, p, |v|);
  }

  lemma {:induction false} ParsedPlain(t: string)
    requires t != "" && !IsSpace(t[0]) && t[0] !in {'"', '\''}
    ensures ParsedValue(t) == (TrimEnd(TakeWhile(t, InSegment)), DropWhile(t, InSegment))
  {
    RunLengthIs(t, IsSpace, 0);
    assert t[0..] == t;
  }

  lemma PlainChars(value: string)
    requires !NeedsQuotes(value)
    ensures forall k :: 0 <= k < |value| ==>
              InSegment(value[k]) && !IsSpace(value[k]) && value[k] != '"' && value[k] != '\''
  {
    forall k | 0 <= k < |value|
      ensures !IsSpecial(value[k])
    {
    }
  }

  predicate IsBlank(t: string) {
    forall k :: 0 <= k < |t| ==> IsSpace(t[k])
  }

  lemma {:induction false} TrimEndIs(t: string, after: string)
    requires (t == "" || !IsSpace(t[|t| - 1])) && IsBlank(after)
    ensures TrimEnd(t + after) == t
  {
    if after == "" {
      assert t + after == t;
    } else {
      TrimEndIs(t, after[..|after| - 1]);
      assert (t + after)[..|t + after| - 1] == t + after[..|after| - 1];
    }
  }

  lemma {:induction false} RunIsRun(s: string, p: char -> bool)
    ensures forall k :: 0 <= k < RunLength(s, p) ==> p(s[k])
  {
    if s != "" && p(s[0]) {
      RunIsRun(s[1..], p);
      assert forall k :: 1 <= k < |s| ==> s[k] == s[1..][k - 1];
    }
  }

  lemma {:induction false} BlanksBeforeValue(blanks: string, s: string)
    requires IsBlank(blanks)
    ensures ParsedValue(blanks + s) == ParsedValue(s)
  {
    var n := RunLength(s, IsSpace);
    RunIsRun(s, IsSpace);
    RunLengthIs(blanks + s, IsSpace, |blanks| + n);
    assert DropWhile(blanks + s, IsSpace) == DropWhile(s, IsSpace);
  }

  lemma {:induction false} EmptyValue(blanks: string, tail: string)
    requires IsBlank(blanks) && (tail == "" || tail[0] == ';')
    ensures ParsedValue(blanks + tail) == ("", tail)
  {
    BlanksBeforeValue(blanks, tail);
    RunLengthIs(tail, IsSpace, 0);
    TakeDropAppend("", tail, InSegment);
    assert tail[0..] == tail == "" + tail;
  }

  lemma PlainFront(value: string, end: string, tail: string)
    requires value != "" && !NeedsQuotes(value) && IsBlank(end) && (tail == "" || tail[0] == ';')
    ensures var s := value + end + tail;
            s != "" && !IsSpace(s[0]) && s[0] !in {'"', '\''} && !IsSpace(value[|value| - 1])
    ensures forall k :: 0 <= k < |value + end| ==> InSegment((value + end)[k])
    ensures tail == "" || !InSegment(tail[0])
  {
    PlainChars(value);
    hide NeedsQuotes;
  }

  /** A plain value ends at the semicolon, without the white space in front of it. */
  lemma {:induction false} PlainValue(value: string, end: string, tail: string)
    requires !NeedsQuotes(value) && IsBlank(end) && (tail == "" || tail[0] == ';')
    ensures ParsedValue(value + end + tail) == (value, tail)
  {
    hide *;
    if value == "" {
      EmptyValue(end, tail);
      assert value + end + tail == end + tail;
    } else {
      PlainFront(value, end, tail);
      ParsedPlain(value + end + tail);
      TakeDropAppend(value + end, tail, InSegment);
      TrimEndIs(value, end);
    }
  }

  lemma {:induction false} ParseOpenQuote(t: string)
    ensures ParsedValue(['"'] + t) == ParseQuoted(t, '"')
  {
    var s := ['"'] + t;
    RunLengthIs(s, IsSpace, 0);
    assert s[0..] == s && s[1..] == t;
  }

  lemma {:induction false} QuotedText(value: string, tail: string)
    requires NeedsQuotes(value)
    ensures Quoted(value) + tail == ['"'] + (Escaped(value) + ("\"" + tail))
  {
    hide NeedsQuotes, Escaped;
  }

  lemma {:induction false} QuotedRead(value: string, tail: string)
    requires NeedsQuotes(value)
    ensures ParsedValue(Quoted(value) + tail) == (value, tail)
  {
    hide *;
    ParseEscaped(value, tail);
    ParseOpenQuote(Escaped(value) + ("\"" + tail));
    QuotedText(value, tail);
  }

  lemma ValueRoundTrip(value: string, tail: string)
    requires value != []
    requires tail == [] || tail[0] == ';'
    ensures ParsedValue(Quoted(value) + tail) == (value, tail)
  {
    hide ParsedValue, NeedsQuotes, Escaped;
    if NeedsQuotes(value) {
      QuotedRead(value, tail);
    } else {
      PlainValue(value, "", tail);
      assert value + "" + tail == value + tail && Quoted(value) == value;
    }
  }

  /** How one segment is taken off a text that starts with no separator. */
  lemma {:induction false} SegmentUnfold(s: string, p: Permission)
    requires s != [] && !IsSeparator(s[0])
    ensures var u := DropWhile(s, InKey);
            Segments(s, p) ==
              if u == [] || u[0] != '=' then Segments(u, p)
              else Segments(ParsedValue(u[1..]).1,
                            Assigned(p, TrimEnd(TakeWhile(s, InKey)), ParsedValue(u[1..]).0))
  {
    RunLengthIs(s, IsSeparator, 0);
    assert DropWhile(s, IsSeparator) == s;
  }

  function With(p: Permission, key: Key, value: string): Permission {
    match key
    case ActionKey => p.(action := value)
    case ResourceKey => p.(resource := value)
  }

  lemma NameShape(key: Key, p: Permission, value: string)
    ensures Name(key) != [] && forall k :: 0 <= k < |Name(key)| ==> InKey(Name(key)[k]) && !IsSeparator(Name(key)[k])
    ensures TrimEnd(Name(key)) == Name(key)
    ensures Assigned(p, Name(key), value) == With(p, key, value)
  {
  }

  lemma {:induction false} SegmentNamed(name: string, rest: string, p: Permission)
    requires name != [] && forall k :: 0 <= k < |name| ==> InKey(name[k]) && !IsSeparator(name[k])
    ensures Segments(name + ("=" + rest), p)
         == Segments(ParsedValue(rest).1, Assigned(p, TrimEnd(name), ParsedValue(rest).0))
  {
    var tail := "=" + rest;
    TakeDropAppend(name, tail, InKey);
    assert tail[1..] == rest && (name + tail)[0] == name[0];
    SegmentUnfold(name + tail, p);
    hide Segments, ParsedValue, TrimEnd, RunLength, TakeWhile, DropWhile, Assigned;
  }

  lemma {:induction false} KeyRoundTrip(key: Key, value: string, tail: string, p: Permission)
    requires value != []
    requires tail == [] || tail[0] == ';'
    ensures Segments(Field(key, value) + tail, p) == Segments(tail, With(p, key, value))
  {
    NameShape(key, p, value);
    ValueRoundTrip(value, tail);
    hide Segments, ParsedValue, Quoted, Name, Assigned, TrimEnd, InKey, IsSeparator;
    SegmentNamed(Name(key), Quoted(value) + tail, p);
    ConcatAssoc(Name(key), "=", Quoted(value), tail);
  }

  lemma ConcatAssoc(a: string, b: string, c: string, d: string)
    ensures (a + (b + c)) + d == a + (b + (c + d))
  {
    assert (b + c) + d == b + (c + d);
  }

  lemma QuotedEnds(value: string)
    requires value != []
    ensures Quoted(value) != [] && !IsSpace(Quoted(value)[|Quoted(value)| - 1])
  {
    if !NeedsQuotes(value) {
      assert !IsSpecial(value[|value| - 1]);
    }
  }

  lemma {:induction false} ParsedKeyed(s: string)
    requires s != [] && !IsSpace(s[0]) && !IsSpace(s[|s| - 1]) && '=' in s
    ensures Parsed(s) == Segments(s, ALL)
  {
  }

  lemma FieldShape(key: Key, value: string)
    requires value != ""
    ensures var s := Field(key, value);
            s != [] && !IsSpace(s[0]) && !IsSpace(s[|s| - 1]) && '=' in s
  {
    NameShape(key, ALL, value);
    QuotedEnds(value);
    hide Quoted, Name;
    var s := Field(key, value);
    assert s[0] == Name(key)[0] && s[|Name(key)|] == '=';
  }

  lemma {:induction false} ParseEmpty(p: Permission)
    ensures Parsed("") == ALL && Segments("", p) == p
  {
  }

  lemma {:induction false} ParseOne(key: Key, value: string, p: Permission)
    requires value != ""
    ensures Segments(Field(key, value), p) == With(p, key, value)
    ensures Parsed(Field(key, value)) == With(ALL, key, value)
  {
    FieldShape(key, value);
    KeyRoundTrip(key, value, "", p);
    KeyRoundTrip(key, value, "", ALL);
    ParseEmpty(With(p, key, value));
    ParseEmpty(With(ALL, key, value));
    ParsedKeyed(Field(key, value));
    hide Segments, Parsed, Field;
    assert Field(key, value) + "" == Field(key, value);
  }

  lemma ParseBoth(action: string, resource: string)
    requires action != "" && resource != ""
    ensures Parsed(Field(ActionKey, action) + (";" + Field(ResourceKey, resource))) == Permission(action, resource)
  {
    var a, r := Field(ActionKey, action), Field(ResourceKey, resource);
    FieldShape(ActionKey, action);
    FieldShape(ResourceKey, resource);
    KeyRoundTrip(ActionKey, action, ";" + r, ALL);
    SkipSemicolon(r, Permission(action, ""));
    ParseOne(ResourceKey, resource, Permission(action, ""));
    hide Segments, Parsed, Field;
    var s := a + (";" + r);
    assert s[0] == a[0] && s[|s| - 1] == r[|r| - 1];
    ParsedKeyed(s);
  }

  /** Parsing the text of a permission gives the permission back, whatever its strings contain. */
  lemma ParseToString(p: Permission)
    ensures Parsed(ToString(p)) == p
  {
    hide Segments, Parsed, Quoted;
    if p == ALL {
      ParseEmpty(ALL);
    } else if p.action != "" && p.resource != "" {
      ParseBoth(p.action, p.resource);
    } else if p.action != "" {
      ParseOne(ActionKey, p.action, ALL);
    } else {
      ParseOne(ResourceKey, p.resource, ALL);
    }
  }

  lemma {:induction false} SkipSemicolon(s: string, p: Permission)
    ensures Segments(";" + s, p) == Segments(s, p)
  {
    BlanksSkipped(";", s, p);
  }

  // ---- the parser itself ----

  /** The end of the run of characters that satisfy p. */
  method SkipWhile(text: string, i: nat, p: char -> bool) returns (j: nat)
    requires i <= |text|
    ensures i <= j <= |text|
    ensures text[i..j] == TakeWhile(text[i..], p) && text[j..] == DropWhile(text[i..], p)
    ensures j < |text| ==> !p(text[j])
    ensures forall k :: i <= k < j ==> p(text[k])
  {
    j := i;
    while j < |text| && p(text[j])
      invariant i <= j <= |text|
      invariant forall k :: i <= k < j ==> p(text[k])
    {
      j := j + 1;
    }
    RunLengthIs(text[i..], p, j - i);
  }

  method TrimEndFrom(text: string, start: nat, end: nat) returns (e: nat)
    requires start <= end <= |text|
    ensures start <= e <= end && text[start..e] == TrimEnd(text[start..end])
  {
    e := end;
    while e > start && IsSpace(text[e - 1])
      invariant start <= e <= end
      invariant TrimEnd(text[start..end]) == TrimEnd(text[start..e])
    {
      assert text[start..e][..e - start - 1] == text[start..e - 1];
      e := e - 1;
    }
  }

  function Prefixed(prefix: string, r: (string, string)): (string, string) {
    (prefix + r.0, r.1)
  }

  lemma {:induction false} PrefixedStep(prefix: string, s: string, quote: char)
    requires s != []
    ensures s[0] == '\\' && |s| > 1 ==>
              Prefixed(prefix, ParseQuoted(s, quote)) == Prefixed(prefix + [s[1]], ParseQuoted(s[2..], quote))
    ensures !(s[0] == '\\' && |s| > 1) && s[0] == quote ==>
              Prefixed(prefix, ParseQuoted(s, quote)) == (prefix, s[1..])
    ensures !(s[0] == '\\' && |s| > 1) && s[0] != quote ==>
              Prefixed(prefix, ParseQuoted(s, quote)) == Prefixed(prefix + [s[0]], ParseQuoted(s[1..], quote))
  {
    if s[0] == '\\' && |s| > 1 {
      assert prefix + ([s[1]] + ParseQuoted(s[2..], quote).0) == prefix + [s[1]] + ParseQuoted(s[2..], quote).0;
    } else if s[0] != quote {
      assert prefix + ([s[0]] + ParseQuoted(s[1..], quote).0) == prefix + [s[0]] + ParseQuoted(s[1..], quote).0;
    } else {
      assert prefix + [] == prefix;
    }
  }

  /** Parses up to the closing quote, or to the end of the text. */
  method ParseQuotedAt(text: string, i: nat, quote: char) returns (value: string, next: nat)
    requires i <= |text|
    ensures i <= next <= |text|
    ensures (value, text[next..]) == ParseQuoted(text[i..], quote)
  {
    value, next := [], i;
    assert [] + ParseQuoted(text[i..], quote).0 == ParseQuoted(text[i..], quote).0;
    while next < |text|
      invariant i <= next <= |text|
      invariant ParseQuoted(text[i..], quote) == Prefixed(value, ParseQuoted(text[next..], quote))
      decreases |text| - next
    {
      ghost var s := text[next..];
      PrefixedStep(value, s, quote);
      if text[next] == '\\' && next + 1 < |text| {
        assert s[2..] == text[next + 2..];
        value := value + [text[next + 1]];
        next := next + 2;
      } else if text[next] == quote {
        assert s[1..] == text[next + 1..];
        next := next + 1;
        return;
      } else {
        assert s[1..] == text[next + 1..];
        value := value + [text[next]];
        next := next + 1;
      }
    }
    assert value + [] == value;
  }

  /** Parses a value at position i; next is the position behind it. */
  method ParseValue(text: string, i: nat) returns (value: string, next: nat)
    requires i <= |text|
    ensures i <= next <= |text|
    ensures (value, text[next..]) == ParsedValue(text[i..])
  {
    next := SkipWhile(text, i, IsSpace);
    if next >= |text| {
      return [], next;
    }
    if text[next] == '"' || text[next] == '\'' {
      assert text[next..][1..] == text[next + 1..];
      value, next := ParseQuotedAt(text, next + 1, text[next]);
      return;
    }
    var start := next;
    next := SkipWhile(text, next, InSegment);
    var end := TrimEndFrom(text, start, next);
    value := text[start..end];
  }

  /** The segment that starts at i, when its key ends at next. */
  lemma {:induction false} SegmentAt(text: string, i: nat, next: nat, p: Permission)
    requires i < next <= |text| || (i == next < |text| && text[i] == '=')
    requires i < |text| && !IsSeparator(text[i])
    requires forall k :: i <= k < next ==> InKey(text[k])
    requires next < |text| ==> !InKey(text[next])
    ensures next == |text| || text[next] != '=' ==> Segments(text[i..], p) == Segments(text[next..], p)
    ensures next < |text| && text[next] == '=' ==>
              var r := ParsedValue(text[next + 1..]);
              Segments(text[i..], p) == Segments(r.1, Assigned(p, TrimEnd(text[i..next]), r.0))
  {
    hide Segments, ParsedValue, TrimEnd, Assigned, RunLength;
    var s := text[i..];
    SegmentUnfold(s, p);
    RunLengthIs(s, InKey, next - i);
    assert TakeWhile(s, InKey) == text[i..next];
    assert DropWhile(s, InKey) == text[next..];
    if next < |text| {
      assert text[next..][1..] == text[next + 1..];
    }
  }

  /** Parses one segment behind its leading separators. */
  method ParseSegment(text: string, i: nat, p: Permission) returns (q: Permission, next: nat)
    requires i < |text| && !IsSeparator(text[i])
    ensures i < next <= |text|
    ensures Segments(text[i..], p) == Segments(text[next..], q)
  {
    hide Segments, ParsedValue, TrimEnd, Assigned, RunLength, TakeWhile, DropWhile;
    next := SkipWhile(text, i, InKey);
    SegmentAt(text, i, next, p);
    if next >= |text| || text[next] != '=' {
      q := p;
      next := SkipWhile(text, next, InSegment);
    } else {
      var keyEnd := TrimEndFrom(text, i, next);
      var value, end := ParseValue(text, next + 1);
      q := Assigned(p, text[i..keyEnd], value);
      next := end;
    }
  }

  /** Parses the segments of a keyed text. */
  method ParseKeyed(text: string) returns (p: Permission)
    ensures p == Segments(text, ALL)
  {
    p := ALL;
    SegmentsEnd(text);
    hide Segments, RunLength;
    var i := 0;
    assert text[0..] == text;
    while i < |text|
      invariant i <= |text|
      invariant Segments(text, ALL) == Segments(text[i..], p)
      decreases |text| - i
    {
      SegmentsSkip(text[i..], p);
      i := SkipWhile(text, i, IsSeparator);
      if i >= |text| {
        break;
      }
      p, i := ParseSegment(text, i, p);
    }
  }

  lemma SegmentsEnd(text: string)
    ensures forall p :: Segments(text[|text|..], p) == p
  {
  }

  lemma {:induction false} SegmentsSkip(s: string, p: Permission)
    ensures Segments(s, p) == Segments(DropWhile(s, IsSeparator), p)
  {
    var t := DropWhile(s, IsSeparator);
    RunLengthIs(t, IsSeparator, 0);
  }

  function Shorthand(t: string): Permission {
    var action := TakeWhile(t, c => c != ':');
    if action == t || action == [] then Permission(t, "") else Permission(action, t[|action| + 1..])
  }

  // ---- what other texts parse to ----

  /** No white space at either end. */
  predicate IsTrimmed(t: string) {
    t == "" || (!IsSpace(t[0]) && !IsSpace(t[|t| - 1]))
  }

  lemma {:induction false} TrimBoth(before: string, t: string, after: string)
    requires IsBlank(before) && IsTrimmed(t) && IsBlank(after)
    ensures TrimEnd(DropWhile(before + t + after, IsSpace)) == t
  {
    if t == "" {
      RunLengthIs(before + t + after, IsSpace, |before + t + after|);
    } else {
      var rest := t + after;
      assert rest[0] == t[0] && before + t + after == before + rest;
      TakeDropAppend(before, rest, IsSpace);
      TrimEndIs(t, after);
    }
  }

  /** White space around a text makes no difference, and there is nothing in white space alone. */
  lemma SpaceAround(before: string, t: string, after: string)
    requires IsBlank(before) && IsTrimmed(t) && IsBlank(after)
    ensures Parsed(before + t + after) == Parsed(t)
    ensures Parsed(before) == ALL
  {
    TrimBoth(before, t, after);
    TrimBoth("", t, "");
    TrimBoth(before, "", "");
    assert "" + t + "" == t && before + "" + "" == before;
    hide Segments, TrimEnd, DropWhile;
  }

  /** A text without an equals sign: what is in front of the first colon is the action, what follows the resource. */
  lemma {:induction false} ShorthandParts(action: string, resource: string)
    requires action != "" && ':' !in action && '=' !in action && '=' !in resource
    requires !IsSpace(action[0]) && (resource == "" || !IsSpace(resource[|resource| - 1]))
    ensures Parsed(action + ":" + resource) == Permission(action, resource)
  {
    var t := action + (":" + resource);
    assert t == action + ":" + resource && t[0] == action[0];
    assert t[|t| - 1] == if resource == "" then ':' else resource[|resource| - 1];
    ShorthandOf(action, resource);
    hide Shorthand;
    ParsedShort(t);
  }

  lemma {:induction false} ShorthandOf(action: string, resource: string)
    requires action != "" && ':' !in action
    ensures Shorthand(action + (":" + resource)) == Permission(action, resource)
  {
    var t := action + (":" + resource);
    assert t[|action| + 1..] == resource;
    TakeDropAppend(action, ":" + resource, c => c != ':');
  }

  lemma {:induction false} ParsedShort(t: string)
    requires t != "" && IsTrimmed(t) && '=' !in t
    ensures Parsed(t) == Shorthand(t)
  {
    assert "" + t + "" == t;
    TrimBoth("", t, "");
    hide Segments, TrimEnd, DropWhile, Shorthand;
  }

  /** Without a colon, or with one in front, the whole text is the action. */
  lemma {:induction false} ShorthandAction(t: string)
    requires t != "" && IsTrimmed(t) && '=' !in t && (':' !in t || t[0] == ':')
    ensures Parsed(t) == Permission(t, "")
  {
    ParsedShort(t);
    RunLengthIs(t, c => c != ':', if t[0] == ':' then 0 else |t|);
    hide Parsed;
  }

  /** The white space a segment may hold: in front, before and behind the equals sign, and at the end. */
  datatype Pads = Pads(front: string, key: string, value: string, end: string)

  /** A piece of a keyed text: without an equals sign, or a name and a value, perhaps in single quotes. */
  datatype Segment = Junk(text: string) | Pair(name: string, value: string, single: bool, pads: Pads)

  predicate InName(c: char) { InKey(c) && !IsSpace(c) }

  predicate IsSegment(s: Segment) {
    match s
    case Junk(text) => '=' !in text && ';' !in text
    case Pair(name, value, single, pads) =>
      && name != "" && (forall k :: 0 <= k < |name| ==> InName(name[k]))
      && (single ==> '\'' !in value && '\\' !in value)
      && IsBlank(pads.front) && IsBlank(pads.key) && IsBlank(pads.value) && IsBlank(pads.end)
  }

  function ValueText(value: string, single: bool): string {
    if single then "'" + value + "'" else Quoted(value)
  }

  function SegmentText(s: Segment): string {
    match s
    case Junk(text) => text
    case Pair(name, value, single, pads) =>
      pads.front + ((name + pads.key) + ("=" + (pads.value + (ValueText(value, single) + pads.end))))
  }

  /** The segments with semicolons between them. */
  function KeyedText(segments: seq<Segment>): string {
    if segments == [] then ""
    else SegmentText(segments[0]) + if |segments| == 1 then "" else ";" + KeyedText(segments[1..])
  }

  predicate Names(s: Segment, name: string) {
    !s.Junk? && s.name == name
  }

  ghost predicate LastAt(segments: seq<Segment>, name: string, i: nat) {
    && i < |segments| && Names(segments[i], name)
    && forall j :: i < j < |segments| ==> !Names(segments[j], name)
  }

  /** The value of the last segment with the name, or the default when there is none. */
  ghost predicate LastValue(segments: seq<Segment>, name: string, default_: string, value: string) {
    if exists k :: 0 <= k < |segments| && Names(segments[k], name) then
      exists i: nat :: LastAt(segments, name, i) && value == segments[i].value
    else value == default_
  }

  lemma {:induction false} LastValueStep(segments: seq<Segment>, name: string, default_: string, value: string)
    requires segments != [] && LastValue(segments, name, default_, value)
    ensures LastValue(segments[1..], name, if Names(segments[0], name) then segments[0].value else default_, value)
  {
    var rest := segments[1..];
    if k :| 0 <= k < |rest| && Names(rest[k], name) {
      assert Names(segments[k + 1], name);
      var i: nat :| LastAt(segments, name, i) && value == segments[i].value;
      assert i > 0;
      assert LastAt(rest, name, i - 1);
    } else {
      assert forall k :: 0 < k < |segments| ==> segments[k] == rest[k - 1];
    }
  }

  lemma {:induction false} BlanksSkipped(blanks: string, s: string, p: Permission)
    requires forall k :: 0 <= k < |blanks| ==> IsSeparator(blanks[k])
    ensures Segments(blanks + s, p) == Segments(s, p)
  {
    var n := RunLength(s, IsSeparator);
    RunIsRun(s, IsSeparator);
    RunLengthIs(blanks + s, IsSeparator, |blanks| + n);
    assert DropWhile(blanks + s, IsSeparator) == DropWhile(s, IsSeparator);
    SegmentsSkip(blanks + s, p);
    SegmentsSkip(s, p);
    hide Segments;
  }

  lemma {:induction false} WordSkipped(word: string, tail: string, p: Permission)
    requires word != "" && !IsSpace(word[0]) && '=' !in word && ';' !in word && (tail == "" || tail[0] == ';')
    ensures Segments(word + tail, p) == Segments(tail, p)
  {
    assert (word + tail)[0] == word[0];
    TakeDropAppend(word, tail, InKey);
    SegmentUnfold(word + tail, p);
    hide Segments, TakeWhile, DropWhile;
  }

  lemma CutAt(text: string, n: nat, tail: string)
    requires n <= |text|
    ensures text + tail == text[..n] + (text[n..] + tail)
    ensures text[n..] == "" ==> text[n..] + tail == tail
    ensures forall c :: c !in text ==> c !in text[n..]
  {
  }

  lemma {:induction false} JunkSkipped(text: string, tail: string, p: Permission)
    requires IsSegment(Junk(text)) && (tail == "" || tail[0] == ';')
    ensures Segments(text + tail, p) == Segments(tail, p)
  {
    var n := RunLength(text, IsSpace);
    var blanks, rest := text[..n], text[n..];
    RunIsRun(text, IsSpace);
    hide Segments, RunLength;
    CutAt(text, n, tail);
    BlanksSkipped(blanks, rest + tail, p);
    if rest != "" {
      WordSkipped(rest, tail, p);
    }
  }

  lemma {:induction false} SingleQuoted(value: string, tail: string)
    requires '\'' !in value && '\\' !in value
    ensures ParseQuoted(value + ("'" + tail), '\'') == (value, tail)
  {
    var s := value + ("'" + tail);
    if value == "" {
      assert s == "'" + tail && s[1..] == tail;
    } else {
      SingleQuoted(value[1..], tail);
      assert s[1..] == value[1..] + ("'" + tail) && [value[0]] + value[1..] == value;
    }
  }

  lemma {:induction false} SingleRead(value: string, tail: string)
    requires '\'' !in value && '\\' !in value
    ensures ParsedValue("'" + value + "'" + tail) == (value, tail)
  {
    SingleQuoted(value, tail);
    var text := "'" + value + "'" + tail;
    RunLengthIs(text, IsSpace, 0);
    assert text[0..] == text && text[1..] == value + ("'" + tail);
    hide ParseQuoted, RunLength;
  }

  /** Reading a value stops behind it, or behind the white space that follows it. */
  lemma {:induction false} ValueRead(value: string, single: bool, end: string, tail: string)
    requires single ==> '\'' !in value && '\\' !in value
    requires IsBlank(end) && (tail == "" || tail[0] == ';')
    ensures var (v, rest) := ParsedValue(ValueText(value, single) + end + tail);
            v == value && rest in {end + tail, tail}
  {
    hide ParsedValue, NeedsQuotes, IsBlank;
    var text := ValueText(value, single);
    assert text + end + tail == text + (end + tail);
    if single {
      SingleRead(value, end + tail);
    } else if NeedsQuotes(value) {
      QuotedRead(value, end + tail);
    } else {
      PlainValue(value, end, tail);
    }
  }

  lemma {:induction false} NameRead(name: string, blanks: string, rest: string, p: Permission)
    requires name != "" && (forall k :: 0 <= k < |name| ==> InName(name[k])) && IsBlank(blanks)
    ensures Segments((name + blanks) + ("=" + rest), p)
         == Segments(ParsedValue(rest).1, Assigned(p, name, ParsedValue(rest).0))
  {
    var key, tail := name + blanks, "=" + rest;
    assert InName(name[0]) && InName(name[|name| - 1]) && key[0] == name[0] && (key + tail)[0] == key[0];
    forall k | 0 <= k < |key|
      ensures InKey(key[k])
    {
      assert k < |name| ==> InName(name[k]);
    }
    TakeDropAppend(key, tail, InKey);
    TrimEndIs(name, blanks);
    assert tail[1..] == rest;
    SegmentUnfold(key + tail, p);
    hide Segments, ParsedValue, TrimEnd, RunLength, TakeWhile, DropWhile, Assigned;
  }

  lemma SegmentRegrouped(a: string, b: string, c: string, d: string, e: string, tail: string)
    ensures (a + (b + ("=" + (c + (d + e))))) + tail == a + (b + ("=" + (c + (d + e + tail))))
  {
    assert (d + e) + tail == d + e + tail;
    assert (c + (d + e)) + tail == c + (d + e + tail);
    assert ("=" + (c + (d + e))) + tail == "=" + (c + (d + e + tail));
    assert (b + ("=" + (c + (d + e)))) + tail == b + ("=" + (c + (d + e + tail)));
  }

  lemma {:induction false} SegmentTaken(s: Segment, tail: string, p: Permission)
    requires IsSegment(s) && (tail == "" || tail[0] == ';')
    ensures Segments(SegmentText(s) + tail, p)
         == Segments(tail, if s.Junk? then p else Assigned(p, s.name, s.value))
  {
    hide Segments, ParsedValue, ValueText, Assigned;
    match s {
      case Junk(text) => JunkSkipped(text, tail, p);
      case Pair(name, value, single, pads) =>
        var text := ValueText(value, single) + pads.end + tail;
        SegmentRegrouped(pads.front, name + pads.key, pads.value, ValueText(value, single), pads.end, tail);
        BlanksSkipped(pads.front, (name + pads.key) + ("=" + (pads.value + text)), p);
        NameRead(name, pads.key, pads.value + text, p);
        BlanksBeforeValue(pads.value, text);
        ValueRead(value, single, pads.end, tail);
        BlanksSkipped(pads.end, tail, Assigned(p, name, value));
    }
  }

  lemma {:induction false} SegmentsLast(segments: seq<Segment>, p: Permission, action: string, resource: string)
    requires forall k :: 0 <= k < |segments| ==> IsSegment(segments[k])
    requires LastValue(segments, "action", p.action, action) && LastValue(segments, "resource", p.resource, resource)
    ensures Segments(KeyedText(segments), p) == Permission(action, resource)
  {
    if segments == [] {
      ParseEmpty(p);
    } else {
      var s, rest := segments[0], segments[1..];
      var tail := if |segments| == 1 then "" else ";" + KeyedText(rest);
      var q := if s.Junk? then p else Assigned(p, s.name, s.value);
      SegmentTaken(s, tail, p);
      SkipSemicolon(KeyedText(rest), q);
      LastValueStep(segments, "action", p.action, action);
      LastValueStep(segments, "resource", p.resource, resource);
      assert "action"[0] != "resource"[0];
      hide Segments, LastValue, SegmentText;
      SegmentsLast(rest, q, action, resource);
    }
  }

  lemma {:induction false} PairHasEquals(segments: seq<Segment>, i: nat)
    requires i < |segments| && !segments[i].Junk?
    ensures '=' in KeyedText(segments)
  {
    if i == 0 {
      var s := segments[0];
      var at := |s.pads.front| + |s.name + s.pads.key|;
      assert SegmentText(s)[at] == '=';
      assert KeyedText(segments)[at] == '=';
    } else {
      PairHasEquals(segments[1..], i - 1);
    }
  }

  /**
   * A keyed text gives each field the value of the last segment with its name, whatever other
   * names there are and however many segments are malformed.
   */
  lemma {:induction false} KeyedTextParsed(segments: seq<Segment>, i: nat, action: string, resource: string)
    requires forall k :: 0 <= k < |segments| ==> IsSegment(segments[k])
    requires i < |segments| && !segments[i].Junk? && IsTrimmed(KeyedText(segments))
    requires LastValue(segments, "action", "", action) && LastValue(segments, "resource", "", resource)
    ensures Parsed(KeyedText(segments)) == Permission(action, resource)
  {
    PairHasEquals(segments, i);
    ParsedKeyed(KeyedText(segments));
    SegmentsLast(segments, ALL, action, resource);
    hide Segments, Parsed, LastValue;
  }

  method ParseShorthand(t: string) returns (p: Permission)
    ensures p == Shorthand(t)
  {
    assert t[0..] == t;
    var colon := SkipWhile(t, 0, c => c != ':');
    if colon < |t| && colon > 0 {
      p := Permission(t[..colon], t[colon + 1..]);
    } else {
      p := Permission(t, "");
    }
  }

  /** Parses the text form, or the shorthand "action" and "action:resource". */
  method Parse(text: string) returns (p: Permission)
    ensures p == Parsed(text)
  {
    hide Segments, Shorthand, TrimEnd, RunLength;
    assert text[0..] == text;
    var from := SkipWhile(text, 0, IsSpace);
    var to := TrimEndFrom(text, from, |text|);
    assert text[from..|text|] == text[from..];
    var t := text[from..to];
    if t == [] {
      p := ALL;
    } else if '=' in t {
      p := ParseKeyed(t);
    } else {
      p := ParseShorthand(t);
    }
  }
}
