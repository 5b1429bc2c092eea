/** Pointer paths: text to token lists and back, after section 4 of RFC 6901. */
module Pointers {
  /** Index of the first c at or after position from, |s| when there is none. */
  function Find(s: string, c: char, from: nat): (i: nat)
    requires from <= |s|
    ensures from <= i <= |s|
    ensures forall k :: from <= k < i ==> s[k] != c
    ensures i < |s| ==> s[i] == c
    decreases |s| - from
  {
    if from == |s| || s[from] == c then from else Find(s, c, from + 1)
  }

  lemma {:induction false} FindIs(s: string, c: char, from: nat, i: nat)
    requires from <= i <= |s|
    requires forall k :: from <= k < i ==> s[k] != c
    requires i < |s| ==> s[i] == c
    ensures Find(s, c, from) == i
    decreases i - from
  {
    if from < i {
      FindIs(s, c, from + 1, i);
    }
  }

  /** The raw tokens between separators; nothing after a final separator. */
  function Split(path: string, separator: char): (tokens: seq<string>) {
    var i := Find(path, separator, 0);
    if path == [] then []
    else if i == |path| then [path]
    else [path[..i]] + Split(path[i + 1..], separator)
  }

  /** One pass from left to right that turns ~1 into / and ~0 into ~. */
  function Unescape(token: string): string {
    if token == [] then []
    else if token[0] == '~' && |token| > 1 && token[1] == '1' then ['/'] + Unescape(token[2..])
    else if token[0] == '~' && |token| > 1 && token[1] == '0' then ['~'] + Unescape(token[2..])
    else [token[0]] + Unescape(token[1..])
  }

  function UnescapeAll(tokens: seq<string>): (r: seq<string>)
    ensures |r| == |tokens|
    ensures forall i :: 0 <= i < |r| ==> r[i] == Unescape(tokens[i])
  {
    if tokens == [] then [] else [Unescape(tokens[0])] + UnescapeAll(tokens[1..])
  }

  predicate IsRootPath(path: string, separator: char) {
    path == [] || path == [separator]
  }

  /** The token list a path stands for. */
  function Tokens(path: string, separator: char): seq<string> {
    if IsRootPath(path, separator) then []
    else UnescapeAll(Split(if path[0] == separator then path[1..] else path, separator))
  }

  lemma {:induction false} UnescapePlain(token: string, n: nat)
    requires n <= |token|
    requires forall k :: 0 <= k < n ==> token[k] != '~'
    ensures Unescape(token) == token[..n] + Unescape(token[n..])
  {
    if n > 0 {
      UnescapePlain(token[1..], n - 1);
      assert token[1..][n - 1..] == token[n..];
      assert token[..n] == [token[0]] + token[1..][..n - 1];
    }
  }

  lemma {:induction false} SplitStep(done: seq<string>, path: string, separator: char)
    requires Find(path, separator, 0) < |path|
    ensures var i := Find(path, separator, 0);
            done + Split(path, separator) == done + [path[..i]] + Split(path[i + 1..], separator)
  {
    var i := Find(path, separator, 0);
    assert Split(path, separator) == [path[..i]] + Split(path[i + 1..], separator);
    hide Split;
    var rest := Split(path[i + 1..], separator);
    assert done + ([path[..i]] + rest) == done + [path[..i]] + rest;
  }

  lemma {:induction false} SplitRest(done: seq<string>, rest: string, separator: char)
    requires Find(rest, separator, 0) == |rest|
    ensures done + Split(rest, separator) == if rest == [] then done else done + [rest]
  {
  }

  /** The token that results when everything before at is final and the rest is unescaped. */
  ghost function Finished(r: string, at: nat): string
    requires at <= |r|
  {
    r[..at] + Unescape(r[at..])
  }

  lemma FinishedSkip(r: string, at: nat, next: nat)
    requires at <= next <= |r|
    requires forall k :: at <= k < next ==> r[k] != '~'
    ensures Finished(r, at) == Finished(r, next)
  {
    UnescapePlain(r[at..], next - at);
    assert r[at..][next - at..] == r[next..];
    assert r[..next] == r[..at] + r[at..][..next - at];
  }

  /** The text r with the two characters at a tilde replaced by one. */
  function Replaced(r: string, at: nat, c: char): (s: string)
    requires at + 1 < |r|
    ensures |s| == |r| - 1
  {
    r[..at] + [c] + r[at + 2..]
  }

  lemma FinishedReplaced(r: string, at: nat, c: char)
    requires at + 1 < |r| && r[at] == '~'
    requires (r[at + 1] == '1' && c == '/') || (r[at + 1] == '0' && c == '~')
    ensures Finished(r, at) == Finished(Replaced(r, at, c), at + 1)
  {
    var tail, s := r[at..], Replaced(r, at, c);
    assert tail[2..] == r[at + 2..] == s[at + 1..];
    assert s[..at + 1] == r[..at] + [c];
    assert Unescape(tail) == [c] + Unescape(tail[2..]);
  }

  lemma FinishedKept(r: string, at: nat)
    requires at + 1 < |r| && r[at] == '~' && r[at + 1] != '1' && r[at + 1] != '0'
    ensures Finished(r, at) == Finished(r, at + 1)
  {
    assert r[at..][1..] == r[at + 1..];
    assert r[..at + 1] == r[..at] + ['~'];
    assert Unescape(r[at..]) == ['~'] + Unescape(r[at + 1..]);
  }

  lemma FinishedEnds(r: string, at: nat)
    requires at <= |r| <= at + 1
    ensures Finished(r, at) == r
  {
    assert r[..at] + r[at..] == r;
    assert Unescape(r[at..]) == r[at..];
  }

  lemma {:induction false} FinishedStarts(r: string)
    ensures Finished(r, 0) == Unescape(r)
  {
    assert r[0..] == r;
  }

  /** Rewrites the escapes of one token in place, restarting the search behind each rewritten pair. */
  method UnescapeInPlace(token: string) returns (r: string)
    ensures r == Unescape(token)
  {
    hide Finished, Unescape;
    r := token;
    var at: nat := 0;
    FinishedStarts(token);
    while true
      invariant at <= |r|
      invariant Unescape(token) == Finished(r, at)
      decreases |r| - at
    {
      var next := Find(r, '~', at);
      FinishedSkip(r, at, next);
      at := next;
      if at + 1 >= |r| {
        FinishedEnds(r, at);
        break;
      }
      if r[at + 1] == '1' {
        FinishedReplaced(r, at, '/');
        r := Replaced(r, at, '/');
      } else if r[at + 1] == '0' {
        FinishedReplaced(r, at, '~');
        r := Replaced(r, at, '~');
      } else {
        FinishedKept(r, at);
      }
      at := at + 1;
    }
  }

  /** Cuts a path into its unescaped tokens. */
  method Tokenize(path: string, separator: char) returns (tokens: seq<string>)
    ensures tokens == Tokens(path, separator)
  {
    hide Split, Unescape;
    tokens := [];
    if path == [] || (|path| == 1 && path[0] == separator) {
      return;
    }
    var rest := if path[0] == separator then path[1..] else path;
    ghost var all := Split(rest, separator);
    var pos := Find(rest, separator, 0);
    while pos < |rest|
      invariant pos == Find(rest, separator, 0)
      invariant all == tokens + Split(rest, separator)
      decreases |rest|
    {
      SplitStep(tokens, rest, separator);
      tokens := tokens + [rest[..pos]];
      rest := rest[pos + 1..];
      pos := Find(rest, separator, 0);
    }
    SplitRest(tokens, rest, separator);
    if rest != [] {
      tokens := tokens + [rest];
    }
    assert tokens == all;
    for i := 0 to |tokens|
      invariant |tokens| == |all|
      invariant forall k :: 0 <= k < i ==> tokens[k] == Unescape(all[k])
      invariant forall k :: i <= k < |tokens| ==> tokens[k] == all[k]
    {
      var token := UnescapeInPlace(tokens[i]);
      tokens := tokens[i := token];
    }
  }

  /** The escaped form of a token. */
  function Escape(token: string): string {
    if token == [] then []
    else (if token[0] == '~' then "~0" else if token[0] == '/' then "~1" else [token[0]]) + Escape(token[1..])
  }

  /** The pointer text of a token list: every token escaped and preceded by a slash. */
  function Print(tokens: seq<string>): string {
    if tokens == [] then [] else "/" + Escape(tokens[0]) + Print(tokens[1..])
  }

  lemma {:induction false} UnescapeEscape(token: string)
    ensures Unescape(Escape(token)) == token
  {
    if token != [] {
      UnescapeEscape(token[1..]);
      var rest := Escape(token[1..]);
      var e := Escape(token);
      if token[0] == '~' || token[0] == '/' {
        assert e[2..] == rest;
      } else {
        assert e[1..] == rest;
      }
    }
  }

  lemma {:induction false} EscapeHasNoSlash(token: string)
    ensures '/' !in Escape(token)
    ensures Escape(token) == [] <==> token == []
  {
    if token != [] {
      EscapeHasNoSlash(token[1..]);
    }
  }

  /** The escapes of RFC 6901, section 4: ~1 is a slash, ~0 a tilde, and each pair is read once. */
  lemma EscapesRead()
    ensures Unescape("a~1b") == "a/b" && Unescape("m~0n") == "m~n" && Unescape("~01") == "~1"
  {
    assert "a~1b"[1..] == "~1b" && "~1b"[2..] == "b" && "b"[1..] == "";
    assert "m~0n"[1..] == "~0n" && "~0n"[2..] == "n" && "n"[1..] == "";
    assert "~01"[2..] == "1" && "1"[1..] == "";
  }

  /** The token list without an empty last token. */
  function DropEmptyLast(tokens: seq<string>): seq<string> {
    if tokens != [] && tokens[|tokens| - 1] == [] then tokens[..|tokens| - 1] else tokens
  }

  lemma {:induction false} SplitCons(token: string, rest: string, separator: char)
    requires separator !in token
    ensures Split(token + [separator] + rest, separator) == [token] + Split(rest, separator)
  {
    var path := token + [separator] + rest;
    FindIs(path, separator, 0, |token|);
    assert path[..|token|] == token && path[|token| + 1..] == rest;
  }

  lemma {:induction false} SplitOne(token: string, separator: char)
    requires separator !in token
    ensures Split(token, separator) == if token == [] then [] else [token]
  {
    FindIs(token, separator, 0, |token|);
  }

  /** The tokens with a separator between each two. */
  function Joined(tokens: seq<string>, separator: char): string {
    if tokens == [] then [] else if |tokens| == 1 then tokens[0]
    else tokens[0] + [separator] + Joined(tokens[1..], separator)
  }

  /** Splitting inverts joining, except that an empty last token is lost. */
  lemma {:induction false} SplitJoined(tokens: seq<string>, separator: char)
    requires forall k :: 0 <= k < |tokens| ==> separator !in tokens[k]
    ensures Split(Joined(tokens, separator), separator) == DropEmptyLast(tokens)
  {
    if |tokens| == 1 {
      SplitOne(tokens[0], separator);
    } else if |tokens| > 1 {
      SplitJoined(tokens[1..], separator);
      SplitCons(tokens[0], Joined(tokens[1..], separator), separator);
      DropCons(tokens);
      hide Split, DropEmptyLast;
    }
  }

  /** The text is the tokens joined, with an empty token behind them where it ends in a separator. */
  predicate Spells(text: string, tokens: seq<string>, separator: char) {
    && (forall k :: 0 <= k < |tokens| ==> separator !in tokens[k])
    && (|| (tokens != [] && text == Joined(tokens, separator) + [separator])
        || (text == Joined(tokens, separator) && (tokens == [] || tokens[|tokens| - 1] != [])))
  }

  /** Splitting a text gives the tokens that spell it, and nothing else spells it. */
  lemma {:induction false} SplitExactly(text: string, tokens: seq<string>, separator: char)
    ensures Split(text, separator) == tokens <==> Spells(text, tokens, separator)
  {
    SplitSpells(text, separator);
    if Spells(text, tokens, separator) {
      SplitJoined(tokens, separator);
      if tokens != [] && text == Joined(tokens, separator) + [separator] {
        SplitJoined(tokens + [[]], separator);
        JoinedAppend(tokens, [], separator);
        assert (tokens + [[]])[..|tokens|] == tokens;
        assert Joined(tokens + [[]], separator) == text;
      }
    }
  }

  lemma {:induction false} JoinedAppend(tokens: seq<string>, last: string, separator: char)
    requires tokens != []
    ensures Joined(tokens + [last], separator) == Joined(tokens, separator) + [separator] + last
  {
    assert (tokens + [last])[1..] == tokens[1..] + [last];
    if |tokens| > 1 {
      JoinedAppend(tokens[1..], last, separator);
    } else {
      assert ([] + [last])[0] == last;
    }
  }

  lemma {:induction false} SpellsCons(front: string, rest: string, tokens: seq<string>, separator: char)
    requires separator !in front && Spells(rest, tokens, separator)
    ensures Spells(front + [separator] + rest, [front] + tokens, separator)
  {
    var all, text := [front] + tokens, front + [separator] + rest;
    if tokens == [] {
      assert text == Joined(all, separator) + [separator];
    } else {
      assert all[1..] == tokens;
      var joined := Joined(tokens, separator);
      assert Joined(all, separator) == front + [separator] + joined;
      assert front + [separator] + (joined + [separator]) == front + [separator] + joined + [separator];
      DropCons(all);
    }
  }

  lemma {:induction false} SplitSpells(text: string, separator: char)
    ensures Spells(text, Split(text, separator), separator)
  {
    var i := Find(text, separator, 0);
    if i < |text| {
      SplitSpells(text[i + 1..], separator);
      SplitCons(text[..i], text[i + 1..], separator);
      SpellsCons(text[..i], text[i + 1..], Split(text[i + 1..], separator), separator);
      assert text == text[..i] + [separator] + text[i + 1..];
      hide Split, Spells;
    }
  }

  /** A token that stands for itself in a path with this separator. */
  predicate IsName(token: string, separator: char) {
    token != [] && separator !in token && '~' !in token
  }

  /** The path of a list of names, with or without a separator in front, stands for that list. */
  lemma {:induction false} NamesPath(names: seq<string>, separator: char)
    requires forall k :: 0 <= k < |names| ==> IsName(names[k], separator)
    ensures Tokens(Joined(names, separator), separator) == names
    ensures Tokens([separator] + Joined(names, separator), separator) == names
  {
    var text := Joined(names, separator);
    assert ([separator] + text)[1..] == text;
    if names != [] {
      assert IsName(names[0], separator) && text[0] == names[0][0] != separator;
      SplitJoined(names, separator);
      UnescapeNames(names);
      assert IsName(names[|names| - 1], separator);
      hide Split, Joined, UnescapeAll;
    }
  }

  lemma {:induction false} UnescapeNames(names: seq<string>)
    requires forall k :: 0 <= k < |names| ==> '~' !in names[k]
    ensures UnescapeAll(names) == names
  {
    forall k | 0 <= k < |names|
      ensures Unescape(names[k]) == names[k]
    {
      UnescapePlain(names[k], |names[k]|);
    }
  }

  /** What follows the first slash of a printed pointer splits into the escaped tokens. */
  lemma {:induction false} SplitPrinted(tokens: seq<string>)
    requires tokens != []
    ensures UnescapeAll(Split(Print(tokens)[1..], '/')) == DropEmptyLast(tokens)
  {
    var e := Escape(tokens[0]);
    EscapeHasNoSlash(tokens[0]);
    UnescapeEscape(tokens[0]);
    assert Print(tokens) == "/" + e + Print(tokens[1..]);
    if |tokens| == 1 {
      assert Print(tokens)[1..] == e;
      SplitOne(e, '/');
    } else {
      var more := Print(tokens[1..]);
      PrintCons(e, more);
      hide Print, Escape, Unescape, Split, UnescapeAll, DropEmptyLast;
      SplitCons(e, more[1..], '/');
      SplitPrinted(tokens[1..]);
      UnescapeCons(e, Split(more[1..], '/'));
      DropCons(tokens);
    }
  }

  lemma PrintCons(e: string, more: string)
    requires more != [] && more[0] == '/'
    ensures ("/" + e + more)[1..] == e + "/" + more[1..]
  {
  }

  lemma {:induction false} UnescapeCons(token: string, rest: seq<string>)
    ensures UnescapeAll([token] + rest) == [Unescape(token)] + UnescapeAll(rest)
  {
    assert ([token] + rest)[1..] == rest;
  }

  lemma DropCons(tokens: seq<string>)
    requires |tokens| > 1
    ensures DropEmptyLast(tokens) == [tokens[0]] + DropEmptyLast(tokens[1..])
  {
  }

  /** Tokenizing inverts printing, except that an empty last token is lost. */
  lemma {:induction false} TokenizePrint(tokens: seq<string>)
    ensures Tokens(Print(tokens), '/') == DropEmptyLast(tokens)
    ensures Tokens(Print(tokens), '/') == tokens <==> tokens == [] || tokens[|tokens| - 1] != []
  {
    if tokens != [] {
      SplitPrinted(tokens);
      if Print(tokens) == "/" {
        assert Print(tokens)[1..] == [];
      }
    }
  }

  /** A path has no tokens exactly when it is one of the two spellings of the root. */
  lemma RootHasNoTokens(path: string, separator: char)
    ensures Tokens(path, separator) == [] <==> IsRootPath(path, separator)
  {
    if !IsRootPath(path, separator) {
      var rest := if path[0] == separator then path[1..] else path;
      assert Split(rest, separator) != [];
    }
  }
}
