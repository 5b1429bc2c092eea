/** Line splitting from the front (InputStream) and from the back (ReversedReader). */
module Lines {
  import opened Sequences

  const NEWLINE: Byte := 10

  /** The bytes up to and including the first newline, or all of them. */
  function FirstLine(s: seq<Byte>): (line: seq<Byte>)
    ensures line <= s
    ensures s != [] ==> line != []
  {
    if s == [] then []
    else if s[0] == NEWLINE then [s[0]]
    else [s[0]] + FirstLine(s[1..])
  }

  lemma {:induction false} NothingFirst()
    ensures FirstLine([]) == []
  {
  }

  lemma {:induction false} FirstLineMore(s: seq<Byte>)
    requires s != []
    ensures s[0] == NEWLINE ==> FirstLine(s) == [s[0]]
    ensures s[0] != NEWLINE ==> FirstLine(s) == [s[0]] + FirstLine(s[1..])
  {
  }

  /** One more byte of the first line, when done has been read of it and rest follows. */
  lemma {:induction false} FirstLineStep(done: seq<Byte>, rest: seq<Byte>)
    requires rest != []
    ensures rest[0] == NEWLINE ==> done + FirstLine(rest) == done + [rest[0]]
    ensures rest[0] != NEWLINE ==> done + FirstLine(rest) == done + [rest[0]] + FirstLine(rest[1..])
  {
    FirstLineMore(rest);
    hide FirstLine;
    var line := FirstLine(rest[1..]);
    assert done + ([rest[0]] + line) == done + [rest[0]] + line;
  }

  /** What repeated forward reading of raw lines returns until the empty line at end of file. */
  function ForwardLines(s: seq<Byte>): seq<seq<Byte>>
    decreases |s|
  {
    if s == [] then []
    else [FirstLine(s)] + ForwardLines(s[|FirstLine(s)|..])
  }

  /** Length of the longest newline-free suffix of s[..k]. */
  function CleanSuffix(s: seq<Byte>, k: nat): (n: nat)
    requires k <= |s|
    ensures n <= k
  {
    if k == 0 || s[k - 1] == NEWLINE then 0 else 1 + CleanSuffix(s, k - 1)
  }

  /** The last line: the last byte, whatever it is, and the newline-free bytes before it. */
  function LastLine(s: seq<Byte>): (line: seq<Byte>)
    ensures |line| <= |s|
    ensures s != [] ==> line != []
  {
    if s == [] then [] else s[|s| - 1 - CleanSuffix(s, |s| - 1)..]
  }

  /** The lines of s from the last one to the first one. */
  function BackwardLines(s: seq<Byte>): seq<seq<Byte>>
    decreases |s|
  {
    if s == [] then []
    else [LastLine(s)] + BackwardLines(s[..|s| - |LastLine(s)|])
  }

  /** A raw line: nonempty, with no newline before its last byte. */
  predicate IsLine(line: seq<Byte>) {
    line != [] && forall k :: 0 <= k < |line| - 1 ==> line[k] != NEWLINE
  }

  predicate Terminated(s: seq<Byte>) {
    s == [] || s[|s| - 1] == NEWLINE
  }

  lemma {:induction false} CleanSuffixIs(s: seq<Byte>, k: nat, n: nat)
    requires n <= k <= |s|
    ensures n == CleanSuffix(s, k)
       <==> (forall i :: k - n <= i < k ==> s[i] != NEWLINE) && (n == k || s[k - n - 1] == NEWLINE)
  {
    if 0 < k && s[k - 1] != NEWLINE && n > 0 {
      CleanSuffixIs(s, k - 1, n - 1);
    }
  }

  /** The bytes read backward until the newline before them make up the last line. */
  lemma ReversedIsLastLine(s: seq<Byte>, reversed: seq<Byte>)
    requires |reversed| <= |s|
    requires forall k :: 0 <= k < |reversed| ==> reversed[k] == s[|s| - 1 - k]
    requires forall k :: 0 < k < |reversed| ==> reversed[k] != NEWLINE
    requires |reversed| == |s| || (reversed != [] && s[|s| - 1 - |reversed|] == NEWLINE)
    ensures Reverse(reversed) == LastLine(s)
  {
    var n := |reversed|;
    if n > 0 {
      assert forall i :: |s| - n <= i < |s| ==> s[i] == reversed[|s| - 1 - i];
      CleanSuffixIs(s, |s| - 1, n - 1);
    }
  }

  /** Cutting the last line off leaves text in which every line is terminated. */
  lemma LastLineCut(s: seq<Byte>)
    requires s != []
    ensures IsLine(LastLine(s)) && Terminated(s[..|s| - |LastLine(s)|])
  {
    CleanSuffixIs(s, |s| - 1, |LastLine(s)| - 1);
  }

  lemma {:induction false} FirstLineOfAppend(a: seq<Byte>, b: seq<Byte>)
    requires NEWLINE in a
    ensures FirstLine(a + b) == FirstLine(a)
  {
    assert (a + b)[1..] == a[1..] + b;
    if a[0] != NEWLINE {
      FirstLineOfAppend(a[1..], b);
    }
  }

  lemma {:induction false} FirstLineOfLine(line: seq<Byte>)
    requires IsLine(line)
    ensures FirstLine(line) == line
  {
    if |line| > 1 {
      FirstLineOfLine(line[1..]);
    }
  }

  /** Appending one line to terminated text appends that line to its forward split. */
  lemma {:induction false} ForwardAppend(a: seq<Byte>, line: seq<Byte>)
    requires Terminated(a) && IsLine(line)
    ensures ForwardLines(a + line) == ForwardLines(a) + [line]
    decreases |a|
  {
    if a == [] {
      assert a + line == line;
      FirstLineOfLine(line);
      assert line[|line|..] == [];
    } else {
      assert a[|a| - 1] in a;
      FirstLineOfAppend(a, line);
      var f := |FirstLine(a)|;
      assert (a + line)[f..] == a[f..] + line;
      ForwardAppend(a[f..], line);
      hide FirstLine;
      assert [FirstLine(a)] + (ForwardLines(a[f..]) + [line]) == ForwardLines(a) + [line];
    }
  }

  /** Reading lines from the end and reversing the list is reading them from the front. */
  lemma {:induction false} BackwardIsForwardReversed(s: seq<Byte>)
    ensures Reverse(BackwardLines(s)) == ForwardLines(s)
    decreases |s|
  {
    if s != [] {
      var line := LastLine(s);
      var rest := s[..|s| - |line|];
      LastLineCut(s);
      assert s == rest + line;
      BackwardIsForwardReversed(rest);
      ForwardAppend(rest, line);
      ReverseAppend([line], BackwardLines(rest));
      hide LastLine, ForwardLines;
    }
  }

  /** A split into lines: the lines make up the text, and only the last one may lack a newline. */
  predicate IsSplit(lines: seq<seq<Byte>>, s: seq<Byte>) {
    && Flatten(lines) == s
    && (forall i :: 0 <= i < |lines| ==> IsLine(lines[i]))
    && (forall i :: 0 <= i < |lines| - 1 ==> Terminated(lines[i]))
  }

  /** The forward split is the one and only split of the text into lines. */
  lemma {:induction false} ForwardLinesUnique(lines: seq<seq<Byte>>, s: seq<Byte>)
    ensures IsSplit(lines, s) <==> lines == ForwardLines(s)
  {
    ForwardLinesSplit(s);
    if IsSplit(lines, s) {
      SplitIsForward(lines, s);
    }
  }

  lemma {:induction false} SplitIsForward(lines: seq<seq<Byte>>, s: seq<Byte>)
    requires IsSplit(lines, s)
    ensures lines == ForwardLines(s)
    decreases |s|
  {
    if s == [] {
      assert lines != [] ==> IsLine(lines[0]);
    } else {
      FirstLineOfSplit(lines, s);
      var rest := lines[1..];
      assert forall i :: 0 <= i < |rest| ==> rest[i] == lines[i + 1];
      assert s[|lines[0]|..] == Flatten(rest);
      SplitIsForward(rest, s[|lines[0]|..]);
    }
  }

  lemma {:induction false} ForwardLinesSplit(s: seq<Byte>)
    ensures IsSplit(ForwardLines(s), s)
    decreases |s|
  {
    if s != [] {
      var f := FirstLine(s);
      var rest := ForwardLines(s[|f|..]);
      FirstLineShape(s);
      ForwardLinesSplit(s[|f|..]);
      var lines := [f] + rest;
      assert lines[1..] == rest;
      assert forall i :: 0 < i < |lines| ==> lines[i] == rest[i - 1];
    }
  }

  lemma {:induction false} FirstLineShape(s: seq<Byte>)
    requires s != []
    ensures IsLine(FirstLine(s))
    ensures Terminated(FirstLine(s)) || FirstLine(s) == s
  {
    if s[0] != NEWLINE && |s| > 1 {
      FirstLineShape(s[1..]);
    }
  }

  lemma {:induction false} FirstLineOfSplit(lines: seq<seq<Byte>>, s: seq<Byte>)
    requires s != [] && IsSplit(lines, s)
    ensures lines != [] && lines[0] == FirstLine(s)
  {
    if |lines| == 1 {
      assert Flatten(lines[1..]) == [];
      assert s == lines[0];
      FirstLineOfLine(lines[0]);
    } else {
      assert Terminated(lines[0]) && IsLine(lines[0]);
      assert lines[0][|lines[0]| - 1] in lines[0];
      FirstLineOfAppend(lines[0], Flatten(lines[1..]));
      FirstLineOfLine(lines[0]);
    }
  }
}
