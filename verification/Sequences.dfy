/** Small value types and sequence functions shared by the other modules. */
module Sequences {
  datatype Option<+T> = None | Some(value: T)

  /** An unsigned 8-bit byte. */
  type Byte = b: int | 0 <= b < 256

  /** The pieces of a path or of an action. */
  type Tokens = seq<string>

  /** The characters that isspace recognises in the C locale. */
  predicate IsSpace(c: char) {
    c == ' ' || '\t' <= c <= '\r'
  }

  /** Blank, tab, line feed, vertical tab, form feed and carriage return are all the white space there is. */
  lemma SpaceExactly(c: char)
    ensures IsSpace(c) <==> c == ' ' || c == '\t' || c == '\n' || c as int == 11 || c as int == 12 || c == '\r'
  {
  }

  function Min(a: int, b: int): int {
    if a <= b then a else b
  }

  function Reverse<T>(s: seq<T>): (r: seq<T>)
    ensures |r| == |s|
    ensures forall k :: 0 <= k < |s| ==> r[k] == s[|s| - 1 - k]
  {
    seq(|s|, k requires 0 <= k < |s| => s[|s| - 1 - k])
  }

  function Flatten<T>(ss: seq<seq<T>>): seq<T> {
    if ss == [] then [] else ss[0] + Flatten(ss[1..])
  }

  /** after is before with the elements at..at + n replaced by text[from..from + n]. */
  ghost predicate Placed<T>(before: seq<T>, after: seq<T>, at: int, n: nat, text: seq<T>, from: int) {
    && 0 <= at && at + n <= |before| == |after|
    && 0 <= from && from + n <= |text|
    && forall k :: 0 <= k < |before| ==>
         after[k] == if at <= k < at + n then text[from + (k - at)] else before[k]
  }

  lemma {:induction false} PlacedNothing<T>(s: seq<T>, at: int, text: seq<T>, from: int)
    requires 0 <= at <= |s| && 0 <= from <= |text|
    ensures Placed(s, s, at, 0, text, from)
  {
  }

  /** Two adjacent placements, the later one in front, make up one. */
  lemma PlacedInFront<T>(before: seq<T>, mid: seq<T>, after: seq<T>, at: int, n: nat, m: nat, text: seq<T>, from: int)
    requires Placed(before, mid, at, n, text, from)
    requires Placed(mid, after, at - m, m, text, from - m)
    ensures Placed(before, after, at - m, n + m, text, from - m)
  {
  }

  /** Two adjacent placements, the later one behind, make up one. */
  lemma PlacedBehind<T>(before: seq<T>, mid: seq<T>, after: seq<T>, at: int, n: nat, m: nat, text: seq<T>, from: int)
    requires Placed(before, mid, at, n, text, from)
    requires Placed(mid, after, at + n, m, text, from + n)
    ensures Placed(before, after, at, n + m, text, from)
  {
  }

  /** Copies text[from..from + n] to out[at..at + n]. */
  method CopyBytes(text: seq<Byte>, from: nat, n: nat, out: array<Byte>, at: nat)
    requires from + n <= |text| && at + n <= out.Length
    modifies out
    ensures Placed(old(out[..]), out[..], at, n, text, from)
  {
    for k := 0 to n
      invariant Placed(old(out[..]), out[..], at, k, text, from)
    {
      out[at + k] := text[from + k];
    }
  }

  /** The elements that satisfy p, in order: what the erase/remove_if idiom keeps. */
  function Filter<T>(s: seq<T>, p: T -> bool): (r: seq<T>) {
    if s == [] then []
    else if p(s[0]) then [s[0]] + Filter(s[1..], p)
    else Filter(s[1..], p)
  }

  lemma ReverseAppend<T>(a: seq<T>, b: seq<T>)
    ensures Reverse(a + b) == Reverse(b) + Reverse(a)
  {
    assert forall k :: 0 <= k < |a + b| ==> Reverse(a + b)[k] == (Reverse(b) + Reverse(a))[k];
  }

  lemma {:induction false} FilterAppend<T>(a: seq<T>, b: seq<T>, p: T -> bool)
    ensures Filter(a + b, p) == Filter(a, p) + Filter(b, p)
  {
    if a == [] {
      assert a + b == b;
    } else {
      FilterAppend(a[1..], b, p);
      assert (a + b)[1..] == a[1..] + b;
      assert (a + b)[0] == a[0];
    }
  }

  lemma {:induction false} FilterMember<T>(s: seq<T>, p: T -> bool, x: T)
    ensures x in Filter(s, p) <==> x in s && p(x)
  {
    if s != [] {
      FilterMember(s[1..], p, x);
      assert x in s <==> x == s[0] || x in s[1..];
    }
  }

  lemma {:induction false} FilterNone<T>(s: seq<T>, p: T -> bool)
    requires forall k :: 0 <= k < |s| ==> !p(s[k])
    ensures Filter(s, p) == []
  {
    if s != [] {
      FilterNone(s[1..], p);
    }
  }

  lemma {:induction false} FilterAll<T>(s: seq<T>, p: T -> bool)
    requires forall k :: 0 <= k < |s| ==> p(s[k])
    ensures Filter(s, p) == s
  {
    if s != [] {
      FilterAll(s[1..], p);
    }
  }

  /** after holds, in their order, the elements of before that satisfy p, and at says where they were. */
  ghost predicate SelectedAt<T>(before: seq<T>, after: seq<T>, p: T -> bool, at: seq<nat>) {
    && |at| == |after|
    && (forall k :: 0 <= k < |at| ==> at[k] < |before| && after[k] == before[at[k]])
    && (forall j, k :: 0 <= j < k < |at| ==> at[j] < at[k])
    && (forall i: nat :: i < |before| ==> (i in at <==> p(before[i])))
  }

  ghost predicate IsSelection<T>(before: seq<T>, after: seq<T>, p: T -> bool) {
    exists at :: SelectedAt(before, after, p, at)
  }

  lemma {:induction false} SelectOneMore<T>(front: seq<T>, kept: seq<T>, x: T, p: T -> bool, at: seq<nat>)
    requires SelectedAt(front, kept, p, at)
    ensures p(x) ==> SelectedAt(front + [x], kept + [x], p, at + [|front|])
    ensures !p(x) ==> SelectedAt(front + [x], kept, p, at)
  {
    forall i: nat | i < |front|
      ensures i in at + [|front|] <==> p(front[i])
    {
      assert i in at + [|front|] <==> i in at;
    }
    assert |front| in at + [|front|];
    assert |front| !in at;
  }

  lemma {:induction false} FilterLast<T>(front: seq<T>, x: T, p: T -> bool)
    ensures Filter(front + [x], p) == if p(x) then Filter(front, p) + [x] else Filter(front, p)
  {
    FilterAppend(front, [x], p);
    assert [x][1..] == [];
    assert Filter(front, p) + [] == Filter(front, p);
  }

  lemma {:induction false} SelectionGrows<T>(front: seq<T>, x: T, p: T -> bool)
    requires IsSelection(front, Filter(front, p), p)
    ensures IsSelection(front + [x], Filter(front + [x], p), p)
  {
    hide Filter, SelectedAt;
    FilterLast(front, x, p);
    var at :| SelectedAt(front, Filter(front, p), p, at);
    SelectOneMore(front, Filter(front, p), x, p, at);
  }

  lemma {:induction false} NothingSelected<T>(p: T -> bool)
    ensures IsSelection([], [], p)
  {
    assert SelectedAt([], [], p, []);
  }

  /** Filtering keeps every element that satisfies p, each as often as it occurs, and their order. */
  lemma {:induction false} FilterSelects<T>(s: seq<T>, p: T -> bool)
    ensures IsSelection(s, Filter(s, p), p)
  {
    hide IsSelection;
    if s == [] {
      NothingSelected(p);
    } else {
      var n := |s| - 1;
      FilterSelects(s[..n], p);
      SelectionGrows(s[..n], s[n], p);
      assert s == s[..n] + [s[n]];
    }
  }
}
