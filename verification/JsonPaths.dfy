/** Token paths in JSON trees: reading, creating, writing and removing what they lead to. */
module JsonPaths {
  import opened Sequences
  import opened JsonTrees

  /** The node that a token path leads to. */
  function Get(root: Json, path: Tokens): Option<Json>
    decreases |path|
  {
    if path == [] then Some(root)
    else match Lookup(root, path[0])
         case Some(child) => Get(child, path[1..])
         case None => None
  }

  /** The tree after v has been put where the path leads, with missing nodes created on the way. */
  function Put(root: Json, path: Tokens, v: Json): Option<Json>
    decreases |path|
  {
    if path == [] then Some(v)
    else match WithSlot(root, path[0])
         case None => None
         case Some(made) =>
           (match Put(Lookup(made, path[0]).value, path[1..], v)
            case None => None
            case Some(child) => Some(Store(made, path[0], child)))
  }

  /** The tree after every missing node on the path has been created. */
  function Ensure(root: Json, path: Tokens): Option<Json>
    decreases |path|
  {
    if path == [] then Some(root)
    else match WithSlot(root, path[0])
         case None => None
         case Some(made) =>
           (match Ensure(Lookup(made, path[0]).value, path[1..])
            case None => None
            case Some(child) => Some(Store(made, path[0], child)))
  }

  /** The path runs into an existing array with a token that is no array index. */
  ghost predicate BlockedAt(root: Json, path: Tokens, k: nat) {
    && k < |path|
    && Get(root, path[..k]).Some?
    && Get(root, path[..k]).value.Arr?
    && Index(path[k]).None?
  }

  lemma {:induction false} GetAppend(root: Json, p: Tokens, q: Tokens)
    ensures Get(root, p + q) == match Get(root, p) case None => None case Some(node) => Get(node, q)
    decreases |p|
  {
    if p == [] {
      assert p + q == q;
    } else {
      assert (p + q)[1..] == p[1..] + q;
      if Lookup(root, p[0]).Some? {
        GetAppend(Lookup(root, p[0]).value, p[1..], q);
      }
    }
  }

  /** The token is the decimal text of the position at which the array holds the item. */
  ghost predicate ItemAt(items: seq<Json>, token: string, i: nat, item: Json) {
    i < |items| && i < SIZE_LIMIT && token == Printed(i) && items[i] == item
  }

  /**
   * One more token leads from an array to an item exactly when it is the decimal text of its
   * position, from an object to a member exactly when it is its name, and from a scalar nowhere.
   */
  lemma {:induction false} ChildExactly(root: Json, path: Tokens, token: string, child: Json)
    ensures Get(root, path + [token]) == Some(child) <==>
            match Get(root, path)
            case Some(Arr(items)) => exists i :: ItemAt(items, token, i, child)
            case Some(Obj(fields)) => token in fields && fields[token] == child
            case _ => false
  {
    GetAppend(root, path, [token]);
    assert [token][1..] == [];
    forall i: nat
      ensures Index(token) == Some(i) <==> token == Printed(i) && i < SIZE_LIMIT
    {
      IndexExactly(token, i);
    }
    hide Index, Printed;
    match Get(root, path) {
      case Some(Arr(items)) =>
        if Index(token).Some? && Index(token).value < |items| {
          assert ItemAt(items, token, Index(token).value, items[Index(token).value]);
        }
      case _ =>
    }
  }

  /** What was put is what is read. */
  lemma {:induction false} PutGet(root: Json, path: Tokens, v: Json)
    requires Put(root, path, v).Some?
    ensures Get(Put(root, path, v).value, path) == Some(v)
    decreases |path|
  {
    if path != [] {
      var made := WithSlot(root, path[0]).value;
      var slot := Lookup(made, path[0]).value;
      PutGet(slot, path[1..], v);
      StoreLaws(made, path[0], Put(slot, path[1..], v).value, v);
    }
  }

  /** A second put overwrites the first. */
  lemma {:induction false} PutPut(root: Json, path: Tokens, v: Json, w: Json)
    requires Put(root, path, v).Some?
    ensures Put(Put(root, path, v).value, path, w) == Put(root, path, w)
    ensures Put(root, path, w).Some?
    decreases |path|
  {
    if path != [] {
      var made := WithSlot(root, path[0]).value;
      var slot := Lookup(made, path[0]).value;
      PutPut(slot, path[1..], v, w);
      var child := Put(slot, path[1..], v).value;
      StoreLaws(made, path[0], child, Put(slot, path[1..], w).value);
      StoreLaws(Store(made, path[0], child), path[0], child, child);
    }
  }

  /** Putting back what is there changes nothing. */
  lemma {:induction false} GetPut(root: Json, path: Tokens)
    requires Get(root, path).Some?
    ensures Put(root, path, Get(root, path).value) == Some(root)
    ensures Ensure(root, path) == Some(root)
    decreases |path|
  {
    if path != [] {
      var child := Lookup(root, path[0]).value;
      GetPut(child, path[1..]);
      StoreLaws(root, path[0], child, child);
    }
  }

  /** Creating the path and then writing to it is one put. */
  lemma {:induction false} EnsurePut(root: Json, path: Tokens, v: Json)
    ensures Ensure(root, path).Some? <==> Put(root, path, v).Some?
    ensures Ensure(root, path).Some? ==>
              && Get(Ensure(root, path).value, path).Some?
              && Put(Ensure(root, path).value, path, v) == Put(root, path, v)
    decreases |path|
  {
    if path != [] && WithSlot(root, path[0]).Some? {
      var made := WithSlot(root, path[0]).value;
      var slot := Lookup(made, path[0]).value;
      EnsurePut(slot, path[1..], v);
      if Ensure(slot, path[1..]).Some? {
        var child := Ensure(slot, path[1..]).value;
        StoreLaws(made, path[0], child, Put(slot, path[1..], v).value);
        StoreLaws(Store(made, path[0], child), path[0], child, child);
      }
    }
  }

  /** Below a node that has just been created every path can be created. */
  lemma {:induction false} FreshNeverFails(node: Json, path: Tokens)
    requires node in {Null, EMPTY_OBJECT}
    ensures Ensure(node, path).Some?
    decreases |path|
  {
    if path != [] {
      SlotLaws(node, path[0]);
      FreshNeverFails(Lookup(WithSlot(node, path[0]).value, path[0]).value, path[1..]);
    }
  }

  /** Creation fails exactly at an existing array reached with a token that is no array index. */
  lemma {:induction false} EnsureFailsIffBlocked(root: Json, path: Tokens)
    ensures Ensure(root, path).None? <==> exists k :: BlockedAt(root, path, k)
    decreases |path|
  {
    if path != [] {
      if Lookup(root, path[0]).Some? {
        var child := Lookup(root, path[0]).value;
        EnsureFailsIffBlocked(child, path[1..]);
        StoreLaws(root, path[0], child, child);
        BlockedBelow(root, path);
      } else {
        if WithSlot(root, path[0]).Some? {
          SlotLaws(root, path[0]);
          FreshNeverFails(Lookup(WithSlot(root, path[0]).value, path[0]).value, path[1..]);
        } else {
          assert path[..0] == [] && BlockedAt(root, path, 0);
        }
        forall k | 0 < k < |path|
          ensures !BlockedAt(root, path, k)
        {
          assert path[..k][0] == path[0];
        }
      }
    }
  }

  lemma BlockedBelow(root: Json, path: Tokens)
    requires path != [] && Lookup(root, path[0]).Some?
    ensures (exists k :: BlockedAt(root, path, k))
       <==> (exists k :: BlockedAt(Lookup(root, path[0]).value, path[1..], k))
  {
    var child := Lookup(root, path[0]).value;
    forall k: nat | k + 1 < |path|
      ensures BlockedAt(child, path[1..], k) <==> BlockedAt(root, path, k + 1)
    {
      assert path[..k + 1] == [path[0]] + path[1..][..k];
    }
    if k: nat :| BlockedAt(root, path, k) {
      assert path[..0] == [];
      assert BlockedAt(child, path[1..], k - 1);
    }
    if k: nat :| BlockedAt(child, path[1..], k) {
      assert BlockedAt(root, path, k + 1);
    }
  }

  predicate Comparable(p: Tokens, q: Tokens) {
    p <= q || q <= p
  }

  /** q leads to an array item that comes into being as padding when p is created. */
  ghost predicate Padded(root: Json, p: Tokens, q: Tokens) {
    && 0 < |q| <= |p|
    && q[..|q| - 1] == p[..|q| - 1]
    && Get(root, q[..|q| - 1]).Some?
    && IsPadding(Get(root, q[..|q| - 1]).value, p[|q| - 1], q[|q| - 1])
  }

  /**
   * A put leaves alone every path that is neither a prefix nor an extension of the one written;
   * the only other trace it leaves are the null items that pad a grown array.
   */
  lemma {:induction false} PutFrame(root: Json, p: Tokens, v: Json, q: Tokens)
    requires Put(root, p, v).Some? && !Comparable(p, q)
    ensures Get(Put(root, p, v).value, q) == if Padded(root, p, q) then Some(Null) else Get(root, q)
    decreases |p|
  {
    var made := WithSlot(root, p[0]).value;
    var slot := Lookup(made, p[0]).value;
    var child := Put(slot, p[1..], v).value;
    if p[0] == q[0] {
      assert p == [p[0]] + p[1..] && q == [q[0]] + q[1..];
      PutFrame(slot, p[1..], v, q[1..]);
      StoreLaws(made, p[0], child, v);
      PaddedStep(root, p, q);
    } else {
      StoreFrame(made, p[0], child, q[0]);
      SlotFrame(root, p[0], q[0]);
      if |q| == 1 {
        assert q[..0] == [] == p[..0];
      } else {
        assert q[..|q| - 1][0] == q[0] && |q| <= |p| ==> p[..|q| - 1][0] == p[0];
      }
    }
  }

  lemma PaddedStep(root: Json, p: Tokens, q: Tokens)
    requires p != [] && |q| > 1 && p[0] == q[0] && WithSlot(root, p[0]).Some?
    ensures Padded(root, p, q)
       <==> Padded(Lookup(WithSlot(root, p[0]).value, p[0]).value, p[1..], q[1..])
  {
    var slot := Lookup(WithSlot(root, p[0]).value, p[0]).value;
    var front := q[..|q| - 1];
    assert front == [q[0]] + q[1..][..|q| - 2];
    if |q| <= |p| {
      assert p[..|q| - 1] == [p[0]] + p[1..][..|q| - 2];
      assert p[1..][|q| - 2] == p[|q| - 1];
    }
    if Lookup(root, p[0]).None? {
      SlotLaws(root, p[0]);
      assert !slot.Arr?;
    }
  }

  /** Creating a path is putting back what ends up at its end. */
  lemma {:induction false} EnsureIsPut(root: Json, path: Tokens)
    requires Ensure(root, path).Some?
    ensures Get(Ensure(root, path).value, path).Some?
    ensures Put(root, path, Get(Ensure(root, path).value, path).value) == Ensure(root, path)
  {
    EnsurePut(root, path, Null);
    var made := Ensure(root, path).value;
    GetPut(made, path);
    EnsurePut(root, path, Get(made, path).value);
  }

  /** The container of a created node: a new member of an object, a new end of an array, or a new object. */
  ghost predicate Grown(before: Option<Json>, after: Json, token: string) {
    match before
    case Some(Obj(fields)) => after == Obj(fields[token := EMPTY_OBJECT])
    case Some(Arr(items)) =>
      exists n :: |items| <= n < SIZE_LIMIT && token == Printed(n) && after == Arr(items + Nulls(n + 1 - |items|))
    case _ => after == Obj(map[token := EMPTY_OBJECT])
  }

  lemma {:induction false} SlotGrown(node: Json, token: string)
    requires Lookup(node, token).None? && WithSlot(node, token).Some?
    ensures Grown(Some(node), WithSlot(node, token).value, token)
  {
    if node.Arr? {
      var n := Index(token).value;
      IndexExactly(token, n);
    }
    hide Printed, Index;
  }

  /** What creating a missing path leaves in its container. */
  lemma {:induction false} CreatedIn(root: Json, path: Tokens)
    requires Get(root, path).None? && Ensure(root, path).Some?
    ensures path != []
    ensures var front, made := path[..|path| - 1], Ensure(root, path).value;
            && Get(made, front).Some?
            && Grown(Get(root, front), Get(made, front).value, path[|path| - 1])
    decreases |path|
  {
    hide Grown;
    var made := WithSlot(root, path[0]).value;
    var slot := Lookup(made, path[0]).value;
    if |path| == 1 {
      SlotGrown(root, path[0]);
      StoreLaws(made, path[0], slot, slot);
    } else {
      SlotLaws(root, path[0]);
      var front := path[..|path| - 1];
      assert front[1..] == path[1..][..|path| - 2];
      if Lookup(root, path[0]).None? {
        MissingBelow(slot, path[1..]);
      }
      CreatedIn(slot, path[1..]);
      StoreLaws(made, path[0], Ensure(slot, path[1..]).value, slot);
      if Lookup(root, path[0]).None? {
        NewBelow(slot, front[1..], Get(Ensure(slot, path[1..]).value, front[1..]).value, path[|path| - 1]);
      }
    }
  }

  lemma {:induction false} MissingBelow(slot: Json, rest: Tokens)
    requires rest != [] && slot in {Null, EMPTY_OBJECT}
    ensures Get(slot, rest).None?
  {
  }

  /** Below a node that was just created, a container is a new object. */
  lemma {:induction false} NewBelow(slot: Json, front: Tokens, after: Json, token: string)
    requires slot in {Null, EMPTY_OBJECT} && Grown(Get(slot, front), after, token)
    ensures Grown(None, after, token)
  {
  }

  /** Creating one more node of a path does not change what creating the whole path gives. */
  lemma {:induction false} EnsureStep(root: Json, path: Tokens, i: nat)
    requires i < |path| && Get(root, path[..i]).Some?
    ensures var made := WithSlot(Get(root, path[..i]).value, path[i]);
            match made
            case None => Ensure(root, path).None?
            case Some(node) =>
              && Put(root, path[..i], node).Some?
              && var next := Put(root, path[..i], node).value;
                 && Ensure(next, path) == Ensure(root, path)
                 && Get(next, path[..i]) == Some(node)
                 && Get(next, path[..i + 1]) == Lookup(node, path[i])
    decreases i
  {
    if i == 0 {
      assert path[..1][1..] == [];
      if WithSlot(root, path[0]).Some? {
        SlotLaws(root, path[0]);
        var node := WithSlot(root, path[0]).value;
        StoreLaws(node, path[0], Lookup(node, path[0]).value, Null);
      }
    } else {
      var child := Lookup(root, path[0]).value;
      assert path[..i][1..] == path[1..][..i - 1] && path[..i + 1][1..] == path[1..][..i];
      EnsureStep(child, path[1..], i - 1);
      StoreLaws(root, path[0], child, child);
      var made := WithSlot(Get(root, path[..i]).value, path[i]);
      if made.Some? {
        var child' := Put(child, path[1..][..i - 1], made.value).value;
        StoreLaws(root, path[0], child',
                  if Ensure(child, path[1..]).Some? then Ensure(child, path[1..]).value else child);
        StoreLaws(Store(root, path[0], child'), path[0], child', child');
      }
    }
  }

  /** The node without the selected child: the member is dropped, later array items move up. */
  function Drop(node: Json, token: string): Json
    requires Lookup(node, token).Some?
  {
    if node.Obj? then Obj(node.fields - {token})
    else var i := Index(token).value; Arr(node.items[..i] + node.items[i + 1..])
  }

  /** The tree after the node the path leads to has been erased; an erased root becomes null. */
  function Remove(root: Json, path: Tokens): Json
    requires Get(root, path).Some?
    decreases |path|
  {
    if path == [] then Null
    else if |path| == 1 then Drop(root, path[0])
    else Store(root, path[0], Remove(Lookup(root, path[0]).value, path[1..]))
  }

  /** Erasing a node rewrites its parent and nothing else. */
  lemma {:induction false} RemoveIsPut(root: Json, path: Tokens)
    requires path != [] && Get(root, path).Some?
    ensures var front := path[..|path| - 1];
            && Get(root, front).Some?
            && Lookup(Get(root, front).value, path[|path| - 1]).Some?
            && Put(root, front, Drop(Get(root, front).value, path[|path| - 1])) == Some(Remove(root, path))
    decreases |path|
  {
    if |path| > 1 {
      var child := Lookup(root, path[0]).value;
      RemoveIsPut(child, path[1..]);
      assert path[..|path| - 1][1..] == path[1..][..|path| - 2];
      StoreLaws(root, path[0], child, child);
    }
  }

  /** What an erased path leads to afterwards: nothing, or the array item that moved up. */
  lemma GetRemoved(root: Json, path: Tokens)
    requires path != [] && Get(root, path).Some?
    ensures var front := path[..|path| - 1];
            && Get(root, front).Some?
            && Lookup(Get(root, front).value, path[|path| - 1]).Some?
            && Get(Remove(root, path), path) ==
              match Get(root, front).value
              case Arr(items) =>
                var i := Index(path[|path| - 1]).value;
                if i + 1 < |items| then Some(items[i + 1]) else None
              case _ => None
  {
    var front, last := path[..|path| - 1], path[|path| - 1];
    RemoveIsPut(root, path);
    var node := Get(root, front).value;
    PutGet(root, front, Drop(node, last));
    assert path == front + [last];
    GetAppend(Remove(root, path), front, [last]);
    assert Get(Drop(node, last), [last]) == Lookup(Drop(node, last), last);
  }

  /** Erasing leaves alone every path that parts from the erased one above its last token. */
  lemma {:induction false} RemoveFrame(root: Json, path: Tokens, q: Tokens)
    requires path != [] && Get(root, path).Some? && !Comparable(path[..|path| - 1], q)
    ensures Get(Remove(root, path), q) == Get(root, q)
  {
    var front := path[..|path| - 1];
    RemoveIsPut(root, path);
    PutFrame(root, front, Drop(Get(root, front).value, path[|path| - 1]), q);
    NotPadded(root, front, q);
  }

  /** A path that already leads somewhere pads no array. */
  lemma {:induction false} NotPadded(root: Json, p: Tokens, q: Tokens)
    requires Get(root, p).Some?
    ensures !Padded(root, p, q)
  {
    if 0 < |q| <= |p| {
      var k := |q| - 1;
      assert p[..k] + p[k..] == p;
      GetAppend(root, p[..k], p[k..]);
    }
  }

  /** In an object, erasing a member leaves alone every path that does not run through it. */
  lemma {:induction false} RemoveMemberFrame(root: Json, path: Tokens, q: Tokens)
    requires path != [] && Get(root, path).Some? && !Comparable(path, q)
    requires Get(root, path[..|path| - 1]).Some? && Get(root, path[..|path| - 1]).value.Obj?
    ensures Get(Remove(root, path), q) == Get(root, q)
  {
    var front, last := path[..|path| - 1], path[|path| - 1];
    if Comparable(front, q) {
      assert q <= front ==> q <= path;
      var rest := q[|front|..];
      assert q == front + rest;
      assert rest[0] == last ==> path <= q;
      RemoveIsPut(root, path);
      var node := Get(root, front).value;
      PutGet(root, front, Drop(node, last));
      GetAppend(root, front, rest);
      GetAppend(Remove(root, path), front, rest);
      assert Lookup(Drop(node, last), rest[0]) == Lookup(node, rest[0]);
    } else {
      RemoveFrame(root, path, q);
    }
  }

  /**
   * In an array, erasing an item moves up the items behind it: a path through an earlier item reads
   * as before, one through index j from there on reads what index j + 1 held.
   */
  lemma {:induction false} RemoveItemShifts(root: Json, path: Tokens, t: string, next: string, rest: Tokens)
    requires path != [] && Get(root, path).Some?
    requires Get(root, path[..|path| - 1]).Some? && Get(root, path[..|path| - 1]).value.Arr?
    requires Index(t).Some? && Index(next) == Some(Index(t).value + 1)
    ensures Index(path[|path| - 1]).Some?
    ensures var front := path[..|path| - 1];
            Get(Remove(root, path), front + [t] + rest) ==
              if Index(t).value < Index(path[|path| - 1]).value then Get(root, front + [t] + rest)
              else Get(root, front + [next] + rest)
  {
    var front, last := path[..|path| - 1], path[|path| - 1];
    RemoveIsPut(root, path);
    var node := Get(root, front).value;
    var dropped := Drop(node, last);
    PutGet(root, front, dropped);
    GetAppend(Remove(root, path), front, [t] + rest);
    GetAppend(root, front, [t] + rest);
    GetAppend(root, front, [next] + rest);
    assert front + [t] + rest == front + ([t] + rest) && front + [next] + rest == front + ([next] + rest);
    var i, j := Index(last).value, Index(t).value;
    assert |dropped.items| == |node.items| - 1;
    assert Lookup(dropped, t) == if j < i then Lookup(node, t) else Lookup(node, next);
    assert ([t] + rest)[1..] == rest && ([next] + rest)[1..] == rest;
    hide Put, Remove, Drop, Lookup;
  }

  /** Writing to an existing node rewrites its parent. */
  lemma {:induction false} PutAtParent(root: Json, path: Tokens, v: Json)
    requires path != [] && Get(root, path).Some?
    ensures var front := path[..|path| - 1];
            && Get(root, front).Some?
            && Lookup(Get(root, front).value, path[|path| - 1]).Some?
            && Put(root, path, v) == Put(root, front, Store(Get(root, front).value, path[|path| - 1], v))
    decreases |path|
  {
    var child := Lookup(root, path[0]).value;
    StoreLaws(root, path[0], child, child);
    if |path| > 1 {
      PutAtParent(child, path[1..], v);
      assert path[..|path| - 1][1..] == path[1..][..|path| - 2];
    } else {
      assert path[1..] == [];
    }
  }
}
