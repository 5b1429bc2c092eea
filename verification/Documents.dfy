/** A JSON document that is navigated and changed in place through located nodes. */
module Documents {
  import opened Sequences
  import opened JsonTrees
  import opened JsonPaths
  import Pointers

  /** One pointer step inside a document. */
  datatype Step = Field(key: string) | Item(index: nat)

  /** Where a node sits in the document: what a pointer to the node denotes. */
  type Address = seq<Step>

  function Child(node: Json, step: Step): Option<Json> {
    match (node, step)
    case (Obj(fields), Field(key)) => if key in fields then Some(fields[key]) else None
    case (Arr(items), Item(index)) => if index < |items| then Some(items[index]) else None
    case _ => None
  }

  function WithChild(node: Json, step: Step, child: Json): Json
    requires Child(node, step).Some?
  {
    match step
    case Field(key) => Obj(node.fields[key := child])
    case Item(index) => Arr(node.items[index := child])
  }

  /** The node at an address. */
  function At(root: Json, address: Address): Option<Json>
    decreases |address|
  {
    if address == [] then Some(root)
    else match Child(root, address[0])
         case Some(child) => At(child, address[1..])
         case None => None
  }

  /** The document with the node at an address overwritten. */
  function Write(root: Json, address: Address, v: Json): Json
    requires At(root, address).Some?
    decreases |address|
  {
    if address == [] then v
    else WithChild(root, address[0], Write(Child(root, address[0]).value, address[1..], v))
  }

  function StepOf(node: Json, token: string): Step
    requires Lookup(node, token).Some?
  {
    if node.Obj? then Field(token) else Item(Index(token).value)
  }

  /** The address of the node that a token path leads to. */
  function AddressOf(root: Json, path: Tokens): Address
    requires Get(root, path).Some?
    decreases |path|
  {
    if path == [] then []
    else [StepOf(root, path[0])] + AddressOf(Lookup(root, path[0]).value, path[1..])
  }

  lemma {:induction false} AddressLaws(root: Json, path: Tokens, v: Json)
    requires Get(root, path).Some?
    ensures At(root, AddressOf(root, path)) == Get(root, path)
    ensures Put(root, path, v) == Some(Write(root, AddressOf(root, path), v))
    decreases |path|
  {
    if path != [] {
      var child := Lookup(root, path[0]).value;
      AddressLaws(child, path[1..], v);
      StoreLaws(root, path[0], child, child);
      assert AddressOf(root, path)[1..] == AddressOf(child, path[1..]);
    }
  }

  lemma {:induction false} AddressStep(root: Json, path: Tokens, i: nat)
    requires i < |path| && Get(root, path[..i + 1]).Some?
    ensures Get(root, path[..i]).Some? && Lookup(Get(root, path[..i]).value, path[i]).Some?
    ensures AddressOf(root, path[..i + 1])
         == AddressOf(root, path[..i]) + [StepOf(Get(root, path[..i]).value, path[i])]
    decreases i
  {
    if i == 0 {
      assert path[..1][1..] == [];
    } else {
      assert path[..i][1..] == path[1..][..i - 1] && path[..i + 1][1..] == path[1..][..i];
      AddressStep(Lookup(root, path[0]).value, path[1..], i - 1);
    }
  }

  /** Putting something back under an existing path does not move the path. */
  lemma {:induction false} AddressKept(root: Json, path: Tokens, v: Json)
    requires Get(root, path).Some? && Put(root, path, v).Some?
    requires Get(Put(root, path, v).value, path).Some?
    ensures AddressOf(Put(root, path, v).value, path) == AddressOf(root, path)
    decreases |path|
  {
    if path != [] {
      var child := Lookup(root, path[0]).value;
      StoreLaws(root, path[0], child, child);
      StoreLaws(root, path[0], Put(child, path[1..], v).value, child);
      AddressKept(child, path[1..], v);
    }
  }

  /**
   * The result of a search: the last container entered, the token and index tried in it, and
   * the node found there. A location without a parent denotes the root.
   */
  datatype Location = Location(parent: Option<Address>, key: string, index: nat, node: Option<Address>)

  /** What the index field holds after the token has been tried on the node. */
  function IndexTried(node: Json, token: string): nat {
    if node.Arr? && FromChars(token).Some? then FromChars(token).value.0 else 0
  }

  /** The location for the first i tokens of a path, of which all but the last lead to a node. */
  ghost predicate Stands(root: Json, path: Tokens, i: nat, loc: Location) {
    && i <= |path|
    && if i == 0 then loc == Location(None, "", 0, Some([]))
       else
         && Get(root, path[..i - 1]).Some?
         && var node := Get(root, path[..i - 1]).value;
            && loc.parent == Some(AddressOf(root, path[..i - 1]))
            && loc.key == path[i - 1]
            && loc.index == IndexTried(node, path[i - 1])
            && (loc.node.Some? <==> Get(root, path[..i]).Some?)
            && (loc.node.Some? ==> loc.node.value == AddressOf(root, path[..i]))
  }

  /** The location is the result of following the whole path, as far as it leads. */
  ghost predicate Denotes(root: Json, path: Tokens, loc: Location) {
    && (exists i :: Stands(root, path, i, loc))
    && (loc.node.Some? <==> Get(root, path).Some?)
    && (loc.node.Some? ==> Stands(root, path, |path|, loc))
  }

  /** The node of a location is what the path leads to. */
  lemma {:induction false} FoundAt(root: Json, path: Tokens, loc: Location)
    requires Denotes(root, path, loc)
    ensures Get(root, path) == if loc.node.Some? then At(root, loc.node.value) else None
  {
    if loc.node.Some? {
      AddressLaws(root, path, Null);
      assert path[..|path|] == path;
    }
  }

  /** The document after a search: with create, whatever can be created has been. */
  function Located(root: Json, path: Tokens, create: bool): Json {
    if create && Ensure(root, path).Some? then Ensure(root, path).value else root
  }

  /** All pointers of the location lead to nodes of the document. */
  ghost predicate Dereferenceable(root: Json, loc: Location) {
    && (loc.parent.Some? ==> At(root, loc.parent.value).Some?)
    && (loc.node.Some? ==> At(root, loc.node.value).Some?)
  }

  /** What setting a value does, for every state a location can be in: Failed is an exception. */
  datatype SetResult = Replaced(old_: Json) | Inserted | Failed

  /** The document after a set through the location; None where the set throws. */
  function SetAt(root: Json, loc: Location, v: Json): Option<Json>
    requires loc.parent.Some? ==> At(root, loc.parent.value).Some?
    requires loc.node.Some? ==> At(root, loc.node.value).Some?
  {
    match loc.parent
    case None => if loc.node.Some? then Some(Write(root, loc.node.value, v)) else None
    case Some(parent) =>
      (match At(root, parent).value
       case Obj(fields) => Some(Write(root, parent, Obj(fields[loc.key := v])))
       case Arr(items) =>
         if loc.index < |items| then Some(Write(root, parent, Arr(items[loc.index := v]))) else None
       case _ => None)
  }

  /** The document after an erase through the location; None where nothing is erased. */
  function EraseAt(root: Json, loc: Location): Option<Json>
    requires loc.parent.Some? ==> At(root, loc.parent.value).Some?
    requires loc.node.Some? ==> At(root, loc.node.value).Some?
  {
    match loc.parent
    case None => if loc.node.Some? then Some(Write(root, loc.node.value, Null)) else None
    case Some(parent) =>
      (match At(root, parent).value
       case Obj(fields) =>
         if loc.key in fields then Some(Write(root, parent, Obj(fields - {loc.key}))) else None
       case Arr(items) =>
         if loc.index < |items| then
           Some(Write(root, parent, Arr(items[..loc.index] + items[loc.index + 1..])))
         else None
       case _ => None)
  }

  /** The pointers of a search result lead somewhere. */
  lemma DenotesDereferenceable(root: Json, path: Tokens, loc: Location)
    requires Denotes(root, path, loc)
    ensures Dereferenceable(root, loc)
  {
    if loc.node.Some? {
      AddressLaws(root, path, Null);
      assert path[..|path|] == path;
    }
    var i :| Stands(root, path, i, loc);
    if i > 0 {
      AddressLaws(root, path[..i - 1], Null);
    }
  }

  /** Setting through a location that was found at a path is a put at that path. */
  lemma {:induction false} SetIsPut(root: Json, path: Tokens, loc: Location, v: Json)
    requires Denotes(root, path, loc) && loc.node.Some?
    ensures Dereferenceable(root, loc)
    ensures SetAt(root, loc, v) == Put(root, path, v)
    ensures Put(root, path, v) == Some(Write(root, loc.node.value, v))
  {
    DenotesDereferenceable(root, path, loc);
    assert path[..|path|] == path;
    AddressLaws(root, path, v);
    if path != [] {
      var front := path[..|path| - 1];
      PutAtParent(root, path, v);
      AddressLaws(root, front, Store(Get(root, front).value, path[|path| - 1], v));
    }
  }

  /** Erasing through a location that was found at a path is a removal at that path. */
  lemma {:induction false} EraseIsRemove(root: Json, path: Tokens, loc: Location)
    requires Denotes(root, path, loc) && loc.node.Some?
    ensures Dereferenceable(root, loc)
    ensures EraseAt(root, loc) == Some(Remove(root, path))
  {
    DenotesDereferenceable(root, path, loc);
    assert path[..|path|] == path;
    if path != [] {
      var front := path[..|path| - 1];
      RemoveIsPut(root, path);
      AddressLaws(root, front, Drop(Get(root, front).value, path[|path| - 1]));
    }
  }

  // ---- locations whose node was not found ----

  /**
   * What is left of a document when a value is set through a location that stopped after i tokens
   * without finding a node; None where the set throws. In an object the value goes where the search
   * stopped, in an array over the item whose index was left behind by a token that is no index.
   */
  function SetMissed(root: Json, path: Tokens, i: nat, index: nat, v: Json): Option<Json>
    requires 0 < i <= |path| && Get(root, path[..i - 1]).Some?
  {
    match Get(root, path[..i - 1]).value
    case Obj(_) => Put(root, path[..i], v)
    case Arr(items) =>
      if Index(path[i - 1]).None? && index < |items| then Put(root, path[..i - 1], Arr(items[index := v])) else None
    case _ => None
  }

  /** Likewise for erasing: nothing in an object, but in an array the item at the index left behind. */
  function EraseMissed(root: Json, path: Tokens, i: nat, index: nat): Option<Json>
    requires 0 < i <= |path| && Get(root, path[..i - 1]).Some?
  {
    match Get(root, path[..i - 1]).value
    case Arr(items) =>
      if Index(path[i - 1]).None? && index < |items| then
        Put(root, path[..i - 1], Arr(items[..index] + items[index + 1..]))
      else None
    case _ => None
  }

  lemma {:induction false} MissedParent(root: Json, path: Tokens, i: nat, loc: Location)
    requires Stands(root, path, i, loc) && loc.node.None?
    ensures i > 0 && Dereferenceable(root, loc)
    ensures At(root, loc.parent.value) == Get(root, path[..i - 1])
    ensures var node := Get(root, path[..i - 1]).value;
            && Lookup(node, path[i - 1]).None?
            && Get(root, path[..i]).None?
            && (node.Arr? && Index(path[i - 1]).Some? ==> |node.items| <= loc.index)
  {
    assert i > 0;
    var front := path[..i - 1];
    AddressLaws(root, front, Null);
    assert path[..i] == front + [path[i - 1]];
    GetAppend(root, front, [path[i - 1]]);
    assert Get(Get(root, front).value, [path[i - 1]]) == Lookup(Get(root, front).value, path[i - 1]);
  }

  /** What setting and erasing through a location without a node really do, in terms of paths. */
  lemma {:induction false} MissedIs(root: Json, path: Tokens, i: nat, loc: Location, v: Json)
    requires Stands(root, path, i, loc) && loc.node.None?
    ensures i > 0 && Dereferenceable(root, loc)
    ensures SetAt(root, loc, v) == SetMissed(root, path, i, loc.index, v)
    ensures EraseAt(root, loc) == EraseMissed(root, path, i, loc.index)
  {
    MissedParent(root, path, i, loc);
    var front, token := path[..i - 1], path[i - 1];
    var node := Get(root, front).value;
    match node {
      case Obj(fields) =>
        var made := Obj(fields[token := v]);
        AddressLaws(root, front, made);
        PutBelow(root, front, token, v);
        assert path[..i] == front + [token];
      case Arr(items) =>
        if loc.index < |items| {
          AddressLaws(root, front, Arr(items[loc.index := v]));
          AddressLaws(root, front, Arr(items[..loc.index] + items[loc.index + 1..]));
        }
      case _ =>
    }
  }

  /** Putting a new member into an object rewrites the object. */
  lemma {:induction false} PutBelow(root: Json, front: Tokens, token: string, v: Json)
    requires Get(root, front).Some? && Get(root, front).value.Obj?
    ensures Put(root, front + [token], v) == Put(root, front, Obj(Get(root, front).value.fields[token := v]))
    decreases |front|
  {
    if front == [] {
      assert [token][1..] == [] && front + [token] == [token];
      SlotLaws(root, token);
      var made := WithSlot(root, token).value;
      assert Store(made, token, v) == Obj(root.fields[token := v]);
    } else {
      assert (front + [token])[1..] == front[1..] + [token];
      PutBelow(Lookup(root, front[0]).value, front[1..], token, v);
      StoreLaws(root, front[0], Lookup(root, front[0]).value, Null);
    }
  }

  /** Where a search stopped, a put fails exactly at an array with a token that is no index. */
  lemma {:induction false} PutPast(root: Json, path: Tokens, i: nat, v: Json)
    requires 0 < i <= |path| && Get(root, path[..i - 1]).Some? && Get(root, path[..i]).None?
    ensures Put(root, path, v).None?
       <==> Get(root, path[..i - 1]).value.Arr? && Index(path[i - 1]).None?
  {
    EnsureFailsIffBlocked(root, path);
    EnsurePut(root, path, v);
    forall k: nat | BlockedAt(root, path, k)
      ensures k == i - 1
    {
      if k >= i {
        assert path[..k] == path[..i] + path[i..k];
        GetAppend(root, path[..i], path[i..k]);
      } else if k < i - 1 {
        assert path[..i - 1] == path[..k] + path[k..i - 1];
        GetAppend(root, path[..k], path[k..i - 1]);
      }
    }
    if Get(root, path[..i - 1]).value.Arr? && Index(path[i - 1]).None? {
      assert BlockedAt(root, path, i - 1);
    }
  }

  /**
   * Setting through a location without a node does what putting at the path would exactly in two
   * cases: the search stopped at the last token in an object, or both fail at an array.
   */
  lemma {:induction false} MissedSetExactly(root: Json, path: Tokens, i: nat, loc: Location)
    requires Stands(root, path, i, loc) && loc.node.None?
    ensures i > 0 && Dereferenceable(root, loc)
    ensures (forall v :: SetAt(root, loc, v) == Put(root, path, v))
       <==> match Get(root, path[..i - 1]).value
            case Obj(_) => i == |path|
            case Arr(items) => Index(path[i - 1]).None? && |items| <= loc.index
            case _ => false
  {
    MissedParent(root, path, i, loc);
    forall v
      ensures SetAt(root, loc, v) == SetMissed(root, path, i, loc.index, v)
      ensures Put(root, path, v).None? <==> Get(root, path[..i - 1]).value.Arr? && Index(path[i - 1]).None?
    {
      MissedIs(root, path, i, loc, v);
      PutPast(root, path, i, v);
    }
    var node := Get(root, path[..i - 1]).value;
    if node.Obj? {
      if i < |path| {
        assert path[..i][..i - 1] == path[..i - 1] && path[..i][..i] == path[..i];
        PutPast(root, path[..i], i, Null);
        ShorterPut(root, path, i);
      } else {
        assert path[..i] == path;
      }
    } else {
      assert SetAt(root, loc, Null) == SetMissed(root, path, i, loc.index, Null);
      if node.Arr? && Index(path[i - 1]).None? && loc.index < |node.items| {
        GetPut(root, path[..i - 1]);
        EnsurePut(root, path[..i - 1], Arr(node.items[loc.index := Null]));
      }
    }
  }

  /** Putting null at a proper prefix of a path is not putting null at the path. */
  lemma {:induction false} ShorterPut(root: Json, path: Tokens, i: nat)
    requires i < |path| && Put(root, path[..i], Null).Some?
    ensures Put(root, path, Null) != Put(root, path[..i], Null)
  {
    PutGet(root, path[..i], Null);
    if Put(root, path, Null).Some? {
      PutGet(root, path, Null);
      var after := Put(root, path, Null).value;
      assert path == path[..i] + path[i..];
      GetAppend(after, path[..i], path[i..]);
      assert Get(Null, path[i..]) == None;
    }
  }

  /** One array and a token that is no index: the location left behind points at another item. */
  lemma {:induction false} WrongItem(v: Json)
    ensures var root, loc := Arr([Number(1), Number(2)]), Location(Some([]), "x", 0, None);
            && Denotes(root, ["x"], loc) && Dereferenceable(root, loc)
            && SetAt(root, loc, v) == Some(Arr([v, Number(2)]))
            && EraseAt(root, loc) == Some(Arr([Number(2)]))
            && Put(root, ["x"], v) == None
  {
    var root, path: Tokens, loc := Arr([Number(1), Number(2)]), ["x"], Location(Some([]), "x", 0, None);
    assert path[..0] == [] && path[..1] == path && path[1..] == [];
    assert Lookup(root, "x") == None && Get(root, path) == None;
    assert Stands(root, path, 1, loc);
    assert root.items[0 := v] == [v, Number(2)];
    assert root.items[..0] + root.items[1..] == [Number(2)];
  }

  /** An empty object and a path of two tokens: the value is inserted at the first. */
  lemma {:induction false} InsertedAbove(v: Json)
    ensures var root, loc := EMPTY_OBJECT, Location(Some([]), "a", 0, None);
            && Denotes(root, ["a", "b"], loc) && Dereferenceable(root, loc)
            && SetAt(root, loc, v) == Some(Obj(map["a" := v]))
  {
    var root, path: Tokens, loc := EMPTY_OBJECT, ["a", "b"], Location(Some([]), "a", 0, None);
    assert path[..0] == [] && path[..1] == ["a"] && ["a"][1..] == [];
    assert Lookup(root, "a") == None && Get(root, path) == None && Get(root, ["a"]) == None;
    assert Stands(root, path, 1, loc);
  }

  /** What the loop over the tokens knows after i of them. */
  ghost predicate Progress(root: Json, before: Json, path: Tokens, i: nat, create: bool, loc: Location) {
    && Stands(root, path, i, loc)
    && (create ==> Ensure(root, path) == Ensure(before, path))
    && (root != before ==> create && loc.node.Some? && Get(root, path[..i]).value in {Null, EMPTY_OBJECT})
    && (create && loc.node.None? ==> Ensure(before, path).None?)
  }

  /** Where the loop ends: at the end of the path or with nothing found. */
  lemma {:induction false} ProgressEnds(root: Json, before: Json, path: Tokens, i: nat, create: bool, loc: Location)
    requires i <= |path| && Progress(root, before, path, i, create, loc)
    requires loc.node.Some? ==> i == |path|
    requires loc.node.None? ==> i > 0
    ensures root == Located(before, path, create) && Denotes(root, path, loc)
    ensures create ==> (loc.node.Some? <==> Ensure(before, path).Some?)
  {
    assert Stands(root, path, i, loc);
    if loc.node.Some? {
      assert path[..i] == path;
      GetPut(root, path);
    } else {
      assert path == path[..i] + path[i..];
      GetAppend(root, path[..i], path[i..]);
    }
  }

  class Document {
    var root: Json

    constructor (root: Json)
      ensures this.root == root
    {
      this.root := root;
    }

    /** Tries one token on the node at an address, creating the child where that is asked for. */
    method Descend(parent: Address, token: string, create: bool) returns (loc: Location)
      requires At(root, parent).Some?
      modifies this
      ensures var node := At(old(root), parent).value;
              && loc.parent == Some(parent) && loc.key == token && loc.index == IndexTried(node, token)
              && if create && WithSlot(node, token).Some? then
                   && root == Write(old(root), parent, WithSlot(node, token).value)
                   && loc.node == Some(parent + [StepOf(WithSlot(node, token).value, token)])
                 else
                   && root == old(root)
                   && loc.node == if Lookup(node, token).Some? then Some(parent + [StepOf(node, token)]) else None
    {
      var node := At(root, parent).value;
      WriteSame(root, parent);
      if node.Obj? {
        if token !in node.fields {
          if !create {
            return Location(Some(parent), token, 0, None);
          }
          root := Write(root, parent, Obj(node.fields[token := EMPTY_OBJECT]));
        }
        return Location(Some(parent), token, 0, Some(parent + [Field(token)]));
      }
      if node.Arr? {
        var parsed := FromChars(token);
        if parsed.None? {
          return Location(Some(parent), token, 0, None);
        }
        var (index, used) := parsed.value;
        if used != |token| {
          return Location(Some(parent), token, index, None);
        }
        if |token| > 1 && token[0] == '0' {
          return Location(Some(parent), token, index, None);
        }
        if index >= |node.items| {
          if !create {
            return Location(Some(parent), token, index, None);
          }
          var items := node.items;
          while index >= |items|
            invariant items == node.items + Nulls(|items| - |node.items|)
            invariant |node.items| <= |items| <= index + 1
            decreases index - |items|
          {
            items := items + [Null];
          }
          root := Write(root, parent, Arr(items));
        }
        return Location(Some(parent), token, index, Some(parent + [Item(index)]));
      }
      if !create {
        return Location(Some(parent), token, 0, None);
      }
      root := Write(root, parent, Obj(map[token := EMPTY_OBJECT]));
      loc := Location(Some(parent), token, 0, Some(parent + [Field(token)]));
    }

    static lemma {:induction false} WriteSame(root: Json, address: Address)
      requires At(root, address).Some?
      ensures Write(root, address, At(root, address).value) == root
      decreases |address|
    {
      if address != [] {
        WriteSame(Child(root, address[0]).value, address[1..]);
        if root.Obj? {
          var key := address[0].key;
          assert root.fields[key := root.fields[key]] == root.fields;
        }
      }
    }

    /** One turn of the loop over the tokens. */
    method Advance(ghost before: Json, path: Tokens, i: nat, create: bool, loc: Location) returns (next: Location)
      requires i < |path| && loc.node.Some? && Progress(root, before, path, i, create, loc)
      modifies this
      ensures Progress(root, before, path, i + 1, create, next)
    {
      ghost var was := root;
      ghost var node := Get(root, path[..i]).value;
      AddressLaws(root, path[..i], node);
      GetPut(root, path[..i]);
      assert path[..i + 1][..i] == path[..i] && path[..i + 1] == path[..i] + [path[i]];
      GetAppend(was, path[..i], [path[i]]);
      EnsureStep(was, path, i);
      next := Descend(loc.node.value, path[i], create);
      if create && WithSlot(node, path[i]).Some? {
        ghost var made := WithSlot(node, path[i]).value;
        AddressLaws(was, path[..i], made);
        AddressKept(was, path[..i], made);
        SlotLaws(node, path[i]);
        SlotIndex(node, path[i]);
      }
      if Get(root, path[..i + 1]).Some? {
        AddressStep(root, path, i);
      }
    }

    /**
     * Follows a path. With create, missing nodes are created on the way; a path that cannot be
     * created leaves the document unchanged.
     */
    method Locate(path: string, separator: char, create: bool) returns (loc: Location)
      modifies this
      ensures root == Located(old(root), Pointers.Tokens(path, separator), create)
      ensures Denotes(root, Pointers.Tokens(path, separator), loc)
      ensures Get(root, Pointers.Tokens(path, separator)) == if loc.node.Some? then At(root, loc.node.value) else None
      ensures create ==> (loc.node.Some? <==> Ensure(old(root), Pointers.Tokens(path, separator)).Some?)
    {
      ghost var before := root;
      Pointers.RootHasNoTokens(path, separator);
      if path == [] || (|path| == 1 && path[0] == separator) {
        loc := Location(None, "", 0, Some([]));
        assert Stands(root, [], 0, loc);
        FoundAt(root, [], loc);
        return;
      }
      var tokens := Pointers.Tokenize(path, separator);
      loc := Location(None, "", 0, Some([]));
      var i := 0;
      assert Progress(root, before, tokens, i, create, loc);
      hide Progress, Stands, Denotes, Located;
      while i < |tokens| && loc.node.Some?
        invariant i <= |tokens| && Progress(root, before, tokens, i, create, loc)
        invariant loc.node.None? ==> i > 0
      {
        loc := Advance(before, tokens, i, create, loc);
        i := i + 1;
      }
      ProgressEnds(root, before, tokens, i, create, loc);
      FoundAt(root, tokens, loc);
    }

    /** Stores a value through a location, in place of the located node. */
    method Set(loc: Location, v: Json) returns (r: SetResult)
      requires Dereferenceable(root, loc)
      modifies this
      ensures r.Failed? <==> SetAt(old(root), loc, v).None?
      ensures root == if r.Failed? then old(root) else SetAt(old(root), loc, v).value
      ensures forall path :: Denotes(old(root), path, loc) && loc.node.Some? ==>
                Put(old(root), path, v) == Some(root) && r == Replaced(Get(old(root), path).value)
      ensures forall path, i :: Stands(old(root), path, i, loc) && loc.node.None? ==>
                var after := SetMissed(old(root), path, i, loc.index, v);
                if after.None? then root == old(root) && r.Failed?
                else
                  && root == after.value
                  && match Get(old(root), path[..i - 1]).value
                     case Arr(items) => r == Replaced(items[loc.index])
                     case _ => r.Inserted?
    {
      forall path, i | Stands(root, path, i, loc) && loc.node.None?
        ensures i > 0 && Get(root, path[..i - 1]).Some?
        ensures SetAt(root, loc, v) == SetMissed(root, path, i, loc.index, v)
        ensures At(root, loc.parent.value) == Get(root, path[..i - 1])
        ensures Lookup(Get(root, path[..i - 1]).value, loc.key).None?
      {
        MissedIs(root, path, i, loc, v);
        MissedParent(root, path, i, loc);
      }
      forall path | Denotes(root, path, loc) && loc.node.Some?
        ensures SetAt(root, loc, v) == Put(root, path, v)
        ensures path != [] ==> Get(root, path) == Lookup(At(root, loc.parent.value).value, loc.key)
        ensures path != [] && At(root, loc.parent.value).value.Arr? ==> Index(loc.key) == Some(loc.index)
      {
        SetIsPut(root, path, loc, v);
        FoundInParent(root, path, loc);
      }
      if loc.parent.Some? {
        var parent := At(root, loc.parent.value).value;
        if parent.Obj? {
          r := if loc.key in parent.fields then Replaced(parent.fields[loc.key]) else Inserted;
          root := Write(root, loc.parent.value, Obj(parent.fields[loc.key := v]));
        } else if parent.Arr? {
          if loc.index >= |parent.items| {
            return Failed;
          }
          r := Replaced(parent.items[loc.index]);
          root := Write(root, loc.parent.value, Arr(parent.items[loc.index := v]));
        } else {
          r := Failed;
        }
      } else if loc.node.Some? {
        r := Replaced(At(root, loc.node.value).value);
        root := Write(root, loc.node.value, v);
      } else {
        r := Failed;
      }
    }

    /** Removes the located node from its container, or resets the root to null. */
    method Erase(loc: Location) returns (removed: Option<Json>)
      requires Dereferenceable(root, loc)
      modifies this
      ensures removed.None? <==> EraseAt(old(root), loc).None?
      ensures root == if removed.None? then old(root) else EraseAt(old(root), loc).value
      ensures forall path :: Denotes(old(root), path, loc) && loc.node.Some? ==>
                root == Remove(old(root), path) && removed == Get(old(root), path)
      ensures forall path, i :: Stands(old(root), path, i, loc) && loc.node.None? ==>
                var after := EraseMissed(old(root), path, i, loc.index);
                if after.None? then root == old(root) && removed.None?
                else root == after.value && removed == Some(Get(old(root), path[..i - 1]).value.items[loc.index])
    {
      forall path, i | Stands(root, path, i, loc) && loc.node.None?
        ensures i > 0 && Get(root, path[..i - 1]).Some?
        ensures EraseAt(root, loc) == EraseMissed(root, path, i, loc.index)
        ensures At(root, loc.parent.value) == Get(root, path[..i - 1])
      {
        MissedIs(root, path, i, loc, Null);
        MissedParent(root, path, i, loc);
      }
      forall path | Denotes(root, path, loc) && loc.node.Some?
        ensures EraseAt(root, loc) == Some(Remove(root, path))
        ensures path != [] ==> Get(root, path) == Lookup(At(root, loc.parent.value).value, loc.key)
        ensures path != [] && At(root, loc.parent.value).value.Arr? ==> Index(loc.key) == Some(loc.index)
      {
        EraseIsRemove(root, path, loc);
        FoundInParent(root, path, loc);
      }
      removed := None;
      if loc.parent.Some? {
        var parent := At(root, loc.parent.value).value;
        if parent.Obj? && loc.key in parent.fields {
          removed := Some(parent.fields[loc.key]);
          root := Write(root, loc.parent.value, Obj(parent.fields - {loc.key}));
        } else if parent.Arr? && loc.index < |parent.items| {
          removed := Some(parent.items[loc.index]);
          root := Write(root, loc.parent.value, Arr(parent.items[..loc.index] + parent.items[loc.index + 1..]));
        }
      } else if loc.node.Some? {
        removed := Some(At(root, loc.node.value).value);
        root := Write(root, loc.node.value, Null);
      }
    }
  }

  lemma {:induction false} FoundInParent(root: Json, path: Tokens, loc: Location)
    requires Denotes(root, path, loc) && loc.node.Some? && Dereferenceable(root, loc)
    ensures path == [] <==> loc.parent.None?
    ensures path == [] ==> At(root, loc.node.value) == Some(root)
    ensures path != [] ==>
              var parent := At(root, loc.parent.value).value;
              && Get(root, path) == Lookup(parent, loc.key)
              && (parent.Arr? ==> Index(loc.key) == Some(loc.index))
  {
    if path != [] {
      AddressLaws(root, path[..|path| - 1], Null);
      PutAtParent(root, path, Null);
      assert path == path[..|path| - 1] + [path[|path| - 1]];
      GetAppend(root, path[..|path| - 1], [path[|path| - 1]]);
    }
  }

  lemma SlotIndex(node: Json, token: string)
    requires WithSlot(node, token).Some?
    ensures IndexTried(WithSlot(node, token).value, token) == IndexTried(node, token)
  {
  }
}
