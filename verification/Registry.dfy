/** The JSON registry: reading, writing and erasing by dotted path. */
module Registry {
  import opened Sequences
  import opened JsonTrees
  import opened JsonPaths
  import opened Documents
  import Pointers

  /** The pointer text of a registry path: dots count as slashes. */
  function Normalize(path: string): (r: string)
    ensures |r| == |path|
  {
    seq(|path|, i requires 0 <= i < |path| => if path[i] == '.' then '/' else path[i])
  }

  function PathOf(path: string): Tokens {
    Pointers.Tokens(Normalize(path), '/')
  }

  /** A write to p that reads back as v and leaves alone every path that does not meet p. */
  ghost predicate WritesOnly(before: Json, after: Json, p: Tokens, v: Json) {
    && Get(after, p) == Some(v)
    && forall q :: !Comparable(p, q) ==>
         Get(after, q) == if Padded(before, p, q) then Some(Null) else Get(before, q)
  }

  lemma {:induction false} PutWritesOnly(before: Json, p: Tokens, v: Json)
    requires Put(before, p, v).Some?
    ensures WritesOnly(before, Put(before, p, v).value, p, v)
  {
    PutGet(before, p, v);
    forall q | !Comparable(p, q)
      ensures Get(Put(before, p, v).value, q) == if Padded(before, p, q) then Some(Null) else Get(before, q)
    {
      PutFrame(before, p, v, q);
    }
  }

  /**
   * Creating a path and erasing its end undoes itself exactly when the container was there and is
   * an object, or an array that ended right before the erased index.
   */
  lemma {:induction false} EraseMissing(root: Json, path: Tokens)
    requires Get(root, path).None? && Ensure(root, path).Some?
    ensures path != [] && Get(Ensure(root, path).value, path).Some?
    ensures Remove(Ensure(root, path).value, path) == root
       <==> match Get(root, path[..|path| - 1])
            case Some(Obj(_)) => true
            case Some(Arr(items)) => Index(path[|path| - 1]) == Some(|items|)
            case _ => false
  {
    EnsurePut(root, path, Null);
    if Get(root, path[..|path| - 1]).Some? {
      EraseInContainer(root, path);
      DropSlot(Get(root, path[..|path| - 1]).value, path[|path| - 1]);
    } else {
      var made := Ensure(root, path).value;
      RemoveIsPut(made, path);
      PutGet(made, path[..|path| - 1], Drop(Get(made, path[..|path| - 1]).value, path[|path| - 1]));
    }
  }

  /** The failing side on one input: unsetting a.b in an empty document leaves the object a behind. */
  lemma {:induction false} UnsetLeavesContainer()
    ensures var made := Ensure(EMPTY_OBJECT, ["a", "b"]);
            && made.Some? && Get(made.value, ["a", "b"]).Some?
            && Remove(made.value, ["a", "b"]) == Obj(map["a" := EMPTY_OBJECT]) != EMPTY_OBJECT
  {
    var path: Tokens := ["a", "b"];
    assert path[1..] == ["b"] && ["b"][1..] == [];
    var inner, bare := Obj(map["b" := EMPTY_OBJECT]), Obj(map["a" := EMPTY_OBJECT]);
    var made := Obj(map["a" := inner]);
    assert WithSlot(EMPTY_OBJECT, "b") == Some(inner) && Lookup(inner, "b") == Some(EMPTY_OBJECT);
    assert Store(inner, "b", EMPTY_OBJECT) == inner;
    assert Ensure(EMPTY_OBJECT, ["b"]) == Some(inner);
    assert WithSlot(EMPTY_OBJECT, "a") == Some(bare) && Lookup(bare, "a") == Some(EMPTY_OBJECT);
    assert Store(bare, "a", inner) == made;
    assert Ensure(EMPTY_OBJECT, path) == Some(made);
    assert Lookup(made, "a") == Some(inner);
    assert Get(inner, ["b"]) == Some(EMPTY_OBJECT);
    assert map["b" := EMPTY_OBJECT] - {"b"} == map[];
    assert Remove(inner, ["b"]) == EMPTY_OBJECT;
    assert Store(made, "a", EMPTY_OBJECT) == bare;
    assert "a" in bare.fields;
  }

  /** When the container is there, all that can change is the container. */
  lemma {:induction false} EraseInContainer(root: Json, path: Tokens)
    requires path != [] && Get(root, path).None? && Ensure(root, path).Some?
    requires Get(root, path[..|path| - 1]).Some?
    ensures Get(Ensure(root, path).value, path).Some?
    ensures var node, last := Get(root, path[..|path| - 1]).value, path[|path| - 1];
            && Lookup(node, last).None? && WithSlot(node, last).Some?
            && Lookup(WithSlot(node, last).value, last).Some?
            && (Remove(Ensure(root, path).value, path) == root <==> Drop(WithSlot(node, last).value, last) == node)
  {
    EnsurePut(root, path, Null);
    var made := Ensure(root, path).value;
    var front, last := path[..|path| - 1], path[|path| - 1];
    assert path == front + [last] && path[..|path|] == path;
    RemoveIsPut(made, path);
    var node := Get(root, front).value;
    GetAppend(root, front, [last]);
    EnsureStep(root, path, |path| - 1);
    var slotted := WithSlot(node, last).value;
    var next := Put(root, front, slotted).value;
    GetPut(next, path);
    assert made == next;
    SlotLaws(node, last);
    var dropped := Drop(slotted, last);
    PutPut(root, front, slotted, dropped);
    PutGet(root, front, dropped);
    GetPut(root, front);
    hide Put, Ensure, Remove, Drop, WithSlot;
  }

  lemma DropSlot(node: Json, token: string)
    requires Lookup(node, token).None? && WithSlot(node, token).Some?
    ensures Lookup(WithSlot(node, token).value, token).Some?
    ensures Drop(WithSlot(node, token).value, token) == node
       <==> node.Obj? || (node.Arr? && Index(token) == Some(|node.items|))
  {
    if node.Obj? {
      assert node.fields[token := EMPTY_OBJECT] - {token} == node.fields;
    } else if node.Arr? {
      var i := Index(token).value;
      var items := WithSlot(node, token).value.items;
      assert |items[..i] + items[i + 1..]| == i;
      if i == |node.items| {
        assert items[..i] + items[i + 1..] == node.items;
      }
    }
  }

  /** A name that stands for itself in a registry path. */
  predicate IsPlain(name: string) {
    Pointers.IsName(name, '/') && '.' !in name
  }

  lemma {:induction false} NormalizeJoined(names: Tokens)
    requires forall k :: 0 <= k < |names| ==> IsPlain(names[k])
    ensures Normalize(Pointers.Joined(names, '.')) == Pointers.Joined(names, '/')
  {
    if names != [] {
      NormalizeJoined(names[1..]);
      assert IsPlain(names[0]);
    }
  }

  /** The registry path made of plain names and dots is the list of the names. */
  lemma {:induction false} DottedNames(names: Tokens)
    requires forall k :: 0 <= k < |names| ==> IsPlain(names[k])
    ensures PathOf(Pointers.Joined(names, '.')) == names
  {
    NormalizeJoined(names);
    Pointers.NamesPath(names, '/');
  }

  /** A dotted path that ends in a number leads to the array item at that position. */
  lemma {:induction false} DottedItem(root: Json, names: Tokens, items: seq<Json>, i: nat)
    requires forall k :: 0 <= k < |names| ==> IsPlain(names[k])
    requires Get(root, names) == Some(Arr(items)) && i < |items| && i < SIZE_LIMIT
    ensures Get(root, PathOf(Pointers.Joined(names + [Printed(i)], '.'))) == Some(items[i])
  {
    PrintedIs(i);
    assert IsPlain(Printed(i));
    DottedNames(names + [Printed(i)]);
    assert ItemAt(items, Printed(i), i, items[i]);
    ChildExactly(root, names, Printed(i), items[i]);
  }

  /** A new registry in which a.b has been unset. */
  method UnsetOnNew() returns (root: Json)
    ensures root == Obj(map["a" := EMPTY_OBJECT])
  {
    var registry := new JsonRegistry();
    assert ["a", "b"][1..] == ["b"] && Pointers.Joined(["a", "b"], '.') == "a.b";
    DottedNames(["a", "b"]);
    UnsetLeavesContainer();
    registry.SetOption("a.b", None);
    root := registry.doc.root;
  }

  class JsonRegistry {
    const doc: Document

    constructor ()
      ensures fresh(doc) && doc.root == EMPTY_OBJECT
    {
      doc := new Document(EMPTY_OBJECT);
    }

    method GetJson(path: string) returns (v: Option<Json>)
      modifies doc
      ensures doc.root == old(doc.root) && v == Get(doc.root, PathOf(path))
    {
      var normalized := Normalize(path);
      if normalized == [] {
        return Some(doc.root);
      }
      var loc := doc.Locate(normalized, '/', false);
      if loc.node.None? {
        return None;
      }
      v := At(doc.root, loc.node.value);
    }

    /** Writes v at the path; refuses, changing nothing in an object, when the path is blocked. */
    method SetJson(path: string, v: Json) returns (ok: bool)
      modifies doc
      ensures var before := if old(doc.root).Obj? then old(doc.root) else Obj(map[]);
              && (ok <==> forall k :: !BlockedAt(before, PathOf(path), k))
              && (ok ==> WritesOnly(before, doc.root, PathOf(path), v))
              && (ok ==> Put(before, PathOf(path), v) == Some(doc.root))
              && (!ok ==> doc.root == before)
    {
      if !doc.root.Obj? {
        doc.root := EMPTY_OBJECT;
      }
      ghost var base := doc.root;
      ghost var tokens := PathOf(path);
      EnsureFailsIffBlocked(base, tokens);
      EnsurePut(base, tokens, v);
      if Put(base, tokens, v).Some? {
        PutWritesOnly(base, tokens, v);
      }
      var normalized := Normalize(path);
      if normalized == [] {
        doc.root := v;
        return true;
      }
      var loc := doc.Locate(normalized, '/', true);
      if loc.node.None? {
        return false;
      }
      DenotesDereferenceable(doc.root, tokens, loc);
      var r := doc.Set(loc, v);
      ok := true;
    }

    /** Writes or erases the node at a path; erasing first creates what is missing. */
    method SetOption(path: string, value: Option<Json>)
      modifies doc
      ensures var tokens := PathOf(path);
              var made := Ensure(old(doc.root), tokens);
              if path == [] || made.None? then doc.root == old(doc.root)
              else if value.Some? then
                && Put(old(doc.root), tokens, value.value) == Some(doc.root)
                && WritesOnly(old(doc.root), doc.root, tokens, value.value)
              else
                Get(made.value, tokens).Some? && doc.root == Remove(made.value, tokens)
    {
      var normalized := Normalize(path);
      if normalized == [] {
        return;
      }
      ghost var tokens, base := PathOf(path), doc.root;
      EnsurePut(base, tokens, if value.Some? then value.value else Null);
      if value.Some? && Put(base, tokens, value.value).Some? {
        PutWritesOnly(base, tokens, value.value);
      }
      var loc := doc.Locate(normalized, '/', true);
      if loc.node.None? {
        return;
      }
      DenotesDereferenceable(doc.root, tokens, loc);
      if value.Some? {
        var r := doc.Set(loc, value.value);
      } else {
        var removed := doc.Erase(loc);
      }
    }

    /** Erases what is at the path, unless that is nothing or null. */
    method DelTree(path: string) returns (ok: bool)
      modifies doc
      ensures ok <==> Get(old(doc.root), PathOf(path)) !in {None, Some(Null)}
      ensures doc.root == if ok then Remove(old(doc.root), PathOf(path)) else old(doc.root)
    {
      var loc := doc.Locate(Normalize(path), '/', false);
      ghost var tokens := PathOf(path);
      if loc.node.Some? {
        AddressLaws(doc.root, tokens, Null);
        assert tokens[..|tokens|] == tokens;
      }
      if loc.node.None? || At(doc.root, loc.node.value).value.Null? {
        return false;
      }
      DenotesDereferenceable(doc.root, tokens, loc);
      var removed := doc.Erase(loc);
      ok := true;
    }
  }
}
