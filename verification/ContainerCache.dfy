/** The write-back cache of JSON containers in front of a store. */
module ContainerCache {
  import opened Sequences
  import opened JsonTrees
  import opened JsonPaths
  import opened Documents
  import Pointers

  function Find<K, V>(m: map<K, V>, k: K): Option<V> {
    if k in m then Some(m[k]) else None
  }

  /** Store contents, cached containers, and the dirty flag of every container seen. */
  datatype State = State(store: map<string, Json>, cache: map<string, Json>, dirty: map<string, bool>)

  datatype Op =
    | LoadContainer(container: string)
    | SaveContainer(container: string, value: Json)
    | RemoveContainer(container: string)
    | LoadFragment(container: string, fragment: string)
    | SaveFragment(container: string, fragment: string, value: Json)
    | RemoveFragment(container: string, fragment: string)
    | Flush
    | Clear

  datatype Reply = Found(value: Option<Json>) | Done(ok: bool)

  /** What a fragment shows of its container. */
  function Fragment(container: Option<Json>, fragment: string): Option<Json> {
    match container
    case None => None
    case Some(json) =>
      if fragment == [] then container
      else if json.Obj? || json.Arr? then Get(json, Pointers.Tokens(fragment, '/'))
      else None
  }

  // ---- the cache ----

  function Load(s: State, c: string): State {
    if c in s.cache then s
    else if c in s.store then s.(cache := s.cache[c := s.store[c]], dirty := s.dirty[c := false])
    else s.(cache := s.cache - {c}, dirty := s.dirty[c := false])
  }

  function Save(s: State, c: string, v: Json): State {
    State(s.store[c := v], s.cache[c := v], s.dirty[c := false])
  }

  /** Loads a container and makes it an object, writing an empty one through where it is none. */
  function LoadObject(s: State, c: string): (t: State)
    ensures c in t.cache && t.cache[c].Obj?
  {
    var loaded := Load(s, c);
    if c in loaded.cache && loaded.cache[c].Obj? then loaded else Save(loaded, c, EMPTY_OBJECT)
  }

  function Touch(s: State, c: string, v: Json): State {
    s.(cache := s.cache[c := v], dirty := s.dirty[c := true])
  }

  /** Drops a container from memory; the store keeps its own copy. */
  function Discard(s: State, c: string): State {
    s.(cache := s.cache - {c}, dirty := s.dirty - {c})
  }

  function PutFragment(s: State, c: string, fragment: string, v: Json): (State, bool) {
    if fragment == [] then (Save(s, c, v), true)
    else
      var ready := LoadObject(s, c);
      match Put(ready.cache[c], Pointers.Tokens(fragment, '/'), v)
      case Some(json) => (Touch(ready, c, json), true)
      case None => (ready, false)
  }

  function EraseFragment(s: State, c: string, fragment: string): (State, bool) {
    if fragment == [] then (Discard(s, c), c in s.cache)
    else
      var loaded := Load(s, c);
      var path := Pointers.Tokens(fragment, '/');
      if c in loaded.cache && loaded.cache[c].Obj? && Removable(loaded.cache[c], path) then
        (Touch(loaded, c, Remove(loaded.cache[c], path)), true)
      else (loaded, false)
  }

  /** Writes every cached container that is marked dirty and clears its mark. */
  function Flushed(s: State): State {
    State(s.store + map c | c in s.cache && c in s.dirty && s.dirty[c] :: s.cache[c],
          s.cache,
          map c | c in s.dirty :: s.dirty[c] && c !in s.cache)
  }

  function Step(s: State, op: Op): (State, Reply) {
    match op
    case LoadContainer(c) => (Load(s, c), Found(Find(Load(s, c).cache, c)))
    case SaveContainer(c, v) => (Save(s, c, v), Done(true))
    case RemoveContainer(c) => (Discard(s, c), Done(c in s.cache))
    case LoadFragment(c, fragment) => (Load(s, c), Found(Fragment(Find(Load(s, c).cache, c), fragment)))
    case SaveFragment(c, fragment, v) => var (t, ok) := PutFragment(s, c, fragment, v); (t, Done(ok))
    case RemoveFragment(c, fragment) => var (t, ok) := EraseFragment(s, c, fragment); (t, Done(ok))
    case Flush => (Flushed(s), Done(true))
    case Clear => (State(s.store, map[], map[]), Done(true))
  }

  /** A fragment can be removed when it leads below the root to something other than null. */
  predicate Removable(json: Json, path: Tokens) {
    path != [] && Get(json, path) !in {None, Some(Null)}
  }

  // ---- the reference: a current view over a store, without flags ----

  /** What callers see, what the store holds, and which containers are in memory. */
  datatype View = View(visible: map<string, Json>, store: map<string, Json>, resident: set<string>)

  function ViewLoad(a: View, c: string): View {
    if c in a.visible then a.(resident := a.resident + {c}) else a
  }

  function ViewSave(a: View, c: string, v: Json): View {
    View(a.visible[c := v], a.store[c := v], a.resident + {c})
  }

  function ViewLoadObject(a: View, c: string): (b: View)
    ensures c in b.visible
  {
    if c in a.visible && a.visible[c].Obj? then ViewLoad(a, c) else ViewSave(a, c, EMPTY_OBJECT)
  }

  function ViewDiscard(a: View, c: string): View {
    View(if c in a.store then a.visible[c := a.store[c]] else a.visible - {c}, a.store, a.resident - {c})
  }

  function ViewPutFragment(a: View, c: string, fragment: string, v: Json): (View, bool) {
    if fragment == [] then (ViewSave(a, c, v), true)
    else
      var ready := ViewLoadObject(a, c);
      match Put(ready.visible[c], Pointers.Tokens(fragment, '/'), v)
      case Some(json) => (ready.(visible := ready.visible[c := json]), true)
      case None => (ready, false)
  }

  function ViewEraseFragment(a: View, c: string, fragment: string): (View, bool) {
    if fragment == [] then (ViewDiscard(a, c), c in a.resident)
    else
      var path := Pointers.Tokens(fragment, '/');
      if c in a.visible && a.visible[c].Obj? && Removable(a.visible[c], path) then
        (ViewLoad(a, c).(visible := a.visible[c := Remove(a.visible[c], path)]), true)
      else (ViewLoad(a, c), false)
  }

  function ViewStep(a: View, op: Op): (View, Reply) {
    match op
    case LoadContainer(c) => (ViewLoad(a, c), Found(Find(a.visible, c)))
    case SaveContainer(c, v) => (ViewSave(a, c, v), Done(true))
    case RemoveContainer(c) => (ViewDiscard(a, c), Done(c in a.resident))
    case LoadFragment(c, fragment) => (ViewLoad(a, c), Found(Fragment(Find(a.visible, c), fragment)))
    case SaveFragment(c, fragment, v) => var (b, ok) := ViewPutFragment(a, c, fragment, v); (b, Done(ok))
    case RemoveFragment(c, fragment) => var (b, ok) := ViewEraseFragment(a, c, fragment); (b, Done(ok))
    case Flush => (a.(store := a.visible), Done(true))
    case Clear => (View(a.store, a.store, {}), Done(true))
  }

  function ViewOf(s: State): View {
    View(s.store + s.cache, s.store, s.cache.Keys)
  }

  /**
   * A cached container that is not marked dirty equals the store, and only cached containers
   * are marked dirty.
   */
  ghost predicate Coherent(s: State) {
    && (forall c :: c in s.cache ==> c in s.dirty)
    && (forall c :: c in s.cache && !s.dirty[c] ==> c in s.store && s.store[c] == s.cache[c])
    && (forall c :: c in s.dirty && s.dirty[c] ==> c in s.cache)
  }

  /** One operation keeps coherence, and callers cannot tell it from the reference. */
  lemma StepRefines(s: State, op: Op)
    requires Coherent(s)
    ensures Coherent(Step(s, op).0)
    ensures ViewOf(Step(s, op).0) == ViewStep(ViewOf(s), op).0
    ensures Step(s, op).1 == ViewStep(ViewOf(s), op).1
  {
    match op {
      case LoadContainer(c) => LoadRefines(s, c);
      case SaveContainer(c, v) => SaveRefines(s, c, v);
      case RemoveContainer(c) => DiscardRefines(s, c);
      case LoadFragment(c, fragment) => LoadRefines(s, c);
      case SaveFragment(c, fragment, v) => PutFragmentRefines(s, c, fragment, v);
      case RemoveFragment(c, fragment) => EraseFragmentRefines(s, c, fragment);
      case Flush => FlushRefines(s);
      case Clear => assert s.store + map[] == s.store;
    }
  }

  lemma LoadRefines(s: State, c: string)
    requires Coherent(s)
    ensures Coherent(Load(s, c)) && ViewOf(Load(s, c)) == ViewLoad(ViewOf(s), c)
    ensures Find(Load(s, c).cache, c) == Find(ViewOf(s).visible, c)
    ensures Load(s, c).store == s.store
  {
    if c !in s.cache {
      if c in s.store {
        assert s.store + s.cache[c := s.store[c]] == s.store + s.cache;
        assert s.cache[c := s.store[c]].Keys == s.cache.Keys + {c};
      } else {
        assert s.cache - {c} == s.cache;
      }
    }
  }

  lemma SaveRefines(s: State, c: string, v: Json)
    requires Coherent(s)
    ensures Coherent(Save(s, c, v)) && ViewOf(Save(s, c, v)) == ViewSave(ViewOf(s), c, v)
  {
    assert s.store[c := v] + s.cache[c := v] == (s.store + s.cache)[c := v];
  }

  lemma DiscardRefines(s: State, c: string)
    requires Coherent(s)
    ensures Coherent(Discard(s, c)) && ViewOf(Discard(s, c)) == ViewDiscard(ViewOf(s), c)
  {
    assert s.store + (s.cache - {c}) == ViewDiscard(ViewOf(s), c).visible;
  }

  lemma TouchRefines(s: State, c: string, v: Json)
    requires Coherent(s) && c in s.cache
    ensures Coherent(Touch(s, c, v))
    ensures ViewOf(Touch(s, c, v)) == ViewOf(s).(visible := ViewOf(s).visible[c := v])
  {
    assert s.store + s.cache[c := v] == (s.store + s.cache)[c := v];
    assert s.cache[c := v].Keys == s.cache.Keys;
  }

  lemma LoadObjectRefines(s: State, c: string)
    requires Coherent(s)
    ensures Coherent(LoadObject(s, c)) && ViewOf(LoadObject(s, c)) == ViewLoadObject(ViewOf(s), c)
    ensures LoadObject(s, c).cache[c] == ViewLoadObject(ViewOf(s), c).visible[c]
  {
    LoadRefines(s, c);
    SaveRefines(Load(s, c), c, EMPTY_OBJECT);
    hide Coherent;
  }

  lemma PutFragmentRefines(s: State, c: string, fragment: string, v: Json)
    requires Coherent(s)
    ensures var (t, ok) := PutFragment(s, c, fragment, v);
            Coherent(t) && (ViewOf(t), ok) == ViewPutFragment(ViewOf(s), c, fragment, v)
  {
    hide Coherent, Save, ViewSave, LoadObject, ViewLoadObject, Touch, Put, ViewOf;
    if fragment == [] {
      SaveRefines(s, c, v);
    } else {
      LoadObjectRefines(s, c);
      var ready := LoadObject(s, c);
      var put := Put(ready.cache[c], Pointers.Tokens(fragment, '/'), v);
      if put.Some? {
        TouchRefines(ready, c, put.value);
      }
    }
  }

  lemma EraseFragmentRefines(s: State, c: string, fragment: string)
    requires Coherent(s)
    ensures var (t, ok) := EraseFragment(s, c, fragment);
            Coherent(t) && (ViewOf(t), ok) == ViewEraseFragment(ViewOf(s), c, fragment)
  {
    DiscardRefines(s, c);
    LoadRefines(s, c);
    var loaded := Load(s, c);
    var path := Pointers.Tokens(fragment, '/');
    if c in loaded.cache && Removable(loaded.cache[c], path) {
      TouchRefines(loaded, c, Remove(loaded.cache[c], path));
    }
  }

  /** Writing only what is marked dirty brings the whole store up to date, and no mark is left. */
  lemma FlushRefines(s: State)
    requires Coherent(s)
    ensures Coherent(Flushed(s)) && ViewOf(Flushed(s)) == ViewOf(s).(store := ViewOf(s).visible)
    ensures Flushed(s).cache == s.cache
    ensures forall c :: c in Flushed(s).dirty ==> !Flushed(s).dirty[c]
  {
    var t := Flushed(s);
    assert t.store == s.store + s.cache;
    assert t.store + t.cache == t.store;
  }

  /** What a flush writes when the containers of todo are left out. */
  ghost function Written(s: State, todo: set<string>): map<string, Json> {
    map c | c in s.cache && c !in todo && c in s.dirty && s.dirty[c] :: s.cache[c]
  }

  ghost function Marks(s: State, todo: set<string>): map<string, bool> {
    map c | c in s.dirty :: s.dirty[c] && (c in todo || c !in s.cache)
  }

  /** The state when the containers of todo have yet to be flushed. */
  ghost function PartlyFlushed(s: State, todo: set<string>): State {
    State(s.store + Written(s, todo), s.cache, Marks(s, todo))
  }

  lemma FlushedExcept(s: State)
    ensures PartlyFlushed(s, s.dirty.Keys) == s && PartlyFlushed(s, {}) == Flushed(s)
  {
    assert s.store + Written(s, s.dirty.Keys) == s.store;
    assert Marks(s, s.dirty.Keys) == s.dirty;
    assert Marks(s, {}) == Flushed(s).dirty;
    assert Written(s, {}) == map c | c in s.cache && c in s.dirty && s.dirty[c] :: s.cache[c];
  }

  lemma FlushStep(s: State, todo: set<string>, c: string)
    requires c in todo && todo <= s.dirty.Keys
    ensures var t, u := PartlyFlushed(s, todo), PartlyFlushed(s, todo - {c});
            && c in t.dirty && t.dirty[c] == s.dirty[c] && t.cache == s.cache
            && u.cache == s.cache
            && u.dirty == t.dirty[c := s.dirty[c] && c !in s.cache]
            && u.store == if s.dirty[c] && c in s.cache then t.store[c := s.cache[c]] else t.store
  {
    MarksStep(s, todo, c);
    if s.dirty[c] && c in s.cache {
      assert Written(s, todo - {c}) == Written(s, todo)[c := s.cache[c]];
    } else {
      assert Written(s, todo - {c}) == Written(s, todo);
    }
    hide Written, Marks;
  }

  lemma MarksStep(s: State, todo: set<string>, c: string)
    requires c in todo && todo <= s.dirty.Keys
    ensures c in Marks(s, todo) && Marks(s, todo)[c] == s.dirty[c]
    ensures Marks(s, todo - {c}) == Marks(s, todo)[c := s.dirty[c] && c !in s.cache]
  {
  }

  // ---- whole runs ----

  function Run(s: State, ops: seq<Op>): (State, seq<Reply>)
    decreases |ops|
  {
    if ops == [] then (s, [])
    else
      var (next, reply) := Step(s, ops[0]);
      var (last, replies) := Run(next, ops[1..]);
      (last, [reply] + replies)
  }

  function ViewRun(a: View, ops: seq<Op>): (View, seq<Reply>)
    decreases |ops|
  {
    if ops == [] then (a, [])
    else
      var (next, reply) := ViewStep(a, ops[0]);
      var (last, replies) := ViewRun(next, ops[1..]);
      (last, [reply] + replies)
  }

  /** Every state a run reaches is coherent, and the whole run answers as the reference does. */
  lemma {:induction false} RunRefines(s: State, ops: seq<Op>)
    requires Coherent(s)
    ensures Coherent(Run(s, ops).0)
    ensures ViewOf(Run(s, ops).0) == ViewRun(ViewOf(s), ops).0
    ensures Run(s, ops).1 == ViewRun(ViewOf(s), ops).1
    decreases |ops|
  {
    if ops != [] {
      StepRefines(s, ops[0]);
      RunRefines(Step(s, ops[0]).0, ops[1..]);
    }
  }

  /** From a fresh cache: a flush after any run makes the store agree with everything callers see. */
  lemma {:induction false} FlushedRun(store: map<string, Json>, ops: seq<Op>)
    ensures var s := Run(State(store, map[], map[]), ops).0;
            var t := Flushed(s);
            && t.store == s.store + s.cache
            && (forall c :: c in t.cache ==> c in t.store && t.store[c] == t.cache[c])
            && (forall c :: c in t.dirty ==> !t.dirty[c])
  {
    RunRefines(State(store, map[], map[]), ops);
    FlushRefines(Run(State(store, map[], map[]), ops).0);
  }

  /** A fragment save into an object container writes that fragment and nothing else that callers see. */
  lemma {:induction false} PutFragmentFrame(a: View, c: string, fragment: string, v: Json, q: Tokens)
    requires fragment != [] && c in a.visible && a.visible[c].Obj?
    ensures var path := Pointers.Tokens(fragment, '/');
            var (b, ok) := ViewPutFragment(a, c, fragment, v);
            && b.store == a.store
            && b.visible - {c} == a.visible - {c}
            && (ok <==> forall k :: !BlockedAt(a.visible[c], path, k))
            && (!ok ==> b.visible == a.visible)
            && (ok ==> c in b.visible && Get(b.visible[c], path) == Some(v))
            && (ok && !Comparable(path, q) ==>
                  Get(b.visible[c], q)
                  == if Padded(a.visible[c], path, q) then Some(Null) else Get(a.visible[c], q))
  {
    var path := Pointers.Tokens(fragment, '/');
    var json := a.visible[c];
    EnsureFailsIffBlocked(json, path);
    EnsurePut(json, path, v);
    if Put(json, path, v).Some? {
      PutGet(json, path, v);
      if !Comparable(path, q) {
        PutFrame(json, path, v, q);
      }
    }
  }

  // ---- what a load replies ----

  /** The operation leaves the container alone: a load, a flush, or anything on another container. */
  predicate Spares(op: Op, c: string) {
    match op
    case SaveContainer(d, _) => d != c
    case RemoveContainer(d) => d != c
    case SaveFragment(d, _, _) => d != c
    case RemoveFragment(d, _) => d != c
    case Clear => false
    case _ => true
  }

  lemma {:induction false} SparedStays(a: View, ops: seq<Op>, c: string)
    requires forall k :: 0 <= k < |ops| ==> Spares(ops[k], c)
    ensures Find(ViewRun(a, ops).0.visible, c) == Find(a.visible, c)
    decreases |ops|
  {
    if ops != [] {
      assert Spares(ops[0], c);
      SparedStays(ViewStep(a, ops[0]).0, ops[1..], c);
    }
  }

  /** A load replies as the container that callers see, after any operations that spare it. */
  lemma {:induction false} LoadReply(s: State, ops: seq<Op>, c: string, fragment: string)
    requires Coherent(s) && forall k :: 0 <= k < |ops| ==> Spares(ops[k], c)
    ensures Step(Run(s, ops).0, LoadFragment(c, fragment)).1 == Found(Fragment(Find(ViewOf(s).visible, c), fragment))
  {
    RunRefines(s, ops);
    StepRefines(Run(s, ops).0, LoadFragment(c, fragment));
    SparedStays(ViewOf(s), ops, c);
    hide Coherent, ViewOf, Run, ViewRun, Fragment;
  }

  /** The object a fragment is written into: the container, or an empty one in its place. */
  function Base(a: View, c: string): Json {
    if c in a.visible && a.visible[c].Obj? then a.visible[c] else EMPTY_OBJECT
  }

  lemma {:induction false} ViewSaved(a: View, c: string, fragment: string, v: Json)
    requires ViewPutFragment(a, c, fragment, v).1
    ensures var b := ViewPutFragment(a, c, fragment, v).0.visible;
            && (forall d :: d != c ==> Find(b, d) == Find(a.visible, d))
            && Find(b, c) == if fragment == [] then Some(v) else Put(Base(a, c), Pointers.Tokens(fragment, '/'), v)
  {
    hide Put;
  }

  lemma {:induction false} SavedContainer(s: State, c: string, fragment: string, v: Json)
    requires Coherent(s) && PutFragment(s, c, fragment, v).1
    ensures var t := PutFragment(s, c, fragment, v).0;
            && Coherent(t)
            && (forall d :: d != c ==> Find(ViewOf(t).visible, d) == Find(ViewOf(s).visible, d))
            && Find(ViewOf(t).visible, c)
               == if fragment == [] then Some(v) else Put(Base(ViewOf(s), c), Pointers.Tokens(fragment, '/'), v)
  {
    hide Coherent, ViewOf, PutFragment, ViewPutFragment, Put, Base;
    PutFragmentRefines(s, c, fragment, v);
    ViewSaved(ViewOf(s), c, fragment, v);
  }

  /** The lone slash names the container but loads from objects and arrays only. */
  lemma {:induction false} FragmentOfPut(before: Json, fragment: string, v: Json)
    requires before.Obj? && fragment != [] && Put(before, Pointers.Tokens(fragment, '/'), v).Some?
    ensures Fragment(Put(before, Pointers.Tokens(fragment, '/'), v), fragment)
         == if fragment == "/" && !v.Obj? && !v.Arr? then None else Some(v)
  {
    Pointers.RootHasNoTokens(fragment, '/');
    PutGet(before, Pointers.Tokens(fragment, '/'), v);
    hide Pointers.Tokens;
  }

  /**
   * What a successful fragment save stored is what a load of the fragment replies, also after any
   * operations that spare the container. Only the lone slash, which names the container and loads
   * from objects and arrays alone, hides a scalar.
   */
  lemma {:induction false} SavedFragmentLoads(s: State, c: string, fragment: string, v: Json, ops: seq<Op>)
    requires Coherent(s) && forall k :: 0 <= k < |ops| ==> Spares(ops[k], c)
    ensures var (t, replies) := Run(s, [SaveFragment(c, fragment, v)] + ops);
            replies[0] == Done(true) ==>
              Step(t, LoadFragment(c, fragment)).1
              == Found(if fragment == "/" && !v.Obj? && !v.Arr? then None else Some(v))
  {
    var all := [SaveFragment(c, fragment, v)] + ops;
    assert all[1..] == ops;
    hide Coherent, ViewOf, PutFragment, Fragment, Put, Base;
    var (t, ok) := PutFragment(s, c, fragment, v);
    if ok {
      SavedContainer(s, c, fragment, v);
      LoadReply(t, ops, c, fragment);
      if fragment != [] {
        BaseIsObject(ViewOf(s), c);
        FragmentOfPut(Base(ViewOf(s), c), fragment, v);
      } else {
        FragmentWhole(v);
      }
    }
  }

  lemma BaseIsObject(a: View, c: string)
    ensures Base(a, c).Obj?
  {
  }

  lemma FragmentWhole(v: Json)
    ensures Fragment(Some(v), []) == Some(v)
  {
  }

  /**
   * A load of a fragment that neither contains the saved one nor lies in it replies as before the
   * save, the padding of a grown array aside; a container that was no object has lost what it was.
   */
  lemma {:induction false} OtherFragmentLoads(s: State, c: string, fragment: string, v: Json, other: string)
    requires Coherent(s) && PutFragment(s, c, fragment, v).1
    requires !Comparable(Pointers.Tokens(fragment, '/'), Pointers.Tokens(other, '/'))
    ensures var before, now := Find(ViewOf(s).visible, c), PutFragment(s, c, fragment, v).0;
            Step(now, LoadFragment(c, other)).1
            == if before.None? || !before.value.Obj? then Found(None)
               else if Padded(before.value, Pointers.Tokens(fragment, '/'), Pointers.Tokens(other, '/')) then
                 Found(Some(Null))
               else Step(s, LoadFragment(c, other)).1
  {
    var p, q := Pointers.Tokens(fragment, '/'), Pointers.Tokens(other, '/');
    var (t, ok) := PutFragment(s, c, fragment, v);
    SavedContainer(s, c, fragment, v);
    LoadReply(t, [], c, other);
    LoadReply(s, [], c, other);
    var json := Base(ViewOf(s), c);
    Pointers.RootHasNoTokens(fragment, '/');
    Pointers.RootHasNoTokens(other, '/');
    PutFrame(json, p, v, q);
    NothingInEmpty(p, q);
    hide Coherent, ViewOf, PutFragment, Pointers.Tokens, Padded;
  }

  lemma {:induction false} NothingInEmpty(p: Tokens, q: Tokens)
    requires p != [] && q != []
    ensures Get(EMPTY_OBJECT, q) == None && !Padded(EMPTY_OBJECT, p, q)
  {
    assert |q| > 1 ==> Get(EMPTY_OBJECT, q[..|q| - 1]).None?;
  }

  /** A save, of a fragment or a whole container, changes no reply about another container. */
  lemma {:induction false} OtherContainersLoad(s: State, c: string, fragment: string, v: Json, d: string, other: string)
    requires Coherent(s) && PutFragment(s, c, fragment, v).1 && d != c
    ensures Step(PutFragment(s, c, fragment, v).0, LoadFragment(d, other)).1 == Step(s, LoadFragment(d, other)).1
  {
    var (t, ok) := PutFragment(s, c, fragment, v);
    SavedContainer(s, c, fragment, v);
    LoadReply(t, [], d, other);
    LoadReply(s, [], d, other);
    hide Coherent, ViewOf, PutFragment, Fragment;
  }

  /** The load of a fragment made of names replies what the names lead to; an empty one the container. */
  lemma {:induction false} NamedFragmentLoads(s: State, c: string, names: Tokens)
    requires Coherent(s) && forall k :: 0 <= k < |names| ==> Pointers.IsName(names[k], '/')
    ensures var json := Find(ViewOf(s).visible, c);
            Step(s, LoadFragment(c, Pointers.Joined(names, '/'))).1
            == Found(if json.None? || names == [] then json else Get(json.value, names))
  {
    LoadReply(s, [], c, Pointers.Joined(names, '/'));
    Pointers.NamesPath(names, '/');
    hide Coherent, ViewOf, Pointers.Tokens, Pointers.IsName;
  }

  /** A number at the end of a fragment selects an array item by its position. */
  lemma {:induction false} ItemFragmentLoads(s: State, c: string, names: Tokens, items: seq<Json>, i: nat)
    requires Coherent(s) && forall k :: 0 <= k < |names| ==> Pointers.IsName(names[k], '/')
    requires c in ViewOf(s).visible && Get(ViewOf(s).visible[c], names) == Some(Arr(items))
    requires i < |items| && i < SIZE_LIMIT
    ensures Step(s, LoadFragment(c, Pointers.Joined(names + [Printed(i)], '/'))).1 == Found(Some(items[i]))
  {
    PrintedIs(i);
    assert Pointers.IsName(Printed(i), '/');
    NamedFragmentLoads(s, c, names + [Printed(i)]);
    assert ItemAt(items, Printed(i), i, items[i]);
    ChildExactly(ViewOf(s).visible[c], names, Printed(i), items[i]);
    hide Coherent, ViewOf, Pointers.Joined;
  }

  lemma {:induction false} RemovedStaysObject(json: Json, path: Tokens)
    requires json.Obj? && path != [] && Get(json, path).Some?
    ensures Remove(json, path).Obj?
    ensures var front := path[..|path| - 1];
            && Get(json, front).Some? && Lookup(Get(json, front).value, path[|path| - 1]).Some?
  {
    RemoveIsPut(json, path);
  }

  /** A removed fragment loads as nothing, or as the array item that moved up. */
  lemma {:induction false} RemovedFragmentLoads(s: State, c: string, fragment: string)
    requires Coherent(s) && fragment != [] && EraseFragment(s, c, fragment).1
    ensures var path, json := Pointers.Tokens(fragment, '/'), ViewOf(s).visible;
            && path != [] && c in json && Get(json[c], path).Some?
            && Step(EraseFragment(s, c, fragment).0, LoadFragment(c, fragment)).1
               == Found(match Get(json[c], path[..|path| - 1])
                        case Some(Arr(items)) =>
                          (match Index(path[|path| - 1])
                           case Some(i) => if i + 1 < |items| then Some(items[i + 1]) else None
                           case None => None)
                        case _ => None)
  {
    hide Coherent, ViewOf, EraseFragment, Pointers.Tokens, Remove, Get, Index;
    EraseFragmentRefines(s, c, fragment);
    var path, json := Pointers.Tokens(fragment, '/'), ViewOf(s).visible[c];
    var (t, ok) := EraseFragment(s, c, fragment);
    LoadReply(t, [], c, fragment);
    GetRemoved(json, path);
    RemovedStaysObject(json, path);
  }

  // ---- what the operations do to the store ----

  /** Removing a container shows callers the store's copy of it, and changes nothing else. */
  lemma DiscardShowsStore(a: View, c: string)
    ensures var b := ViewDiscard(a, c);
            && b.store == a.store
            && Find(b.visible, c) == Find(a.store, c)
            && (c !in b.visible <==> c !in a.store)
            && (forall d :: d != c ==> Find(b.visible, d) == Find(a.visible, d))
            && (b.visible == a.visible <==> Find(a.visible, c) == Find(a.store, c))
  {
    var b := ViewDiscard(a, c);
    if Find(a.visible, c) == Find(a.store, c) {
      assert b.visible == a.visible;
    }
  }

  /** A save into a container that is no object replaces it in the store; any other leaves the store alone. */
  lemma PutFragmentStores(a: View, c: string, fragment: string, v: Json)
    requires fragment != []
    ensures var (b, ok) := ViewPutFragment(a, c, fragment, v);
            var isObject := c in a.visible && a.visible[c].Obj?;
            && b.store == (if isObject then a.store else a.store[c := EMPTY_OBJECT])
            && (b.store == a.store <==> isObject || Find(a.store, c) == Some(EMPTY_OBJECT))
            && (!ok ==> isObject && b.visible == a.visible && b.store == a.store)
  {
    var path := Pointers.Tokens(fragment, '/');
    FreshNeverFails(EMPTY_OBJECT, path);
    EnsurePut(EMPTY_OBJECT, path, v);
    if Find(a.store, c) == Some(EMPTY_OBJECT) {
      assert a.store[c := EMPTY_OBJECT] == a.store;
    }
  }

  /**
   * The container manager. Every operation moves its state as the functions above say, and with
   * it what callers see as the reference does.
   */
  class ContainerManager {
    var store: map<string, Json>
    var cache: map<string, Json>
    var dirty: map<string, bool>

    ghost function Now(): State
      reads this
    {
      State(store, cache, dirty)
    }

    /** What callers see. */
    ghost function Seen(): View
      reads this
    {
      ViewOf(Now())
    }

    ghost predicate Valid()
      reads this
    {
      Coherent(Now())
    }

    constructor (store: map<string, Json>)
      ensures Valid() && Now() == State(store, map[], map[]) && Seen() == View(store, store, {})
    {
      this.store, cache, dirty := store, map[], map[];
      new;
      assert store + map[] == store;
    }

    method CacheLoadContainer(c: string) returns (v: Option<Json>)
      requires Valid()
      modifies this
      ensures Valid() && Now() == Load(old(Now()), c)
      ensures Seen() == ViewLoad(old(Seen()), c)
      ensures v == Find(cache, c) == Find(old(Seen()).visible, c)
    {
      LoadRefines(Now(), c);
      hide Coherent, ViewOf;
      if c in cache {
        return Some(cache[c]);
      }
      var value := Find(store, c);
      dirty := dirty[c := false];
      if value.Some? {
        cache := cache[c := value.value];
      } else {
        cache := cache - {c};
      }
      v := value;
    }

    /** Writes through: from the cache or after losing it, callers see v, and other containers as before. */
    method CacheSaveContainer(c: string, v: Json)
      requires Valid()
      modifies this
      ensures Valid() && Now() == Save(old(Now()), c, v)
      ensures forall d :: Find(Seen().visible, d) == if d == c then Some(v) else Find(old(Seen()).visible, d)
      ensures forall d :: Find(store, d) == if d == c then Some(v) else Find(old(store), d)
      ensures Seen() == ViewSave(old(Seen()), c, v)
    {
      SaveRefines(Now(), c, v);
      hide Coherent, ViewOf;
      store := store[c := v];
      cache := cache[c := v];
      dirty := dirty[c := false];
    }

    /**
     * Callers see the store's copy from now on; what they see stays the same exactly when a flush
     * would have left that copy as it is.
     */
    method CacheRemoveContainer(c: string) returns (removed: bool)
      requires Valid()
      modifies this
      ensures Valid() && Now() == Discard(old(Now()), c) && removed == (c in old(cache))
      ensures Seen() == ViewDiscard(old(Seen()), c) && store == old(store)
      ensures Find(Seen().visible, c) == Find(store, c)
      ensures forall d :: d != c ==> Find(Seen().visible, d) == Find(old(Seen()).visible, d)
      ensures Seen().visible == old(Seen()).visible <==> Find(Flushed(old(Now())).store, c) == Find(store, c)
    {
      DiscardRefines(Now(), c);
      DiscardShowsStore(Seen(), c);
      FlushRefines(Now());
      hide Coherent, ViewOf, Flushed, ViewDiscard;
      removed := c in cache;
      cache := cache - {c};
      dirty := dirty - {c};
    }

    method CacheLoadFragment(c: string, fragment: string) returns (v: Option<Json>)
      requires Valid()
      modifies this
      ensures Valid() && Now() == Load(old(Now()), c)
      ensures Seen() == ViewLoad(old(Seen()), c)
      ensures v == Fragment(Find(old(Seen()).visible, c), fragment)
    {
      hide Coherent, ViewOf;
      var json := CacheLoadContainer(c);
      if json.None? || fragment == [] {
        return json;
      }
      if !json.value.Obj? && !json.value.Arr? {
        return None;
      }
      v := ReadIn(json.value, fragment);
    }

    static method ReadIn(json: Json, fragment: string) returns (v: Option<Json>)
      ensures v == Get(json, Pointers.Tokens(fragment, '/'))
    {
      var doc := new Document(json);
      var loc := doc.Locate(fragment, '/', false);
      if loc.node.None? {
        return None;
      }
      v := At(doc.root, loc.node.value);
    }

    /** Follows a fragment inside the cached container, which is where missing nodes are created. */
    method LocateIn(c: string, fragment: string, create: bool) returns (loc: Location)
      requires c in cache
      modifies this`cache
      ensures var path := Pointers.Tokens(fragment, '/');
              && cache == old(cache)[c := Located(old(cache)[c], path, create)]
              && Denotes(cache[c], path, loc)
              && (create ==> (loc.node.Some? <==> Ensure(old(cache)[c], path).Some?))
    {
      var doc := new Document(cache[c]);
      loc := doc.Locate(fragment, '/', create);
      cache := cache[c := doc.root];
    }

    /**
     * Creates what a fragment needs inside the cached container and assigns to its end. Only
     * because creation is all or nothing does a refusal leave the container as it was.
     */
    method AssignIn(c: string, fragment: string, v: Json) returns (ok: bool)
      requires c in cache
      modifies this`cache
      ensures match Put(old(cache)[c], Pointers.Tokens(fragment, '/'), v)
              case Some(json) => ok && cache == old(cache)[c := json]
              case None => !ok && cache == old(cache)
    {
      ghost var json, path := cache[c], Pointers.Tokens(fragment, '/');
      EnsurePut(json, path, v);
      assert cache[c := json] == cache;
      hide Put, Ensure, Denotes;
      var target := LocateIn(c, fragment, true);
      if target.node.None? {
        return false;
      }
      SetIsPut(cache[c], path, target, v);
      cache := cache[c := Write(cache[c], target.node.value, v)];
      ok := true;
    }

    method CacheSaveFragment(c: string, fragment: string, v: Json) returns (ok: bool)
      requires Valid()
      modifies this
      ensures Valid() && (Now(), ok) == PutFragment(old(Now()), c, fragment, v)
      ensures (Seen(), ok) == ViewPutFragment(old(Seen()), c, fragment, v)
    {
      PutFragmentRefines(Now(), c, fragment, v);
      hide Coherent, ViewOf, Put, ViewPutFragment, LoadObject, Save;
      if fragment == [] {
        CacheSaveContainer(c, v);
        return true;
      }
      CacheLoadObject(c);
      ok := AssignIn(c, fragment, v);
      if ok {
        dirty := dirty[c := true];
      }
    }

    /** Loads a container, replacing it in the store by an empty object unless it is an object. */
    method CacheLoadObject(c: string)
      requires Valid()
      modifies this
      ensures Valid() && Now() == LoadObject(old(Now()), c)
    {
      var loaded := CacheLoadContainer(c);
      if loaded.None? {
        CacheSaveContainer(c, EMPTY_OBJECT);
        loaded := CacheLoadContainer(c);
      }
      if !loaded.value.Obj? {
        CacheSaveContainer(c, EMPTY_OBJECT);
        loaded := CacheLoadContainer(c);
      }
    }

    /** Erases what a fragment leads to from the object or array it sits in, unless that is null. */
    method EraseIn(c: string, fragment: string) returns (ok: bool)
      requires c in cache
      modifies this`cache
      ensures var json, path := old(cache)[c], Pointers.Tokens(fragment, '/');
              && ok == Removable(json, path)
              && cache == if ok then old(cache)[c := Remove(json, path)] else old(cache)
    {
      ghost var json, path := cache[c], Pointers.Tokens(fragment, '/');
      assert cache[c := json] == cache;
      var target := LocateIn(c, fragment, false);
      if target.node.None? {
        return false;
      }
      DenotesDereferenceable(json, path, target);
      FoundInParent(json, path, target);
      AddressLaws(json, path, Null);
      assert path[..|path|] == path;
      hide Dereferenceable, Remove;
      if At(cache[c], target.node.value).value.Null? || target.parent.None? {
        return false;
      }
      var doc := new Document(cache[c]);
      var removed := doc.Erase(target);
      cache := cache[c := doc.root];
      ok := true;
    }

    method CacheRemoveFragment(c: string, fragment: string) returns (ok: bool)
      requires Valid()
      modifies this
      ensures Valid() && (Now(), ok) == EraseFragment(old(Now()), c, fragment)
      ensures (Seen(), ok) == ViewEraseFragment(old(Seen()), c, fragment)
    {
      EraseFragmentRefines(Now(), c, fragment);
      hide Coherent, ViewOf, ViewEraseFragment, Removable, Load, Discard;
      if fragment == [] {
        ok := CacheRemoveContainer(c);
        return;
      }
      var loaded := CacheLoadContainer(c);
      if loaded.None? || !loaded.value.Obj? {
        return false;
      }
      ok := EraseIn(c, fragment);
      if ok {
        dirty := dirty[c := true];
      }
    }

    /** Writes one container if it is marked dirty and cached, and takes the mark off. */
    method FlushOne(c: string)
      requires c in dirty
      modifies this
      ensures cache == old(cache)
      ensures store == if old(dirty)[c] && c in cache then old(store)[c := cache[c]] else old(store)
      ensures dirty == old(dirty)[c := old(dirty)[c] && c !in cache]
    {
      if dirty[c] && c in cache {
        store := store[c := cache[c]];
        dirty := dirty[c := false];
      } else {
        assert dirty[c := dirty[c]] == dirty;
      }
    }

    method FlushCachedContainers()
      requires Valid()
      modifies this
      ensures Valid() && Now() == Flushed(old(Now()))
      ensures Seen() == old(Seen()).(store := old(Seen()).visible)
    {
      FlushRefines(Now());
      var todo := dirty.Keys;
      ghost var was := Now();
      FlushedExcept(was);
      hide PartlyFlushed, Flushed, Coherent, ViewOf;
      while todo != {}
        invariant todo <= was.dirty.Keys && dirty.Keys == was.dirty.Keys
        invariant Now() == PartlyFlushed(was, todo)
        decreases todo
      {
        var c :| c in todo;
        FlushStep(was, todo, c);
        FlushOne(c);
        todo := todo - {c};
      }
    }

    /**
     * Callers see the store from now on, and see no change exactly when a flush would have
     * written nothing new.
     */
    method CacheClear()
      requires Valid()
      modifies this
      ensures Valid() && Now() == State(old(store), map[], map[])
      ensures Seen() == View(store, store, {}) && store == old(store)
      ensures Seen().visible == old(Seen()).visible <==> Flushed(old(Now())).store == store
    {
      FlushRefines(Now());
      hide Flushed;
      cache, dirty := map[], map[];
      assert store + map[] == store;
    }
  }
}
