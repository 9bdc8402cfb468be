/**
 Configuration trees, paths into them, and the strict merge as a least upper bound.
 Path components are the dot-separated keys of the configuration language.
 */
module ConfigTree {
  import opened Prelude

  datatype Value = Scalar(text: string) | Array(items: seq<Value>) | Table(entries: map<string, Value>)

  type Tab = map<string, Value>
  type Path = seq<string>

  function At(t: Tab, key: string): Option<Value> {
    if key in t then Some(t[key]) else None
  }

  // ------------------------------------------------------------------------ paths

  /** The table at a key, empty when there is none. */
  function Inner(t: Tab, key: string): Tab {
    if key in t && t[key].Table? then t[key].entries else map[]
  }

  function Get(root: Tab, path: Path): Option<Value>
    requires path != []
    decreases |path|
  {
    if |path| == 1 then At(root, path[0]) else Get(Inner(root, path[0]), path[1..])
  }

  /** Nothing but tables on the way, so far as the path exists. */
  predicate Open(root: Tab, path: Path)
    requires path != []
    decreases |path|
  {
    |path| > 1 ==>
      (path[0] in root ==> root[path[0]].Table?) && Open(Inner(root, path[0]), path[1..])
  }

  /** `set_path`, creating missing tables; defined where it does not hit a scalar. */
  function Put(root: Tab, path: Path, v: Value): Tab
    requires path != [] && Open(root, path)
    decreases |path|
  {
    if |path| == 1 then root[path[0] := v]
    else root[path[0] := Table(Put(Inner(root, path[0]), path[1..], v))]
  }

  function Remove(root: Tab, path: Path): Tab
    requires path != []
    decreases |path|
  {
    if |path| == 1 then root - {path[0]}
    else match At(root, path[0])
      case Some(Table(inner)) => root[path[0] := Table(Remove(inner, path[1..]))]
      case _ => root
  }

  lemma {:induction false} GetOfPut(root: Tab, path: Path, v: Value)
    requires path != [] && Open(root, path)
    ensures Get(Put(root, path, v), path) == Some(v)
    decreases |path|
  {
    if |path| > 1 {
      GetOfPut(Inner(root, path[0]), path[1..], v);
    }
  }

  lemma {:induction false} PutOfSame(root: Tab, path: Path, v: Value)
    requires path != [] && Get(root, path) == Some(v)
    ensures Open(root, path) && Put(root, path, v) == root
    decreases |path|
  {
    if |path| > 1 {
      if Inner(root, path[0]) == map[] {
        EmptyHasNothing(path[1..]);
      }
      PutOfSame(Inner(root, path[0]), path[1..], v);
    }
  }

  lemma {:induction false} EmptyHasNothing(path: Path)
    requires path != []
    ensures Get(map[], path) == None
    decreases |path|
  {
    if |path| > 1 {
      EmptyHasNothing(path[1..]);
    }
  }

  lemma {:induction false} PutOfPut(root: Tab, path: Path, v: Value, w: Value)
    requires path != [] && Open(root, path)
    ensures Open(Put(root, path, v), path)
    ensures Put(Put(root, path, v), path, w) == Put(root, path, w)
    decreases |path|
  {
    if |path| > 1 {
      PutOfPut(Inner(root, path[0]), path[1..], v, w);
    }
  }

  /** A path below a table is reached through that table. */
  lemma {:induction false} BelowTable(root: Tab, path: Path, key: string, t: Tab)
    requires path != [] && Get(root, path) == Some(Table(t))
    ensures Open(root, path) && Open(root, path + [key])
    ensures Get(root, path + [key]) == At(t, key)
    ensures forall v :: Put(root, path + [key], v) == Put(root, path, Table(t[key := v]))
    decreases |path|
  {
    var longer := path + [key];
    assert longer[0] == path[0] && longer[1..] == path[1..] + [key];
    if |path| == 1 {
      assert longer[1..] == [key];
    } else {
      if Inner(root, path[0]) == map[] {
        EmptyHasNothing(path[1..]);
      }
      BelowTable(Inner(root, path[0]), path[1..], key, t);
    }
  }

  /** Neither path continues the other. */
  predicate Apart(p: Path, q: Path) {
    !(p <= q) && !(q <= p)
  }

  lemma ApartStep(p: Path, q: Path)
    requires p != [] && q != [] && p[0] == q[0] && Apart(p, q)
    ensures |p| > 1 && |q| > 1 && Apart(p[1..], q[1..])
  {
    assert p == [p[0]] + p[1..] && q == [q[0]] + q[1..];
  }

  /** Writing at one path leaves what stands apart from it. */
  lemma {:induction false} PutLeavesApart(root: Tab, path: Path, v: Value, q: Path)
    requires path != [] && q != [] && Open(root, path) && Apart(path, q)
    ensures Get(Put(root, path, v), q) == Get(root, q)
    decreases |path|
  {
    if path[0] == q[0] {
      ApartStep(path, q);
      PutLeavesApart(Inner(root, path[0]), path[1..], v, q[1..]);
    }
  }

  lemma {:induction false} RemoveLeavesApart(root: Tab, path: Path, q: Path)
    requires path != [] && q != [] && Apart(path, q)
    ensures Get(Remove(root, path), q) == Get(root, q)
    decreases |path|
  {
    if path[0] == q[0] {
      ApartStep(path, q);
      RemoveLeavesApart(Inner(root, path[0]), path[1..], q[1..]);
    }
  }

  lemma {:induction false} GetOfRemoved(root: Tab, path: Path)
    requires path != []
    ensures Get(Remove(root, path), path) == None
    decreases |path|
  {
    if |path| > 1 {
      EmptyHasNothing(path[1..]);
      if path[0] in root && root[path[0]].Table? {
        GetOfRemoved(root[path[0]].entries, path[1..]);
      }
    }
  }

  predicate IsLeaf(v: Option<Value>) {
    v.Some? && !v.value.Table?
  }

  /** Nothing can be read, written or removed below a value that is not a table. */
  lemma {:induction false} NothingBelowLeaf(root: Tab, q: Path, path: Path)
    requires q != [] && q < path && IsLeaf(Get(root, q))
    ensures Get(root, path).None? && !Open(root, path) && Remove(root, path) == root
    decreases |path|
  {
    if |q| == 1 {
      EmptyHasNothing(path[1..]);
    } else {
      if Inner(root, q[0]) == map[] {
        EmptyHasNothing(q[1..]);
      }
      NothingBelowLeaf(Inner(root, q[0]), q[1..], path[1..]);
    }
  }

  // ------------------------------------------------------------- the extension order

  /** `b` holds everything `a` holds, and agrees with it wherever `a` is not a table. */
  ghost predicate Extends(a: Value, b: Value) {
    if a.Table? && b.Table? then
      forall k :: k in a.entries ==> k in b.entries && Extends(a.entries[k], b.entries[k])
    else a == b
  }

  lemma {:induction false} ExtendsReflexive(a: Value)
    ensures Extends(a, a)
  {
    if a.Table? {
      forall k | k in a.entries
        ensures Extends(a.entries[k], a.entries[k])
      {
        ExtendsReflexive(a.entries[k]);
      }
    }
  }

  lemma {:induction false} ExtendsTransitive(a: Value, b: Value, c: Value)
    requires Extends(a, b) && Extends(b, c)
    ensures Extends(a, c)
    decreases a
  {
    if a.Table? && b.Table? {
      forall k | k in a.entries
        ensures k in c.entries && Extends(a.entries[k], c.entries[k])
      {
        ExtendsTransitive(a.entries[k], b.entries[k], c.entries[k]);
      }
    }
  }

  lemma {:induction false} ExtendsAntisymmetric(a: Value, b: Value)
    requires Extends(a, b) && Extends(b, a)
    ensures a == b
    decreases a
  {
    if a.Table? {
      forall k | k in a.entries
        ensures a.entries[k] == b.entries[k]
      {
        ExtendsAntisymmetric(a.entries[k], b.entries[k]);
      }
      assert a.entries == b.entries;
    }
  }

  /** What is read at a path survives in every extension. */
  lemma {:induction false} ExtensionKeepsLeaves(a: Tab, b: Tab, path: Path)
    requires path != [] && Extends(Table(a), Table(b)) && Get(a, path).Some?
    ensures Get(b, path).Some? && Extends(Get(a, path).value, Get(b, path).value)
    decreases |path|
  {
    if |path| > 1 {
      if Inner(a, path[0]) == map[] {
        EmptyHasNothing(path[1..]);
      }
      assert Extends(a[path[0]], b[path[0]]);
      ExtensionKeepsLeaves(Inner(a, path[0]), Inner(b, path[0]), path[1..]);
    }
  }

  /** Growing the value at a path grows the tree. */
  lemma {:induction false} PutExtends(root: Tab, path: Path, v: Value)
    requires path != [] && Open(root, path)
    requires Get(root, path).Some? ==> Extends(Get(root, path).value, v)
    ensures Extends(Table(root), Table(Put(root, path, v)))
    decreases |path|
  {
    if |path| > 1 {
      PutExtends(Inner(root, path[0]), path[1..], v);
    }
    var after := Put(root, path, v);
    forall k | k in root
      ensures k in after && Extends(root[k], after[k])
    {
      ExtendsReflexive(root[k]);
    }
  }

  // --------------------------------------------------------------- merging one value

  /**
   What merging `v` at `path` makes of the value `e` standing there: `None` for a
   conflict, otherwise the new value, if any. Paths with an override are left alone.
   */
  function Join(e: Option<Value>, v: Value, path: Path, overridden: set<Path>, prefer: bool): (r: Option<Option<Value>>)
    decreases v, 1
  {
    if path in overridden then Some(e)
    else if e.None? then Some(Some(v))
    else if e.value.Table? && v.Table? then
      var m := e.value.entries;
      if forall k :: k in v.entries ==> JoinSlot(m, v, k, path, overridden, prefer).Some? then
        Some(Some(Table(
          map k | k in m.Keys + v.entries.Keys && JoinSlot(m, v, k, path, overridden, prefer).value.Some?
            :: JoinSlot(m, v, k, path, overridden, prefer).value.value)))
      else None
    else if e.value == v then Some(e)
    else if prefer then Some(Some(v))
    else None
  }

  /** The merge of one key of two tables. */
  function JoinSlot(m: Tab, v: Value, key: string, path: Path, overridden: set<Path>, prefer: bool): (r: Option<Option<Value>>)
    requires v.Table?
    ensures key !in v.entries ==> r == Some(At(m, key))
    decreases v, 0
  {
    if key in v.entries then Join(At(m, key), v.entries[key], path + [key], overridden, prefer)
    else Some(At(m, key))
  }

  /** Reading one key of a merged table. */
  lemma JoinedSlot(m: Tab, v: Value, key: string, path: Path, overridden: set<Path>, prefer: bool)
    requires v.Table? && path !in overridden
    requires Join(Some(Table(m)), v, path, overridden, prefer).Some?
    ensures Join(Some(Table(m)), v, path, overridden, prefer).value.Some?
    ensures Join(Some(Table(m)), v, path, overridden, prefer).value.value.Table?
    ensures JoinSlot(m, v, key, path, overridden, prefer)
         == Some(At(Join(Some(Table(m)), v, path, overridden, prefer).value.value.entries, key))
  {
    if key !in v.entries && key !in m {
      assert JoinSlot(m, v, key, path, overridden, prefer) == Some(None);
    }
  }

  /** Without the prefer policy a merge only adds: the old value is extended. */
  lemma {:induction false} JoinExtendsOld(a: Value, v: Value, path: Path, overridden: set<Path>)
    requires Join(Some(a), v, path, overridden, false).Some?
    ensures Join(Some(a), v, path, overridden, false).value.Some?
    ensures Extends(a, Join(Some(a), v, path, overridden, false).value.value)
    decreases v
  {
    ExtendsReflexive(a);
    if path !in overridden && a.Table? && v.Table? {
      var m := a.entries;
      var c := Join(Some(a), v, path, overridden, false).value.value;
      forall k | k in m
        ensures k in c.entries && Extends(m[k], c.entries[k])
      {
        JoinedSlot(m, v, k, path, overridden, false);
        ExtendsReflexive(m[k]);
        if k in v.entries {
          JoinExtendsOld(m[k], v.entries[k], path + [k], overridden);
        }
      }
    }
  }

  /** Without overrides a merge also holds everything that came in, preferred or not. */
  lemma {:induction false} JoinExtendsNew(e: Option<Value>, v: Value, path: Path, prefer: bool)
    requires Join(e, v, path, {}, prefer).Some?
    ensures Join(e, v, path, {}, prefer).value.Some?
    ensures Extends(v, Join(e, v, path, {}, prefer).value.value)
    decreases v
  {
    ExtendsReflexive(v);
    if e.Some? && e.value.Table? && v.Table? {
      var m := e.value.entries;
      var c := Join(e, v, path, {}, prefer).value.value;
      forall k | k in v.entries
        ensures k in c.entries && Extends(v.entries[k], c.entries[k])
      {
        JoinedSlot(m, v, k, path, {}, prefer);
        JoinExtendsNew(At(m, k), v.entries[k], path + [k], prefer);
      }
    }
  }

  /** Any common extension proves the merge possible, and extends its result. */
  lemma {:induction false} JoinIsLeast(a: Value, v: Value, path: Path, d: Value)
    requires Extends(a, d) && Extends(v, d)
    ensures Join(Some(a), v, path, {}, false).Some?
    ensures Join(Some(a), v, path, {}, false).value.Some?
    ensures Extends(Join(Some(a), v, path, {}, false).value.value, d)
    decreases v
  {
    if a.Table? && v.Table? {
      var m := a.entries;
      forall k | k in m.Keys + v.entries.Keys
        ensures SlotBelow(JoinSlot(m, v, k, path, {}, false), d, k)
      {
        if k in v.entries && k in m {
          JoinIsLeast(m[k], v.entries[k], path + [k], d.entries[k]);
        }
      }
      assert forall k :: k in v.entries ==> SlotBelow(JoinSlot(m, v, k, path, {}, false), d, k);
      var c := Join(Some(a), v, path, {}, false).value.value;
      forall k | k in c.entries
        ensures k in d.entries && Extends(c.entries[k], d.entries[k])
      {
        JoinedSlot(m, v, k, path, {}, false);
        assert SlotBelow(JoinSlot(m, v, k, path, {}, false), d, k);
      }
    }
  }

  ghost predicate SlotBelow(slot: Option<Option<Value>>, d: Value, key: string)
    requires d.Table?
  {
    slot.Some? && (slot.value.Some? ==> key in d.entries && Extends(slot.value.value, d.entries[key]))
  }

  /** No path holds two different values, unless both are tables. */
  ghost predicate Agree(a: Value, b: Value) {
    if a.Table? && b.Table? then
      forall k :: k in a.entries && k in b.entries ==> Agree(a.entries[k], b.entries[k])
    else a == b
  }

  /** Without overrides and preferences a merge succeeds exactly where the trees agree. */
  lemma {:induction false} JoinSucceedsIffAgree(a: Value, v: Value, path: Path)
    ensures Join(Some(a), v, path, {}, false).Some? <==> Agree(a, v)
    decreases v
  {
    if a.Table? && v.Table? {
      forall k | k in v.entries
        ensures JoinSlot(a.entries, v, k, path, {}, false).Some? <==>
                  (k in a.entries ==> Agree(a.entries[k], v.entries[k]))
      {
        if k in a.entries {
          JoinSucceedsIffAgree(a.entries[k], v.entries[k], path + [k]);
        }
      }
    }
  }

  // ---------------------------------------------------- which leaves a merge leaves

  /** Neither the path nor an enclosing table has an override. */
  predicate IsNotOverridden(overridden: set<Path>, path: Path) {
    forall p :: p in overridden ==> !(p <= path)
  }

  /** A preferring merge never meets a conflict. */
  lemma {:induction false} PreferringAlwaysJoins(e: Option<Value>, v: Value, path: Path, overridden: set<Path>)
    ensures Join(e, v, path, overridden, true).Some?
    decreases v
  {
    if e.Some? && e.value.Table? && v.Table? {
      forall k | k in v.entries
        ensures JoinSlot(e.value.entries, v, k, path, overridden, true).Some?
      {
        PreferringAlwaysJoins(At(e.value.entries, k), v.entries[k], path + [k], overridden);
      }
    }
  }

  /** Where a merge succeeds, preferring or not, every incoming leaf stands, unless an override owns it. */
  lemma {:induction false} IncomingLeafStands(m: Tab, v: Tab, path: Path, overridden: set<Path>, prefer: bool, after: Tab, q: Path)
    requires Join(Some(Table(m)), Table(v), path, overridden, prefer) == Some(Some(Table(after)))
    requires q != [] && IsLeaf(Get(v, q)) && IsNotOverridden(overridden, path + q)
    ensures Get(after, q) == Get(v, q)
    decreases |q|
  {
    var k := q[0];
    assert path <= path + q;
    JoinedSlot(m, Table(v), k, path, overridden, prefer);
    assert path + [k] <= path + q;
    if |q| > 1 {
      if Inner(v, k) == map[] {
        EmptyHasNothing(q[1..]);
      }
      if k in m && m[k].Table? {
        assert path + [k] + q[1..] == path + q;
        IncomingLeafStands(m[k].entries, v[k].entries, path + [k], overridden, prefer, after[k].entries, q[1..]);
      }
    }
  }

  /** Every old leaf stands that the incoming table neither holds nor passes over. */
  lemma {:induction false} OtherLeafStands(m: Tab, v: Tab, path: Path, overridden: set<Path>, prefer: bool, after: Tab, q: Path)
    requires Join(Some(Table(m)), Table(v), path, overridden, prefer) == Some(Some(Table(after)))
    requires q != [] && IsLeaf(Get(m, q)) && Open(v, q) && Get(v, q).None?
    ensures Get(after, q) == Get(m, q)
    decreases |q|
  {
    var k := q[0];
    if path !in overridden {
      JoinedSlot(m, Table(v), k, path, overridden, prefer);
      if |q| > 1 {
        if Inner(m, k) == map[] {
          EmptyHasNothing(q[1..]);
        }
        if k in v {
          OtherLeafStands(m[k].entries, v[k].entries, path + [k], overridden, prefer, after[k].entries, q[1..]);
        }
      }
    }
  }

  // ------------------------------------------------------------------- merging lists

  ghost predicate IsUpperBound(d: Value, a: Value, incoming: seq<Value>) {
    Extends(a, d) && forall v :: v in incoming ==> Extends(v, d)
  }

  /** The smallest tree that extends both. */
  ghost predicate IsLeastExtension(a: Value, b: Value, c: Value) {
    Extends(a, c) && Extends(b, c) && forall d :: Extends(a, d) && Extends(b, d) ==> Extends(c, d)
  }

  lemma StrictJoinIsLeast(a: Value, v: Value)
    requires Agree(a, v)
    ensures Join(Some(a), v, [], {}, false).Some? && Join(Some(a), v, [], {}, false).value.Some?
    ensures IsLeastExtension(a, v, Join(Some(a), v, [], {}, false).value.value)
  {
    JoinSucceedsIffAgree(a, v, []);
    JoinExtendsOld(a, v, [], {});
    JoinExtendsNew(Some(a), v, [], false);
    forall d | Extends(a, d) && Extends(v, d)
      ensures Extends(Join(Some(a), v, [], {}, false).value.value, d)
    {
      JoinIsLeast(a, v, [], d);
    }
  }

  /** Strict merging of whole tables, one after the other. */
  function MergeAll(a: Value, incoming: seq<Value>): Option<Value>
    decreases |incoming|
  {
    if incoming == [] then Some(a)
    else match Join(Some(a), incoming[0], [], {}, false)
      case Some(Some(next)) => MergeAll(next, incoming[1..])
      case _ => None
  }

  lemma {:induction false} MergeAllIsUpper(a: Value, incoming: seq<Value>)
    requires MergeAll(a, incoming).Some?
    ensures IsUpperBound(MergeAll(a, incoming).value, a, incoming)
    decreases |incoming|
  {
    if incoming == [] {
      ExtendsReflexive(a);
    } else {
      var next := Join(Some(a), incoming[0], [], {}, false).value.value;
      var c := MergeAll(a, incoming).value;
      MergeAllIsUpper(next, incoming[1..]);
      JoinExtendsOld(a, incoming[0], [], {});
      JoinExtendsNew(Some(a), incoming[0], [], false);
      ExtendsTransitive(a, next, c);
      ExtendsTransitive(incoming[0], next, c);
      forall v | v in incoming
        ensures Extends(v, c)
      {
        assert v == incoming[0] || v in incoming[1..];
      }
    }
  }

  lemma {:induction false} MergeAllIsLeast(a: Value, incoming: seq<Value>, d: Value)
    requires IsUpperBound(d, a, incoming)
    ensures MergeAll(a, incoming).Some? && Extends(MergeAll(a, incoming).value, d)
    decreases |incoming|
  {
    if incoming != [] {
      assert incoming[0] in incoming;
      JoinIsLeast(a, incoming[0], [], d);
      var next := Join(Some(a), incoming[0], [], {}, false).value.value;
      assert forall v :: v in incoming[1..] ==> v in incoming;
      MergeAllIsLeast(next, incoming[1..], d);
    }
  }

  /**
   Strict merging is a least upper bound: a list of tables merges exactly when some
   tree extends them all, and then the result is the smallest such tree.
   */
  lemma MergeIsLeastUpperBound(a: Value, incoming: seq<Value>)
    ensures MergeAll(a, incoming).Some? <==> exists d :: IsUpperBound(d, a, incoming)
    ensures MergeAll(a, incoming).Some? ==>
              && IsUpperBound(MergeAll(a, incoming).value, a, incoming)
              && forall d :: IsUpperBound(d, a, incoming) ==> Extends(MergeAll(a, incoming).value, d)
  {
    if MergeAll(a, incoming).Some? {
      MergeAllIsUpper(a, incoming);
    }
    forall d | IsUpperBound(d, a, incoming)
      ensures MergeAll(a, incoming).Some? && Extends(MergeAll(a, incoming).value, d)
    {
      MergeAllIsLeast(a, incoming, d);
    }
  }

  /** The order in which tables are merged, and repetitions among them, do not matter. */
  lemma MergeOrderIsIrrelevant(a: Value, incoming: seq<Value>, other: seq<Value>)
    requires forall v :: v in incoming <==> v in other
    ensures MergeAll(a, incoming) == MergeAll(a, other)
  {
    MergeIsLeastUpperBound(a, incoming);
    MergeIsLeastUpperBound(a, other);
    if MergeAll(a, incoming).Some? {
      assert IsUpperBound(MergeAll(a, incoming).value, a, other);
    }
    if MergeAll(a, other).Some? {
      assert IsUpperBound(MergeAll(a, other).value, a, incoming);
      ExtendsAntisymmetric(MergeAll(a, incoming).value, MergeAll(a, other).value);
    }
  }
}
