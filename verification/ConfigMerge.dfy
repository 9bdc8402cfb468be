/**
 The environment configuration merger (`MergedConfig`): a root table updated in
 place, path by path, under the trust rules of the profile source.
 */
module ConfigMerge {
  import opened Prelude
  import opened ProviderRule
  import opened ConfigTree
  import opened Actions

  /** A policy pattern: one path, or everything strictly below a prefix. */
  datatype Pattern = Exactly(path: Path) | Below(prefix: Path)

  predicate PatternMatches(pattern: Pattern, path: Path) {
    match pattern
    case Exactly(p) => p == path
    case Below(prefix) => prefix < path
  }

  datatype Policy = Policy(preferChild: bool, workspace: seq<Pattern>, cli: seq<Pattern>)

  predicate Allows(patterns: seq<Pattern>, path: Path) {
    exists p :: p in patterns && PatternMatches(p, path)
  }

  datatype MergeError =
    | ProviderNotDeclared
    | OverrideNotAllowed(path: Path)
    | Conflict(path: Path)
    | OnlyTrustedSources(section: string)
    | OverrideTypeMismatch(path: Path)
    | AddressesThroughScalar(path: Path)
    | InvalidPolicy

  datatype Context = Context(source: SourceKind, overridden: set<Path>, policy: Policy)
  {
    predicate Prefers() {
      policy.preferChild && source.IsTrusted()
    }

    ghost predicate MayDeclare(ids: set<string>, path: Path, v: Value)
      requires path != []
    {
      IsDeclarable(source.IsTrusted(), overridden, ids, path, v)
    }

    ghost predicate EntriesMayDeclare(ids: set<string>, path: Path, v: Value)
      requires path != [] && v.Table?
    {
      AreDeclarable(source.IsTrusted(), overridden, ids, path, v)
    }

    ghost predicate KeyMayDeclare(ids: set<string>, path: Path, key: string)
      requires path != []
    {
      IsKeyDeclarable(source.IsTrusted(), overridden, ids, path, key)
    }
  }

  // ----------------------------------------------------------------------- merging

  /** What a successful merge at `path` makes of the whole tree. */
  function Placed(root: Tab, path: Path, slot: Option<Value>): Tab
    requires path != [] && Open(root, path)
  {
    if slot.None? then root else Put(root, path, slot.value)
  }

  function Merged(root: Tab, path: Path, v: Value, c: Context): Option<Option<Value>>
    requires path != []
  {
    Join(Get(root, path), v, path, c.overridden, c.Prefers())
  }

  /** The entries merged so far, while the keys in `done` have been visited. */
  ghost function Partly(m: Tab, v: Value, done: set<string>, path: Path, c: Context): Tab
    requires v.Table? && done <= v.entries.Keys
    requires forall k :: k in done ==> JoinSlot(m, v, k, path, c.overridden, c.Prefers()).Some?
  {
    map k | k in m.Keys + done && PartSlot(m, v, done, k, path, c).Some? :: PartSlot(m, v, done, k, path, c).value
  }

  ghost function PartSlot(m: Tab, v: Value, done: set<string>, key: string, path: Path, c: Context): Option<Value>
    requires v.Table? && done <= v.entries.Keys
    requires forall k :: k in done ==> JoinSlot(m, v, k, path, c.overridden, c.Prefers()).Some?
  {
    if key in done then JoinSlot(m, v, key, path, c.overridden, c.Prefers()).value else At(m, key)
  }

  lemma PartlyAt(m: Tab, v: Value, done: set<string>, path: Path, c: Context, key: string)
    requires v.Table? && done <= v.entries.Keys
    requires forall k :: k in done ==> JoinSlot(m, v, k, path, c.overridden, c.Prefers()).Some?
    ensures At(Partly(m, v, done, path, c), key) == PartSlot(m, v, done, key, path, c)
  {
  }

  lemma PartlyStarts(m: Tab, v: Value, path: Path, c: Context)
    requires v.Table?
    ensures Partly(m, v, {}, path, c) == m
  {
  }

  lemma PartlyEnds(m: Tab, v: Value, path: Path, c: Context)
    requires v.Table? && path !in c.overridden
    requires forall k :: k in v.entries ==> JoinSlot(m, v, k, path, c.overridden, c.Prefers()).Some?
    ensures Join(Some(Table(m)), v, path, c.overridden, c.Prefers())
         == Some(Some(Table(Partly(m, v, v.entries.Keys, path, c))))
  {
    var j := Join(Some(Table(m)), v, path, c.overridden, c.Prefers());
    assert j.Some? && j.value.Some?;
    var t := j.value.value.entries;
    var p := Partly(m, v, v.entries.Keys, path, c);
    forall k
      ensures At(t, k) == At(p, k)
    {
      JoinedSlot(m, v, k, path, c.overridden, c.Prefers());
      PartlyAt(m, v, v.entries.Keys, path, c, k);
    }
    SameSlots(t, p);
  }

  lemma SameSlots(t: Tab, p: Tab)
    requires forall k :: At(t, k) == At(p, k)
    ensures t == p
  {
    forall k | k in t
      ensures k in p && t[k] == p[k]
    {
      assert At(t, k) == At(p, k);
    }
    forall k | k in p
      ensures k in t
    {
      assert At(t, k) == At(p, k);
    }
  }

  /** Merging one more key, seen from the whole tree. */
  lemma PartlyStep(root: Tab, m: Tab, v: Value, done: set<string>, key: string, path: Path, c: Context)
    requires v.Table? && done <= v.entries.Keys && key in v.entries && key !in done && path != []
    requires forall k :: k in done ==> JoinSlot(m, v, k, path, c.overridden, c.Prefers()).Some?
    requires Open(root, path)
    ensures var now := Put(root, path, Table(Partly(m, v, done, path, c)));
            && Open(now, path + [key])
            && Get(now, path + [key]) == At(m, key)
            && (JoinSlot(m, v, key, path, c.overridden, c.Prefers()).Some? ==>
                  Placed(now, path + [key], JoinSlot(m, v, key, path, c.overridden, c.Prefers()).value)
                  == Put(root, path, Table(Partly(m, v, done + {key}, path, c))))
  {
    var t := Partly(m, v, done, path, c);
    var now := Put(root, path, Table(t));
    GetOfPut(root, path, Table(t));
    BelowTable(now, path, key, t);
    PartlyAt(m, v, done, path, c, key);
    var slot := JoinSlot(m, v, key, path, c.overridden, c.Prefers());
    if slot.Some? {
      PartlyGrows(m, v, done, key, path, c);
      if slot.value.Some? {
        PutOfPut(root, path, Table(t), Table(t[key := slot.value.value]));
      }
    }
  }

  lemma PartlyGrows(m: Tab, v: Value, done: set<string>, key: string, path: Path, c: Context)
    requires v.Table? && done <= v.entries.Keys && key in v.entries && key !in done
    requires forall k :: k in done ==> JoinSlot(m, v, k, path, c.overridden, c.Prefers()).Some?
    requires JoinSlot(m, v, key, path, c.overridden, c.Prefers()).Some?
    ensures var slot := JoinSlot(m, v, key, path, c.overridden, c.Prefers()).value;
            Partly(m, v, done + {key}, path, c) ==
            if slot.Some? then Partly(m, v, done, path, c)[key := slot.value] else Partly(m, v, done, path, c)
  {
    var slot := JoinSlot(m, v, key, path, c.overridden, c.Prefers()).value;
    var before, after := Partly(m, v, done, path, c), Partly(m, v, done + {key}, path, c);
    SlotNeverVanishes(m, v, key, path, c);
    var expected := if slot.Some? then before[key := slot.value] else before;
    forall k
      ensures At(after, k) == At(expected, k)
    {
      PartlyAt(m, v, done, path, c, k);
      PartlyAt(m, v, done + {key}, path, c, k);
    }
    SameSlots(after, expected);
  }

  /** A merge never makes an existing value vanish. */
  lemma SlotNeverVanishes(m: Tab, v: Value, key: string, path: Path, c: Context)
    requires v.Table? && JoinSlot(m, v, key, path, c.overridden, c.Prefers()).Some?
    ensures JoinSlot(m, v, key, path, c.overridden, c.Prefers()).value.None? ==> key !in m
  {
  }

  // ------------------------------------------------------- what the policy decides

  /** Another value stands at the path, the two are not both tables, and no override owns the path. */
  predicate Differs(root: Tab, path: Path, v: Value, overridden: set<Path>)
    requires path != []
  {
    && path !in overridden && Get(root, path).Some? && Get(root, path).value != v
    && !(Get(root, path).value.Table? && v.Table?)
  }

  /** Every leaf of the incoming table that no override owns stands in the tree. */
  ghost predicate LeavesStand(incoming: Tab, after: Tab, overridden: set<Path>) {
    forall q: Path :: q != [] && IsLeaf(Get(incoming, q)) && IsNotOverridden(overridden, q) ==>
      Get(after, q) == Get(incoming, q)
  }

  lemma PathIsRuled(root: Tab, path: Path, v: Value, c: Context)
    requires path != [] && Open(root, path)
    ensures c.source.IsTrusted() && c.policy.preferChild ==> Merged(root, path, v, c).Some?
    ensures c.source.IsTrusted() && !c.policy.preferChild && Differs(root, path, v, c.overridden) ==>
              Merged(root, path, v, c).None?
    ensures Merged(root, path, v, c).Some? ==>
              var after := Placed(root, path, Merged(root, path, v, c).value);
              && (path !in c.overridden && !v.Table? ==> Get(after, path) == Some(v))
              && (!c.source.IsTrusted() ==> Extends(Table(root), Table(after)))
  {
    PreferringAlwaysJoins(Get(root, path), v, path, c.overridden);
    var slot := Merged(root, path, v, c);
    if slot.Some? && slot.value.Some? {
      GetOfPut(root, path, slot.value.value);
    }
    if slot.Some? && !c.source.IsTrusted() {
      AddingExtends(root, path, v, c.overridden);
    }
  }

  lemma AddingExtends(root: Tab, path: Path, v: Value, overridden: set<Path>)
    requires path != [] && Open(root, path) && Join(Get(root, path), v, path, overridden, false).Some?
    ensures Extends(Table(root), Table(Placed(root, path, Join(Get(root, path), v, path, overridden, false).value)))
  {
    var slot := Join(Get(root, path), v, path, overridden, false).value;
    ExtendsReflexive(Table(root));
    if Get(root, path).Some? {
      JoinExtendsOld(Get(root, path).value, v, path, overridden);
    }
    if slot.Some? {
      PutExtends(root, path, slot.value);
    }
  }

  lemma RootIsRuled(before: Tab, incoming: Tab, c: Context)
    requires [] !in c.overridden
    ensures var join := Join(Some(Table(before)), Table(incoming), [], c.overridden, c.Prefers());
            && (c.source.IsTrusted() && c.policy.preferChild ==> join.Some?)
            && (c.source.IsTrusted() && !c.policy.preferChild && c.overridden == {} ==>
                  (join.Some? <==> Agree(Table(before), Table(incoming))))
            && (join.Some? ==>
                  && join.value.Some? && join.value.value.Table?
                  && LeavesStand(incoming, join.value.value.entries, c.overridden)
                  && (c.source.IsTrusted() && !c.policy.preferChild && c.overridden == {} ==>
                        && IsLeastExtension(Table(before), Table(incoming), join.value.value)
                        && MergeAll(Table(before), [Table(incoming)]) == Some(join.value.value))
                  && (!c.source.IsTrusted() ==> Extends(Table(before), join.value.value)))
  {
    var join := Join(Some(Table(before)), Table(incoming), [], c.overridden, c.Prefers());
    PreferringAlwaysJoins(Some(Table(before)), Table(incoming), [], c.overridden);
    JoinSucceedsIffAgree(Table(before), Table(incoming), []);
    if join.Some? {
      JoinedLeavesStand(before, incoming, c);
      if !c.source.IsTrusted() {
        JoinExtendsOld(Table(before), Table(incoming), [], c.overridden);
      }
      if c.source.IsTrusted() && !c.policy.preferChild && c.overridden == {} {
        StrictJoinIsLeast(Table(before), Table(incoming));
        assert [Table(incoming)][1..] == [];
      }
    }
  }

  lemma JoinedLeavesStand(before: Tab, incoming: Tab, c: Context)
    requires [] !in c.overridden
    requires Join(Some(Table(before)), Table(incoming), [], c.overridden, c.Prefers()).Some?
    ensures var join := Join(Some(Table(before)), Table(incoming), [], c.overridden, c.Prefers());
            join.value.Some? && join.value.value.Table? && LeavesStand(incoming, join.value.value.entries, c.overridden)
  {
    var join := Join(Some(Table(before)), Table(incoming), [], c.overridden, c.Prefers());
    var after := join.value.value.entries;
    forall q: Path | q != [] && IsLeaf(Get(incoming, q)) && IsNotOverridden(c.overridden, q)
      ensures Get(after, q) == Get(incoming, q)
    {
      assert [] + q == q;
      IncomingLeafStands(before, incoming, [], c.overridden, c.Prefers(), after, q);
    }
  }

  // ------------------------------------------------------------------- the merger

  class MergedConfig {
    var root: Tab

    constructor ()
      ensures root == map[]
    {
      root := map[];
    }

    /** Untrusted declarations may not address a provider that is not there. */
    method RejectsProvider(path: Path, incoming: Value, source: SourceKind) returns (rejected: bool)
      requires path != []
      ensures rejected <==> !source.IsTrusted() && AddressesUnknown(ProviderIds(root), path, incoming)
    {
      if source.IsTrusted() || path[0] != "providers" {
        return false;
      }
      if |path| > 1 {
        return path[1] !in Inner(root, "providers");
      }
      if !incoming.Table? || incoming.entries == map[] {
        return false;
      }
      var first := FirstKey(incoming.entries);
      rejected := first !in Inner(root, "providers");
      if !rejected {
        forall k | IsFirstKey(incoming.entries, k)
          ensures k in ProviderIds(root)
        {
          FirstKeyIsUnique(incoming.entries, first, k);
        }
      }
    }

    /**
     Merges one value at one path. It succeeds exactly when the join exists and the
     provider rule lets the source declare it; the tree is then the old one with the
     joined value at that path; an untrusted source never changes the set of providers.
     A trusted source meets a conflict at a differing value under a strict policy and
     never under a preferring one; an untrusted one only adds, under either.
     */
    method MergePath(path: Path, incoming: Value, c: Context) returns (failure: Option<MergeError>)
      requires path != [] && Open(root, path)
      modifies this
      ensures failure.None? <==>
                Merged(old(root), path, incoming, c).Some? && c.MayDeclare(ProviderIds(old(root)), path, incoming)
      ensures failure.None? ==> root == Placed(old(root), path, Merged(old(root), path, incoming, c).value)
      ensures failure.None? && !c.source.IsTrusted() ==> ProviderIds(root) == ProviderIds(old(root))
      ensures c.source.IsTrusted() && !c.policy.preferChild && Differs(old(root), path, incoming, c.overridden) ==>
                failure == Some(Conflict(path)) && root == old(root)
      ensures c.source.IsTrusted() && c.policy.preferChild ==> failure.None?
      ensures failure.None? && path !in c.overridden && !incoming.Table? ==> Get(root, path) == Some(incoming)
      ensures failure.None? && !c.source.IsTrusted() ==> Extends(Table(old(root)), Table(root))
      decreases incoming
    {
      PathIsRuled(root, path, incoming, c);
      if path in c.overridden {
        if Get(root, path).Some? {
          PutOfSame(root, path, Get(root, path).value);
        }
        return None;
      }
      var rejected := RejectsProvider(path, incoming, c.source);
      if rejected {
        return Some(ProviderNotDeclared);
      }
      var existing := Get(root, path);
      if existing.None? {
        DeclarableUnlessTables(c.source.IsTrusted(), c.overridden, root, path, incoming);
        if !c.source.IsTrusted() {
          FreshKeepsProviders(root, path, incoming);
        }
        root := Put(root, path, incoming);
        return None;
      }
      if existing.value.Table? && incoming.Table? {
        failure := MergeEntries(path, existing.value.entries, incoming, c);
        return;
      }
      DeclarableUnlessTables(c.source.IsTrusted(), c.overridden, root, path, incoming);
      if existing.value == incoming {
        PutOfSame(root, path, incoming);
        return None;
      }
      if c.Prefers() {
        root := Put(root, path, incoming);
        return None;
      }
      if (c.source.WorkspaceOverlay? && !Allows(c.policy.workspace, path))
        || (c.source.Cli? && !Allows(c.policy.cli, path)) {
        return Some(OverrideNotAllowed(path));
      }
      return Some(Conflict(path));
    }

    /** The recursion over the keys of two tables, in any order. */
    method MergeEntries(path: Path, ghost m: Tab, incoming: Value, c: Context) returns (failure: Option<MergeError>)
      requires path != [] && path !in c.overridden && incoming.Table?
      requires Open(root, path) && Get(root, path) == Some(Table(m))
      modifies this
      ensures failure.None? <==>
                Merged(old(root), path, incoming, c).Some? && c.EntriesMayDeclare(ProviderIds(old(root)), path, incoming)
      ensures failure.None? ==> root == Placed(old(root), path, Merged(old(root), path, incoming, c).value)
      ensures failure.None? && !c.source.IsTrusted() ==> ProviderIds(root) == ProviderIds(old(root))
      decreases incoming, 0
    {
      ghost var start := root;
      var todo := incoming.entries.Keys;
      PartWayStarts(start, m, incoming, path, c);
      while todo != {}
        invariant todo <= incoming.entries.Keys
        invariant IsPartWay(start, root, m, incoming, todo, path, c)
        invariant !c.source.IsTrusted() ==> ProviderIds(root) == ProviderIds(start)
        invariant forall k :: k in incoming.entries && k !in todo ==> c.KeyMayDeclare(ProviderIds(start), path, k)
        decreases |todo|
      {
        var key :| key in todo;
        PartWayStep(start, root, m, incoming, todo, key, path, c);
        EntryIsPath(c.source.IsTrusted(), c.overridden, ProviderIds(root), path, key, incoming.entries[key]);
        failure := MergePath(path + [key], incoming.entries[key], c);
        if failure.Some? {
          return;
        }
        todo := todo - {key};
      }
      PartWayEnds(start, root, m, incoming, path, c);
      return None;
    }

    /**
     Merges a whole table at the root: on success the root is the join of the two
     tables. No write below ever meets a scalar, because a path is only entered
     through tables. Under a strict policy a trusted table without overrides is taken
     exactly when the trees agree, and makes the least extension of both; under a
     preferring one it is always taken; an untrusted table only adds, and whatever is
     taken stands, unless an override owns it.
     */
    method MergeRoot(incoming: Tab, c: Context) returns (failure: Option<MergeError>)
      requires [] !in c.overridden
      modifies this
      ensures failure.None? ==>
                Join(Some(Table(old(root))), Table(incoming), [], c.overridden, c.Prefers()) == Some(Some(Table(root)))
      ensures failure.None? <==>
                && Join(Some(Table(old(root))), Table(incoming), [], c.overridden, c.Prefers()).Some?
                && MayDeclareAll(ProviderIds(old(root)), incoming, c)
      ensures failure.None? && !c.source.IsTrusted() ==> ProviderIds(root) == ProviderIds(old(root))
      ensures c.source.IsTrusted() && !c.policy.preferChild && c.overridden == {} ==>
                (failure.None? <==> Agree(Table(old(root)), Table(incoming)))
      ensures c.source.IsTrusted() && !c.policy.preferChild && c.overridden == {} && failure.None? ==>
                && IsLeastExtension(Table(old(root)), Table(incoming), Table(root))
                && MergeAll(Table(old(root)), [Table(incoming)]) == Some(Table(root))
      ensures c.source.IsTrusted() && c.policy.preferChild ==> failure.None?
      ensures failure.None? && !c.source.IsTrusted() ==> Extends(Table(old(root)), Table(root))
      ensures failure.None? ==> LeavesStand(incoming, root, c.overridden)
    {
      RootIsRuled(root, incoming, c);
      ghost var start := root;
      var todo := incoming.Keys;
      RootStarts(start, Table(incoming), c);
      while todo != {}
        invariant todo <= incoming.Keys
        invariant IsRootPartWay(start, root, Table(incoming), todo, c)
        invariant forall k :: k in incoming && k !in todo ==> c.MayDeclare(ProviderIds(start), [k], incoming[k])
        invariant !c.source.IsTrusted() ==> ProviderIds(root) == ProviderIds(start)
        decreases |todo|
      {
        var key :| key in todo;
        RootStep(start, root, Table(incoming), todo, key, c);
        failure := MergePath([key], incoming[key], c);
        if failure.Some? {
          return;
        }
        todo := todo - {key};
      }
      RootEnds(start, root, Table(incoming), c);
      return None;
    }

    /**
     Merges a table below one key of the root, key by key: it succeeds exactly when the
     joins exist, and leaves their table at that key and every other key as it was. A
     scalar in the way, where the code would panic, is an error here.
     */
    method MergeSection(section: string, incoming: Tab, c: Context) returns (failure: Option<MergeError>)
      requires section != "providers"
      modifies this
      ensures failure.None? <==> AfterSection(old(root), section, incoming, c).Some?
      ensures failure.None? ==> AfterSection(old(root), section, incoming, c) == Some(root)
    {
      ghost var start := root;
      var todo := incoming.Keys;
      SectionStarts(start, section, incoming, c);
      while todo != {}
        invariant todo <= incoming.Keys
        invariant IsSectionPartWay(start, root, section, incoming, todo, c)
        decreases |todo|
      {
        var key :| key in todo;
        if [section, key] in c.overridden {
          SectionSkips(start, root, section, incoming, todo, key, c);
        } else {
          if IsSection(start, section) {
            SectionStep(start, root, section, incoming, todo, key, c);
          }
          if section in root && !root[section].Table? {
            return Some(AddressesThroughScalar([section, key]));
          }
          failure := MergePath([section, key], incoming[key], c);
          if failure.Some? {
            return;
          }
        }
        todo := todo - {key};
      }
      SectionEnds(start, root, section, incoming, c);
      return None;
    }

    /** One override; writing through a scalar, where the code would panic, is an error here. */
    method ApplyOverride(path: Path, op: Override) returns (failure: Option<MergeError>)
      requires path != []
      modifies this
      ensures match Overridden(old(root), path, op)
              case Ok(next) => failure.None? && root == next
              case Err(e) => failure == Some(e) && root == old(root)
    {
      if op.Unset? {
        root := Remove(root, path);
        return None;
      }
      var current := Get(root, path);
      if !op.Set? && current.Some? {
        if !current.value.Array? {
          return Some(OverrideTypeMismatch(path));
        }
        PutOfSame(root, path, current.value);
        root := Put(root, path, Array(EditItems(current.value.items, op)));
        return None;
      }
      if op.RemoveItems? {
        return None;
      }
      if !Open(root, path) {
        return Some(AddressesThroughScalar(path));
      }
      root := Put(root, path, if op.Set? then op.value else Array(op.values));
      return None;
    }

    /** The override loop: each one is permitted, then applied. */
    method ApplyOverrides(overrides: seq<(Path, Override)>, source: SourceKind, policy: Policy)
      returns (failure: Option<MergeError>)
      requires forall i :: 0 <= i < |overrides| ==> overrides[i].0 != []
      modifies this
      ensures failure.None? <==>
                && OverrideAll(old(root), overrides).Ok?
                && (source.IsTrusted() || forall i :: 0 <= i < |overrides| ==> MayOverride(source, policy, overrides[i].0))
      ensures failure.None? ==> OverrideAll(old(root), overrides) == Ok(root)
    {
      for k := 0 to |overrides|
        invariant source.IsTrusted() || forall i :: 0 <= i < k ==> MayOverride(source, policy, overrides[i].0)
        invariant OverrideAll(old(root), overrides) == OverrideAll(root, overrides[k..])
      {
        var (path, op) := overrides[k];
        if !source.IsTrusted() && !MayOverride(source, policy, path) {
          return Some(OverrideNotAllowed(path));
        }
        assert overrides[k..][0] == overrides[k] && overrides[k..][1..] == overrides[k + 1..];
        failure := ApplyOverride(path, op);
        if failure.Some? {
          return;
        }
      }
      return None;
    }

    /**
     One whole profile: permissions, policy, declarations, then overrides. It is accepted
     exactly when every stage is, and the tree is then the result of the stages; an
     untrusted profile is confined to the step described by IsUntrustedStep.
     */
    method MergeProfile(profile: Profile, source: SourceKind, decode: Option<Value> -> Option<Policy>)
      returns (failure: Option<MergeError>)
      requires IsProfile(profile)
      modifies this
      ensures failure.None? <==> ProfileResult(old(root), profile, source, decode).Some?
      ensures failure.None? ==> ProfileResult(old(root), profile, source, decode) == Some(root)
      ensures failure.None? && !source.IsTrusted() ==>
                && decode(At(old(root), "policy")).Some?
                && IsUntrustedStep(old(root), root, profile, source, decode(At(old(root), "policy")).value)
    {
      if !source.IsTrusted() {
        if "policy" in profile.sections {
          return Some(OnlyTrustedSources("policy"));
        }
        if "inputs" in profile.sections {
          return Some(OnlyTrustedSources("inputs"));
        }
        if exists i :: 0 <= i < |profile.overrides| && IsProtected(profile.overrides[i].0) {
          return Some(OnlyTrustedSources("policy"));
        }
      }
      ghost var start := root;
      failure := MergePolicy(profile, source, decode);
      if failure.Some? {
        return;
      }
      var policy := decode(At(root, "policy"));
      if policy.None? {
        return Some(InvalidPolicy);
      }
      var c := Context(source, OverridePaths(profile), policy.value);
      failure := MergeDeclared(profile, c);
      if failure.Some? {
        return;
      }
      ghost var declared := root;
      failure := ApplyOverrides(profile.overrides, source, policy.value);
      if failure.None? && !source.IsTrusted() {
        DeclarationsOnlyAdd(start, declared, profile, c);
        OverridesKeepUnaddressed(declared, profile.overrides, root);
      }
    }

    /** The policy of a profile comes first, so that it rules the rest of it. */
    method MergePolicy(profile: Profile, source: SourceKind, decode: Option<Value> -> Option<Policy>)
      returns (failure: Option<MergeError>)
      modifies this
      ensures failure.None? <==> AfterPolicy(old(root), profile, source, decode).Some?
      ensures failure.None? ==> AfterPolicy(old(root), profile, source, decode) == Some(root)
    {
      var section := Section(profile, "policy");
      if section.None? {
        return None;
      }
      var early := decode(At(root, "policy"));
      if early.None? {
        return Some(InvalidPolicy);
      }
      failure := MergeSection("policy", section.value, Context(source, OverridePaths(profile), early.value));
    }

    /** Configuration, then inputs. */
    method MergeDeclared(profile: Profile, c: Context) returns (failure: Option<MergeError>)
      requires [] !in c.overridden
      modifies this
      ensures failure.None? <==> AfterDeclarations(old(root), profile, c).Some?
      ensures failure.None? ==> AfterDeclarations(old(root), profile, c) == Some(root)
      ensures failure.None? && !c.source.IsTrusted() && Section(profile, "inputs").None? ==>
                ProviderIds(root) == ProviderIds(old(root))
    {
      var config, inputs := Section(profile, "config"), Section(profile, "inputs");
      if config.Some? {
        failure := MergeRoot(config.value, c);
        if failure.Some? {
          return;
        }
      }
      if inputs.Some? {
        failure := MergeSection("inputs", inputs.value, c);
        return;
      }
      return None;
    }
  }

  /** The tree while the keys in `todo` of two tables are still to be merged. */
  ghost predicate IsPartWay(start: Tab, now: Tab, m: Tab, v: Value, todo: set<string>, path: Path, c: Context)
    requires v.Table? && path != []
  {
    var done := v.entries.Keys - todo;
    && Open(start, path)
    && (forall k :: k in done ==> JoinSlot(m, v, k, path, c.overridden, c.Prefers()).Some?)
    && now == Put(start, path, Table(Partly(m, v, done, path, c)))
  }

  lemma PartWayStarts(start: Tab, m: Tab, v: Value, path: Path, c: Context)
    requires v.Table? && path != [] && Get(start, path) == Some(Table(m))
    ensures IsPartWay(start, start, m, v, v.entries.Keys, path, c)
  {
    assert v.entries.Keys - v.entries.Keys == {};
    PartlyStarts(m, v, path, c);
    PutOfSame(start, path, Table(m));
  }

  lemma PartWayEnds(start: Tab, now: Tab, m: Tab, v: Value, path: Path, c: Context)
    requires v.Table? && path != [] && path !in c.overridden && Get(start, path) == Some(Table(m))
    requires IsPartWay(start, now, m, v, {}, path, c)
    ensures Merged(start, path, v, c).Some? && now == Placed(start, path, Merged(start, path, v, c).value)
  {
    assert v.entries.Keys - {} == v.entries.Keys;
    PartlyEnds(m, v, path, c);
  }

  lemma PartWayStep(start: Tab, now: Tab, m: Tab, v: Value, todo: set<string>, key: string, path: Path, c: Context)
    requires v.Table? && path != [] && path !in c.overridden && Get(start, path) == Some(Table(m))
    requires IsPartWay(start, now, m, v, todo, path, c) && key in v.entries && key in todo
    ensures Open(now, path + [key])
    ensures Merged(now, path + [key], v.entries[key], c).None? ==> Merged(start, path, v, c).None?
    ensures Merged(now, path + [key], v.entries[key], c).Some? ==>
              IsPartWay(start, Placed(now, path + [key], Merged(now, path + [key], v.entries[key], c).value),
                        m, v, todo - {key}, path, c)
  {
    var done := v.entries.Keys - todo;
    assert v.entries.Keys - (todo - {key}) == done + {key};
    PartlyStep(start, m, v, done, key, path, c);
    assert Merged(now, path + [key], v.entries[key], c) == JoinSlot(m, v, key, path, c.overridden, c.Prefers());
  }

  // ------------------------------------------------------------- merging at the root

  ghost predicate MayDeclareAll(ids: set<string>, incoming: Tab, c: Context) {
    forall k :: k in incoming ==> c.MayDeclare(ids, [k], incoming[k])
  }

  /** The root while the keys in `todo` are still to be merged. */
  ghost predicate IsRootPartWay(start: Tab, now: Tab, v: Value, todo: set<string>, c: Context)
    requires v.Table?
  {
    var done := v.entries.Keys - todo;
    && (forall k :: k in done ==> JoinSlot(start, v, k, [], c.overridden, c.Prefers()).Some?)
    && now == Partly(start, v, done, [], c)
  }

  lemma RootStarts(start: Tab, v: Value, c: Context)
    requires v.Table?
    ensures IsRootPartWay(start, start, v, v.entries.Keys, c)
  {
    assert v.entries.Keys - v.entries.Keys == {};
    PartlyStarts(start, v, [], c);
  }

  lemma RootEnds(start: Tab, now: Tab, v: Value, c: Context)
    requires v.Table? && [] !in c.overridden && IsRootPartWay(start, now, v, {}, c)
    ensures Join(Some(Table(start)), v, [], c.overridden, c.Prefers()) == Some(Some(Table(now)))
  {
    assert v.entries.Keys - {} == v.entries.Keys;
    PartlyEnds(start, v, [], c);
  }

  lemma RootStep(start: Tab, now: Tab, v: Value, todo: set<string>, key: string, c: Context)
    requires v.Table? && [] !in c.overridden && IsRootPartWay(start, now, v, todo, c)
    requires key in v.entries && key in todo
    ensures Merged(now, [key], v.entries[key], c).None? ==>
              Join(Some(Table(start)), v, [], c.overridden, c.Prefers()).None?
    ensures Merged(now, [key], v.entries[key], c).Some? ==>
              IsRootPartWay(start, Placed(now, [key], Merged(now, [key], v.entries[key], c).value), v, todo - {key}, c)
  {
    var done := v.entries.Keys - todo;
    assert v.entries.Keys - (todo - {key}) == done + {key};
    assert [] + [key] == [key];
    PartlyAt(start, v, done, [], c, key);
    assert Merged(now, [key], v.entries[key], c) == JoinSlot(start, v, key, [], c.overridden, c.Prefers());
    if Merged(now, [key], v.entries[key], c).Some? {
      PartlyGrows(start, v, done, key, [], c);
    }
  }

  // ------------------------------------------------------------- merging one section

  predicate IsSection(root: Tab, section: string) {
    section in root ==> root[section].Table?
  }

  predicate SectionJoins(root: Tab, section: string, incoming: Tab, c: Context) {
    forall k :: k in incoming ==>
      JoinSlot(Inner(root, section), Table(incoming), k, [section], c.overridden, c.Prefers()).Some?
  }

  /** The joined section: the incoming table key by key into the one that stands there. */
  ghost function SectionJoin(root: Tab, section: string, incoming: Tab, c: Context): Tab
    requires SectionJoins(root, section, incoming, c)
  {
    Partly(Inner(root, section), Table(incoming), incoming.Keys, [section], c)
  }

  /** A section is created by its first entry. */
  function WithSection(root: Tab, section: string, t: Tab): Tab {
    if section in root || t != map[] then root[section := Table(t)] else root
  }

  /** What merging a table below one key makes of the tree, if that is possible. */
  ghost function AfterSection(before: Tab, section: string, incoming: Tab, c: Context): Option<Tab> {
    if !IsSection(before, section) then
      if AreOverridden(section, incoming.Keys, c) then Some(before) else None
    else if SectionJoins(before, section, incoming, c) then
      Some(WithSection(before, section, SectionJoin(before, section, incoming, c)))
    else None
  }

  predicate AreOverridden(section: string, keys: set<string>, c: Context) {
    forall k :: k in keys ==> [section, k] in c.overridden
  }

  ghost predicate IsSectionPartWay(start: Tab, now: Tab, section: string, incoming: Tab, todo: set<string>, c: Context) {
    var done := incoming.Keys - todo;
    if !IsSection(start, section) then now == start && AreOverridden(section, done, c)
    else
      && (forall k :: k in done ==>
            JoinSlot(Inner(start, section), Table(incoming), k, [section], c.overridden, c.Prefers()).Some?)
      && now == WithSection(start, section, Partly(Inner(start, section), Table(incoming), done, [section], c))
  }

  lemma SectionStarts(start: Tab, section: string, incoming: Tab, c: Context)
    ensures IsSectionPartWay(start, start, section, incoming, incoming.Keys, c)
  {
    assert incoming.Keys - incoming.Keys == {};
    PartlyStarts(Inner(start, section), Table(incoming), [section], c);
  }

  lemma SectionEnds(start: Tab, now: Tab, section: string, incoming: Tab, c: Context)
    requires IsSectionPartWay(start, now, section, incoming, {}, c)
    ensures AfterSection(start, section, incoming, c) == Some(now)
  {
    assert incoming.Keys - {} == incoming.Keys;
  }

  lemma WithSectionAt(root: Tab, section: string, t: Tab, key: string)
    requires IsSection(root, section)
    ensures var now := WithSection(root, section, t);
            && IsSection(now, section) && Inner(now, section) == t
            && Open(now, [section, key]) && Get(now, [section, key]) == At(t, key)
            && forall x :: Put(now, [section, key], x) == WithSection(root, section, t[key := x])
  {
    assert [section, key][1..] == [key];
  }

  /** An entry with an override is passed over. */
  lemma SectionSkips(start: Tab, now: Tab, section: string, incoming: Tab, todo: set<string>, key: string, c: Context)
    requires IsSectionPartWay(start, now, section, incoming, todo, c) && key in incoming && key in todo
    requires [section, key] in c.overridden
    ensures IsSectionPartWay(start, now, section, incoming, todo - {key}, c)
  {
    var done, m, v := incoming.Keys - todo, Inner(start, section), Table(incoming);
    assert incoming.Keys - (todo - {key}) == done + {key};
    assert [section] + [key] == [section, key];
    if IsSection(start, section) {
      PartlyAt(m, v, done, [section], c, key);
      PartlyGrows(m, v, done, key, [section], c);
      var t := Partly(m, v, done, [section], c);
      assert JoinSlot(m, v, key, [section], c.overridden, c.Prefers()) == Some(At(m, key));
      assert key in m ==> t[key := m[key]] == t;
    }
  }

  lemma SectionStep(start: Tab, now: Tab, section: string, incoming: Tab, todo: set<string>, key: string, c: Context)
    requires IsSectionPartWay(start, now, section, incoming, todo, c) && key in incoming && key in todo
    requires [section, key] !in c.overridden && IsSection(start, section)
    ensures Open(now, [section, key]) && IsSection(now, section)
    ensures match Merged(now, [section, key], incoming[key], c)
            case None => !SectionJoins(start, section, incoming, c)
            case Some(slot) =>
              IsSectionPartWay(start, Placed(now, [section, key], slot), section, incoming, todo - {key}, c)
  {
    var done, m, v := incoming.Keys - todo, Inner(start, section), Table(incoming);
    assert incoming.Keys - (todo - {key}) == done + {key};
    assert [section] + [key] == [section, key];
    WithSectionAt(start, section, Partly(m, v, done, [section], c), key);
    PartlyAt(m, v, done, [section], c, key);
    assert Merged(now, [section, key], incoming[key], c) == JoinSlot(m, v, key, [section], c.overridden, c.Prefers());
    if JoinSlot(m, v, key, [section], c.overridden, c.Prefers()).Some? {
      PartlyGrows(m, v, done, key, [section], c);
    }
  }

  // ---------------------------------------------------------------------- overrides

  datatype Override =
    | Set(value: Value)
    | Unset
    | Replace(values: seq<Value>)
    | Append(values: seq<Value>)
    | RemoveItems(values: seq<Value>)

  function Without(items: seq<Value>, unwanted: seq<Value>): seq<Value> {
    if items == [] then []
    else (if items[0] in unwanted then [] else [items[0]]) + Without(items[1..], unwanted)
  }

  function EditItems(items: seq<Value>, op: Override): seq<Value>
    requires op.Replace? || op.Append? || op.RemoveItems?
  {
    match op
    case Replace(values) => values
    case Append(values) => items + values
    case RemoveItems(values) => Without(items, values)
  }

  function Overridden(root: Tab, path: Path, op: Override): Result<Tab, MergeError>
    requires path != []
  {
    if op.Unset? then Ok(Remove(root, path))
    else if op.Set? then PutOrFail(root, path, op.value)
    else if Get(root, path).None? then
      if op.RemoveItems? then Ok(root) else PutOrFail(root, path, Array(op.values))
    else if Get(root, path).value.Array? then
      PutOrFail(root, path, Array(EditItems(Get(root, path).value.items, op)))
    else Err(OverrideTypeMismatch(path))
  }

  function PutOrFail(root: Tab, path: Path, v: Value): Result<Tab, MergeError>
    requires path != []
  {
    if Open(root, path) then Ok(Put(root, path, v)) else Err(AddressesThroughScalar(path))
  }

  /** A list of overrides, applied one after the other. */
  function OverrideAll(root: Tab, overrides: seq<(Path, Override)>): Result<Tab, MergeError>
    requires forall i :: 0 <= i < |overrides| ==> overrides[i].0 != []
    decreases |overrides|
  {
    if overrides == [] then Ok(root)
    else match Overridden(root, overrides[0].0, overrides[0].1)
      case Err(e) => Err(e)
      case Ok(next) => OverrideAll(next, overrides[1..])
  }

  function ItemsAt(root: Tab, path: Path): seq<Value>
    requires path != []
  {
    var current := Get(root, path);
    if current.Some? && current.value.Array? then current.value.items else []
  }

  /** The kept items are those at the positions in `at`, in order; exactly the others are unwanted. */
  ghost predicate IsRetained(items: seq<Value>, unwanted: seq<Value>, kept: seq<Value>, at: seq<nat>) {
    && |at| == |kept|
    && (forall i, j :: 0 <= i < j < |at| ==> at[i] < at[j])
    && (forall i :: 0 <= i < |at| ==> at[i] < |items| && items[at[i]] == kept[i])
    && (forall n :: 0 <= n < |items| ==> (n in at <==> items[n] !in unwanted))
  }

  lemma {:induction false} WithoutRetains(items: seq<Value>, unwanted: seq<Value>) returns (at: seq<nat>)
    ensures IsRetained(items, unwanted, Without(items, unwanted), at)
    decreases |items|
  {
    if items == [] {
      at := [];
    } else {
      var front, last := items[..|items| - 1], items[|items| - 1];
      at := WithoutRetains(front, unwanted);
      WithoutLast(items, unwanted);
      var before := at;
      if last !in unwanted {
        at := at + [|items| - 1];
      }
      forall n | 0 <= n < |items|
        ensures n in at <==> items[n] !in unwanted
      {
        assert n < |front| ==> front[n] == items[n];
        assert n in before ==> n < |front|;
      }
    }
  }

  lemma {:induction false} WithoutLast(items: seq<Value>, unwanted: seq<Value>)
    requires items != []
    ensures var front, last := items[..|items| - 1], items[|items| - 1];
            Without(items, unwanted) == Without(front, unwanted) + if last in unwanted then [] else [last]
    decreases |items|
  {
    if |items| == 1 {
      assert items[..0] == [] && items[1..] == [];
    } else {
      WithoutLast(items[1..], unwanted);
      assert items[1..][..|items| - 2] == items[..|items| - 1][1..];
    }
  }

  /**
   What stands at the path afterwards: each operation does to the list or value what it
   says, and removal keeps the other items, as often as they occur and in order.
   */
  lemma OverrideTakesEffect(root: Tab, path: Path, op: Override, after: Tab)
    requires path != [] && Overridden(root, path, op) == Ok(after)
    ensures op.Set? ==> Get(after, path) == Some(op.value)
    ensures op.Unset? ==> Get(after, path) == None
    ensures op.Replace? ==> Get(after, path) == Some(Array(op.values))
    ensures op.Append? ==> Get(after, path) == Some(Array(ItemsAt(root, path) + op.values))
    ensures op.RemoveItems? ==>
              && (Get(after, path).Some? <==> Get(root, path).Some?)
              && exists at :: IsRetained(ItemsAt(root, path), op.values, ItemsAt(after, path), at)
  {
    if op.Unset? {
      GetOfRemoved(root, path);
    } else if Open(root, path) {
      forall v
        ensures Get(Put(root, path, v), path) == Some(v)
      {
        GetOfPut(root, path, v);
      }
    }
    if op.Append? {
      assert [] + op.values == op.values;
    }
    if op.RemoveItems? {
      RemovalRetains(root, path, op, after);
    }
  }

  lemma RemovalRetains(root: Tab, path: Path, op: Override, after: Tab)
    requires path != [] && op.RemoveItems? && Overridden(root, path, op) == Ok(after)
    ensures Get(after, path).Some? <==> Get(root, path).Some?
    ensures exists at :: IsRetained(ItemsAt(root, path), op.values, ItemsAt(after, path), at)
  {
    var items := ItemsAt(root, path);
    var at := WithoutRetains(items, op.values);
    if Get(root, path).Some? {
      GetOfPut(root, path, Array(EditItems(items, op)));
    }
    assert ItemsAt(after, path) == Without(items, op.values);
  }

  predicate MayOverride(source: SourceKind, policy: Policy, path: Path) {
    match source
    case WorkspaceOverlay => Allows(policy.workspace, path)
    case Cli => Allows(policy.cli, path)
    case _ => false
  }

  /**
   The patterns that count are those of the source: the workspace's for a workspace
   overlay, the command line's for the command line, and none for any other.
   */
  lemma OverrideRights(source: SourceKind, policy: Policy, path: Path)
    ensures MayOverride(source, policy, path) <==>
              exists p :: (p in policy.workspace || p in policy.cli)
                && (if p.Exactly? then p.path == path else p.prefix < path)
                && ((source == WorkspaceOverlay && p in policy.workspace) || (source == Cli && p in policy.cli))
  {
    if MayOverride(source, policy, path) {
      var p :| p in (if source.Cli? then policy.cli else policy.workspace) && PatternMatches(p, path);
      assert p in policy.workspace || p in policy.cli;
    }
  }

  // -------------------------------------------------------------------- profiles

  /** Sections and overrides of a parsed profile. */
  datatype Profile = Profile(sections: map<string, Value>, overrides: seq<(Path, Override)>)

  function Section(p: Profile, name: string): Option<Tab> {
    if name in p.sections && p.sections[name].Table? then Some(p.sections[name].entries) else None
  }

  predicate IsProtected(path: Path) {
    path != [] && (path[0] == "policy" || path[0] == "inputs")
  }

  /** What profile parsing guarantees: known configuration keys and non-empty paths. */
  predicate IsProfile(p: Profile) {
    && (Section(p, "config").Some? ==>
          "policy" !in Section(p, "config").value && "inputs" !in Section(p, "config").value)
    && forall i :: 0 <= i < |p.overrides| ==> p.overrides[i].0 != []
  }

  function OverridePaths(p: Profile): set<Path> {
    set i | 0 <= i < |p.overrides| :: p.overrides[i].0
  }

  /** No override addresses the path or an enclosing table; those below it would have to pass a leaf. */
  predicate Unaddressed(root: Tab, overrides: seq<(Path, Override)>, q: Path)
    requires q != []
  {
    forall i :: 0 <= i < |overrides| ==>
      Apart(overrides[i].0, q) || (IsLeaf(Get(root, q)) && q < overrides[i].0)
  }

  /** Nothing changes at a path that no override addresses. */
  ghost predicate KeepsUnaddressed(before: Tab, after: Tab, overrides: seq<(Path, Override)>) {
    forall q: Path :: q != [] && Unaddressed(before, overrides, q) ==> Get(after, q) == Get(before, q)
  }

  lemma OverridesKeepUnaddressed(before: Tab, overrides: seq<(Path, Override)>, after: Tab)
    requires forall i :: 0 <= i < |overrides| ==> overrides[i].0 != []
    requires OverrideAll(before, overrides) == Ok(after)
    ensures KeepsUnaddressed(before, after, overrides)
  {
    forall q: Path | q != [] && Unaddressed(before, overrides, q)
      ensures Get(after, q) == Get(before, q)
    {
      OverridesKeepOne(before, overrides, after, q);
    }
  }

  lemma {:induction false} OverridesKeepOne(before: Tab, overrides: seq<(Path, Override)>, after: Tab, q: Path)
    requires forall i :: 0 <= i < |overrides| ==> overrides[i].0 != []
    requires OverrideAll(before, overrides) == Ok(after) && q != [] && Unaddressed(before, overrides, q)
    ensures Get(after, q) == Get(before, q)
    decreases |overrides|
  {
    if overrides != [] {
      var next := Overridden(before, overrides[0].0, overrides[0].1).value;
      OneOverrideKeeps(before, overrides[0].0, overrides[0].1, next, q);
      OverridesKeepOne(next, overrides[1..], after, q);
    }
  }

  lemma OneOverrideKeeps(before: Tab, path: Path, op: Override, after: Tab, q: Path)
    requires path != [] && q != [] && Overridden(before, path, op) == Ok(after)
    requires Apart(path, q) || (IsLeaf(Get(before, q)) && q < path)
    ensures Get(after, q) == Get(before, q)
  {
    if !Apart(path, q) {
      NothingBelowLeaf(before, q, path);
    } else if op.Unset? {
      RemoveLeavesApart(before, path, q);
    } else if Open(before, path) {
      forall v
        ensures Get(Put(before, path, v), q) == Get(before, q)
      {
        PutLeavesApart(before, path, v, q);
      }
    }
  }

  // ------------------------------------------------------------- the effect of a profile

  /** Policy and inputs belong to trusted sources, as sections and as override paths. */
  predicate BreaksTrust(p: Profile) {
    || "policy" in p.sections || "inputs" in p.sections
    || exists i :: 0 <= i < |p.overrides| && IsProtected(p.overrides[i].0)
  }

  ghost function AfterPolicy(before: Tab, p: Profile, source: SourceKind, decode: Option<Value> -> Option<Policy>): Option<Tab> {
    var section, policy := Section(p, "policy"), decode(At(before, "policy"));
    if section.None? then Some(before)
    else if policy.None? then None
    else AfterSection(before, "policy", section.value, Context(source, OverridePaths(p), policy.value))
  }

  /** The join of the configuration, where it exists and the provider rule allows it. */
  ghost function AfterConfig(before: Tab, config: Option<Tab>, c: Context): Option<Tab> {
    if config.None? then Some(before)
    else if !MayDeclareAll(ProviderIds(before), config.value, c) then None
    else match Join(Some(Table(before)), Table(config.value), [], c.overridden, c.Prefers())
      case Some(Some(Table(after))) => Some(after)
      case _ => None
  }

  ghost function AfterDeclarations(before: Tab, p: Profile, c: Context): Option<Tab> {
    match AfterConfig(before, Section(p, "config"), c)
    case None => None
    case Some(withConfig) =>
      if Section(p, "inputs").None? then Some(withConfig)
      else AfterSection(withConfig, "inputs", Section(p, "inputs").value, c)
  }

  ghost function AfterOverrides(before: Tab, p: Profile, source: SourceKind, policy: Policy): Option<Tab>
    requires IsProfile(p)
  {
    if source.IsTrusted() || forall i :: 0 <= i < |p.overrides| ==> MayOverride(source, policy, p.overrides[i].0) then
      match OverrideAll(before, p.overrides)
      case Ok(after) => Some(after)
      case Err(_) => None
    else None
  }

  /**
   The tree after a whole profile, if it is accepted: policy under the policy before it,
   configuration and inputs under the policy after it, then the overrides.
   */
  ghost function ProfileResult(before: Tab, p: Profile, source: SourceKind, decode: Option<Value> -> Option<Policy>): Option<Tab>
    requires IsProfile(p)
  {
    if !source.IsTrusted() && BreaksTrust(p) then None
    else match AfterPolicy(before, p, source, decode)
      case None => None
      case Some(ruled) =>
        match decode(At(ruled, "policy"))
        case None => None
        case Some(policy) =>
          match AfterDeclarations(ruled, p, Context(source, OverridePaths(p), policy))
          case None => None
          case Some(declared) => AfterOverrides(declared, p, source, policy)
  }

  // --------------------------------------------------------- strict profiles together

  /** Several profiles, one after the other, each with its source. */
  ghost function LoadAll(before: Tab, profiles: seq<(Profile, SourceKind)>, decode: Option<Value> -> Option<Policy>): Option<Tab>
    requires forall i :: 0 <= i < |profiles| ==> IsProfile(profiles[i].0)
    decreases |profiles|
  {
    if profiles == [] then Some(before)
    else match ProfileResult(before, profiles[0].0, profiles[0].1, decode)
      case None => None
      case Some(next) => LoadAll(next, profiles[1..], decode)
  }

  /** A trusted profile that declares configuration and nothing else. */
  predicate OnlyConfigures(p: Profile, source: SourceKind) {
    && (source.ImageProfile? || source.AdminProfile?)
    && Section(p, "config").Some? && p.sections.Keys == {"config"} && p.overrides == []
  }

  function ConfigOf(p: Profile): Value {
    Table(Inner(p.sections, "config"))
  }

  function Configs(profiles: seq<(Profile, SourceKind)>): seq<Value> {
    seq(|profiles|, i requires 0 <= i < |profiles| => ConfigOf(profiles[i].0))
  }

  /** One such profile under a strict policy: the strict merge, and the policy stays in force. */
  lemma StrictProfileMerges(before: Tab, p: Profile, source: SourceKind, decode: Option<Value> -> Option<Policy>)
    requires IsProfile(p) && OnlyConfigures(p, source)
    requires decode(At(before, "policy")).Some? && !decode(At(before, "policy")).value.preferChild
    ensures ProfileResult(before, p, source, decode) ==
            match Join(Some(Table(before)), ConfigOf(p), [], {}, false)
            case Some(Some(Table(after))) => Some(after)
            case _ => None
    ensures match ProfileResult(before, p, source, decode)
            case None => true
            case Some(after) =>
              && Join(Some(Table(before)), ConfigOf(p), [], {}, false) == Some(Some(Table(after)))
              && At(after, "policy") == At(before, "policy")
  {
    assert Section(p, "policy").None? && Section(p, "inputs").None?;
    assert OverridePaths(p) == {};
    if Join(Some(Table(before)), ConfigOf(p), [], {}, false).Some? {
      JoinedSlot(before, ConfigOf(p), "policy", [], {}, false);
    }
  }

  /**
   Trusted profiles under a strict policy, loaded one after the other, are the strict
   merge of all their configurations: so their order does not matter, they load exactly
   when some tree extends them all, and the result is the smallest such tree.
   */
  lemma {:induction false} StrictProfilesMergeTogether(before: Tab, profiles: seq<(Profile, SourceKind)>,
                                                       decode: Option<Value> -> Option<Policy>)
    requires forall i :: 0 <= i < |profiles| ==> IsProfile(profiles[i].0) && OnlyConfigures(profiles[i].0, profiles[i].1)
    requires decode(At(before, "policy")).Some? && !decode(At(before, "policy")).value.preferChild
    ensures MergeAll(Table(before), Configs(profiles)) ==
            match LoadAll(before, profiles, decode)
            case None => None
            case Some(after) => Some(Table(after))
    decreases |profiles|
  {
    if profiles != [] {
      assert Configs(profiles)[1..] == Configs(profiles[1..]);
      assert Configs(profiles)[0] == ConfigOf(profiles[0].0);
      StrictProfileMerges(before, profiles[0].0, profiles[0].1, decode);
      match ProfileResult(before, profiles[0].0, profiles[0].1, decode)
      case None =>
        StrictJoinIsTable(before, profiles[0].0);
      case Some(next) =>
        StrictProfilesMergeTogether(next, profiles[1..], decode);
    }
  }

  lemma StrictJoinIsTable(before: Tab, p: Profile)
    ensures match Join(Some(Table(before)), ConfigOf(p), [], {}, false)
            case None => true
            case Some(slot) => slot.Some? && slot.value.Table?
  {
  }

  // ------------------------------------------------------------- the untrusted frame

  /** What the declarations of an untrusted profile leave, before its overrides. */
  ghost predicate OnlyAdds(before: Tab, after: Tab) {
    && Extends(Table(before), Table(after))
    && At(after, "policy") == At(before, "policy")
    && At(after, "inputs") == At(before, "inputs")
    && ProviderIds(after) == ProviderIds(before)
  }

  /**
   One successful merge of an untrusted profile: its declarations only add values,
   none of them a provider, a policy or an input; every override is one the policy
   allows this source and touches neither policy nor inputs; and nothing else
   changes apart from the override paths.
   */
  ghost predicate IsUntrustedStep(before: Tab, after: Tab, p: Profile, source: SourceKind, policy: Policy) {
    exists declared: Tab ::
      && OnlyAdds(before, declared)
      && KeepsUnaddressed(declared, after, p.overrides)
      && forall i :: 0 <= i < |p.overrides| ==>
           MayOverride(source, policy, p.overrides[i].0) && !IsProtected(p.overrides[i].0)
  }

  lemma DeclarationsOnlyAdd(before: Tab, after: Tab, p: Profile, c: Context)
    requires IsProfile(p) && !c.source.IsTrusted() && [] !in c.overridden && Section(p, "inputs").None?
    requires ProviderIds(after) == ProviderIds(before) && AfterDeclarations(before, p, c) == Some(after)
    ensures OnlyAdds(before, after)
  {
    ExtendsReflexive(Table(before));
    match Section(p, "config")
    case None =>
    case Some(t) =>
      JoinExtendsOld(Table(before), Table(t), [], c.overridden);
      JoinedSlot(before, Table(t), "policy", [], c.overridden, false);
      JoinedSlot(before, Table(t), "inputs", [], c.overridden, false);
  }

  /**
   A value that was there before an untrusted merge is there unchanged afterwards,
   unless its path lies at or below a path the policy let this source override.
   */
  lemma UntrustedMergesKeepValues(before: Tab, after: Tab, p: Profile, source: SourceKind, policy: Policy, q: Path)
    requires IsUntrustedStep(before, after, p, source, policy) && q != [] && IsLeaf(Get(before, q))
    ensures Get(after, q) == Get(before, q)
         || exists i :: 0 <= i < |p.overrides| && p.overrides[i].0 <= q && MayOverride(source, policy, p.overrides[i].0)
  {
    var declared: Tab :| OnlyAdds(before, declared) && KeepsUnaddressed(declared, after, p.overrides)
      && forall i :: 0 <= i < |p.overrides| ==>
           MayOverride(source, policy, p.overrides[i].0) && !IsProtected(p.overrides[i].0);
    ExtensionKeepsLeaves(before, declared, q);
    assert Get(declared, q) == Get(before, q);
    assert Unaddressed(declared, p.overrides, q) ==> Get(after, q) == Get(before, q);
  }

  /** Policy and declared inputs survive every untrusted merge, whatever the policy allows. */
  lemma UntrustedMergesKeepPolicy(before: Tab, after: Tab, p: Profile, source: SourceKind, policy: Policy)
    requires IsUntrustedStep(before, after, p, source, policy) && IsProfile(p)
    ensures At(after, "policy") == At(before, "policy") && At(after, "inputs") == At(before, "inputs")
  {
    var declared: Tab :| OnlyAdds(before, declared) && KeepsUnaddressed(declared, after, p.overrides)
      && forall i :: 0 <= i < |p.overrides| ==>
           MayOverride(source, policy, p.overrides[i].0) && !IsProtected(p.overrides[i].0);
    UnprotectedIsApart(declared, p, ["policy"]);
    UnprotectedIsApart(declared, p, ["inputs"]);
    assert Get(after, ["policy"]) == At(after, "policy") && Get(after, ["inputs"]) == At(after, "inputs");
  }

  lemma UnprotectedIsApart(root: Tab, p: Profile, q: Path)
    requires IsProfile(p) && |q| == 1 && IsProtected(q)
    requires forall i :: 0 <= i < |p.overrides| ==> !IsProtected(p.overrides[i].0)
    ensures Unaddressed(root, p.overrides, q)
  {
    forall i | 0 <= i < |p.overrides|
      ensures Apart(p.overrides[i].0, q)
    {
      var path := p.overrides[i].0;
      assert path != [] && path[0] != q[0];
    }
  }

  lemma FirstIsForbidden(overrides: seq<(Path, Override)>, source: SourceKind, policy: Policy)
    requires overrides != [] && !source.WorkspaceOverlay? && !source.Cli?
    ensures exists i :: 0 <= i < |overrides| && !MayOverride(source, policy, overrides[i].0)
  {
    assert !MayOverride(source, policy, overrides[0].0);
  }

  /** A user overlay carries no override, so it can only add new paths. */
  lemma UserOverlaysOnlyAdd(before: Tab, after: Tab, p: Profile, source: SourceKind, policy: Policy)
    requires IsUntrustedStep(before, after, p, source, policy)
    requires !source.IsTrusted() && !source.WorkspaceOverlay? && !source.Cli?
    ensures p.overrides == [] && OnlyAdds(before, after)
  {
    var declared: Tab :| OnlyAdds(before, declared) && KeepsUnaddressed(declared, after, p.overrides)
      && forall i :: 0 <= i < |p.overrides| ==>
           MayOverride(source, policy, p.overrides[i].0) && !IsProtected(p.overrides[i].0);
    if p.overrides != [] {
      FirstIsForbidden(p.overrides, source, policy);
      assert false;
    }
    forall k
      ensures At(after, k) == At(declared, k)
    {
      assert Get(after, [k]) == Get(declared, [k]);
    }
    SameSlots(after, declared);
  }
}
