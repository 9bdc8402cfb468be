/**
 The accumulator that merges bootstrap profiles: scalar slots with the origin that
 last set them, inputs with their origins, additive policy sets, and actions kept in
 a vector with an index by id.
 */
module BootstrapMerge {
  import opened Prelude
  import opened Text
  import opened TextScan
  import opened Actions
  import opened Inputs

  datatype Slot =
    | Schema | Mode | WorkspaceRoot | AllowWorkspaceOverlay | NonInteractive
    | DefaultUser | DefaultUid | DefaultGid | DefaultHome | AutoMapping
    | RunAsRootInput | UidInput | GidInput | HomeInput
    | HandoffRuntime | ExecPrefix | InitialExecPrefix | ShellPrefix | RootService | SshDaemon | LoginShell

  /** The slots in the order in which a profile's values are merged. */
  const TOP_SLOTS: seq<Slot> := [Schema, Mode, WorkspaceRoot, AllowWorkspaceOverlay, NonInteractive]
  const IDENTITY_SLOTS: seq<Slot> := [
    DefaultUser, DefaultUid, DefaultGid, DefaultHome, AutoMapping, RunAsRootInput, UidInput, GidInput, HomeInput]
  const HANDOFF_SLOTS: seq<Slot> := [
    HandoffRuntime, ExecPrefix, InitialExecPrefix, ShellPrefix, RootService, SshDaemon, LoginShell]
  const SLOTS: seq<Slot> := TOP_SLOTS + IDENTITY_SLOTS + HANDOFF_SLOTS

  datatype Scalar = Number(n: nat) | Flag(b: bool) | Word(text: string) | Words(items: seq<string>)

  datatype Origin = Origin(profile: string, source: SourceKind, location: string)

  /** An action as it is kept: its definition, its reason and where it came from. */
  datatype Declared = Declared(action: Action, reason: Option<string>, origin: Origin)

  datatype Policy = Policy(workspaceSafe: set<ActionKind>, adminOnly: set<ActionKind>)
  {
    function Plus(more: Option<Policy>): Policy {
      if more.None? then this
      else Policy(workspaceSafe + more.value.workspaceSafe, adminOnly + more.value.adminOnly)
    }
  }

  datatype Bootstrap = Bootstrap(
    scalars: map<Slot, Scalar>,
    hasIdentity: bool,
    hasHandoff: bool,
    policy: Option<Policy>,
    inputs: map<string, Input>,
    actions: seq<Declared>)

  /** The validated bootstrap overrides of a profile, by what they address. */
  datatype Catalog = Catalog(scalars: set<Slot>, inputs: set<string>, reasons: map<string, string>)
  {
    predicate IsEmpty() {
      scalars == {} && inputs == {} && reasons == map[]
    }
  }

  datatype Profile = Profile(id: string, schema: Option<nat>, bootstrap: Option<Bootstrap>, catalog: Catalog)

  datatype Failure = TrustViolation | OverridesWithoutBootstrap | Conflict | DuplicateActionId(id: string) | TooManyActions

  function OriginAt(p: Profile, source: SourceKind, location: string, suffix: string): Origin {
    Origin(p.id, source, location + ":" + suffix)
  }

  function InputOrigin(p: Profile, source: SourceKind, location: string, name: string): Origin {
    OriginAt(p, source, location, "bootstrap.inputs." + name)
  }

  // ------------------------------------------------------------- adopting the actions

  function Stamp(d: Declared, origin: Origin): Declared {
    d.(action := d.action.(source := origin.source), origin := origin)
  }

  function ActionOrigin(p: Profile, source: SourceKind, location: string, index: nat): Origin {
    OriginAt(p, source, location, "bootstrap.actions[" + ToDecimal(index) + "]")
  }

  function Stamped(p: Profile, source: SourceKind, location: string): seq<Declared>
    requires p.bootstrap.Some?
  {
    seq(|p.bootstrap.value.actions|, i requires 0 <= i < |p.bootstrap.value.actions| =>
      Stamp(p.bootstrap.value.actions[i], ActionOrigin(p, source, location, i)))
  }

  /** Equal apart from their origins. */
  predicate SameDefinition(a: Declared, b: Declared) {
    a.action.(source := Unknown) == b.action.(source := Unknown) && a.reason == b.reason
  }

  /** Two declarations are one definition exactly when a common origin would make them equal. */
  lemma DefinitionIgnoresOrigin(a: Declared, b: Declared, origin: Origin)
    ensures SameDefinition(a, b) <==> Stamp(a, origin) == Stamp(b, origin)
    ensures SameDefinition(a, Stamp(a, origin))
  {
  }

  function Find(actions: seq<Declared>, id: string): (r: Option<nat>)
    ensures r.Some? ==> r.value < |actions| && actions[r.value].action.id == id
  {
    if actions == [] then None
    else if actions[0].action.id == id then Some(0)
    else match Find(actions[1..], id)
      case None => None
      case Some(k) => Some(k + 1)
  }

  function Justified(d: Declared, reason: string): Declared {
    if d.reason.None? then d.(reason := Some(reason)) else d
  }

  function AdoptOne(actions: seq<Declared>, d: Declared, trusted: bool, reasons: map<string, string>): (r: Result<seq<Declared>, Failure>)
  {
    var id := d.action.id;
    var found := Find(actions, id);
    if found.None? then
      if |actions| >= MAX_BOOTSTRAP_ACTIONS then Err(TooManyActions) else Ok(actions + [d])
    else if SameDefinition(actions[found.value], d) then Ok(actions)
    else if !trusted then Err(TrustViolation)
    else if id !in reasons then Err(Conflict)
    else Ok(actions[found.value := Justified(d, reasons[id])])
  }

  function Adopt(actions: seq<Declared>, seen: set<string>, incoming: seq<Declared>, trusted: bool, reasons: map<string, string>)
    : (r: Result<seq<Declared>, Failure>)
    decreases |incoming|
  {
    if incoming == [] then Ok(actions)
    else if incoming[0].action.id in seen then Err(DuplicateActionId(incoming[0].action.id))
    else match AdoptOne(actions, incoming[0], trusted, reasons)
      case Err(e) => Err(e)
      case Ok(next) => Adopt(next, seen + {incoming[0].action.id}, incoming[1..], trusted, reasons)
  }

  function Ids(actions: seq<Declared>): seq<string> {
    seq(|actions|, i requires 0 <= i < |actions| => actions[i].action.id)
  }

  lemma {:induction false} FindFailsIffAbsent(actions: seq<Declared>, id: string)
    ensures Find(actions, id).None? <==> id !in Ids(actions)
    decreases |actions|
  {
    if actions != [] {
      FindFailsIffAbsent(actions[1..], id);
      assert Ids(actions) == [actions[0].action.id] + Ids(actions[1..]);
    }
  }

  // ------------------------------------------------------- first-declaration order

  /** The names known so far, followed by those of `ids` not yet known, each once. */
  function AppendNew(known: seq<string>, ids: seq<string>): seq<string>
    decreases |ids|
  {
    if ids == [] then known
    else AppendNew(if ids[0] in known then known else known + [ids[0]], ids[1..])
  }

  lemma {:induction false} AppendNewTwice(known: seq<string>, a: seq<string>, b: seq<string>)
    ensures AppendNew(AppendNew(known, a), b) == AppendNew(known, a + b)
    decreases |a|
  {
    if a == [] {
      assert a + b == b;
    } else {
      assert (a + b)[0] == a[0] && (a + b)[1..] == a[1..] + b;
      AppendNewTwice(if a[0] in known then known else known + [a[0]], a[1..], b);
    }
  }

  ghost predicate IsFirst(ids: seq<string>, id: string, i: nat) {
    i < |ids| && ids[i] == id && forall j :: 0 <= j < i ==> ids[j] != id
  }

  lemma AppendOne(ids: seq<string>)
    requires ids != []
    ensures var before, last := AppendNew([], ids[..|ids| - 1]), ids[|ids| - 1];
            AppendNew([], ids) == if last in before then before else before + [last]
  {
    var init, last := ids[..|ids| - 1], ids[|ids| - 1];
    assert ids == init + [last];
    AppendNewTwice([], init, [last]);
    AppendSingle(AppendNew([], init), last);
  }

  lemma AppendSingle(known: seq<string>, id: string)
    ensures AppendNew(known, [id]) == if id in known then known else known + [id]
  {
    var ids := [id];
    assert ids[0] == id && ids[1..] == [];
  }

  lemma {:induction false} AppendNewKeepsAll(ids: seq<string>, id: string)
    ensures id in AppendNew([], ids) <==> id in ids
    decreases |ids|
  {
    if ids != [] {
      var init, last := ids[..|ids| - 1], ids[|ids| - 1];
      assert ids == init + [last];
      AppendOne(ids);
      AppendNewKeepsAll(init, id);
      AppendNewKeepsAll(init, last);
    }
  }

  /** Names come in the order of their first occurrences, which differ. */
  lemma {:induction false} NamesKeepFirstOrder(ids: seq<string>, i: nat, j: nat, a: nat, b: nat)
    requires i < j < |AppendNew([], ids)|
    requires IsFirst(ids, AppendNew([], ids)[i], a) && IsFirst(ids, AppendNew([], ids)[j], b)
    ensures a < b
    decreases |ids|
  {
    var names := AppendNew([], ids);
    var init, last := ids[..|ids| - 1], ids[|ids| - 1];
    assert ids == init + [last];
    AppendOne(ids);
    var before := AppendNew([], init);
    AppendNewKeepsAll(init, names[i]);
    AppendNewKeepsAll(init, last);
    FirstInPrefix(init, last, names[i], a);
    if j < |before| {
      AppendNewKeepsAll(init, names[j]);
      FirstInPrefix(init, last, names[j], b);
      NamesKeepFirstOrder(init, i, j, a, b);
    }
  }

  lemma FirstInPrefix(init: seq<string>, last: string, id: string, a: nat)
    requires IsFirst(init + [last], id, a) && id in init
    ensures IsFirst(init, id, a)
  {
    var k :| 0 <= k < |init| && init[k] == id;
    assert (init + [last])[k] == id;
    assert a <= k;
    assert forall j :: 0 <= j <= a ==> (init + [last])[j] == init[j];
  }

  /** Adopting actions appends exactly the ids not there before, and moves none. */
  lemma {:induction false} AdoptedIds(actions: seq<Declared>, seen: set<string>, incoming: seq<Declared>, trusted: bool,
                                      reasons: map<string, string>)
    requires Adopt(actions, seen, incoming, trusted, reasons).Ok?
    ensures Ids(Adopt(actions, seen, incoming, trusted, reasons).value) == AppendNew(Ids(actions), Ids(incoming))
    decreases |incoming|
  {
    if incoming == [] {
      assert Ids(incoming) == [];
    } else {
      var d := incoming[0];
      var next := AdoptOne(actions, d, trusted, reasons).value;
      assert Ids(incoming)[0] == d.action.id && Ids(incoming)[1..] == Ids(incoming[1..]);
      AdoptedOneId(actions, d, trusted, reasons);
      AdoptedIds(next, seen + {d.action.id}, incoming[1..], trusted, reasons);
    }
  }

  lemma AdoptedOneId(actions: seq<Declared>, d: Declared, trusted: bool, reasons: map<string, string>)
    requires AdoptOne(actions, d, trusted, reasons).Ok?
    ensures var id := d.action.id;
            Ids(AdoptOne(actions, d, trusted, reasons).value) == if id in Ids(actions) then Ids(actions) else Ids(actions) + [id]
  {
    FindFailsIffAbsent(actions, d.action.id);
    var found := Find(actions, d.action.id);
    if found.Some? {
      assert Ids(actions)[found.value] == d.action.id;
    }
  }

  /** An untrusted profile leaves every action where and as it is. */
  lemma {:induction false} UntrustedOnlyAppends(actions: seq<Declared>, seen: set<string>, incoming: seq<Declared>,
                                                reasons: map<string, string>)
    requires Adopt(actions, seen, incoming, false, reasons).Ok?
    ensures actions <= Adopt(actions, seen, incoming, false, reasons).value
    decreases |incoming|
  {
    if incoming != [] {
      var next := AdoptOne(actions, incoming[0], false, reasons).value;
      UntrustedOnlyAppends(next, seen + {incoming[0].action.id}, incoming[1..], reasons);
    }
  }

  ghost predicate NotNamed(incoming: seq<Declared>, id: string) {
    forall i :: 0 <= i < |incoming| ==> incoming[i].action.id != id
  }

  /** What an id stands for after adoption. */
  ghost predicate Holds(actions: seq<Declared>, d: Declared, reasons: map<string, string>) {
    exists k :: 0 <= k < |actions| && actions[k].action.id == d.action.id && Represents(actions[k], d, reasons)
  }

  predicate Represents(kept: Declared, d: Declared, reasons: map<string, string>) {
    || SameDefinition(kept, d)
    || (d.action.id in reasons && SameDefinition(kept, Justified(d, reasons[d.action.id])))
  }

  lemma AdoptedOneHolds(actions: seq<Declared>, d: Declared, trusted: bool, reasons: map<string, string>)
    requires AdoptOne(actions, d, trusted, reasons).Ok?
    ensures Holds(AdoptOne(actions, d, trusted, reasons).value, d, reasons)
  {
    FindFailsIffAbsent(actions, d.action.id);
    var next := AdoptOne(actions, d, trusted, reasons).value;
    var found := Find(actions, d.action.id);
    var k := if found.None? then |actions| else found.value;
    assert Represents(next[k], d, reasons);
  }

  /** Actions that are not named again are kept as they are. */
  lemma {:induction false} UnnamedAreKept(actions: seq<Declared>, seen: set<string>, incoming: seq<Declared>, trusted: bool,
                                          reasons: map<string, string>, k: nat)
    requires Adopt(actions, seen, incoming, trusted, reasons).Ok?
    requires k < |actions| && NotNamed(incoming, actions[k].action.id)
    ensures var after := Adopt(actions, seen, incoming, trusted, reasons).value;
            k < |after| && after[k] == actions[k]
    decreases |incoming|
  {
    if incoming != [] {
      FindFailsIffAbsent(actions, incoming[0].action.id);
      var next := AdoptOne(actions, incoming[0], trusted, reasons).value;
      assert incoming[0].action.id != actions[k].action.id;
      assert next[k] == actions[k];
      UnnamedAreKept(next, seen + {incoming[0].action.id}, incoming[1..], trusted, reasons, k);
    }
  }

  lemma {:induction false} SeenAreNotNamed(actions: seq<Declared>, seen: set<string>, incoming: seq<Declared>, trusted: bool,
                                           reasons: map<string, string>, id: string)
    requires Adopt(actions, seen, incoming, trusted, reasons).Ok? && id in seen
    ensures NotNamed(incoming, id)
    decreases |incoming|
  {
    if incoming != [] {
      var next := AdoptOne(actions, incoming[0], trusted, reasons).value;
      SeenAreNotNamed(next, seen + {incoming[0].action.id}, incoming[1..], trusted, reasons, id);
      forall i | 0 <= i < |incoming|
        ensures incoming[i].action.id != id
      {
        assert i > 0 ==> incoming[i] == incoming[1..][i - 1];
      }
    }
  }

  /** After adoption every id of the profile stands for what the profile said about it. */
  lemma {:induction false} AdoptedHold(actions: seq<Declared>, seen: set<string>, incoming: seq<Declared>, trusted: bool,
                                       reasons: map<string, string>, i: nat)
    requires Adopt(actions, seen, incoming, trusted, reasons).Ok? && i < |incoming|
    ensures Holds(Adopt(actions, seen, incoming, trusted, reasons).value, incoming[i], reasons)
    decreases |incoming|
  {
    var d := incoming[0];
    var next := AdoptOne(actions, d, trusted, reasons).value;
    var later := seen + {d.action.id};
    if i > 0 {
      AdoptedHold(next, later, incoming[1..], trusted, reasons, i - 1);
    } else {
      AdoptedOneHolds(actions, d, trusted, reasons);
      var k :| 0 <= k < |next| && next[k].action.id == d.action.id && Represents(next[k], d, reasons);
      SeenAreNotNamed(next, later, incoming[1..], trusted, reasons, d.action.id);
      UnnamedAreKept(next, later, incoming[1..], trusted, reasons, k);
    }
  }

  // ------------------------------------------------------- when adoption succeeds

  predicate MayAdopt(actions: seq<Declared>, d: Declared, trusted: bool, reasons: map<string, string>) {
    var found := Find(actions, d.action.id);
    found.Some? ==> SameDefinition(actions[found.value], d) || (trusted && d.action.id in reasons)
  }

  predicate Adoptable(actions: seq<Declared>, seen: set<string>, incoming: seq<Declared>, trusted: bool, reasons: map<string, string>) {
    && (forall i :: 0 <= i < |incoming| ==> incoming[i].action.id !in seen)
    && (forall i, j :: 0 <= i < j < |incoming| ==> incoming[i].action.id != incoming[j].action.id)
    && (forall i :: 0 <= i < |incoming| ==> MayAdopt(actions, incoming[i], trusted, reasons))
  }

  lemma {:induction false} AppendNewGrows(known: seq<string>, ids: seq<string>)
    ensures |known| <= |AppendNew(known, ids)|
    decreases |ids|
  {
    if ids != [] {
      AppendNewGrows(if ids[0] in known then known else known + [ids[0]], ids[1..]);
    }
  }

  lemma {:induction false} FindInLonger(actions: seq<Declared>, d: Declared, id: string)
    requires d.action.id != id
    ensures Find(actions + [d], id) == Find(actions, id)
    decreases |actions|
  {
    if actions == [] {
      assert (actions + [d])[1..] == [];
    } else {
      assert (actions + [d])[1..] == actions[1..] + [d];
      FindInLonger(actions[1..], d, id);
    }
  }

  lemma {:induction false} FindInUpdated(actions: seq<Declared>, k: nat, d: Declared, id: string)
    requires k < |actions| && actions[k].action.id == d.action.id != id
    ensures Find(actions[k := d], id) == Find(actions, id)
    decreases |actions|
  {
    if k == 0 {
      assert actions[k := d][1..] == actions[1..];
    } else {
      assert actions[k := d][1..] == actions[1..][k - 1 := d];
      FindInUpdated(actions[1..], k - 1, d, id);
    }
  }

  /** Adopting one action does not change what may be said about another id. */
  lemma AdoptingKeepsOthers(actions: seq<Declared>, d: Declared, other: Declared, trusted: bool, reasons: map<string, string>)
    requires AdoptOne(actions, d, trusted, reasons).Ok? && d.action.id != other.action.id
    ensures var next := AdoptOne(actions, d, trusted, reasons).value;
            MayAdopt(next, other, trusted, reasons) == MayAdopt(actions, other, trusted, reasons)
  {
    FindInLonger(actions, d, other.action.id);
    var found := Find(actions, d.action.id);
    if found.Some? && d.action.id in reasons {
      FindInUpdated(actions, found.value, Justified(d, reasons[d.action.id]), other.action.id);
    }
  }

  /** Adoption fails exactly for a repeated id, an unjustified change, or too many actions. */
  lemma {:induction false} AdoptSucceedsIff(actions: seq<Declared>, seen: set<string>, incoming: seq<Declared>, trusted: bool,
                                            reasons: map<string, string>)
    requires |actions| <= MAX_BOOTSTRAP_ACTIONS
    ensures Adopt(actions, seen, incoming, trusted, reasons).Ok? <==>
              && Adoptable(actions, seen, incoming, trusted, reasons)
              && |AppendNew(Ids(actions), Ids(incoming))| <= MAX_BOOTSTRAP_ACTIONS
    decreases |incoming|
  {
    if incoming == [] {
      assert Ids(incoming) == [];
    } else {
      var d, rest := incoming[0], incoming[1..];
      assert Ids(incoming)[0] == d.action.id && Ids(incoming)[1..] == Ids(rest);
      FindFailsIffAbsent(actions, d.action.id);
      if AdoptOne(actions, d, trusted, reasons).Ok? {
        var next := AdoptOne(actions, d, trusted, reasons).value;
        var later := seen + {d.action.id};
        AdoptedOneId(actions, d, trusted, reasons);
        AdoptSucceedsIff(next, later, rest, trusted, reasons);
        AdoptableStep(actions, seen, incoming, trusted, reasons);
      } else {
        AppendNewGrows(Ids(actions) + [d.action.id], Ids(rest));
        assert d.action.id in Ids(actions) ==> !MayAdopt(actions, incoming[0], trusted, reasons);
      }
    }
  }

  lemma AdoptableStep(actions: seq<Declared>, seen: set<string>, incoming: seq<Declared>, trusted: bool, reasons: map<string, string>)
    requires incoming != [] && AdoptOne(actions, incoming[0], trusted, reasons).Ok?
    ensures Adoptable(actions, seen, incoming, trusted, reasons) <==>
              && incoming[0].action.id !in seen
              && Adoptable(AdoptOne(actions, incoming[0], trusted, reasons).value, seen + {incoming[0].action.id},
                           incoming[1..], trusted, reasons)
  {
    var d, rest := incoming[0], incoming[1..];
    var next := AdoptOne(actions, d, trusted, reasons).value;
    assert MayAdopt(actions, d, trusted, reasons);
    forall i | 0 <= i < |rest| && rest[i].action.id != d.action.id
      ensures MayAdopt(next, rest[i], trusted, reasons) == MayAdopt(actions, rest[i], trusted, reasons)
    {
      AdoptingKeepsOthers(actions, d, rest[i], trusted, reasons);
    }
    assert forall i :: 0 <= i < |rest| ==> rest[i] == incoming[i + 1];
    if Adoptable(next, seen + {d.action.id}, rest, trusted, reasons) && d.action.id !in seen {
      forall i | 0 <= i < |incoming|
        ensures incoming[i].action.id !in seen && MayAdopt(actions, incoming[i], trusted, reasons)
      {
        assert i > 0 ==> incoming[i] == rest[i - 1];
      }
      forall i, j | 0 <= i < j < |incoming|
        ensures incoming[i].action.id != incoming[j].action.id
      {
        assert incoming[j] == rest[j - 1] && (i > 0 ==> incoming[i] == rest[i - 1]);
      }
    }
  }

  // ------------------------------------------------------------------ what was merged

  /** The scalars a profile contributes; its own schema stands in for a missing one. */
  function Scalars(p: Profile): map<Slot, Scalar>
    requires p.bootstrap.Some?
  {
    var scalars := p.bootstrap.value.scalars;
    if Schema !in scalars && p.schema.Some? then scalars[Schema := Number(p.schema.value)] else scalars
  }

  /** Values that differ from what is there need an override. */
  predicate Overridable<K, V(==)>(current: map<K, V>, incoming: map<K, V>, overridden: set<K>) {
    forall k :: k in incoming && k in current && current[k] != incoming[k] ==> k in overridden
  }

  function AllScalars(history: seq<Profile>): map<Slot, Scalar> {
    if history == [] then map[]
    else
      var last := history[|history| - 1];
      AllScalars(history[..|history| - 1]) + if last.bootstrap.Some? then Scalars(last) else map[]
  }

  function AllInputs(history: seq<Profile>): map<string, Input> {
    if history == [] then map[]
    else
      var last := history[|history| - 1];
      AllInputs(history[..|history| - 1]) + if last.bootstrap.Some? then last.bootstrap.value.inputs else map[]
  }

  function AllPolicy(history: seq<Profile>): Policy {
    if history == [] then Policy({}, {})
    else
      var last := history[|history| - 1];
      AllPolicy(history[..|history| - 1]).Plus(if last.bootstrap.Some? then last.bootstrap.value.policy else None)
  }

  function AllIds(history: seq<Profile>): seq<string> {
    if history == [] then []
    else
      var last := history[|history| - 1];
      AllIds(history[..|history| - 1]) + if last.bootstrap.Some? then Ids(last.bootstrap.value.actions) else []
  }

  /** The last profile that declares a slot, if any, is at `k`. */
  predicate IsLastScalar(history: seq<Profile>, s: Slot, k: nat) {
    && k < |history| && history[k].bootstrap.Some? && s in Scalars(history[k])
    && forall j :: k < j < |history| && history[j].bootstrap.Some? ==> s !in Scalars(history[j])
  }

  predicate IsLastInput(history: seq<Profile>, name: string, k: nat) {
    && k < |history| && history[k].bootstrap.Some? && name in history[k].bootstrap.value.inputs
    && forall j :: k < j < |history| && history[j].bootstrap.Some? ==> name !in history[j].bootstrap.value.inputs
  }

  /** Where the newest profile is silent about a slot, the last to declare it is the same as before. */
  lemma SilentKeepsLastScalar(history: seq<Profile>, s: Slot, k: nat)
    requires history != []
    requires var last := history[|history| - 1]; last.bootstrap.Some? ==> s !in Scalars(last)
    ensures IsLastScalar(history, s, k) <==> IsLastScalar(history[..|history| - 1], s, k)
  {
    var front := history[..|history| - 1];
    assert forall j :: 0 <= j < |front| ==> front[j] == history[j];
  }

  /** A slot holds what the last profile that declares it says, and nothing without one. */
  lemma {:induction false} LastScalarCounts(history: seq<Profile>, s: Slot, k: nat)
    requires IsLastScalar(history, s, k)
    ensures s in AllScalars(history) && AllScalars(history)[s] == Scalars(history[k])[s]
    decreases |history|
  {
    var n := |history| - 1;
    if k < n {
      SilentKeepsLastScalar(history, s, k);
      LastScalarCounts(history[..n], s, k);
    }
  }

  lemma {:induction false} ScalarWasDeclared(history: seq<Profile>, s: Slot) returns (k: nat)
    requires s in AllScalars(history)
    ensures IsLastScalar(history, s, k)
    decreases |history|
  {
    var n := |history| - 1;
    if history[n].bootstrap.Some? && s in Scalars(history[n]) {
      k := n;
    } else {
      k := ScalarWasDeclared(history[..n], s);
      SilentKeepsLastScalar(history, s, k);
    }
  }

  lemma SilentKeepsLastInput(history: seq<Profile>, name: string, k: nat)
    requires history != []
    requires var last := history[|history| - 1]; last.bootstrap.Some? ==> name !in last.bootstrap.value.inputs
    ensures IsLastInput(history, name, k) <==> IsLastInput(history[..|history| - 1], name, k)
  {
    var front := history[..|history| - 1];
    assert forall j :: 0 <= j < |front| ==> front[j] == history[j];
  }

  /** An input is what the last profile that declares it says. */
  lemma {:induction false} LastInputCounts(history: seq<Profile>, name: string, k: nat)
    requires IsLastInput(history, name, k)
    ensures name in AllInputs(history) && AllInputs(history)[name] == history[k].bootstrap.value.inputs[name]
    decreases |history|
  {
    var n := |history| - 1;
    if k < n {
      SilentKeepsLastInput(history, name, k);
      LastInputCounts(history[..n], name, k);
    }
  }

  /** No later profile takes an action kind out of a policy set. */
  lemma {:induction false} PolicyOnlyGrows(history: seq<Profile>, k: nat)
    requires k <= |history|
    ensures AllPolicy(history[..k]).workspaceSafe <= AllPolicy(history).workspaceSafe
    ensures AllPolicy(history[..k]).adminOnly <= AllPolicy(history).adminOnly
    decreases |history|
  {
    if k == |history| {
      assert history[..k] == history;
    } else {
      assert history[..|history| - 1][..k] == history[..k];
      PolicyOnlyGrows(history[..|history| - 1], k);
    }
  }

  // -------------------------------------------------------------------- the index

  /** The index is the exact inverse of the vector of actions. */
  ghost predicate IsIndex(actions: seq<Declared>, indexes: map<string, nat>) {
    && (forall i :: 0 <= i < |actions| ==> actions[i].action.id in indexes && indexes[actions[i].action.id] == i)
    && (forall id :: id in indexes ==> indexes[id] < |actions| && actions[indexes[id]].action.id == id)
  }

  lemma IndexFinds(actions: seq<Declared>, indexes: map<string, nat>, id: string)
    requires IsIndex(actions, indexes)
    ensures Find(actions, id) == if id in indexes then Some(indexes[id]) else None
  {
    FindFailsIffAbsent(actions, id);
    assert id in indexes ==> Ids(actions)[indexes[id]] == id;
  }

  lemma IndexMakesDistinct(actions: seq<Declared>, indexes: map<string, nat>, i: nat, j: nat)
    requires IsIndex(actions, indexes) && i < j < |actions|
    ensures actions[i].action.id != actions[j].action.id
  {
    assert indexes[actions[i].action.id] == i && indexes[actions[j].action.id] == j;
  }

  lemma IndexGrows(actions: seq<Declared>, indexes: map<string, nat>, d: Declared)
    requires IsIndex(actions, indexes) && d.action.id !in indexes
    ensures IsIndex(actions + [d], indexes[d.action.id := |actions|])
  {
  }

  /** The origin of a slot is replaced exactly where its value changed. */
  predicate SlotOriginsFollow(before: map<Slot, Scalar>, after: map<Slot, Scalar>, was: map<Slot, Origin>, now: map<Slot, Origin>,
                              origin: Origin)
  {
    && before.Keys == was.Keys && after.Keys == now.Keys
    && forall k :: k in after ==> now[k] == if k in before && before[k] == after[k] then was[k] else origin
  }

  lemma SlotOriginsStep(before: map<Slot, Scalar>, after: map<Slot, Scalar>, was: map<Slot, Origin>, now: map<Slot, Origin>,
                        origin: Origin, slot: Slot, v: Scalar)
    requires SlotOriginsFollow(before, after, was, now, origin) && !(slot in before && before[slot] == v)
    ensures SlotOriginsFollow(before, after[slot := v], was, now[slot := origin], origin)
  {
  }

  /** The same for inputs, whose origins name them. */
  predicate InputOriginsFollow(before: map<string, Input>, after: map<string, Input>, was: map<string, Origin>,
                               now: map<string, Origin>, p: Profile, source: SourceKind, location: string)
  {
    && before.Keys == was.Keys && after.Keys == now.Keys
    && forall k :: k in after ==>
         now[k] == if k in before && before[k] == after[k] then was[k] else InputOrigin(p, source, location, k)
  }

  lemma InputOriginsStep(before: map<string, Input>, after: map<string, Input>, was: map<string, Origin>, now: map<string, Origin>,
                         p: Profile, source: SourceKind, location: string, name: string, v: Input)
    requires InputOriginsFollow(before, after, was, now, p, source, location) && !(name in before && before[name] == v)
    ensures InputOriginsFollow(before, after[name := v], was, now[name := InputOrigin(p, source, location, name)],
                               p, source, location)
  {
  }

  // -------------------------------------------------------------- merging the scalars

  predicate IsTopSlot(s: Slot) {
    s.Schema? || s.Mode? || s.WorkspaceRoot? || s.AllowWorkspaceOverlay? || s.NonInteractive?
  }

  predicate IsHandoffSlot(s: Slot) {
    || s.HandoffRuntime? || s.ExecPrefix? || s.InitialExecPrefix? || s.ShellPrefix? || s.RootService?
    || s.SshDaemon? || s.LoginShell?
  }

  lemma TopSlotIsMerged(s: Slot)
    requires IsTopSlot(s)
    ensures s in TOP_SLOTS
  {
    assert TOP_SLOTS[0] == Schema && TOP_SLOTS[1] == Mode && TOP_SLOTS[2] == WorkspaceRoot;
    assert TOP_SLOTS[3] == AllowWorkspaceOverlay && TOP_SLOTS[4] == NonInteractive;
  }

  lemma HandoffSlotIsMerged(s: Slot)
    requires IsHandoffSlot(s)
    ensures s in HANDOFF_SLOTS
  {
    assert HANDOFF_SLOTS[0] == HandoffRuntime && HANDOFF_SLOTS[1] == ExecPrefix && HANDOFF_SLOTS[2] == InitialExecPrefix;
    assert HANDOFF_SLOTS[3] == ShellPrefix && HANDOFF_SLOTS[4] == RootService && HANDOFF_SLOTS[5] == SshDaemon;
    assert HANDOFF_SLOTS[6] == LoginShell;
  }

  lemma IdentitySlotIsMerged(s: Slot)
    requires !IsTopSlot(s) && !IsHandoffSlot(s)
    ensures s in IDENTITY_SLOTS
  {
    assert IDENTITY_SLOTS[0] == DefaultUser && IDENTITY_SLOTS[1] == DefaultUid && IDENTITY_SLOTS[2] == DefaultGid;
    assert IDENTITY_SLOTS[3] == DefaultHome && IDENTITY_SLOTS[4] == AutoMapping && IDENTITY_SLOTS[5] == RunAsRootInput;
    assert IDENTITY_SLOTS[6] == UidInput && IDENTITY_SLOTS[7] == GidInput && IDENTITY_SLOTS[8] == HomeInput;
  }

  /** No slot is forgotten by the sequence of merges. */
  lemma EverySlotIsMerged(s: Slot)
    ensures s in SLOTS
  {
    if IsTopSlot(s) {
      TopSlotIsMerged(s);
    } else if IsHandoffSlot(s) {
      HandoffSlotIsMerged(s);
    } else {
      IdentitySlotIsMerged(s);
    }
  }

  /** The slots while the first `k` of them have been merged. */
  ghost predicate SlotsPartWay(before: map<Slot, Scalar>, now: map<Slot, Scalar>, incoming: map<Slot, Scalar>,
                               overridden: set<Slot>, k: nat)
    requires k <= |SLOTS|
  {
    && now == before + Taken(incoming, k)
    && Overridable(before, Taken(incoming, k), overridden)
  }

  function Taken(incoming: map<Slot, Scalar>, k: nat): map<Slot, Scalar>
    requires k <= |SLOTS|
  {
    map s | s in incoming && s in SLOTS[..k] :: incoming[s]
  }

  lemma TakenStep(incoming: map<Slot, Scalar>, k: nat)
    requires k < |SLOTS|
    ensures Taken(incoming, k + 1) ==
            if SLOTS[k] in incoming then Taken(incoming, k)[SLOTS[k] := incoming[SLOTS[k]]] else Taken(incoming, k)
  {
    assert SLOTS[..k + 1] == SLOTS[..k] + [SLOTS[k]];
  }

  lemma SlotsStep(before: map<Slot, Scalar>, now: map<Slot, Scalar>, incoming: map<Slot, Scalar>, overridden: set<Slot>, k: nat)
    requires k < |SLOTS| && SlotsPartWay(before, now, incoming, overridden, k)
    ensures var slot := SLOTS[k];
            var next := if slot in incoming then now[slot := incoming[slot]] else now;
            var accepted := slot in incoming && slot in now && now[slot] != incoming[slot] ==> slot in overridden;
            && (accepted ==> SlotsPartWay(before, next, incoming, overridden, k + 1))
            && (!accepted ==> !Overridable(before, incoming, overridden))
            && (slot in incoming && slot in now && now[slot] != incoming[slot] ==> slot in before && before[slot] == now[slot])
            && (slot !in now ==> slot !in before)
  {
    TakenStep(incoming, k);
  }

  lemma SlotsEnd(before: map<Slot, Scalar>, now: map<Slot, Scalar>, incoming: map<Slot, Scalar>, overridden: set<Slot>)
    requires SlotsPartWay(before, now, incoming, overridden, |SLOTS|)
    ensures now == before + incoming && Overridable(before, incoming, overridden)
  {
    assert SLOTS[..|SLOTS|] == SLOTS;
    forall s: Slot
      ensures s in SLOTS
    {
      EverySlotIsMerged(s);
    }
    assert Taken(incoming, |SLOTS|) == incoming;
  }

  // --------------------------------------------------------------- merging the inputs

  /** The inputs while those in `todo` are still to be merged. */
  ghost predicate InputsPartWay(before: map<string, Input>, now: map<string, Input>, incoming: map<string, Input>,
                                overridden: set<string>, todo: set<string>)
  {
    && now == before + (incoming - todo)
    && Overridable(before, incoming - todo, overridden)
  }

  lemma InputsStart(before: map<string, Input>, incoming: map<string, Input>, overridden: set<string>)
    ensures InputsPartWay(before, before, incoming, overridden, incoming.Keys)
  {
    assert incoming - incoming.Keys == map[];
  }

  lemma InputsStep(before: map<string, Input>, now: map<string, Input>, incoming: map<string, Input>, overridden: set<string>,
                   todo: set<string>, name: string)
    requires InputsPartWay(before, now, incoming, overridden, todo) && name in todo && name in incoming
    ensures var accepted := name in now && now[name] != incoming[name] ==> name in overridden;
            && (accepted ==> InputsPartWay(before, now[name := incoming[name]], incoming, overridden, todo - {name}))
            && (!accepted ==> !Overridable(before, incoming, overridden))
            && (name in now && now[name] == incoming[name] ==> now[name := incoming[name]] == now)
            && (name in now && now[name] != incoming[name] ==> name in before && before[name] == now[name])
            && (name !in now ==> name !in before)
  {
    assert incoming - (todo - {name}) == (incoming - todo)[name := incoming[name]];
  }

  lemma InputsEnd(before: map<string, Input>, now: map<string, Input>, incoming: map<string, Input>, overridden: set<string>)
    requires InputsPartWay(before, now, incoming, overridden, {})
    ensures now == before + incoming && Overridable(before, incoming, overridden)
  {
    assert incoming - {} == incoming;
  }

  // ------------------------------------------------------------------ whole profiles

  predicate HasConfiguration(b: Bootstrap) {
    b.scalars != map[] || b.hasIdentity || b.hasHandoff || b.policy.Some? || b.inputs != map[]
  }

  function At(slots: map<Slot, Scalar>, s: Slot): Option<Scalar> {
    if s in slots then Some(slots[s]) else None
  }

  /** When a profile merges: what its source may say, and which changes it may make. */
  ghost predicate Accepts(slots: map<Slot, Scalar>, inputs: map<string, Input>, actions: seq<Declared>,
                          p: Profile, source: SourceKind, location: string)
  {
    && (!source.IsTrusted() ==> p.catalog.IsEmpty())
    && (p.bootstrap.None? ==> p.catalog.IsEmpty())
    && (p.bootstrap.Some? ==>
          && (source.IsTrusted() || (source.WorkspaceOverlay? && !HasConfiguration(p.bootstrap.value)))
          && Overridable(slots, Scalars(p), p.catalog.scalars)
          && Overridable(inputs, p.bootstrap.value.inputs, p.catalog.inputs)
          && Adopt(actions, {}, Stamped(p, source, location), source.IsTrusted(), p.catalog.reasons).Ok?)
  }

  /** The accumulated values, without origins and index. */
  datatype Snapshot = Snapshot(slots: map<Slot, Scalar>, inputs: map<string, Input>, policy: Policy, actions: seq<Declared>)

  /** What one accepted profile makes of the accumulated values. */
  ghost predicate Contributed(before: Snapshot, after: Snapshot, p: Profile, source: SourceKind, location: string) {
    if p.bootstrap.None? then after == before
    else
      && after.slots == before.slots + Scalars(p)
      && after.inputs == before.inputs + p.bootstrap.value.inputs
      && after.policy == before.policy.Plus(p.bootstrap.value.policy)
      && Adopt(before.actions, {}, Stamped(p, source, location), source.IsTrusted(), p.catalog.reasons) == Ok(after.actions)
  }

  /**
   What holds after successful merges: the last declaration of a scalar or input
   counts, policies are united, and actions stand in the order of first declaration.
   */
  ghost predicate Reflects(s: Snapshot, history: seq<Profile>) {
    && s.slots == AllScalars(history)
    && s.inputs == AllInputs(history)
    && s.policy == AllPolicy(history)
    && Ids(s.actions) == AppendNew([], AllIds(history))
  }

  lemma ContributionIsReflected(before: Snapshot, after: Snapshot, history: seq<Profile>, p: Profile, source: SourceKind,
                                location: string)
    requires Contributed(before, after, p, source, location) && Reflects(before, history)
    ensures Reflects(after, history + [p])
  {
    HistoryGrows(history, p);
    if p.bootstrap.Some? {
      StampedIds(p, source, location);
      AdoptedIds(before.actions, {}, Stamped(p, source, location), source.IsTrusted(), p.catalog.reasons);
      AppendNewTwice([], AllIds(history), Ids(p.bootstrap.value.actions));
    }
  }

  /** An untrusted profile appends actions, may fill a schema nobody set, and does nothing else. */
  ghost predicate OnlyAppends(before: Snapshot, after: Snapshot) {
    && before.actions <= after.actions
    && after.inputs == before.inputs && after.policy == before.policy
    && (forall s :: s != Schema ==> At(after.slots, s) == At(before.slots, s))
    && (Schema in before.slots ==> after.slots == before.slots)
  }

  lemma UntrustedContribution(before: Snapshot, after: Snapshot, p: Profile, source: SourceKind, location: string)
    requires Accepts(before.slots, before.inputs, before.actions, p, source, location) && !source.IsTrusted()
    requires Contributed(before, after, p, source, location)
    ensures OnlyAppends(before, after)
  {
    if p.bootstrap.Some? {
      assert p.bootstrap.value.inputs == map[];
      assert forall s :: s != Schema ==> s !in Scalars(p);
      UntrustedOnlyAppends(before.actions, {}, Stamped(p, source, location), p.catalog.reasons);
    }
  }

  lemma StampedIds(p: Profile, source: SourceKind, location: string)
    requires p.bootstrap.Some?
    ensures Ids(Stamped(p, source, location)) == Ids(p.bootstrap.value.actions)
  {
  }

  lemma HistoryGrows(history: seq<Profile>, p: Profile)
    ensures p.bootstrap.Some? ==>
              && AllScalars(history + [p]) == AllScalars(history) + Scalars(p)
              && AllInputs(history + [p]) == AllInputs(history) + p.bootstrap.value.inputs
              && AllPolicy(history + [p]) == AllPolicy(history).Plus(p.bootstrap.value.policy)
              && AllIds(history + [p]) == AllIds(history) + Ids(p.bootstrap.value.actions)
    ensures p.bootstrap.None? ==>
              && AllScalars(history + [p]) == AllScalars(history) && AllInputs(history + [p]) == AllInputs(history)
              && AllPolicy(history + [p]) == AllPolicy(history) && AllIds(history + [p]) == AllIds(history)
  {
    assert (history + [p])[..|history|] == history;
  }

  // ------------------------------------------------------------------ the accumulator

  class MergedBootstrap {
    var slots: map<Slot, Scalar>
    var fieldOrigins: map<Slot, Origin>
    var policy: Policy
    var inputs: map<string, Input>
    var inputOrigins: map<string, Origin>
    var actions: seq<Declared>
    var actionIndexes: map<string, nat>
    var sawBootstrap: bool
    ghost var history: seq<Profile>

    /** What holds at all times, also after a merge that failed half way. */
    ghost predicate Valid()
      reads this
    {
      && slots.Keys == fieldOrigins.Keys
      && inputs.Keys == inputOrigins.Keys
      && IsIndex(actions, actionIndexes)
      && |actions| <= MAX_BOOTSTRAP_ACTIONS
    }

    ghost function Values(): Snapshot
      reads this
    {
      Snapshot(slots, inputs, policy, actions)
    }

    constructor ()
      ensures Valid() && Reflects(Values(), history) && history == []
    {
      slots, fieldOrigins := map[], map[];
      policy := Policy({}, {});
      inputs, inputOrigins := map[], map[];
      actions, actionIndexes := [], map[];
      sawBootstrap := false;
      history := [];
    }

    method MergeScalar(slot: Slot, incoming: Option<Scalar>, overridden: set<Slot>, origin: Origin)
      returns (failure: Option<Failure>)
      requires Valid()
      modifies this`slots, this`fieldOrigins
      ensures Valid()
      ensures failure.None? <==>
                incoming.None? || slot !in old(slots) || old(slots)[slot] == incoming.value || slot in overridden
      ensures slots == if failure.None? && incoming.Some? then old(slots)[slot := incoming.value] else old(slots)
      ensures fieldOrigins == if slots != old(slots) then old(fieldOrigins)[slot := origin] else old(fieldOrigins)
    {
      if incoming.None? {
        return None;
      }
      if slot in slots {
        if slots[slot] == incoming.value {
          return None;
        }
        if slot !in overridden {
          return Some(Conflict);
        }
      }
      slots := slots[slot := incoming.value];
      fieldOrigins := fieldOrigins[slot := origin];
      return None;
    }

    /** The sequence of scalar merges. */
    method MergeScalars(incoming: map<Slot, Scalar>, overridden: set<Slot>, origin: Origin) returns (failure: Option<Failure>)
      requires Valid()
      modifies this`slots, this`fieldOrigins
      ensures Valid()
      ensures failure.None? <==> Overridable(old(slots), incoming, overridden)
      ensures failure.None? ==> slots == old(slots) + incoming
      ensures failure.None? ==> SlotOriginsFollow(old(slots), slots, old(fieldOrigins), fieldOrigins, origin)
    {
      ghost var before, was := slots, fieldOrigins;
      for k := 0 to |SLOTS|
        invariant Valid()
        invariant SlotsPartWay(before, slots, incoming, overridden, k)
        invariant SlotOriginsFollow(before, slots, was, fieldOrigins, origin)
      {
        var slot := SLOTS[k];
        ghost var now, stamped := slots, fieldOrigins;
        failure := MergeScalar(slot, if slot in incoming then Some(incoming[slot]) else None, overridden, origin);
        SlotsStep(before, now, incoming, overridden, k);
        if slots != now {
          SlotOriginsStep(before, now, was, stamped, origin, slot, incoming[slot]);
        }
        if failure.Some? {
          return;
        }
      }
      SlotsEnd(before, slots, incoming, overridden);
      return None;
    }

    /** Inputs, in any order: a different declaration under a known name needs an override. */
    method MergeInputs(p: Profile, incoming: map<string, Input>, source: SourceKind, location: string)
      returns (failure: Option<Failure>)
      requires Valid()
      modifies this`inputs, this`inputOrigins
      ensures Valid()
      ensures failure.None? <==> Overridable(old(inputs), incoming, p.catalog.inputs)
      ensures failure.None? ==> inputs == old(inputs) + incoming
      ensures failure.None? ==>
                InputOriginsFollow(old(inputs), inputs, old(inputOrigins), inputOrigins, p, source, location)
    {
      ghost var before, was := inputs, inputOrigins;
      var todo := incoming.Keys;
      InputsStart(before, incoming, p.catalog.inputs);
      while todo != {}
        invariant Valid() && todo <= incoming.Keys
        invariant InputsPartWay(before, inputs, incoming, p.catalog.inputs, todo)
        invariant InputOriginsFollow(before, inputs, was, inputOrigins, p, source, location)
        decreases |todo|
      {
        var name :| name in todo;
        InputsStep(before, inputs, incoming, p.catalog.inputs, todo, name);
        if name in inputs && inputs[name] != incoming[name] && name !in p.catalog.inputs {
          return Some(Conflict);
        }
        if name !in inputs || inputs[name] != incoming[name] {
          InputOriginsStep(before, inputs, was, inputOrigins, p, source, location, name, incoming[name]);
          inputs := inputs[name := incoming[name]];
          inputOrigins := inputOrigins[name := InputOrigin(p, source, location, name)];
        }
        todo := todo - {name};
      }
      InputsEnd(before, inputs, incoming, p.catalog.inputs);
      return None;
    }

    /** One action, found through the index, agrees with the search through the vector. */
    method MergeAction(d: Declared, trusted: bool, reasons: map<string, string>) returns (failure: Option<Failure>)
      requires Valid()
      modifies this`actions, this`actionIndexes
      ensures Valid()
      ensures match AdoptOne(old(actions), d, trusted, reasons)
              case Ok(next) => failure.None? && actions == next
              case Err(e) => failure == Some(e) && actions == old(actions)
    {
      var id := d.action.id;
      IndexFinds(actions, actionIndexes, id);
      if id !in actionIndexes {
        if |actions| >= MAX_BOOTSTRAP_ACTIONS {
          return Some(TooManyActions);
        }
        IndexGrows(actions, actionIndexes, d);
        actionIndexes := actionIndexes[id := |actions|];
        actions := actions + [d];
        return None;
      }
      var existing := actionIndexes[id];
      if SameDefinition(actions[existing], d) {
        return None;
      }
      if !trusted {
        return Some(TrustViolation);
      }
      if id !in reasons {
        return Some(Conflict);
      }
      actions := actions[existing := Justified(d, reasons[id])];
      return None;
    }

    method MergeActions(p: Profile, source: SourceKind, location: string) returns (failure: Option<Failure>)
      requires Valid() && p.bootstrap.Some?
      modifies this`actions, this`actionIndexes
      ensures Valid()
      ensures match Adopt(old(actions), {}, Stamped(p, source, location), source.IsTrusted(), p.catalog.reasons)
              case Ok(next) => failure.None? && actions == next
              case Err(e) => failure == Some(e)
    {
      var incoming := Stamped(p, source, location);
      var seen: set<string> := {};
      var trusted, reasons := source.IsTrusted(), p.catalog.reasons;
      for k := 0 to |incoming|
        invariant Valid()
        invariant Adopt(old(actions), {}, incoming, trusted, reasons) == Adopt(actions, seen, incoming[k..], trusted, reasons)
      {
        var d := incoming[k];
        assert incoming[k..][0] == d && incoming[k..][1..] == incoming[k + 1..];
        if d.action.id in seen {
          return Some(DuplicateActionId(d.action.id));
        }
        seen := seen + {d.action.id};
        failure := MergeAction(d, trusted, reasons);
        if failure.Some? {
          return;
        }
      }
      return None;
    }

    /**
     One whole profile. It is accepted exactly when its source may contribute and every
     change it makes is overridden; the accumulator then reflects one profile more, and
     an untrusted profile has done no more than append actions and fill an unset schema.
     */
    method MergeProfile(p: Profile, source: SourceKind, location: string) returns (failure: Option<Failure>)
      requires Valid() && Reflects(Values(), history)
      modifies this
      ensures Valid()
      ensures failure.None? <==> Accepts(old(slots), old(inputs), old(actions), p, source, location)
      ensures failure.None? ==> Reflects(Values(), history) && history == old(history) + [p]
      ensures failure.None? ==> Contributed(old(Values()), Values(), p, source, location)
      ensures failure.None? && !source.IsTrusted() ==> OnlyAppends(old(Values()), Values())
    {
      ghost var before := Values();
      failure := Contribute(p, source, location);
      if failure.None? {
        ContributionIsReflected(before, Values(), history, p, source, location);
        if !source.IsTrusted() {
          UntrustedContribution(before, Values(), p, source, location);
        }
        history := history + [p];
      }
    }

    /** The body of `merge_profile`: permissions, scalars, policy, inputs, actions. */
    method Contribute(p: Profile, source: SourceKind, location: string) returns (failure: Option<Failure>)
      requires Valid()
      modifies this`slots, this`fieldOrigins, this`policy, this`inputs, this`inputOrigins, this`actions, this`actionIndexes,
               this`sawBootstrap
      ensures Valid()
      ensures failure.None? <==> Accepts(old(slots), old(inputs), old(actions), p, source, location)
      ensures failure.None? ==> Contributed(old(Values()), Values(), p, source, location)
    {
      if !source.IsTrusted() && !p.catalog.IsEmpty() {
        return Some(TrustViolation);
      }
      if p.bootstrap.None? {
        return if p.catalog.IsEmpty() then None else Some(OverridesWithoutBootstrap);
      }
      sawBootstrap := true;
      var bootstrap := p.bootstrap.value;
      if !source.IsTrusted() && (!source.WorkspaceOverlay? || HasConfiguration(bootstrap)) {
        return Some(TrustViolation);
      }
      failure := MergeScalars(Scalars(p), p.catalog.scalars, OriginAt(p, source, location, "bootstrap"));
      if failure.Some? {
        return;
      }
      policy := policy.Plus(bootstrap.policy);
      failure := MergeInputs(p, bootstrap.inputs, source, location);
      if failure.Some? {
        return;
      }
      failure := MergeActions(p, source, location);
    }
  }
}
