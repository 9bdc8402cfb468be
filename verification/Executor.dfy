/**
 Executing a plan (`PlanExecutor::execute_internal`). What an action would do is
 an oracle: whether its condition holds or fails, whether the run-as check and the
 effect succeed, whether its report path renders.
 */
module Executor {
  import opened Prelude
  import opened Actions
  import opened Planner
  import opened PlanOrder

  datatype Status = Succeeded | SkippedCondition | SkippedDependency | FailedWarn | FailedIgnore

  /** `condition` is `None` when parsing or evaluating it fails. */
  datatype Answers = Answers(condition: Option<bool>, pathRenders: bool, runAsAllowed: bool, effectSucceeds: bool)

  datatype World = World(
    actions: map<string, Action>,
    rootService: bool,
    targetIsRoot: bool,
    answers: string -> Answers)

  datatype Outcome = Outcome(id: string, kind: ActionKind, phase: nat, status: Status)

  /** What becomes of one action: the run goes on with a status, or is aborted. */
  datatype Verdict = Finished(status: Status) | Fatal

  // -------------------------------------------------------------- one action alone

  predicate Matches(p: PlannedAction, w: World) {
    p.id in w.actions && w.actions[p.id].kind == p.kind
  }

  /** Root keeps its own account, shell and privileges; a root service keeps its privileges. */
  predicate SkipsEffect(kind: ActionKind, w: World) {
    || (kind.ProcessDropPrivileges? && w.rootService)
    || (w.targetIsRoot && (kind.IdentityMapUser? || kind.ProcessSetUserShell? || kind.ProcessDropPrivileges?))
  }

  /** Whether the action's effect is attempted once its dependencies succeeded. */
  predicate Attempts(p: PlannedAction, w: World) {
    var a := w.answers(p.id);
    a.condition == Some(true) && !SkipsEffect(p.kind, w) && a.runAsAllowed
  }

  function Alone(p: PlannedAction, w: World): Verdict
    requires Matches(p, w)
  {
    var a, failure := w.answers(p.id), w.actions[p.id].failure;
    if a.condition.None? then Fatal
    else if !a.condition.value then Finished(SkippedCondition)
    else if !SkipsEffect(p.kind, w) && !a.runAsAllowed then Fatal
    else if !SkipsEffect(p.kind, w) && !a.effectSucceeds && failure.Error? then Fatal
    else if !a.pathRenders then Fatal
    else if SkipsEffect(p.kind, w) || a.effectSucceeds then Finished(Succeeded)
    else if failure.Warn? then Finished(FailedWarn)
    else Finished(FailedIgnore)
  }

  // ------------------------------------------------------- the dependency equations

  type Verdicts = map<string, Verdict>

  predicate DependenciesSucceeded(p: PlannedAction, st: Verdicts) {
    forall d :: d in p.dependsOn ==> d in st && st[d] == Finished(Succeeded)
  }

  /** The equation of one action, given the verdicts of its dependencies. */
  function Equation(p: PlannedAction, st: Verdicts, w: World): Verdict {
    if !Matches(p, w) then Fatal
    else if !DependenciesSucceeded(p, st) then Finished(SkippedDependency)
    else Alone(p, w)
  }

  predicate Solves(items: set<PlannedAction>, st: Verdicts, w: World) {
    forall p :: p in items ==> p.id in st && st[p.id] == Equation(p, st, w)
  }

  /** Front to back, each action from the verdicts so far. */
  function Solution(plan: seq<PlannedAction>, w: World): Verdicts {
    if plan == [] then map[]
    else
      var front, last := plan[..|plan| - 1], plan[|plan| - 1];
      var st := Solution(front, w);
      st[last.id := Equation(last, st, w)]
  }

  /** The verdict of one action in the solution. */
  predicate Ends(plan: seq<PlannedAction>, w: World, id: string, verdict: Verdict) {
    id in Solution(plan, w) && Solution(plan, w)[id] == verdict
  }

  predicate IsPlanned(plan: seq<PlannedAction>, id: string) {
    exists k :: 0 <= k < |plan| && plan[k].id == id
  }

  lemma {:induction false} SolutionDomain(plan: seq<PlannedAction>, w: World, id: string)
    ensures id in Solution(plan, w) <==> IsPlanned(plan, id)
  {
    if plan != [] {
      var front, last := plan[..|plan| - 1], plan[|plan| - 1];
      SolutionDomain(front, w, id);
      if IsPlanned(front, id) {
        var k :| 0 <= k < |front| && front[k].id == id;
        assert plan[k] == front[k];
      }
      if IsPlanned(plan, id) && id != last.id {
        var k :| 0 <= k < |plan| && plan[k].id == id;
        assert plan[k] == front[k];
      }
    }
  }

  lemma TopologicalPrefix(plan: seq<PlannedAction>, k: nat)
    requires IsTopological(plan) && k <= |plan|
    ensures IsTopological(plan[..k])
  {
    var front := plan[..k];
    forall j, d | 0 <= j < |front| && d in front[j].dependsOn
      ensures exists i :: 0 <= i < j && front[i].id == d
    {
      assert plan[j] == front[j];
      var i :| 0 <= i < j && plan[i].id == d;
      assert front[i].id == d;
    }
  }

  /** A later action changes no earlier verdict. */
  lemma {:induction false} SolutionIsStable(plan: seq<PlannedAction>, w: World, j: nat)
    requires IsTopological(plan) && j <= |plan|
    ensures forall id :: id in Solution(plan[..j], w) ==>
              id in Solution(plan, w) && Solution(plan, w)[id] == Solution(plan[..j], w)[id]
    decreases |plan|
  {
    if j == |plan| {
      assert plan[..j] == plan;
    } else {
      var front := plan[..|plan| - 1];
      TopologicalPrefix(plan, |plan| - 1);
      SolutionIsStable(front, w, j);
      assert front[..j] == plan[..j];
      forall id | id in Solution(front, w)
        ensures id != plan[|plan| - 1].id
      {
        SolutionDomain(front, w, id);
        var k :| 0 <= k < |front| && front[k].id == id;
        assert plan[k] == front[k];
      }
    }
  }

  /** The dependencies of an action are among the verdicts of what is planned before it. */
  lemma DependenciesAreDecided(plan: seq<PlannedAction>, w: World, k: nat)
    requires IsTopological(plan) && k < |plan|
    ensures forall d :: d in plan[k].dependsOn ==> d in Solution(plan[..k], w)
  {
    forall d | d in plan[k].dependsOn
      ensures d in Solution(plan[..k], w)
    {
      var i :| 0 <= i < k && plan[i].id == d;
      assert plan[..k][i].id == d;
      SolutionDomain(plan[..k], w, d);
    }
  }

  lemma SolutionExtends(plan: seq<PlannedAction>, w: World, k: nat)
    requires k < |plan|
    ensures Solution(plan[..k + 1], w)
         == Solution(plan[..k], w)[plan[k].id := Equation(plan[k], Solution(plan[..k], w), w)]
  {
    assert plan[..k + 1][..k] == plan[..k] && plan[..k + 1][k] == plan[k];
  }

  /** The equation of an action only reads the verdicts of what is planned before it. */
  lemma EquationReadsPrefix(plan: seq<PlannedAction>, w: World, k: nat)
    requires IsTopological(plan) && k < |plan|
    ensures plan[k].id in Solution(plan, w)
    ensures Solution(plan, w)[plan[k].id] == Equation(plan[k], Solution(plan[..k], w), w)
    ensures DependenciesSucceeded(plan[k], Solution(plan, w)) == DependenciesSucceeded(plan[k], Solution(plan[..k], w))
  {
    SolutionExtends(plan, w, k);
    SolutionIsStable(plan, w, k + 1);
    SolutionIsStable(plan, w, k);
    DependenciesAreDecided(plan, w, k);
  }

  lemma SolutionSolves(plan: seq<PlannedAction>, w: World)
    requires IsTopological(plan)
    ensures Solves(Elements(plan), Solution(plan, w), w)
  {
    forall p | p in Elements(plan)
      ensures p.id in Solution(plan, w) && Solution(plan, w)[p.id] == Equation(p, Solution(plan, w), w)
    {
      var k :| 0 <= k < |plan| && plan[k] == p;
      EquationReadsPrefix(plan, w, k);
    }
  }

  /** The equations of a topologically ordered plan have one solution. */
  lemma {:induction false} SolutionsAreUnique(plan: seq<PlannedAction>, w: World, st: Verdicts, k: nat)
    requires IsTopological(plan) && Solves(Elements(plan), st, w) && k < |plan|
    ensures plan[k].id in st && Ends(plan, w, plan[k].id, st[plan[k].id])
    decreases k
  {
    var p := plan[k];
    assert p in Elements(plan);
    SolutionSolves(plan, w);
    forall d | d in p.dependsOn
      ensures d in st && d in Solution(plan, w) && st[d] == Solution(plan, w)[d]
    {
      var j :| 0 <= j < k && plan[j].id == d;
      SolutionsAreUnique(plan, w, st, j);
    }
  }

  /** The verdicts do not depend on which valid order of the same actions is used. */
  lemma VerdictsIgnoreTheOrder(plan: seq<PlannedAction>, other: seq<PlannedAction>, w: World)
    requires IsTopological(plan) && IsTopological(other) && Elements(plan) == Elements(other)
    ensures Solution(plan, w) == Solution(other, w)
    ensures Aborts(plan, w) <==> Aborts(other, w)
  {
    SolutionSolves(plan, w);
    SolutionSolves(other, w);
    forall id | id in Solution(plan, w)
      ensures id in Solution(other, w) && Solution(plan, w)[id] == Solution(other, w)[id]
    {
      SolutionDomain(plan, w, id);
      var k :| 0 <= k < |plan| && plan[k].id == id;
      SolutionsAreUnique(plan, w, Solution(other, w), k);
    }
    forall id | id in Solution(other, w)
      ensures id in Solution(plan, w)
    {
      SolutionDomain(other, w, id);
      var k :| 0 <= k < |other| && other[k].id == id;
      SolutionsAreUnique(other, w, Solution(plan, w), k);
    }
  }

  // ------------------------------------------------------------------- the run loop

  predicate Aborts(plan: seq<PlannedAction>, w: World) {
    exists id :: id in Solution(plan, w) && Solution(plan, w)[id].Fatal?
  }

  /** The statuses recorded so far are the verdicts so far, none of them fatal. */
  predicate Agrees(plan: seq<PlannedAction>, k: nat, completed: map<string, Status>, w: World)
    requires k <= |plan|
  {
    && completed.Keys == Solution(plan[..k], w).Keys
    && forall id :: id in completed ==> Solution(plan[..k], w)[id] == Finished(completed[id])
  }

  predicate AllSucceeded(p: PlannedAction, completed: map<string, Status>) {
    forall d :: d in p.dependsOn ==> d in completed && completed[d] == Succeeded
  }

  /** The verdicts allow the effect of this action. */
  predicate MayAttempt(p: PlannedAction, st: Verdicts, w: World) {
    Matches(p, w) && DependenciesSucceeded(p, st) && Attempts(p, w)
  }

  /** The effects attempted while the first `n` actions had their turn, in the order of the plan. */
  function Attempted(plan: seq<PlannedAction>, n: nat, w: World): seq<string>
    requires n <= |plan|
  {
    if n == 0 then []
    else Attempted(plan, n - 1, w) + if MayAttempt(plan[n - 1], Solution(plan, w), w) then [plan[n - 1].id] else []
  }

  /** An action finished with this outcome, and the outcome is labelled as the action is. */
  predicate IsRecorded(p: PlannedAction, o: Outcome, st: Verdicts) {
    && p.id in st && st[p.id] == Finished(o.status)
    && o == Outcome(p.id, p.kind, p.phase, o.status)
  }

  /** How many actions had their turn: all recorded ones, and the fatal one of an aborted run. */
  function Turns(aborted: bool, outcomes: seq<Outcome>): nat {
    |outcomes| + if aborted then 1 else 0
  }

  /**
   What a run leaves behind. The outcomes are those of the first actions of the plan, in
   order, with the statuses that solve the equations. A run that is not aborted got to
   the end; an aborted one stopped at the first fatal action. The effects attempted are
   exactly the allowed ones among the actions that had their turn, in order.
   */
  ghost predicate IsRun(plan: seq<PlannedAction>, w: World, aborted: bool, outcomes: seq<Outcome>, performed: seq<string>) {
    && Turns(aborted, outcomes) <= |plan|
    && (forall j :: 0 <= j < |outcomes| ==> IsRecorded(plan[j], outcomes[j], Solution(plan, w)))
    && (if aborted then Ends(plan, w, plan[|outcomes|].id, Fatal) else |outcomes| == |plan|)
    && performed == Attempted(plan, Turns(aborted, outcomes), w)
  }

  /** One turn of the executor loop: the verdict, and whether the effect was attempted. */
  method RunOne(p: PlannedAction, completed: map<string, Status>, w: World)
    returns (verdict: Verdict, attempted: bool)
    ensures verdict == if !Matches(p, w) then Fatal
                       else if !AllSucceeded(p, completed) then Finished(SkippedDependency)
                       else Alone(p, w)
    ensures attempted == (Matches(p, w) && AllSucceeded(p, completed) && Attempts(p, w))
  {
    if !Matches(p, w) {
      return Fatal, false;
    }
    if exists d :: d in p.dependsOn && (d !in completed || completed[d] != Succeeded) {
      return Finished(SkippedDependency), false;
    }
    var a := w.answers(p.id);
    if a.condition.None? {
      return Fatal, false;
    }
    if !a.condition.value {
      return Finished(SkippedCondition), false;
    }
    if SkipsEffect(p.kind, w) {
      return if a.pathRenders then Finished(Succeeded) else Fatal, false;
    }
    if !a.runAsAllowed {
      return Fatal, false;
    }
    if a.effectSucceeds {
      return if a.pathRenders then Finished(Succeeded) else Fatal, true;
    }
    var failure := w.actions[p.id].failure;
    if failure.Error? || !a.pathRenders {
      return Fatal, true;
    }
    return Finished(if failure.Warn? then FailedWarn else FailedIgnore), true;
  }

  /**
   The executor loop. It is aborted exactly when some verdict is fatal, and what it
   leaves behind, aborted or not, is a run.
   */
  method Execute(plan: seq<PlannedAction>, w: World)
    returns (aborted: bool, outcomes: seq<Outcome>, performed: seq<string>)
    requires IsTopological(plan)
    ensures aborted == Aborts(plan, w)
    ensures IsRun(plan, w, aborted, outcomes, performed)
  {
    var completed: map<string, Status> := map[];
    outcomes, performed := [], [];
    for k := 0 to |plan|
      invariant RunInvariant(plan, k, completed, outcomes, performed, w)
    {
      var p := plan[k];
      var verdict, attempted := RunOne(p, completed, w);
      TurnIsSound(plan, k, completed, outcomes, performed, verdict, attempted, w);
      if attempted {
        performed := performed + [p.id];
      }
      if verdict.Fatal? {
        aborted := true;
        return;
      }
      completed := completed[p.id := verdict.status];
      outcomes := outcomes + [Outcome(p.id, p.kind, p.phase, verdict.status)];
    }
    RunEnds(plan, completed, outcomes, performed, w);
    aborted := false;
  }

  /** What the executor loop keeps. */
  ghost predicate RunInvariant(plan: seq<PlannedAction>, k: nat, completed: map<string, Status>, outcomes: seq<Outcome>,
                               performed: seq<string>, w: World)
    requires k <= |plan|
  {
    && Agrees(plan, k, completed, w)
    && |outcomes| == k && performed == Attempted(plan, k, w)
    && forall j :: 0 <= j < k ==> IsRecorded(plan[j], outcomes[j], Solution(plan, w))
  }

  lemma RunEnds(plan: seq<PlannedAction>, completed: map<string, Status>, outcomes: seq<Outcome>, performed: seq<string>, w: World)
    requires RunInvariant(plan, |plan|, completed, outcomes, performed, w)
    ensures !Aborts(plan, w) && IsRun(plan, w, false, outcomes, performed)
  {
    assert plan[..|plan|] == plan;
  }

  /** Plan and oracle determine the run: where it stops, what it records and what it performs. */
  lemma RunsAreUnique(plan: seq<PlannedAction>, w: World, a: bool, b: bool, os: seq<Outcome>, qs: seq<Outcome>,
                      ps: seq<string>, rs: seq<string>)
    requires IsRun(plan, w, a, os, ps) && IsRun(plan, w, b, qs, rs)
    ensures a == b && os == qs && ps == rs
  {
    StopsNoLater(plan, w, a, b, os, qs, ps, rs);
    StopsNoLater(plan, w, b, a, qs, os, rs, ps);
    forall j | 0 <= j < |os|
      ensures os[j] == qs[j]
    {
      assert IsRecorded(plan[j], os[j], Solution(plan, w)) && IsRecorded(plan[j], qs[j], Solution(plan, w));
    }
  }

  lemma FatalIsNotRecorded(plan: seq<PlannedAction>, w: World, os: seq<Outcome>, k: nat)
    requires k < |os| <= |plan| && Ends(plan, w, plan[k].id, Fatal)
    ensures !IsRecorded(plan[k], os[k], Solution(plan, w))
  {
  }

  lemma StopsNoLater(plan: seq<PlannedAction>, w: World, a: bool, b: bool, os: seq<Outcome>, qs: seq<Outcome>,
                     ps: seq<string>, rs: seq<string>)
    requires IsRun(plan, w, a, os, ps) && IsRun(plan, w, b, qs, rs)
    ensures |os| <= |qs| && (b ==> a || |os| < |qs|)
  {
    if b && |qs| < |os| {
      FatalIsNotRecorded(plan, w, os, |qs|);
    }
  }

  /** The verdict of a turn is the one that solves the equations. */
  lemma TurnVerdict(plan: seq<PlannedAction>, k: nat, completed: map<string, Status>, verdict: Verdict, attempted: bool, w: World)
    requires IsTopological(plan) && k < |plan| && Agrees(plan, k, completed, w)
    requires verdict == if !Matches(plan[k], w) then Fatal
                        else if !AllSucceeded(plan[k], completed) then Finished(SkippedDependency)
                        else Alone(plan[k], w)
    requires attempted == (Matches(plan[k], w) && AllSucceeded(plan[k], completed) && Attempts(plan[k], w))
    ensures plan[k].id in Solution(plan, w) && Solution(plan, w)[plan[k].id] == verdict
    ensures attempted == MayAttempt(plan[k], Solution(plan, w), w)
    ensures verdict.Fatal? ==> Aborts(plan, w)
    ensures verdict.Finished? ==> Agrees(plan, k + 1, completed[plan[k].id := verdict.status], w)
  {
    StepAgrees(plan, k, completed, w);
  }

  /** A fatal turn ends the run; any other turn keeps the invariant. */
  lemma TurnIsSound(plan: seq<PlannedAction>, k: nat, completed: map<string, Status>, outcomes: seq<Outcome>,
                    performed: seq<string>, verdict: Verdict, attempted: bool, w: World)
    requires IsTopological(plan) && k < |plan| && RunInvariant(plan, k, completed, outcomes, performed, w)
    requires verdict == if !Matches(plan[k], w) then Fatal
                        else if !AllSucceeded(plan[k], completed) then Finished(SkippedDependency)
                        else Alone(plan[k], w)
    requires attempted == (Matches(plan[k], w) && AllSucceeded(plan[k], completed) && Attempts(plan[k], w))
    ensures var p, performed' := plan[k], if attempted then performed + [plan[k].id] else performed;
            && (verdict.Fatal? ==> Aborts(plan, w) && IsRun(plan, w, true, outcomes, performed'))
            && (verdict.Finished? ==>
                  RunInvariant(plan, k + 1, completed[p.id := verdict.status],
                    outcomes + [Outcome(p.id, p.kind, p.phase, verdict.status)], performed', w))
  {
    TurnVerdict(plan, k, completed, verdict, attempted, w);
    assert performed + [] == performed;
    assert (if attempted then performed + [plan[k].id] else performed) == Attempted(plan, k + 1, w);
  }

  /** One step of the loop against one step of the solution. */
  lemma StepAgrees(plan: seq<PlannedAction>, k: nat, completed: map<string, Status>, w: World)
    requires IsTopological(plan) && k < |plan| && Agrees(plan, k, completed, w)
    ensures var p, st := plan[k], Solution(plan[..k], w);
            && (DependenciesSucceeded(p, st) <==> AllSucceeded(p, completed))
            && (DependenciesSucceeded(p, st) <==> DependenciesSucceeded(p, Solution(plan, w)))
            && p.id in Solution(plan, w) && Solution(plan, w)[p.id] == Equation(p, st, w)
            && Solution(plan[..k + 1], w) == st[p.id := Equation(p, st, w)]
  {
    EquationReadsPrefix(plan, w, k);
    SolutionExtends(plan, w, k);
    DependenciesAreDecided(plan, w, k);
  }

  // ------------------------------------------------------- safety over whole runs

  /** A chain along dependencies: each entry is needed by the one before. */
  predicate IsChain(plan: seq<PlannedAction>, chain: seq<nat>) {
    && (forall i :: 0 <= i < |chain| ==> chain[i] < |plan|)
    && forall i :: 0 <= i < |chain| - 1 ==> plan[chain[i + 1]].id in plan[chain[i]].dependsOn
  }

  /** Success, or an attempted effect, reaches down the whole dependency closure. */
  lemma {:induction false} ClosureSucceeded(plan: seq<PlannedAction>, w: World, chain: seq<nat>, m: nat)
    requires IsTopological(plan) && IsChain(plan, chain) && 0 < m < |chain|
    requires DependenciesSucceeded(plan[chain[0]], Solution(plan, w))
    ensures Ends(plan, w, plan[chain[m]].id, Finished(Succeeded))
    decreases m
  {
    var st := Solution(plan, w);
    if m > 1 {
      ClosureSucceeded(plan, w, chain, m - 1);
      var q := plan[chain[m - 1]];
      SolutionSolves(plan, w);
      assert q in Elements(plan);
      assert st[q.id] == Equation(q, st, w);
    }
    assert plan[chain[m - 1 + 1]].id in plan[chain[m - 1]].dependsOn;
  }

  /** An allowed effect stands in the list of attempts where the earlier ones end. */
  lemma {:induction false} AttemptedAt(plan: seq<PlannedAction>, n: nat, w: World, k: nat)
    requires k < n <= |plan| && MayAttempt(plan[k], Solution(plan, w), w)
    ensures |Attempted(plan, k, w)| < |Attempted(plan, n, w)|
    ensures Attempted(plan, n, w)[|Attempted(plan, k, w)|] == plan[k].id
    decreases n
  {
    if k < n - 1 {
      AttemptedAt(plan, n - 1, w, k);
    }
  }

  /** Only the allowed effects of actions that had their turn are attempted. */
  lemma {:induction false} AttemptedHadTurn(plan: seq<PlannedAction>, n: nat, w: World, k: nat)
    requires IsTopological(plan) && n <= |plan| && k < |plan| && plan[k].id in Attempted(plan, n, w)
    ensures k < n && MayAttempt(plan[k], Solution(plan, w), w)
    decreases n
  {
    if plan[k].id in Attempted(plan, n - 1, w) {
      AttemptedHadTurn(plan, n - 1, w, k);
    } else {
      assert plan[k].id == plan[n - 1].id;
    }
  }

  /** A chain along dependencies goes back in the plan. */
  lemma {:induction false} ChainGoesBack(plan: seq<PlannedAction>, chain: seq<nat>, m: nat)
    requires IsTopological(plan) && IsChain(plan, chain) && 0 < m < |chain|
    ensures chain[m] < chain[0]
    decreases m
  {
    if m > 1 {
      ChainGoesBack(plan, chain, m - 1);
    }
    assert plan[chain[m - 1 + 1]].id in plan[chain[m - 1]].dependsOn;
    var i :| 0 <= i < chain[m - 1] && plan[i].id == plan[chain[m]].id;
    assert i == chain[m];
  }

  /** An action that succeeded had its effect attempted, with success, unless the effect is skipped. */
  lemma SuccessWasAttempted(plan: seq<PlannedAction>, w: World, k: nat)
    requires IsTopological(plan) && k < |plan| && Ends(plan, w, plan[k].id, Finished(Succeeded))
    ensures SkipsEffect(plan[k].kind, w)
         || (MayAttempt(plan[k], Solution(plan, w), w) && w.answers(plan[k].id).effectSucceeds)
  {
    SolutionSolves(plan, w);
    assert plan[k] in Elements(plan);
  }

  /** The first effect was attempted at an earlier place than the second. */
  ghost predicate PerformedBefore(performed: seq<string>, first: string, second: string) {
    exists i, j :: 0 <= i < j < |performed| && performed[i] == first && performed[j] == second
  }

  /**
   Over every run, aborted or not: where an effect was attempted, every action in the
   transitive dependency closure of its action had its turn before, is recorded as
   succeeded, and its own effect was performed before, unless it is one that is skipped.
   */
  lemma EffectsAreSafe(plan: seq<PlannedAction>, w: World, aborted: bool, outcomes: seq<Outcome>, performed: seq<string>,
                       chain: seq<nat>, m: nat)
    requires IsTopological(plan) && IsRun(plan, w, aborted, outcomes, performed)
    requires IsChain(plan, chain) && 0 < m < |chain| && plan[chain[0]].id in performed
    ensures chain[m] < chain[0] && chain[m] < |outcomes|
    ensures outcomes[chain[m]].id == plan[chain[m]].id && outcomes[chain[m]].status == Succeeded
    ensures SkipsEffect(plan[chain[m]].kind, w)
         || (w.answers(plan[chain[m]].id).effectSucceeds
             && PerformedBefore(performed, plan[chain[m]].id, plan[chain[0]].id))
  {
    var n := Turns(aborted, outcomes);
    AttemptedHadTurn(plan, n, w, chain[0]);
    ChainGoesBack(plan, chain, m);
    ClosureSucceeded(plan, w, chain, m);
    assert IsRecorded(plan[chain[m]], outcomes[chain[m]], Solution(plan, w));
    SuccessWasAttempted(plan, w, chain[m]);
    if !SkipsEffect(plan[chain[m]].kind, w) {
      AttemptsAreOrdered(plan, n, w, chain[m], chain[0]);
    }
  }

  lemma AttemptsAreOrdered(plan: seq<PlannedAction>, n: nat, w: World, d: nat, h: nat)
    requires d < h < n <= |plan|
    requires MayAttempt(plan[d], Solution(plan, w), w) && MayAttempt(plan[h], Solution(plan, w), w)
    ensures PerformedBefore(Attempted(plan, n, w), plan[d].id, plan[h].id)
  {
    AttemptedAt(plan, h, w, d);
    AttemptedAt(plan, n, w, d);
    AttemptedAt(plan, n, w, h);
    var i, j := |Attempted(plan, d, w)|, |Attempted(plan, h, w)|;
    assert 0 <= i < j < |Attempted(plan, n, w)|;
  }

  /**
   Over every run of every plan: no command is handed off unless the planned privilege
   drop is recorded as succeeded before, and was really performed before, except for a
   root service and for root itself, for whom it is skipped.
   */
  lemma HandoffNeedsDroppedPrivileges(actions: seq<Action>, order: seq<nat>, plan: seq<PlannedAction>, w: World,
                                      aborted: bool, outcomes: seq<Outcome>, performed: seq<string>, h: nat, d: nat)
    requires IsPlannable(actions) && IsPlan(actions, order, plan) && IsRun(plan, w, aborted, outcomes, performed)
    requires h < |plan| && plan[h].kind.HandoffExec? && plan[h].id in performed
    requires d < |plan| && plan[d].kind.ProcessDropPrivileges?
    ensures d < h && d < |outcomes| && outcomes[d].id == plan[d].id && outcomes[d].status == Succeeded
    ensures w.rootService || w.targetIsRoot
         || (w.answers(plan[d].id).effectSucceeds && PerformedBefore(performed, plan[d].id, plan[h].id))
  {
    assert IsTopological(plan) by { PlanIsTopological(actions, order, plan); }
    assert plan[d].id in plan[h].dependsOn by { DropIsNeeded(actions, order, plan, h, d); }
    PairIsChain(plan, h, d);
    EffectsAreSafe(plan, w, aborted, outcomes, performed, [h, d], 1);
  }

  lemma PairIsChain(plan: seq<PlannedAction>, h: nat, d: nat)
    requires h < |plan| && d < |plan| && plan[d].id in plan[h].dependsOn
    ensures IsChain(plan, [h, d])
  {
  }

  lemma DropIsNeeded(actions: seq<Action>, order: seq<nat>, plan: seq<PlannedAction>, h: nat, d: nat)
    requires IsPlannable(actions) && IsPlan(actions, order, plan)
    requires h < |plan| && plan[h].kind.HandoffExec? && d < |plan| && plan[d].kind.ProcessDropPrivileges?
    ensures plan[d].id in plan[h].dependsOn
  {
    var at := FirstOfKind(actions, ProcessDropPrivileges);
    assert plan[h] == Planned(actions, actions[order[h]]);
    assert actions[order[d]].kind == ProcessDropPrivileges;
    assert order[d] == at.value;
  }
}
