/**
 What a run records of each action and where it stops, read off the plan, the action's
 failure policy and the answers it meets, and the outcomes recorded before it.
 */
module RunOutcomes {
  import opened Prelude
  import opened Actions
  import opened PlanOrder
  import opened Planner
  import opened Executor

  /** Every dependency is recorded before this place, as succeeded. */
  predicate IsReady(plan: seq<PlannedAction>, outcomes: seq<Outcome>, k: nat)
    requires k < |plan| && k <= |outcomes|
  {
    forall d :: d in plan[k].dependsOn ==>
      exists j :: 0 <= j < k && outcomes[j].id == d && outcomes[j].status == Succeeded
  }

  /** The configuration holds the planned action, with the planned kind. */
  predicate IsConfigured(p: PlannedAction, w: World) {
    p.id in w.actions && w.actions[p.id].kind == p.kind
  }

  /** The action is recorded as done without doing anything. */
  predicate IsWaived(p: PlannedAction, w: World) {
    match p.kind
    case ProcessDropPrivileges => w.rootService || w.targetIsRoot
    case IdentityMapUser => w.targetIsRoot
    case ProcessSetUserShell => w.targetIsRoot
    case _ => false
  }

  /** The effect is tried: dependencies succeeded, condition true, not waived, run-as allowed. */
  predicate IsTried(plan: seq<PlannedAction>, w: World, outcomes: seq<Outcome>, k: nat)
    requires k < |plan| && k <= |outcomes|
  {
    && IsConfigured(plan[k], w) && IsReady(plan, outcomes, k)
    && w.answers(plan[k].id).condition == Some(true)
    && !IsWaived(plan[k], w) && w.answers(plan[k].id).runAsAllowed
  }

  lemma ReadyIff(plan: seq<PlannedAction>, w: World, aborted: bool, outcomes: seq<Outcome>, performed: seq<string>, k: nat)
    requires IsTopological(plan) && IsRun(plan, w, aborted, outcomes, performed) && k < |plan| && k <= |outcomes|
    ensures IsReady(plan, outcomes, k) <==> DependenciesSucceeded(plan[k], Solution(plan, w))
  {
    var st := Solution(plan, w);
    forall d | d in plan[k].dependsOn
      ensures (d in st && st[d] == Finished(Succeeded)) <==>
                exists j :: 0 <= j < k && outcomes[j].id == d && outcomes[j].status == Succeeded
    {
      var i :| 0 <= i < k && plan[i].id == d;
      assert IsRecorded(plan[i], outcomes[i], st);
      forall j | 0 <= j < k && outcomes[j].id == d
        ensures st[d] == Finished(outcomes[j].status)
      {
        assert IsRecorded(plan[j], outcomes[j], st);
      }
    }
  }

  /** The verdict of a turn, in a run. */
  lemma TurnInRun(plan: seq<PlannedAction>, w: World, aborted: bool, outcomes: seq<Outcome>, performed: seq<string>, k: nat)
    requires IsTopological(plan) && IsRun(plan, w, aborted, outcomes, performed) && k < Turns(aborted, outcomes)
    ensures Ends(plan, w, plan[k].id,
              if !Matches(plan[k], w) then Fatal
              else if !IsReady(plan, outcomes, k) then Finished(SkippedDependency)
              else Alone(plan[k], w))
    ensures k < |outcomes| ==> IsRecorded(plan[k], outcomes[k], Solution(plan, w))
    ensures k == |outcomes| ==> Ends(plan, w, plan[k].id, Fatal)
  {
    ReadyIff(plan, w, aborted, outcomes, performed, k);
    SolutionSolves(plan, w);
    assert plan[k] in Elements(plan);
  }

  /**
   What is recorded of each action that had its turn, status by status: exactly when it
   is that status. The remaining case is that the run stopped there.
   */
  lemma RecordedExactlyWhen(plan: seq<PlannedAction>, w: World, aborted: bool, outcomes: seq<Outcome>,
                            performed: seq<string>, k: nat)
    requires IsTopological(plan) && IsRun(plan, w, aborted, outcomes, performed) && k < Turns(aborted, outcomes)
    ensures var p, a := plan[k], w.answers(plan[k].id);
            var ready := IsConfigured(p, w) && IsReady(plan, outcomes, k);
            var tried := IsTried(plan, w, outcomes, k);
            && (Records(outcomes, k, SkippedDependency) <==> IsConfigured(p, w) && !ready)
            && (Records(outcomes, k, SkippedCondition) <==> ready && a.condition == Some(false))
            && (Records(outcomes, k, Succeeded) <==>
                  && ready && a.condition == Some(true) && a.pathRenders
                  && (IsWaived(p, w) || (a.runAsAllowed && a.effectSucceeds)))
            && (Records(outcomes, k, FailedWarn) <==>
                  tried && !a.effectSucceeds && a.pathRenders && w.actions[p.id].failure.Warn?)
            && (Records(outcomes, k, FailedIgnore) <==>
                  tried && !a.effectSucceeds && a.pathRenders && w.actions[p.id].failure.Ignore?)
    ensures k < |outcomes| ==> outcomes[k] == Outcome(plan[k].id, plan[k].kind, plan[k].phase, outcomes[k].status)
  {
    TurnInRun(plan, w, aborted, outcomes, performed, k);
  }

  predicate Records(outcomes: seq<Outcome>, k: nat, status: Status) {
    k < |outcomes| && outcomes[k].status == status
  }

  /** The cases that end a run. */
  predicate EndsTheRun(plan: seq<PlannedAction>, w: World, outcomes: seq<Outcome>, k: nat)
    requires k < |plan| && k <= |outcomes|
  {
    var p, a := plan[k], w.answers(plan[k].id);
    || !IsConfigured(p, w)
    || (IsReady(plan, outcomes, k) && a.condition == None)
    || (IsReady(plan, outcomes, k) && a.condition == Some(true) &&
        (if IsWaived(p, w) then !a.pathRenders
         else || !a.runAsAllowed
              || !a.pathRenders
              || (!a.effectSucceeds && w.actions[p.id].failure.Error?)))
  }

  /** A run stops at an action exactly in the listed cases, and there first. */
  lemma StopsExactlyWhen(plan: seq<PlannedAction>, w: World, aborted: bool, outcomes: seq<Outcome>,
                         performed: seq<string>, k: nat)
    requires IsTopological(plan) && IsRun(plan, w, aborted, outcomes, performed) && k < Turns(aborted, outcomes)
    ensures k == |outcomes| <==> EndsTheRun(plan, w, outcomes, k)
    ensures aborted <==> |outcomes| < |plan|
  {
    TurnInRun(plan, w, aborted, outcomes, performed, k);
  }

  /** An action's effect is performed exactly when it had its turn and the effect was tried. */
  lemma PerformedExactlyWhen(plan: seq<PlannedAction>, w: World, aborted: bool, outcomes: seq<Outcome>,
                             performed: seq<string>, k: nat)
    requires IsTopological(plan) && IsRun(plan, w, aborted, outcomes, performed) && k < |plan|
    ensures plan[k].id in performed <==> k < Turns(aborted, outcomes) && IsTried(plan, w, outcomes, k)
  {
    var n := Turns(aborted, outcomes);
    if plan[k].id in performed {
      AttemptedHadTurn(plan, n, w, k);
    }
    if k < n {
      ReadyIff(plan, w, aborted, outcomes, performed, k);
      if MayAttempt(plan[k], Solution(plan, w), w) {
        AttemptedAt(plan, n, w, k);
      }
    }
  }

  /**
   The failure policy: an effect that was performed and failed ends the run exactly when
   the policy is error or the path does not render; otherwise it is recorded as the
   policy says, and the run goes on.
   */
  lemma FailurePolicyDecides(plan: seq<PlannedAction>, w: World, aborted: bool, outcomes: seq<Outcome>,
                             performed: seq<string>, k: nat)
    requires IsTopological(plan) && IsRun(plan, w, aborted, outcomes, performed)
    requires k < |plan| && plan[k].id in performed && !w.answers(plan[k].id).effectSucceeds
    ensures plan[k].id in w.actions && k <= |outcomes|
    ensures var failure, renders := w.actions[plan[k].id].failure, w.answers(plan[k].id).pathRenders;
            && (aborted && k == |outcomes| <==> failure.Error? || !renders)
            && (Records(outcomes, k, FailedWarn) <==> failure.Warn? && renders)
            && (Records(outcomes, k, FailedIgnore) <==> failure.Ignore? && renders)
  {
    PerformedExactlyWhen(plan, w, aborted, outcomes, performed, k);
    RecordedExactlyWhen(plan, w, aborted, outcomes, performed, k);
    StopsExactlyWhen(plan, w, aborted, outcomes, performed, k);
  }
}
