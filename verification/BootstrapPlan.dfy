/** A whole configuration on its way to a plan: the runtime-invariance check, then planning. */
module BootstrapPlan {
  import opened Prelude
  import opened Actions
  import opened Inputs
  import opened Planner
  import opened RuntimeInvariance
  import opened Conditions

  /** A plan exists exactly for runtime-invariant, plannable configurations, and it is the greedy one. */
  method FromConfig(declarations: seq<Declaration>, actions: seq<Action>) returns (r: Result<seq<PlannedAction>, ModelError>)
    ensures r.Ok? <==> IsRuntimeInvariant(declarations, actions) && IsPlannable(actions)
    ensures r.Ok? ==> exists order :: IsPlan(actions, order, r.value)
  {
    var accepted := ValidateRuntimeInvariance(declarations, actions);
    if !accepted {
      return Err(DependsOnRequest);
    }
    r := BuildPlan(actions);
  }

  /** A request-scoped action, or one whose condition and rendered paths are the same for both requests. */
  ghost predicate IgnoresRequests(a: Action, w: Surroundings, s: Supplied, t: Supplied) {
    || IsExempt(a)
    || (&& EvaluateWhen(a, w, s) == EvaluateWhen(a, w, t)
        && forall field :: field in PathFields(a) && field.Some? ==>
             RenderField(field.value, w, s) == RenderField(field.value, w, t))
  }

  /**
   What stands in a plan and is not scoped to a request behaves alike in every request:
   condition and rendered paths are the same whatever the request supplies.
   */
  lemma PlannedActionsIgnoreTheRequest(declarations: seq<Declaration>, actions: seq<Action>, order: seq<nat>,
                                       plan: seq<PlannedAction>, k: nat, w: Surroundings, p: Request, q: Request)
    requires IsRuntimeInvariant(declarations, actions) && IsPlannable(actions) && IsPlan(actions, order, plan) && k < |plan|
    requires Supply(declarations, p).Some? && Supply(declarations, q).Some?
    ensures exists a :: a in actions && a.id == plan[k].id && a.kind == plan[k].kind
              && IgnoresRequests(a, w, Supply(declarations, p).value, Supply(declarations, q).value)
  {
    var a := actions[order[k]];
    assert a in actions && plan[k] == Planned(actions, a);
    if !IsExempt(a) {
      AcceptedActionsIgnoreTheRequest(declarations, actions, a, w, p, q);
    }
  }
}
