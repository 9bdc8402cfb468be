/**
 What a plan depends on, in terms of the configuration alone: which action needs which,
 what can be planned, and that what is needed is planned first.
 */
module PlanDependencies {
  import opened Prelude
  import opened Actions
  import opened PlanOrder
  import opened Planner

  /**
   One action needs another: it declares it, or the other resolves the identity, or it
   hands off and the other drops privileges.
   */
  predicate Needs(actions: seq<Action>, i: nat, j: nat)
    requires i < |actions| && j < |actions|
  {
    || actions[j].id in actions[i].dependsOn
    || (actions[j].kind.IdentityResolve? && !actions[i].kind.IdentityResolve?)
    || (actions[j].kind.ProcessDropPrivileges? && actions[i].kind.HandoffExec?)
  }

  lemma KindIsFirst(actions: seq<Action>, kind: ActionKind, j: nat)
    requires AtMostOne(actions, kind) && j < |actions| && actions[j].kind == kind
    ensures FirstOfKind(actions, kind) == Some(j)
  {
    var first := FirstOfKind(actions, kind).value;
    assert !(first < j) && !(j < first);
  }

  lemma IdOfKindIff(actions: seq<Action>, kind: ActionKind, j: nat)
    requires DistinctIds(actions) && AtMostOne(actions, kind) && j < |actions|
    ensures actions[j].id in IdOfKind(actions, kind) <==> actions[j].kind == kind
  {
    if actions[j].kind == kind {
      KindIsFirst(actions, kind, j);
    }
  }

  /** The edges of the dependency graph are the needs. */
  lemma EdgesAreNeeds(actions: seq<Action>, i: nat, j: nat)
    requires DistinctIds(actions) && AtMostOne(actions, IdentityResolve) && AtMostOne(actions, ProcessDropPrivileges)
    requires i < |actions| && j < |actions|
    ensures j in PlanGraph(actions)[i] <==> Needs(actions, i, j)
  {
    IdOfKindIff(actions, IdentityResolve, j);
    IdOfKindIff(actions, ProcessDropPrivileges, j);
  }

  // -------------------------------------------------------------------- in a plan

  /** Every dependency is the id of some action. */
  lemma DependencyIsAction(actions: seq<Action>, i: nat, id: string)
    requires IsPlannable(actions) && i < |actions| && id in AllDependencies(actions)[i]
    ensures HasId(actions, id)
  {
    AllDependenciesAreKnown(actions);
  }

  lemma EdgeIff(actions: seq<Action>, i: nat, j: nat)
    requires i < |actions| && j < |actions| && DistinctIds(actions)
    ensures j in PlanGraph(actions)[i] <==> actions[j].id in DependenciesOf(actions, actions[i])
  {
  }

  /** The dependencies a planned action carries are the ids of what it needs, no more and no fewer. */
  lemma PlannedDependenciesAreNeeds(actions: seq<Action>, order: seq<nat>, plan: seq<PlannedAction>, k: nat, id: string)
    requires IsPlannable(actions) && IsPlan(actions, order, plan) && k < |plan|
    ensures plan[k].id == actions[order[k]].id && plan[k].kind == actions[order[k]].kind
    ensures id in plan[k].dependsOn <==>
              exists j :: 0 <= j < |actions| && actions[j].id == id && Needs(actions, order[k], j)
  {
    var i := order[k];
    assert plan[k] == Planned(actions, actions[i]);
    forall j | 0 <= j < |actions|
      ensures Needs(actions, i, j) <==> actions[j].id in plan[k].dependsOn
    {
      EdgesAreNeeds(actions, i, j);
      EdgeIff(actions, i, j);
    }
    if id in plan[k].dependsOn {
      DependencyIsAction(actions, i, id);
      var j :| 0 <= j < |actions| && actions[j].id == id;
      assert Needs(actions, i, j);
    }
  }

  /** Whatever a planned action needs is planned before it. */
  lemma NeededComesFirst(actions: seq<Action>, order: seq<nat>, plan: seq<PlannedAction>, k: nat, j: nat)
    requires IsPlannable(actions) && IsPlan(actions, order, plan) && k < |plan| && j < |actions|
    requires Needs(actions, order[k], j)
    ensures exists m :: 0 <= m < k && plan[m].id == actions[j].id
  {
    PlannedDependenciesAreNeeds(actions, order, plan, k, actions[j].id);
    PlanIsTopological(actions, order, plan);
  }

  /** Every declared dependency is carried by the planned action, and planned before it. */
  lemma DeclaredComesFirst(actions: seq<Action>, order: seq<nat>, plan: seq<PlannedAction>, k: nat, d: string)
    requires IsPlannable(actions) && IsPlan(actions, order, plan) && k < |plan|
    requires d in actions[order[k]].dependsOn
    ensures d in plan[k].dependsOn && exists m :: 0 <= m < k && plan[m].id == d
  {
    var a := actions[order[k]];
    assert a in actions && DeclaresKnown(actions, a);
    var j :| 0 <= j < |actions| && actions[j].id == d;
    assert Needs(actions, order[k], j);
    PlannedDependenciesAreNeeds(actions, order, plan, k, d);
    NeededComesFirst(actions, order, plan, k, j);
  }

  // ------------------------------------------------------------------ what can be planned

  /** Actions that need each other in a circle. */
  predicate IsNeedsCycle(actions: seq<Action>, walk: seq<nat>) {
    && |walk| >= 2 && walk[0] == walk[|walk| - 1]
    && (forall k :: 0 <= k < |walk| ==> walk[k] < |actions|)
    && forall k :: 0 <= k < |walk| - 1 ==> Needs(actions, walk[k], walk[k + 1])
  }

  predicate HasKindAmong(actions: seq<Action>, kind: ActionKind) {
    exists i :: 0 <= i < |actions| && actions[i].kind == kind
  }

  /** The conditions on single actions: they declare what is there, and identity is resolved where it is used. */
  predicate AreDeclaredWell(actions: seq<Action>) {
    forall i :: 0 <= i < |actions| ==>
      && (forall d :: d in actions[i].dependsOn ==> d != actions[i].id && HasId(actions, d))
      && (actions[i].ReferencesIdentity() && !actions[i].kind.IdentityResolve? ==> HasKindAmong(actions, IdentityResolve))
  }

  lemma DeclaredWellIff(actions: seq<Action>)
    ensures AreDeclaredWell(actions) <==> forall a :: a in actions ==> DeclaresKnown(actions, a)
  {
    assert FirstOfKind(actions, IdentityResolve).Some? <==> HasKindAmong(actions, IdentityResolve);
    if forall a :: a in actions ==> DeclaresKnown(actions, a) {
      forall i | 0 <= i < |actions|
        ensures DeclaresKnown(actions, actions[i])
      {
        assert actions[i] in actions;
      }
    }
  }

  lemma CyclesAreNeeds(actions: seq<Action>, walk: seq<nat>)
    requires DistinctIds(actions) && AtMostOne(actions, IdentityResolve) && AtMostOne(actions, ProcessDropPrivileges)
    ensures IsCycle(PlanGraph(actions), walk) <==> IsNeedsCycle(actions, walk)
  {
    var graph := PlanGraph(actions);
    forall k | 0 <= k < |walk| - 1 && walk[k] < |actions| && walk[k + 1] < |actions|
      ensures walk[k + 1] in graph[walk[k]] <==> Needs(actions, walk[k], walk[k + 1])
    {
      EdgesAreNeeds(actions, walk[k], walk[k + 1]);
    }
    if IsCycle(graph, walk) {
      forall k | 0 <= k < |walk|
        ensures walk[k] < |actions|
      {
        if k > 0 {
          assert walk[k - 1 + 1] in graph[walk[k - 1]];
        }
      }
    }
  }

  /**
   Which actions can be planned, said without a graph: unique ids, singleton kinds,
   declarations that hold, nothing that needs a later phase, and no circle of needs.
   */
  lemma PlannableIff(actions: seq<Action>)
    ensures IsPlannable(actions) <==>
              && |actions| <= 8192
              && DistinctIds(actions)
              && AtMostOne(actions, IdentityResolve) && AtMostOne(actions, HandoffExec) && AtMostOne(actions, ProcessDropPrivileges)
              && AreDeclaredWell(actions)
              && (forall i, j :: 0 <= i < |actions| && 0 <= j < |actions| && Needs(actions, i, j) ==>
                    actions[j].Phase() <= actions[i].Phase())
              && (forall walk :: !IsNeedsCycle(actions, walk))
  {
    DeclaredWellIff(actions);
    if DistinctIds(actions) && AtMostOne(actions, IdentityResolve) && AtMostOne(actions, ProcessDropPrivileges) {
      forall i, j | 0 <= i < |actions| && 0 <= j < |actions|
        ensures j in PlanGraph(actions)[i] <==> Needs(actions, i, j)
      {
        EdgesAreNeeds(actions, i, j);
      }
      forall walk
        ensures IsCycle(PlanGraph(actions), walk) <==> IsNeedsCycle(actions, walk)
      {
        CyclesAreNeeds(actions, walk);
      }
    }
  }
}
