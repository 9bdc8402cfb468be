/**
 Static planning (`Plan::from_config`): explicit and implicit dependencies, the
 phase check and the priority-queue topological sort.
 */
module Planner {
  import opened Prelude
  import opened TextScan
  import opened Actions
  import opened PlanOrder

  datatype ModelError =
    | TooManyActions
    | DependsOnRequest
    | DuplicateActionId(id: string)
    | AtMostOnce(kind: ActionKind)
    | MissingDependency(action: string, dependency: string)
    | MissingIdentityResolve(action: string)
    | PhaseViolation(action: string, dependency: string)
    | DependencyCycle(ids: seq<string>)

  datatype PlannedAction = PlannedAction(id: string, kind: ActionKind, phase: nat, dependsOn: set<string>)

  // ------------------------------------------------------------------ identifiers

  predicate DistinctIds(actions: seq<Action>) {
    forall i, j :: 0 <= i < j < |actions| ==> actions[i].id != actions[j].id
  }

  predicate HasId(actions: seq<Action>, id: string) {
    exists i :: 0 <= i < |actions| && actions[i].id == id
  }

  function Phases(actions: seq<Action>): (r: seq<nat>)
    ensures |r| == |actions|
    ensures forall i :: 0 <= i < |r| ==> r[i] == actions[i].Phase()
  {
    seq(|actions|, i requires 0 <= i < |actions| => actions[i].Phase())
  }

  /** Dependencies by position instead of by identifier. */
  function ToGraph(actions: seq<Action>, dependencies: seq<set<string>>): (graph: Graph)
    requires |dependencies| == |actions|
    ensures |graph| == |actions| && IsGraph(graph)
    ensures forall i, d :: 0 <= i < |graph| ==>
              (d in graph[i] <==> 0 <= d < |actions| && actions[d].id in dependencies[i])
  {
    seq(|actions|, i requires 0 <= i < |actions| =>
      set d | 0 <= d < |actions| && actions[d].id in dependencies[i] :: d)
  }

  predicate AreKnown(actions: seq<Action>, dependencies: seq<set<string>>) {
    && |dependencies| == |actions|
    && forall i, d :: 0 <= i < |dependencies| && d in dependencies[i] ==> HasId(actions, d)
  }

  function IdsOf(actions: seq<Action>, placed: set<nat>): set<string>
    requires forall i :: i in placed ==> i < |actions|
  {
    set i | i in placed :: actions[i].id
  }

  // ---------------------------------------------------------------- the sort itself

  predicate LexNoLater(a: (nat, nat), b: (nat, nat)) {
    a.0 < b.0 || (a.0 == b.0 && a.1 <= b.1)
  }

  /** `BTreeSet::pop_first`, the reading half. */
  method First(ready: set<(nat, nat)>) returns (least: (nat, nat))
    requires ready != {}
    ensures least in ready && forall other :: other in ready ==> LexNoLater(least, other)
  {
    least :| least in ready;
    var rest := ready - {least};
    while rest != {}
      invariant rest <= ready && least in ready
      invariant forall other :: other in ready && other !in rest ==> LexNoLater(least, other)
      decreases |rest|
    {
      var next :| next in rest;
      if !LexNoLater(least, next) {
        least := next;
      }
      rest := rest - {next};
    }
  }

  method IndexIds(actions: seq<Action>) returns (indexes: map<string, nat>)
    requires DistinctIds(actions)
    ensures forall i :: 0 <= i < |actions| ==> actions[i].id in indexes && indexes[actions[i].id] == i
  {
    indexes := map[];
    for k := 0 to |actions|
      invariant forall i :: 0 <= i < k ==> actions[i].id in indexes && indexes[actions[i].id] == i
    {
      indexes := indexes[actions[k].id := k];
    }
  }

  /** Which positions wait for which: each waiting position once. */
  ghost predicate AreDependents(graph: Graph, dependents: seq<seq<nat>>, upTo: nat) {
    && |dependents| == |graph|
    && forall j :: 0 <= j < |dependents| ==>
         && Distinct(dependents[j])
         && forall i :: i in dependents[j] <==> 0 <= i < upTo && i < |graph| && j in graph[i]
  }

  method CollectDependents(actions: seq<Action>, dependencies: seq<set<string>>, indexes: map<string, nat>)
    returns (dependents: seq<seq<nat>>)
    requires DistinctIds(actions) && AreKnown(actions, dependencies)
    requires forall i :: 0 <= i < |actions| ==> actions[i].id in indexes && indexes[actions[i].id] == i
    ensures AreDependents(ToGraph(actions, dependencies), dependents, |actions|)
  {
    ghost var graph := ToGraph(actions, dependencies);
    dependents := seq(|actions|, i => []);
    for index := 0 to |actions|
      invariant AreDependents(graph, dependents, index)
    {
      ghost var before := dependents;
      dependents := AddEdges(actions, dependencies[index], indexes, index, dependents);
      EdgesAreAdded(actions, dependencies, index, before, dependents);
    }
  }

  /** The inner loop: one position is appended where it waits. */
  method AddEdges(actions: seq<Action>, needed: set<string>, indexes: map<string, nat>, index: nat, before: seq<seq<nat>>)
    returns (dependents: seq<seq<nat>>)
    requires DistinctIds(actions) && |before| == |actions| && forall d :: d in needed ==> HasId(actions, d)
    requires forall i :: 0 <= i < |actions| ==> actions[i].id in indexes && indexes[actions[i].id] == i
    ensures |dependents| == |actions|
    ensures forall j :: 0 <= j < |actions| ==>
              dependents[j] == if actions[j].id in needed then before[j] + [index] else before[j]
  {
    var todo := needed;
    dependents := before;
    while todo != {}
      invariant todo <= needed && |dependents| == |actions|
      invariant forall j :: 0 <= j < |actions| ==>
        dependents[j] == (if actions[j].id in needed && actions[j].id !in todo then before[j] + [index] else before[j])
      decreases |todo|
    {
      var dependency :| dependency in todo;
      assert HasId(actions, dependency);
      var at := indexes[dependency];
      dependents := dependents[at := dependents[at] + [index]];
      todo := todo - {dependency};
    }
  }

  lemma EdgesAreAdded(actions: seq<Action>, dependencies: seq<set<string>>, index: nat, before: seq<seq<nat>>,
                      dependents: seq<seq<nat>>)
    requires DistinctIds(actions) && AreKnown(actions, dependencies) && index < |actions|
    requires AreDependents(ToGraph(actions, dependencies), before, index) && |dependents| == |actions|
    requires forall j :: 0 <= j < |actions| ==>
               dependents[j] == if actions[j].id in dependencies[index] then before[j] + [index] else before[j]
    ensures AreDependents(ToGraph(actions, dependencies), dependents, index + 1)
  {
    var graph := ToGraph(actions, dependencies);
    forall j | 0 <= j < |actions|
      ensures Distinct(dependents[j])
      ensures forall i :: i in dependents[j] <==> 0 <= i < index + 1 && i < |graph| && j in graph[i]
    {
      assert j in graph[index] <==> actions[j].id in dependencies[index];
    }
  }

  /** The remaining dependencies of an action, as its in-degree counts them. */
  ghost predicate CountsRemaining(actions: seq<Action>, dependencies: seq<set<string>>, indegree: seq<nat>, placed: set<nat>)
    requires forall i :: i in placed ==> i < |actions|
  {
    && |indegree| == |dependencies|
    && forall i :: 0 <= i < |indegree| ==> indegree[i] == |dependencies[i] - IdsOf(actions, placed)|
  }

  /** The queue holds exactly the unplaced actions whose count is zero. */
  ghost predicate IsQueue(actions: seq<Action>, indegree: seq<nat>, placed: set<nat>, ready: set<(nat, nat)>) {
    && |indegree| == |actions|
    && (forall e :: e in ready ==> e.1 < |actions| && e.0 == actions[e.1].Phase())
    && forall i :: 0 <= i < |actions| ==>
         ((actions[i].Phase(), i) in ready <==> i !in placed && indegree[i] == 0)
  }

  lemma IdPlaced(actions: seq<Action>, placed: set<nat>, d: nat)
    requires DistinctIds(actions) && d < |actions| && forall i :: i in placed ==> i < |actions|
    ensures actions[d].id in IdsOf(actions, placed) <==> d in placed
  {
    if actions[d].id in IdsOf(actions, placed) {
      var i :| i in placed && actions[i].id == actions[d].id;
      assert i == d;
    }
  }

  /** A zero count means that every dependency is placed. */
  lemma ZeroMeansReady(actions: seq<Action>, dependencies: seq<set<string>>, placed: set<nat>, i: nat)
    requires DistinctIds(actions) && AreKnown(actions, dependencies) && i < |actions|
    requires forall p :: p in placed ==> p < |actions|
    ensures |dependencies[i] - IdsOf(actions, placed)| == 0 <==> ToGraph(actions, dependencies)[i] <= placed
  {
    var graph, ids := ToGraph(actions, dependencies), IdsOf(actions, placed);
    if |dependencies[i] - ids| == 0 {
      assert dependencies[i] - ids == {};
      forall d | d in graph[i]
        ensures d in placed
      {
        assert actions[d].id in dependencies[i];
        assert actions[d].id !in dependencies[i] - ids;
        IdPlaced(actions, placed, d);
      }
    }
    if graph[i] <= placed {
      forall id | id in dependencies[i]
        ensures id in ids
      {
        assert HasId(actions, id);
        var d :| 0 <= d < |actions| && actions[d].id == id;
        assert d in graph[i];
      }
      assert dependencies[i] - ids == {};
    }
  }

  /** The queue presents exactly the ready set of the graph. */
  lemma QueueIsReady(actions: seq<Action>, dependencies: seq<set<string>>, indegree: seq<nat>, placed: set<nat>, ready: set<(nat, nat)>)
    requires DistinctIds(actions) && AreKnown(actions, dependencies)
    requires forall p :: p in placed ==> p < |actions|
    requires CountsRemaining(actions, dependencies, indegree, placed) && IsQueue(actions, indegree, placed, ready)
    ensures forall i :: 0 <= i < |actions| ==>
              (i in Ready(ToGraph(actions, dependencies), placed) <==> (actions[i].Phase(), i) in ready)
    ensures ready == {} ==> Ready(ToGraph(actions, dependencies), placed) == {}
  {
    forall i | 0 <= i < |actions|
      ensures i in Ready(ToGraph(actions, dependencies), placed) <==> (actions[i].Phase(), i) in ready
    {
      ZeroMeansReady(actions, dependencies, placed, i);
    }
  }

  /** Placing one action lowers by one the count of those that wait for it. */
  lemma PlacingLowersCount(actions: seq<Action>, dependencies: seq<set<string>>, placed: set<nat>, index: nat, i: nat)
    requires DistinctIds(actions) && |dependencies| == |actions| && i < |actions| && index < |actions|
    requires index !in placed && forall p :: p in placed ==> p < |actions|
    ensures |dependencies[i] - IdsOf(actions, placed + {index})| ==
            |dependencies[i] - IdsOf(actions, placed)| - (if actions[index].id in dependencies[i] then 1 else 0)
  {
    var before, after := IdsOf(actions, placed), IdsOf(actions, placed + {index});
    var id := actions[index].id;
    assert after == before + {id};
    IdPlaced(actions, placed, index);
    if id in dependencies[i] {
      assert dependencies[i] - before == (dependencies[i] - after) + {id};
    } else {
      assert dependencies[i] - before == dependencies[i] - after;
    }
  }

  /** The inner loop after an action was taken: lower the counts of what waited for it. */
  method Release(actions: seq<Action>, waiting: seq<nat>, indegree: seq<nat>, ready: set<(nat, nat)>, ghost placed: set<nat>)
    returns (indegree': seq<nat>, ready': set<(nat, nat)>)
    requires IsQueue(actions, indegree, placed, ready) && Distinct(waiting)
    requires forall i :: i in waiting ==> i < |actions| && i !in placed && indegree[i] >= 1
    ensures |indegree'| == |indegree|
    ensures forall i :: 0 <= i < |indegree| ==> indegree'[i] + (if i in waiting then 1 else 0) == indegree[i]
    ensures IsQueue(actions, indegree', placed, ready')
  {
    indegree', ready' := indegree, ready;
    for k := 0 to |waiting|
      invariant |indegree'| == |actions|
      invariant forall i :: 0 <= i < |actions| ==>
                  indegree'[i] + (if i in waiting[..k] then 1 else 0) == indegree[i]
      invariant IsQueue(actions, indegree', placed, ready')
    {
      var dependent := waiting[k];
      assert dependent in waiting && dependent !in waiting[..k];
      indegree' := indegree'[dependent := indegree'[dependent] - 1];
      if indegree'[dependent] == 0 {
        ready' := ready' + {(actions[dependent].Phase(), dependent)};
      }
      assert waiting[..k + 1] == waiting[..k] + [dependent];
    }
    assert waiting[..|waiting|] == waiting;
  }

  /** Lowering the counts of what waited for a placed action keeps them exact. */
  lemma CountsAfterPlacing(actions: seq<Action>, dependencies: seq<set<string>>, waiting: seq<nat>, index: nat,
                           indegree: seq<nat>, indegree': seq<nat>, placed: set<nat>)
    requires DistinctIds(actions) && |dependencies| == |actions| == |indegree'|
    requires index < |actions| && index !in placed && forall p :: p in placed ==> p < |actions|
    requires forall i :: i in waiting <==> 0 <= i < |actions| && actions[index].id in dependencies[i]
    requires CountsRemaining(actions, dependencies, indegree, placed)
    requires forall i :: 0 <= i < |actions| ==> indegree'[i] + (if i in waiting then 1 else 0) == indegree[i]
    ensures CountsRemaining(actions, dependencies, indegree', placed + {index})
  {
    forall i | 0 <= i < |actions|
      ensures indegree'[i] == |dependencies[i] - IdsOf(actions, placed + {index})|
    {
      PlacingLowersCount(actions, dependencies, placed, index, i);
    }
  }

  /** What waits for a ready action is unplaced and still counts it. */
  lemma WaitingStillCounts(actions: seq<Action>, dependencies: seq<set<string>>, order: seq<nat>, index: nat,
                           indegree: seq<nat>, waiting: seq<nat>)
    requires DistinctIds(actions) && AreKnown(actions, dependencies)
    requires IsGreedy(ToGraph(actions, dependencies), Phases(actions), order)
    requires Elements(order) <= Nodes(ToGraph(actions, dependencies))
    requires index in Ready(ToGraph(actions, dependencies), Elements(order))
    requires CountsRemaining(actions, dependencies, indegree, Elements(order))
    requires forall i :: i in waiting <==> 0 <= i < |actions| && index in ToGraph(actions, dependencies)[i]
    ensures forall i :: i in waiting ==> i !in Elements(order) + {index} && indegree[i] >= 1
  {
    WaitingIsUnplaced(actions, ToGraph(actions, dependencies), order, index);
    forall i | i in waiting
      ensures indegree[i] >= 1
    {
      PlacingLowersCount(actions, dependencies, Elements(order), index, i);
    }
  }

  /** The ids of the given positions, in the order of the configuration. */
  function IdsAt(actions: seq<Action>, positions: set<nat>, n: nat): seq<string>
    requires n <= |actions|
  {
    if n == 0 then []
    else IdsAt(actions, positions, n - 1) + if n - 1 in positions then [actions[n - 1].id] else []
  }

  /**
   What the sort promises, in terms of the dependency graph: the greedy order of all
   positions, or a report of exactly those that the greedy order cannot place.
   */
  ghost predicate IsSortResult(actions: seq<Action>, graph: Graph, r: Result<seq<nat>, ModelError>)
    requires |graph| == |actions|
  {
    match r
    case Ok(order) =>
      && IsGreedy(graph, Phases(actions), order)
      && Distinct(order) && Elements(order) == Nodes(graph) && |order| == |actions|
      && DependenciesFirst(graph, order)
    case Err(e) =>
      && e.DependencyCycle?
      && exists order :: IsGreedyRun(graph, Phases(actions), order) && ReportsLeftover(actions, graph, order, e.ids)
  }

  ghost predicate ReportsLeftover(actions: seq<Action>, graph: Graph, order: seq<nat>, ids: seq<string>) {
    var stuck := Nodes(graph) - Elements(order);
    stuck != {} && IsBlocked(graph, stuck) && ids == IdsAt(actions, stuck, |actions|)
  }

  /**
   Success if and only if the dependencies have no cycle; the order is the greedy
   one, holds every position once and puts dependencies first; a failure reports
   exactly the actions that still have an unplaced dependency, in their order.
   */
  method StableTopologicalOrder(actions: seq<Action>, dependencies: seq<set<string>>)
    returns (r: Result<seq<nat>, ModelError>)
    requires DistinctIds(actions) && AreKnown(actions, dependencies)
    ensures r.Ok? <==> Acyclic(ToGraph(actions, dependencies))
    ensures IsSortResult(actions, ToGraph(actions, dependencies), r)
  {
    ghost var graph := ToGraph(actions, dependencies);
    var indexes := IndexIds(actions);
    var dependents := CollectDependents(actions, dependencies, indexes);
    var order, indegree := RunQueue(actions, dependencies, dependents);
    SortSucceedsIffAcyclic(graph, Phases(actions), order);
    GreedyIsTopological(graph, Phases(actions), order);
    FullLengthIsEverything(graph, order);
    if |order| != |actions| {
      var remaining := Unfinished(actions, indegree, Nodes(graph) - Elements(order));
      assert ReportsLeftover(actions, graph, order, remaining);
      return Err(DependencyCycle(remaining));
    }
    return Ok(order);
  }

  /** What a failed sort reports: the actions that depend on a cycle, and no others. */
  lemma ReportIsExact(actions: seq<Action>, graph: Graph, ids: seq<string>, i: nat)
    requires IsGraph(graph) && |graph| == |actions| && DistinctIds(actions) && i < |actions|
    requires IsSortResult(actions, graph, Err(DependencyCycle(ids)))
    ensures actions[i].id in ids <==> DependsOnCycle(graph, i)
  {
    var order :| IsGreedyRun(graph, Phases(actions), order) && ReportsLeftover(actions, graph, order, ids);
    IdIsReported(actions, Nodes(graph) - Elements(order), |actions|, i);
    LeftoverDependsOnCycle(graph, Phases(actions), order, i);
  }

  lemma {:induction false} IdIsReported(actions: seq<Action>, positions: set<nat>, n: nat, i: nat)
    requires DistinctIds(actions) && i < |actions| && n <= |actions|
    ensures actions[i].id in IdsAt(actions, positions, n) <==> i < n && i in positions
    decreases n
  {
    if n > 0 {
      IdIsReported(actions, positions, n - 1, i);
      assert i != n - 1 ==> actions[i].id != actions[n - 1].id;
    }
  }

  lemma QueueDropsHead(actions: seq<Action>, indegree: seq<nat>, placed: set<nat>, ready: set<(nat, nat)>, least: (nat, nat))
    requires IsQueue(actions, indegree, placed, ready) && least in ready
    ensures IsQueue(actions, indegree, placed + {least.1}, ready - {least})
  {
  }

  method Unfinished(actions: seq<Action>, indegree: seq<nat>, ghost stuck: set<nat>) returns (remaining: seq<string>)
    requires |indegree| == |actions| && forall i :: 0 <= i < |actions| ==> (indegree[i] > 0 <==> i in stuck)
    ensures remaining == IdsAt(actions, stuck, |actions|)
  {
    remaining := [];
    for i := 0 to |actions|
      invariant remaining == IdsAt(actions, stuck, i)
    {
      if indegree[i] > 0 {
        remaining := remaining + [actions[i].id];
      }
    }
  }

  /** What the queue loop keeps. */
  ghost predicate QueueInvariant(actions: seq<Action>, dependencies: seq<set<string>>, order: seq<nat>,
                                 indegree: seq<nat>, ready: set<(nat, nat)>)
    requires |dependencies| == |actions|
  {
    && IsGreedy(ToGraph(actions, dependencies), Phases(actions), order)
    && Elements(order) <= Nodes(ToGraph(actions, dependencies))
    && CountsRemaining(actions, dependencies, indegree, Elements(order))
    && IsQueue(actions, indegree, Elements(order), ready)
  }

  /** One turn of the queue loop. */
  method TakeNext(actions: seq<Action>, dependencies: seq<set<string>>, dependents: seq<seq<nat>>,
                  order: seq<nat>, indegree: seq<nat>, ready: set<(nat, nat)>)
    returns (order': seq<nat>, indegree': seq<nat>, ready': set<(nat, nat)>)
    requires DistinctIds(actions) && AreKnown(actions, dependencies)
    requires AreDependents(ToGraph(actions, dependencies), dependents, |actions|)
    requires QueueInvariant(actions, dependencies, order, indegree, ready) && ready != {}
    ensures QueueInvariant(actions, dependencies, order', indegree', ready')
    ensures |order'| == |order| + 1 <= |actions|
  {
    var least := First(ready);
    var index := least.1;
    HeadMayBeTaken(actions, dependencies, dependents, order, indegree, ready, least);
    indegree', ready' := Release(actions, dependents[index], indegree, ready - {least}, Elements(order) + {index});
    order' := order + [index];
    HeadIsTaken(actions, dependencies, dependents, order, index, indegree, indegree', ready');
  }

  lemma HeadMayBeTaken(actions: seq<Action>, dependencies: seq<set<string>>, dependents: seq<seq<nat>>, order: seq<nat>,
                       indegree: seq<nat>, ready: set<(nat, nat)>, least: (nat, nat))
    requires DistinctIds(actions) && AreKnown(actions, dependencies)
    requires AreDependents(ToGraph(actions, dependencies), dependents, |actions|)
    requires QueueInvariant(actions, dependencies, order, indegree, ready)
    requires least in ready && forall other :: other in ready ==> LexNoLater(least, other)
    ensures least.1 < |actions| == |dependents| && |order| < |actions| && least.1 !in Elements(order)
    ensures IsGreedy(ToGraph(actions, dependencies), Phases(actions), order + [least.1])
    ensures IsQueue(actions, indegree, Elements(order) + {least.1}, ready - {least}) && Distinct(dependents[least.1])
    ensures forall i :: i in dependents[least.1] ==>
              i < |actions| == |indegree| && i !in Elements(order) + {least.1} && indegree[i] >= 1
  {
    QueueTakesLeast(actions, dependencies, indegree, order, ready, least);
    WaitingStillCounts(actions, dependencies, order, least.1, indegree, dependents[least.1]);
    QueueDropsHead(actions, indegree, Elements(order), ready, least);
  }

  lemma HeadIsTaken(actions: seq<Action>, dependencies: seq<set<string>>, dependents: seq<seq<nat>>, order: seq<nat>,
                    index: nat, indegree: seq<nat>, indegree': seq<nat>, ready': set<(nat, nat)>)
    requires DistinctIds(actions) && AreKnown(actions, dependencies)
    requires AreDependents(ToGraph(actions, dependencies), dependents, |actions|)
    requires Elements(order) <= Nodes(ToGraph(actions, dependencies))
    requires CountsRemaining(actions, dependencies, indegree, Elements(order))
    requires index < |actions| == |indegree| == |indegree'| == |dependents| && index !in Elements(order)
    requires IsGreedy(ToGraph(actions, dependencies), Phases(actions), order + [index])
    requires forall i :: 0 <= i < |indegree| ==> indegree'[i] + (if i in dependents[index] then 1 else 0) == indegree[i]
    requires IsQueue(actions, indegree', Elements(order) + {index}, ready')
    ensures QueueInvariant(actions, dependencies, order + [index], indegree', ready')
  {
    assert Elements(order + [index]) == Elements(order) + {index};
    CountsAfterPlacing(actions, dependencies, dependents[index], index, indegree, indegree', Elements(order));
  }

  /** The queue loop: greedy steps until nothing is ready, with exact counts. */
  method RunQueue(actions: seq<Action>, dependencies: seq<set<string>>, dependents: seq<seq<nat>>)
    returns (order: seq<nat>, indegree: seq<nat>)
    requires DistinctIds(actions) && AreKnown(actions, dependencies)
    requires AreDependents(ToGraph(actions, dependencies), dependents, |actions|)
    ensures IsGreedyRun(ToGraph(actions, dependencies), Phases(actions), order)
    ensures |indegree| == |actions|
    ensures forall i :: 0 <= i < |actions| ==>
              (indegree[i] > 0 <==> i in Nodes(ToGraph(actions, dependencies)) - Elements(order))
  {
    indegree := seq(|actions|, i requires 0 <= i < |actions| => |dependencies[i]|);
    var ready: set<(nat, nat)> := set i | 0 <= i < |actions| && indegree[i] == 0 :: (actions[i].Phase(), i);
    order := [];
    NothingPlaced(actions, dependencies, indegree);
    while ready != {}
      invariant QueueInvariant(actions, dependencies, order, indegree, ready)
      decreases |actions| - |order|
    {
      order, indegree, ready := TakeNext(actions, dependencies, dependents, order, indegree, ready);
    }
    QueueIsReady(actions, dependencies, indegree, Elements(order), ready);
    RemainingIsStuck(actions, dependencies, indegree, order, ready);
  }

  /** The head of the queue is the least ready action, so the order stays greedy. */
  lemma QueueTakesLeast(actions: seq<Action>, dependencies: seq<set<string>>, indegree: seq<nat>, order: seq<nat>,
                        ready: set<(nat, nat)>, least: (nat, nat))
    requires DistinctIds(actions) && AreKnown(actions, dependencies)
    requires IsGreedy(ToGraph(actions, dependencies), Phases(actions), order)
    requires Elements(order) <= Nodes(ToGraph(actions, dependencies))
    requires CountsRemaining(actions, dependencies, indegree, Elements(order))
    requires IsQueue(actions, indegree, Elements(order), ready)
    requires least in ready && forall other :: other in ready ==> LexNoLater(least, other)
    ensures least.1 in Ready(ToGraph(actions, dependencies), Elements(order))
    ensures IsGreedy(ToGraph(actions, dependencies), Phases(actions), order + [least.1])
    ensures |order| < |actions|
  {
    var graph := ToGraph(actions, dependencies);
    QueueIsReady(actions, dependencies, indegree, Elements(order), ready);
    LeastIsLeastReady(actions, graph, Elements(order), ready, least);
    GreedyExtends(graph, Phases(actions), order, least.1);
    GreedyIsTopological(graph, Phases(actions), order + [least.1]);
    FullLengthIsEverything(graph, order + [least.1]);
  }

  lemma NothingPlaced(actions: seq<Action>, dependencies: seq<set<string>>, indegree: seq<nat>)
    requires |dependencies| == |actions| == |indegree|
    requires forall i :: 0 <= i < |actions| ==> indegree[i] == |dependencies[i]|
    ensures CountsRemaining(actions, dependencies, indegree, Elements<nat>([]))
  {
    assert IdsOf(actions, Elements<nat>([])) == {};
    forall i | 0 <= i < |actions|
      ensures indegree[i] == |dependencies[i] - IdsOf(actions, Elements<nat>([]))|
    {
      assert dependencies[i] - {} == dependencies[i];
    }
  }

  lemma LeastIsLeastReady(actions: seq<Action>, graph: Graph, placed: set<nat>, ready: set<(nat, nat)>, least: (nat, nat))
    requires |graph| == |actions|
    requires least in ready && forall other :: other in ready ==> LexNoLater(least, other)
    requires forall e :: e in ready ==> e.1 < |actions| && e.0 == actions[e.1].Phase()
    requires forall i :: 0 <= i < |actions| ==> (i in Ready(graph, placed) <==> (actions[i].Phase(), i) in ready)
    ensures IsLeastReady(graph, Phases(actions), placed, least.1)
  {
    forall j | j in Ready(graph, placed)
      ensures NoLater(Phases(actions), least.1, j)
    {
      assert (actions[j].Phase(), j) in ready;
    }
  }

  lemma GreedyExtends(graph: Graph, phases: seq<nat>, order: seq<nat>, next: nat)
    requires |phases| == |graph| && IsGreedy(graph, phases, order)
    requires IsLeastReady(graph, phases, Elements(order), next)
    ensures IsGreedy(graph, phases, order + [next])
  {
    var longer := order + [next];
    forall k | 0 <= k < |longer|
      ensures IsLeastReady(graph, phases, Elements(longer[..k]), longer[k])
    {
      if k < |order| {
        assert longer[..k] == order[..k];
        assert IsLeastReady(graph, phases, Elements(order[..k]), order[k]);
      } else {
        assert longer[..k] == order;
      }
    }
  }

  lemma WaitingIsUnplaced(actions: seq<Action>, graph: Graph, order: seq<nat>, index: nat)
    requires |graph| == |actions| && IsGreedy(graph, Phases(actions), order)
    requires index in Ready(graph, Elements(order))
    ensures forall i :: 0 <= i < |graph| && index in graph[i] ==> i !in Elements(order) && i != index
  {
    GreedyIsTopological(graph, Phases(actions), order);
    forall i | 0 <= i < |graph| && index in graph[i]
      ensures i !in Elements(order) && i != index
    {
    }
  }

  lemma RemainingIsStuck(actions: seq<Action>, dependencies: seq<set<string>>, indegree: seq<nat>, order: seq<nat>, ready: set<(nat, nat)>)
    requires DistinctIds(actions) && AreKnown(actions, dependencies)
    requires IsGreedy(ToGraph(actions, dependencies), Phases(actions), order)
    requires Elements(order) <= Nodes(ToGraph(actions, dependencies))
    requires CountsRemaining(actions, dependencies, indegree, Elements(order))
    requires IsQueue(actions, indegree, Elements(order), ready) && ready == {}
    ensures forall i :: 0 <= i < |actions| ==>
              (indegree[i] > 0 <==> i in Nodes(ToGraph(actions, dependencies)) - Elements(order))
  {
    var graph := ToGraph(actions, dependencies);
    GreedyIsTopological(graph, Phases(actions), order);
    forall i | 0 <= i < |actions|
      ensures indegree[i] > 0 <==> i !in Elements(order)
    {
      if i in Elements(order) {
        var k :| 0 <= k < |order| && order[k] == i;
        assert IsLeastReady(graph, Phases(actions), Elements(order[..k]), order[k]);
        assert graph[i] <= Elements(order);
        ZeroMeansReady(actions, dependencies, Elements(order), i);
      } else {
        assert (actions[i].Phase(), i) !in ready;
      }
    }
  }

  // ------------------------------------------------------------- building the plan

  predicate AtMostOne(actions: seq<Action>, kind: ActionKind) {
    AtMostOneBelow(actions, kind, |actions|)
  }

  predicate AtMostOneBelow(actions: seq<Action>, kind: ActionKind, n: nat)
    requires n <= |actions|
  {
    forall i, j :: 0 <= i < j < n ==> !(actions[i].kind == kind && actions[j].kind == kind)
  }

  function FirstOfKind(actions: seq<Action>, kind: ActionKind): (r: Option<nat>)
    ensures r.Some? ==> r.value < |actions| && actions[r.value].kind == kind
    ensures r.None? ==> forall i :: 0 <= i < |actions| ==> actions[i].kind != kind
  {
    if actions == [] then None
    else if actions[0].kind == kind then Some(0)
    else match FirstOfKind(actions[1..], kind)
      case None =>
        assert forall i :: 0 < i < |actions| ==> actions[i] == actions[1..][i - 1];
        None
      case Some(i) => Some(i + 1)
  }

  /** The identifier of an action of this kind, as a set of at most one. */
  function IdOfKind(actions: seq<Action>, kind: ActionKind): set<string> {
    match FirstOfKind(actions, kind)
    case None => {}
    case Some(i) => {actions[i].id}
  }

  /** Declared dependencies plus the implicit edges to identity resolution and privilege drop. */
  function DependenciesOf(actions: seq<Action>, a: Action): set<string> {
    (set d | d in a.dependsOn)
    + (if a.kind.IdentityResolve? then {} else IdOfKind(actions, IdentityResolve))
    + (if a.kind.HandoffExec? then IdOfKind(actions, ProcessDropPrivileges) else {})
  }

  function AllDependencies(actions: seq<Action>): (r: seq<set<string>>)
    ensures |r| == |actions|
    ensures forall i :: 0 <= i < |r| ==> r[i] == DependenciesOf(actions, actions[i])
  {
    seq(|actions|, i requires 0 <= i < |actions| => DependenciesOf(actions, actions[i]))
  }

  function PlanGraph(actions: seq<Action>): (graph: Graph)
    ensures |graph| == |actions| && IsGraph(graph)
  {
    ToGraph(actions, AllDependencies(actions))
  }

  predicate DeclaresKnown(actions: seq<Action>, a: Action) {
    && (forall d :: d in a.dependsOn ==> d != a.id && HasId(actions, d))
    && (!a.kind.IdentityResolve? && a.ReferencesIdentity() ==> FirstOfKind(actions, IdentityResolve).Some?)
  }

  /** Everything planning asks of a configuration's actions. */
  ghost predicate IsPlannable(actions: seq<Action>) {
    && |actions| <= MAX_BOOTSTRAP_ACTIONS
    && DistinctIds(actions)
    && AtMostOne(actions, IdentityResolve)
    && AtMostOne(actions, HandoffExec)
    && AtMostOne(actions, ProcessDropPrivileges)
    && (forall a :: a in actions ==> DeclaresKnown(actions, a))
    && RespectsPhases(PlanGraph(actions), Phases(actions))
    && Acyclic(PlanGraph(actions))
  }

  function Planned(actions: seq<Action>, a: Action): PlannedAction {
    PlannedAction(a.id, a.kind, a.Phase(), DependenciesOf(actions, a))
  }

  predicate IsPlan(actions: seq<Action>, order: seq<nat>, plan: seq<PlannedAction>) {
    && IsGreedy(PlanGraph(actions), Phases(actions), order)
    && |plan| == |order| == |actions|
    && (forall k :: 0 <= k < |order| ==> order[k] < |actions| && plan[k] == Planned(actions, actions[order[k]]))
  }

  method FindDuplicate(actions: seq<Action>) returns (r: Option<string>)
    ensures r.None? <==> DistinctIds(actions)
  {
    var seen: set<string> := {};
    for k := 0 to |actions|
      invariant DistinctIds(actions[..k])
      invariant forall id :: id in seen <==> exists i :: 0 <= i < k && actions[i].id == id
    {
      if actions[k].id in seen {
        return Some(actions[k].id);
      }
      seen := seen + {actions[k].id};
    }
    assert actions[..|actions|] == actions;
    return None;
  }

  method CountKind(actions: seq<Action>, kind: ActionKind) returns (count: nat)
    ensures count <= 1 <==> AtMostOne(actions, kind)
  {
    count := 0;
    for k := 0 to |actions|
      invariant count == KindCount(actions, kind, k)
    {
      if actions[k].kind == kind {
        count := count + 1;
      }
    }
    KindCountIff(actions, kind, |actions|);
  }

  function KindCount(actions: seq<Action>, kind: ActionKind, k: nat): nat
    requires k <= |actions|
  {
    if k == 0 then 0 else KindCount(actions, kind, k - 1) + if actions[k - 1].kind == kind then 1 else 0
  }

  predicate NoneBelow(actions: seq<Action>, kind: ActionKind, n: nat)
    requires n <= |actions|
  {
    forall i :: 0 <= i < n ==> actions[i].kind != kind
  }

  lemma {:induction false} KindCountIff(actions: seq<Action>, kind: ActionKind, k: nat)
    requires k <= |actions|
    ensures KindCount(actions, kind, k) == 0 <==> NoneBelow(actions, kind, k)
    ensures KindCount(actions, kind, k) <= 1 <==> AtMostOneBelow(actions, kind, k)
    decreases k
  {
    if k > 0 {
      var none, few := NoneBelow(actions, kind, k - 1), AtMostOneBelow(actions, kind, k - 1);
      assert none == (KindCount(actions, kind, k - 1) == 0) && few == (KindCount(actions, kind, k - 1) <= 1) by {
        KindCountIff(actions, kind, k - 1);
      }
      KindOnTop(actions, kind, k);
    }
  }

  lemma KindOnTop(actions: seq<Action>, kind: ActionKind, k: nat)
    requires 0 < k <= |actions|
    ensures NoneBelow(actions, kind, k) <==> actions[k - 1].kind != kind && NoneBelow(actions, kind, k - 1)
    ensures AtMostOneBelow(actions, kind, k) <==>
              if actions[k - 1].kind == kind then NoneBelow(actions, kind, k - 1) else AtMostOneBelow(actions, kind, k - 1)
  {
    var top := actions[k - 1].kind;
    assert AtMostOneBelow(actions, kind, k) ==> forall i :: 0 <= i < k - 1 ==> !(actions[i].kind == kind && top == kind);
  }

  /** The declared dependencies of one action, checked one by one. */
  method DeclaredDependencies(actions: seq<Action>, a: Action) returns (r: Result<set<string>, ModelError>)
    ensures r.Ok? <==> forall d :: d in a.dependsOn ==> d != a.id && HasId(actions, d)
    ensures r.Ok? ==> r.value == set d | d in a.dependsOn
  {
    var declared: set<string> := {};
    for j := 0 to |a.dependsOn|
      invariant declared == set d | d in a.dependsOn[..j]
      invariant forall d :: d in a.dependsOn[..j] ==> d != a.id && HasId(actions, d)
    {
      var dependency := a.dependsOn[j];
      assert dependency in a.dependsOn;
      if dependency == a.id {
        return Err(DependencyCycle([a.id]));
      }
      if !HasId(actions, dependency) {
        return Err(MissingDependency(a.id, dependency));
      }
      declared := declared + {dependency};
      assert a.dependsOn[..j + 1] == a.dependsOn[..j] + [dependency];
    }
    assert a.dependsOn[..|a.dependsOn|] == a.dependsOn;
    return Ok(declared);
  }

  /** The dependency loop, with the implicit edges. */
  method GatherDependencies(actions: seq<Action>) returns (r: Result<seq<set<string>>, ModelError>)
    ensures r.Ok? <==> forall a :: a in actions ==> DeclaresKnown(actions, a)
    ensures r.Ok? ==> r.value == AllDependencies(actions)
  {
    var resolve := IdOfKind(actions, IdentityResolve);
    var drop := IdOfKind(actions, ProcessDropPrivileges);
    var dependencies: seq<set<string>> := [];
    for k := 0 to |actions|
      invariant AreGathered(actions, k, dependencies)
    {
      var mine := GatherFor(actions, actions[k], resolve, drop);
      if mine.Err? {
        UnknownIsDeclared(actions, k);
        return Err(mine.error);
      }
      GatheredStep(actions, k, dependencies, mine.value);
      dependencies := dependencies + [mine.value];
    }
    GatheredAll(actions, dependencies);
    return Ok(dependencies);
  }

  /** The dependency sets of the first `k` actions, whose declarations are all known. */
  ghost predicate AreGathered(actions: seq<Action>, k: nat, dependencies: seq<set<string>>)
    requires k <= |actions|
  {
    && |dependencies| == k
    && forall i :: 0 <= i < k ==>
         DeclaresKnown(actions, actions[i]) && dependencies[i] == DependenciesOf(actions, actions[i])
  }

  lemma UnknownIsDeclared(actions: seq<Action>, k: nat)
    requires k < |actions| && !DeclaresKnown(actions, actions[k])
    ensures exists a :: a in actions && !DeclaresKnown(actions, a)
  {
    assert actions[k] in actions;
  }

  lemma GatheredStep(actions: seq<Action>, k: nat, dependencies: seq<set<string>>, mine: set<string>)
    requires k < |actions| && AreGathered(actions, k, dependencies)
    requires DeclaresKnown(actions, actions[k]) && mine == DependenciesOf(actions, actions[k])
    ensures AreGathered(actions, k + 1, dependencies + [mine])
  {
  }

  lemma GatheredAll(actions: seq<Action>, dependencies: seq<set<string>>)
    requires AreGathered(actions, |actions|, dependencies)
    ensures dependencies == AllDependencies(actions) && forall a :: a in actions ==> DeclaresKnown(actions, a)
  {
    assert forall i :: 0 <= i < |actions| ==> dependencies[i] == AllDependencies(actions)[i];
  }

  /** One turn of the dependency loop. */
  method GatherFor(actions: seq<Action>, a: Action, resolve: set<string>, drop: set<string>)
    returns (r: Result<set<string>, ModelError>)
    requires resolve == IdOfKind(actions, IdentityResolve) && drop == IdOfKind(actions, ProcessDropPrivileges)
    ensures r.Ok? <==> DeclaresKnown(actions, a)
    ensures r.Ok? ==> r.value == DependenciesOf(actions, a)
  {
    var declared := DeclaredDependencies(actions, a);
    if declared.Err? {
      return Err(declared.error);
    }
    var mine := declared.value;
    if !a.kind.IdentityResolve? {
      if a.ReferencesIdentity() && resolve == {} {
        return Err(MissingIdentityResolve(a.id));
      }
      mine := mine + resolve;
    }
    if a.kind.HandoffExec? {
      mine := mine + drop;
    }
    return Ok(mine);
  }

  method FindPhaseViolation(actions: seq<Action>, dependencies: seq<set<string>>) returns (r: Option<ModelError>)
    requires DistinctIds(actions) && AreKnown(actions, dependencies)
    ensures r.None? <==> RespectsPhases(ToGraph(actions, dependencies), Phases(actions))
  {
    ghost var graph := ToGraph(actions, dependencies);
    var indexes := IndexIds(actions);
    for k := 0 to |actions|
      invariant forall i, d :: 0 <= i < k && d in graph[i] ==> actions[d].Phase() <= actions[i].Phase()
    {
      var todo := dependencies[k];
      while todo != {}
        invariant todo <= dependencies[k]
        invariant forall d :: d in graph[k] && actions[d].id !in todo ==> actions[d].Phase() <= actions[k].Phase()
        decreases |todo|
      {
        var dependency :| dependency in todo;
        assert HasId(actions, dependency);
        var at := indexes[dependency];
        assert at in graph[k];
        if actions[at].Phase() > actions[k].Phase() {
          return Some(PhaseViolation(actions[k].id, dependency));
        }
        todo := todo - {dependency};
      }
    }
    return None;
  }

  lemma AllDependenciesAreKnown(actions: seq<Action>)
    requires forall a :: a in actions ==> DeclaresKnown(actions, a)
    ensures AreKnown(actions, AllDependencies(actions))
  {
    var dependencies := AllDependencies(actions);
    forall i, d | 0 <= i < |dependencies| && d in dependencies[i]
      ensures HasId(actions, d)
    {
      assert actions[i] in actions;
      assert DeclaresKnown(actions, actions[i]);
    }
  }

  /** A plan exists exactly for plannable actions, and it is the greedy one. */
  method BuildPlan(actions: seq<Action>) returns (r: Result<seq<PlannedAction>, ModelError>)
    ensures r.Ok? <==> IsPlannable(actions)
    ensures r.Ok? ==> exists order :: IsPlan(actions, order, r.value)
  {
    if |actions| > MAX_BOOTSTRAP_ACTIONS {
      return Err(TooManyActions);
    }
    var duplicate := FindDuplicate(actions);
    if duplicate.Some? {
      return Err(DuplicateActionId(duplicate.value));
    }
    var resolves := CountKind(actions, IdentityResolve);
    if resolves > 1 {
      return Err(AtMostOnce(IdentityResolve));
    }
    var gathered := GatherDependencies(actions);
    if gathered.Err? {
      return Err(gathered.error);
    }
    var dependencies := gathered.value;
    AllDependenciesAreKnown(actions);
    var handoffs := CountKind(actions, HandoffExec);
    if handoffs > 1 {
      return Err(AtMostOnce(HandoffExec));
    }
    var drops := CountKind(actions, ProcessDropPrivileges);
    if drops > 1 {
      return Err(AtMostOnce(ProcessDropPrivileges));
    }
    var violation := FindPhaseViolation(actions, dependencies);
    if violation.Some? {
      return Err(violation.value);
    }
    var sorted := StableTopologicalOrder(actions, dependencies);
    if sorted.Err? {
      return Err(sorted.error);
    }
    var order := sorted.value;
    var plan := ListPlanned(actions, order);
    assert IsPlan(actions, order, plan);
    return Ok(plan);
  }

  method ListPlanned(actions: seq<Action>, order: seq<nat>) returns (plan: seq<PlannedAction>)
    requires forall k :: 0 <= k < |order| ==> order[k] < |actions|
    ensures |plan| == |order|
    ensures forall k :: 0 <= k < |order| ==> plan[k] == Planned(actions, actions[order[k]])
  {
    plan := [];
    for k := 0 to |order|
      invariant |plan| == k
      invariant forall j :: 0 <= j < k ==> plan[j] == Planned(actions, actions[order[j]])
    {
      plan := plan + [Planned(actions, actions[order[k]])];
    }
  }

  // ---------------------------------------------------------- the shape of a plan

  predicate PhasesAscend(plan: seq<PlannedAction>) {
    forall i, j :: 0 <= i <= j < |plan| ==> plan[i].phase <= plan[j].phase
  }

  predicate HasKind(plan: seq<PlannedAction>, kind: ActionKind) {
    exists k :: 0 <= k < |plan| && plan[k].kind == kind
  }

  /** Identity resolution comes first. */
  predicate ResolveIsFirst(plan: seq<PlannedAction>) {
    HasKind(plan, IdentityResolve) ==> plan[0].kind.IdentityResolve?
  }

  /** Privileges are dropped, then the handoff is prepared, and nothing follows. */
  predicate HandoffIsLast(plan: seq<PlannedAction>) {
    var n := |plan|;
    && (HasKind(plan, HandoffExec) ==> n >= 1 && plan[n - 1].kind.HandoffExec?)
    && (HasKind(plan, ProcessDropPrivileges) && !HasKind(plan, HandoffExec) ==>
          n >= 1 && plan[n - 1].kind.ProcessDropPrivileges?)
    && (HasKind(plan, ProcessDropPrivileges) && HasKind(plan, HandoffExec) ==>
          n >= 2 && plan[n - 2].kind.ProcessDropPrivileges?)
  }

  /** Identifiers are distinct and every dependency is planned earlier. */
  predicate IsTopological(plan: seq<PlannedAction>) {
    && (forall i, j :: 0 <= i < j < |plan| ==> plan[i].id != plan[j].id)
    && (forall k, d :: 0 <= k < |plan| && d in plan[k].dependsOn ==> exists j :: 0 <= j < k && plan[j].id == d)
  }

  /** The plan holds every configured action, once. */
  predicate CoversAll(actions: seq<Action>, plan: seq<PlannedAction>) {
    && |plan| == |actions|
    && forall a :: a in actions ==> Planned(actions, a) in plan
  }

  lemma PlanOrderIsComplete(actions: seq<Action>, order: seq<nat>, plan: seq<PlannedAction>)
    requires IsPlan(actions, order, plan)
    ensures Distinct(order) && DependenciesFirst(PlanGraph(actions), order)
    ensures forall i :: 0 <= i < |actions| ==> i in order
  {
    GreedyIsTopological(PlanGraph(actions), Phases(actions), order);
    FullLengthIsEverything(PlanGraph(actions), order);
    forall i | 0 <= i < |actions|
      ensures i in order
    {
      assert i in Elements(order);
    }
  }

  lemma PlanCoversAll(actions: seq<Action>, order: seq<nat>, plan: seq<PlannedAction>)
    requires IsPlan(actions, order, plan)
    ensures CoversAll(actions, plan)
  {
    PlanOrderIsComplete(actions, order, plan);
    forall a | a in actions
      ensures Planned(actions, a) in plan
    {
      var i :| 0 <= i < |actions| && actions[i] == a;
      assert i in order;
      var k :| 0 <= k < |order| && order[k] == i;
      assert plan[k] == Planned(actions, a);
    }
  }

  lemma PlanIdsAreDistinct(actions: seq<Action>, order: seq<nat>, plan: seq<PlannedAction>, i: nat, j: nat)
    requires DistinctIds(actions) && IsPlan(actions, order, plan) && i < |plan| && j < |plan| && i != j
    ensures order[i] != order[j] && plan[i].id != plan[j].id
  {
    PlanOrderIsComplete(actions, order, plan);
  }

  /** Where a dependency of a planned action stands in the plan. */
  lemma DependencyIsEarlier(actions: seq<Action>, order: seq<nat>, plan: seq<PlannedAction>, k: nat, at: nat) returns (j: nat)
    requires IsPlan(actions, order, plan) && k < |plan| && at < |actions|
    requires actions[at].id in plan[k].dependsOn
    ensures j < k && order[j] == at
  {
    PlanOrderIsComplete(actions, order, plan);
    assert plan[k] == Planned(actions, actions[order[k]]);
    assert AllDependencies(actions)[order[k]] == plan[k].dependsOn;
    assert at in PlanGraph(actions)[order[k]];
    assert at in order[..k];
    j :| 0 <= j < k && order[j] == at;
  }

  lemma PlanIsTopological(actions: seq<Action>, order: seq<nat>, plan: seq<PlannedAction>)
    requires IsPlannable(actions) && IsPlan(actions, order, plan)
    ensures IsTopological(plan)
  {
    AllDependenciesAreKnown(actions);
    forall k, d | 0 <= k < |plan| && d in plan[k].dependsOn
      ensures exists j :: 0 <= j < k && plan[j].id == d
    {
      assert d in AllDependencies(actions)[order[k]];
      assert HasId(actions, d);
      var at :| 0 <= at < |actions| && actions[at].id == d;
      var j := DependencyIsEarlier(actions, order, plan, k, at);
      assert plan[j].id == d;
    }
    forall i, j | 0 <= i < j < |plan|
      ensures plan[i].id != plan[j].id
    {
      PlanIdsAreDistinct(actions, order, plan, i, j);
    }
  }

  /** An implicit edge to the only action of a kind orders the plan. */
  lemma KindIsEarlier(actions: seq<Action>, order: seq<nat>, plan: seq<PlannedAction>, kind: ActionKind, i: nat, k: nat)
    requires IsPlan(actions, order, plan) && AtMostOne(actions, kind)
    requires i < |plan| && k < |plan| && plan[i].kind == kind
    requires IdOfKind(actions, kind) <= plan[k].dependsOn
    ensures i < k
  {
    var at := FirstOfKind(actions, kind);
    assert actions[order[i]].kind == kind;
    assert order[i] == at.value;
    var j := DependencyIsEarlier(actions, order, plan, k, at.value);
    PlanOrderIsComplete(actions, order, plan);
  }

  lemma PlanStartsWithResolve(actions: seq<Action>, order: seq<nat>, plan: seq<PlannedAction>)
    requires IsPlannable(actions) && IsPlan(actions, order, plan)
    ensures ResolveIsFirst(plan)
  {
    forall i | 0 <= i < |plan| && plan[i].kind.IdentityResolve? && !plan[0].kind.IdentityResolve?
      ensures false
    {
      assert plan[0] == Planned(actions, actions[order[0]]);
      KindIsEarlier(actions, order, plan, IdentityResolve, i, 0);
    }
  }

  /** Two actions of the handoff phase have different kinds. */
  predicate HandoffKindsDiffer(plan: seq<PlannedAction>) {
    forall i, j :: 0 <= i < j < |plan| && plan[i].phase == PHASE_HANDOFF && plan[j].phase == PHASE_HANDOFF ==>
      plan[i].kind != plan[j].kind
  }

  predicate HandoffPhaseIsHandoff(plan: seq<PlannedAction>) {
    forall k :: 0 <= k < |plan| ==>
      (plan[k].phase == PHASE_HANDOFF <==> plan[k].kind.HandoffExec? || plan[k].kind.ProcessDropPrivileges?)
  }

  predicate DropsBeforeHandoff(plan: seq<PlannedAction>) {
    forall i, k :: 0 <= i < |plan| && 0 <= k < |plan| && plan[i].kind.ProcessDropPrivileges? && plan[k].kind.HandoffExec? ==>
      i < k
  }

  lemma PlanHandoffFacts(actions: seq<Action>, order: seq<nat>, plan: seq<PlannedAction>)
    requires IsPlannable(actions) && IsPlan(actions, order, plan)
    ensures HandoffKindsDiffer(plan) && HandoffPhaseIsHandoff(plan) && DropsBeforeHandoff(plan)
  {
    forall i, j | 0 <= i < j < |plan| && plan[i].phase == PHASE_HANDOFF && plan[j].phase == PHASE_HANDOFF
      ensures plan[i].kind != plan[j].kind
    {
      PlanIdsAreDistinct(actions, order, plan, i, j);
      KindOnce(actions, order[i], order[j]);
    }
    forall i, k | 0 <= i < |plan| && 0 <= k < |plan| && plan[i].kind.ProcessDropPrivileges? && plan[k].kind.HandoffExec?
      ensures i < k
    {
      assert plan[k] == Planned(actions, actions[order[k]]);
      KindIsEarlier(actions, order, plan, ProcessDropPrivileges, i, k);
    }
  }

  lemma KindOnce(actions: seq<Action>, i: nat, j: nat)
    requires AtMostOne(actions, HandoffExec) && AtMostOne(actions, ProcessDropPrivileges)
    requires i < |actions| && j < |actions| && i != j
    requires actions[i].Phase() == PHASE_HANDOFF && actions[j].Phase() == PHASE_HANDOFF
    ensures actions[i].kind != actions[j].kind
  {
    var low, high := if i < j then i else j, if i < j then j else i;
    assert !(actions[low].kind == HandoffExec && actions[high].kind == HandoffExec);
    assert !(actions[low].kind == ProcessDropPrivileges && actions[high].kind == ProcessDropPrivileges);
  }

  /** At most two actions share the last phase, and the handoff waits for the drop. */
  lemma HandoffEndsThePlan(plan: seq<PlannedAction>)
    requires PhasesAscend(plan) && HandoffKindsDiffer(plan) && HandoffPhaseIsHandoff(plan) && DropsBeforeHandoff(plan)
    requires forall k :: 0 <= k < |plan| ==> plan[k].phase <= PHASE_HANDOFF
    ensures HandoffIsLast(plan)
  {
    var n := |plan|;
    forall k | 0 <= k < n && plan[k].kind.HandoffExec?
      ensures k == n - 1
    {
      assert plan[k].phase <= plan[n - 1].phase;
    }
    forall k | 0 <= k < n && plan[k].kind.ProcessDropPrivileges?
      ensures k == n - 1 || (k == n - 2 && plan[n - 1].kind.HandoffExec?)
    {
      assert plan[k].phase <= plan[n - 1].phase;
      var m := if n >= 2 then n - 2 else 0;
      assert k <= m ==> plan[k].phase <= plan[m].phase;
    }
  }

  lemma PlanPhasesAscend(actions: seq<Action>, order: seq<nat>, plan: seq<PlannedAction>)
    requires IsPlannable(actions) && IsPlan(actions, order, plan)
    ensures PhasesAscend(plan)
  {
    forall i, j | 0 <= i <= j < |plan|
      ensures plan[i].phase <= plan[j].phase
    {
      PhasesNeverDecrease(PlanGraph(actions), Phases(actions), order, i, j);
    }
  }

  /**
   Every plan is canonical: it covers all actions once with dependencies first,
   phases never decrease, identity resolution is first and the privilege drop and
   the handoff are last, in this order.
   */
  lemma PlansAreCanonical(actions: seq<Action>, order: seq<nat>, plan: seq<PlannedAction>)
    requires IsPlannable(actions) && IsPlan(actions, order, plan)
    ensures CoversAll(actions, plan) && IsTopological(plan) && PhasesAscend(plan)
    ensures ResolveIsFirst(plan) && HandoffIsLast(plan)
  {
    PlanCoversAll(actions, order, plan);
    PlanIsTopological(actions, order, plan);
    PlanPhasesAscend(actions, order, plan);
    PlanStartsWithResolve(actions, order, plan);
    PlanHandoffFacts(actions, order, plan);
    HandoffEndsThePlan(plan);
  }

  /** Planning is deterministic: a configuration has at most one plan. */
  lemma PlansAreUnique(actions: seq<Action>, a: seq<nat>, b: seq<nat>, p: seq<PlannedAction>, q: seq<PlannedAction>)
    requires IsPlan(actions, a, p) && IsPlan(actions, b, q)
    ensures p == q
  {
    GreedyIsUnique(PlanGraph(actions), Phases(actions), a, b, |actions|);
    assert a[..|actions|] == a && b[..|actions|] == b;
  }
}
