/**
 Dependency graphs and the order a priority-queue topological sort gives them.
 Nodes are action positions; `graph[i]` holds the positions that node `i` needs.
 */
module PlanOrder {

  type Graph = seq<set<nat>>

  predicate IsGraph(graph: Graph) {
    forall i, d :: 0 <= i < |graph| && d in graph[i] ==> d < |graph|
  }

  function Elements<T>(s: seq<T>): set<T> {
    set x | x in s
  }

  predicate Distinct<T(==)>(s: seq<T>) {
    forall i, j :: 0 <= i < j < |s| ==> s[i] != s[j]
  }

  function Below(n: nat): (s: set<nat>)
    ensures |s| == n
    ensures forall i :: i in s <==> 0 <= i < n
  {
    if n == 0 then {} else Below(n - 1) + {n - 1}
  }

  function Nodes(graph: Graph): set<nat> {
    Below(|graph|)
  }

  // ---------------------------------------------------------------------- cycles

  /** A closed walk along dependencies. */
  predicate IsCycle(graph: Graph, walk: seq<nat>) {
    && |walk| >= 2 && walk[0] == walk[|walk| - 1]
    && IsWalk(graph, walk)
  }

  predicate IsWalk(graph: Graph, walk: seq<nat>) {
    forall k :: 0 <= k < |walk| - 1 ==> walk[k] < |graph| && walk[k + 1] in graph[walk[k]]
  }

  ghost predicate Acyclic(graph: Graph) {
    !exists walk :: IsCycle(graph, walk)
  }

  // ------------------------------------------------------------- the greedy order

  /** What may be placed next. */
  function Ready(graph: Graph, placed: set<nat>): set<nat> {
    set i | 0 <= i < |graph| && i !in placed && graph[i] <= placed
  }

  /** Priority: by phase, then by position. */
  predicate NoLater(phases: seq<nat>, i: nat, j: nat)
    requires i < |phases| && j < |phases|
  {
    phases[i] < phases[j] || (phases[i] == phases[j] && i <= j)
  }

  /** Every step places the least ready node. */
  predicate IsGreedy(graph: Graph, phases: seq<nat>, order: seq<nat>)
    requires |phases| == |graph|
  {
    forall k :: 0 <= k < |order| ==> IsLeastReady(graph, phases, Elements(order[..k]), order[k])
  }

  predicate IsLeastReady(graph: Graph, phases: seq<nat>, placed: set<nat>, next: nat)
    requires |phases| == |graph|
  {
    && next in Ready(graph, placed)
    && forall j :: j in Ready(graph, placed) ==> NoLater(phases, next, j)
  }

  /** The result of the sort: greedy steps until nothing is ready. */
  predicate IsGreedyRun(graph: Graph, phases: seq<nat>, order: seq<nat>)
    requires |phases| == |graph|
  {
    IsGreedy(graph, phases, order) && Ready(graph, Elements(order)) == {}
  }

  predicate DependenciesFirst(graph: Graph, order: seq<nat>) {
    forall k, d :: 0 <= k < |order| && order[k] < |graph| && d in graph[order[k]] ==> d in order[..k]
  }

  /** A greedy order repeats nothing and puts dependencies first. */
  lemma GreedyIsTopological(graph: Graph, phases: seq<nat>, order: seq<nat>)
    requires |phases| == |graph| && IsGreedy(graph, phases, order)
    ensures Distinct(order) && DependenciesFirst(graph, order)
    ensures Elements(order) <= Nodes(graph)
  {
    forall i, j | 0 <= i < j < |order|
      ensures order[i] != order[j]
    {
      assert IsLeastReady(graph, phases, Elements(order[..j]), order[j]);
      assert order[i] == order[..j][i];
    }
    forall k, d | 0 <= k < |order| && order[k] < |graph| && d in graph[order[k]]
      ensures d in order[..k]
    {
      assert IsLeastReady(graph, phases, Elements(order[..k]), order[k]);
    }
    forall x | x in Elements(order)
      ensures x in Nodes(graph)
    {
      var k :| 0 <= k < |order| && order[k] == x;
      assert IsLeastReady(graph, phases, Elements(order[..k]), order[k]);
    }
  }

  /** There is only one greedy order of each length. */
  lemma {:induction false} GreedyIsUnique(graph: Graph, phases: seq<nat>, a: seq<nat>, b: seq<nat>, k: nat)
    requires |phases| == |graph| && IsGreedy(graph, phases, a) && IsGreedy(graph, phases, b)
    requires k <= |a| && k <= |b|
    ensures a[..k] == b[..k]
  {
    if k > 0 {
      GreedyIsUnique(graph, phases, a, b, k - 1);
      assert IsLeastReady(graph, phases, Elements(a[..k - 1]), a[k - 1]);
      assert IsLeastReady(graph, phases, Elements(b[..k - 1]), b[k - 1]);
      assert a[..k] == a[..k - 1] + [a[k - 1]];
      assert b[..k] == b[..k - 1] + [b[k - 1]];
    }
  }

  // ----------------------------------------------------- completeness of the sort

  lemma {:induction false} DistinctCardinality<T>(s: seq<T>)
    requires Distinct(s)
    ensures |Elements(s)| == |s|
  {
    if s != [] {
      var front, last := s[..|s| - 1], s[|s| - 1];
      DistinctCardinality(front);
      assert Elements(s) == Elements(front) + {last};
      assert last !in Elements(front);
    } else {
      assert Elements(s) == {};
    }
  }

  /** A run of full length places every node. */
  lemma FullLengthIsEverything(graph: Graph, order: seq<nat>)
    requires Distinct(order) && Elements(order) <= Nodes(graph)
    ensures |order| <= |graph|
    ensures |order| == |graph| <==> Elements(order) == Nodes(graph)
  {
    DistinctCardinality(order);
    SubsetCardinality(Elements(order), Nodes(graph));
  }

  lemma {:induction false} SubsetCardinality<T>(a: set<T>, b: set<T>)
    requires a <= b
    ensures |a| <= |b|
    ensures |a| == |b| <==> a == b
  {
    var rest := b - a;
    assert b == a + rest;
  }

  /** Along a walk of placed nodes, positions in the order strictly decrease. */
  lemma {:induction false} WalkGoesBack(graph: Graph, order: seq<nat>, walk: seq<nat>, m: nat, k: nat) returns (j: nat)
    requires IsGraph(graph) && DependenciesFirst(graph, order)
    requires IsWalk(graph, walk) && 0 < m < |walk|
    requires k < |order| && order[k] == walk[0]
    ensures j < k && order[j] == walk[m]
    decreases m
  {
    var from := k;
    if m > 1 {
      from := WalkGoesBack(graph, order, walk, m - 1, k);
    }
    assert walk[m - 1 + 1] in graph[walk[m - 1]];
    assert walk[m] in order[..from];
    j :| 0 <= j < from && order[j] == walk[m];
  }

  /** If everything was placed there is no cycle. */
  lemma CompleteOrderIsAcyclic(graph: Graph, order: seq<nat>)
    requires IsGraph(graph) && Distinct(order) && DependenciesFirst(graph, order)
    requires Elements(order) == Nodes(graph)
    ensures Acyclic(graph)
  {
    forall walk
      ensures !IsCycle(graph, walk)
    {
      if IsCycle(graph, walk) {
        assert walk[0] < |graph|;
        assert walk[0] in Elements(order);
        var k :| 0 <= k < |order| && order[k] == walk[0];
        var j := WalkGoesBack(graph, order, walk, |walk| - 1, k);
        assert false;
      }
    }
  }

  /** Every stuck node waits for another stuck node. */
  predicate IsBlocked(graph: Graph, stuck: set<nat>) {
    forall i :: i in stuck ==> i < |graph| && graph[i] * stuck != {}
  }

  /** Following blocking dependencies gives a walk of any length inside the stuck set. */
  lemma {:induction false} BlockedWalk(graph: Graph, stuck: set<nat>, start: nat, length: nat) returns (walk: seq<nat>)
    requires IsBlocked(graph, stuck) && start in stuck && length > 0
    ensures |walk| == length && IsWalk(graph, walk) && walk[0] == start
    ensures forall k :: 0 <= k < |walk| ==> walk[k] in stuck
  {
    if length == 1 {
      walk := [start];
    } else {
      var front := BlockedWalk(graph, stuck, start, length - 1);
      var last := front[|front| - 1];
      var next :| next in graph[last] * stuck;
      walk := front + [next];
      forall k | 0 <= k < |walk| - 1
        ensures walk[k] < |graph| && walk[k + 1] in graph[walk[k]]
      {
        if k < |front| - 1 {
          assert walk[k + 1] == front[k + 1];
        }
      }
    }
  }

  /** A walk longer than the set it stays in meets a node twice. */
  lemma Pigeonhole(walk: seq<nat>, stuck: set<nat>) returns (i: nat, j: nat)
    requires |walk| > |stuck| && forall k :: 0 <= k < |walk| ==> walk[k] in stuck
    ensures i < j < |walk| && walk[i] == walk[j]
  {
    if Distinct(walk) {
      DistinctCardinality(walk);
      assert Elements(walk) <= stuck;
      SubsetCardinality(Elements(walk), stuck);
      assert false;
    }
    i, j :| 0 <= i < j < |walk| && walk[i] == walk[j];
  }

  /** A non-empty blocked set contains a cycle. */
  lemma BlockedHasCycle(graph: Graph, stuck: set<nat>)
    requires IsBlocked(graph, stuck) && stuck != {}
    ensures !Acyclic(graph)
  {
    var start :| start in stuck;
    var walk := BlockedWalk(graph, stuck, start, |stuck| + 1);
    var i, j := Pigeonhole(walk, stuck);
    var cycle := walk[i..j + 1];
    forall k | 0 <= k < |cycle| - 1
      ensures cycle[k] < |graph| && cycle[k + 1] in graph[cycle[k]]
    {
      assert walk[i + k + 1] in graph[walk[i + k]];
    }
    assert IsCycle(graph, cycle);
  }

  /** When nothing more is ready, what is left is blocked. */
  lemma LeftoverIsBlocked(graph: Graph, placed: set<nat>)
    requires IsGraph(graph) && Ready(graph, placed) == {}
    ensures IsBlocked(graph, Nodes(graph) - placed)
  {
    var stuck := Nodes(graph) - placed;
    forall i | i in stuck
      ensures i < |graph| && graph[i] * stuck != {}
    {
      assert i !in Ready(graph, placed);
      var d :| d in graph[i] && d !in placed;
      assert d in graph[i] * stuck;
    }
  }

  /** The sort places every node exactly when the dependency relation has no cycle. */
  lemma SortSucceedsIffAcyclic(graph: Graph, phases: seq<nat>, order: seq<nat>)
    requires IsGraph(graph) && |phases| == |graph| && IsGreedyRun(graph, phases, order)
    ensures |order| == |graph| <==> Acyclic(graph)
    ensures |order| != |graph| ==> IsBlocked(graph, Nodes(graph) - Elements(order)) && Nodes(graph) - Elements(order) != {}
  {
    GreedyIsTopological(graph, phases, order);
    FullLengthIsEverything(graph, order);
    LeftoverIsBlocked(graph, Elements(order));
    if |order| == |graph| {
      CompleteOrderIsAcyclic(graph, order);
    } else {
      assert !(Nodes(graph) <= Elements(order));
      BlockedHasCycle(graph, Nodes(graph) - Elements(order));
    }
  }

  /** A walk along dependencies from the node meets some node twice. */
  ghost predicate DependsOnCycle(graph: Graph, i: nat) {
    exists walk, a, b :: IsWalk(graph, walk) && 0 <= a < b < |walk| && walk[0] == i && walk[a] == walk[b]
  }

  /** What a maximal greedy run leaves out is exactly what depends on a cycle, directly or not. */
  lemma LeftoverDependsOnCycle(graph: Graph, phases: seq<nat>, order: seq<nat>, i: nat)
    requires IsGraph(graph) && |phases| == |graph| && IsGreedyRun(graph, phases, order) && i < |graph|
    ensures i in Nodes(graph) - Elements(order) <==> DependsOnCycle(graph, i)
  {
    GreedyIsTopological(graph, phases, order);
    LeftoverIsBlocked(graph, Elements(order));
    var stuck := Nodes(graph) - Elements(order);
    if i in stuck {
      var walk := BlockedWalk(graph, stuck, i, |stuck| + 1);
      var a, b := Pigeonhole(walk, stuck);
    } else {
      var k :| 0 <= k < |order| && order[k] == i;
      forall walk, a, b | IsWalk(graph, walk) && 0 <= a < b < |walk| && walk[0] == i
        ensures walk[a] != walk[b]
      {
        PlacedWalkRepeatsNothing(graph, order, walk, k, a, b);
      }
    }
  }

  lemma PlacedWalkRepeatsNothing(graph: Graph, order: seq<nat>, walk: seq<nat>, k: nat, a: nat, b: nat)
    requires IsGraph(graph) && Distinct(order) && DependenciesFirst(graph, order)
    requires IsWalk(graph, walk) && a < b < |walk| && k < |order| && order[k] == walk[0]
    ensures walk[a] != walk[b]
  {
    var from := k;
    if a > 0 {
      from := WalkGoesBack(graph, order, walk, a, k);
    }
    var tail := walk[a..];
    forall j | 0 <= j < |tail| - 1
      ensures tail[j] < |graph| && tail[j + 1] in graph[tail[j]]
    {
      assert walk[a + j + 1] in graph[walk[a + j]];
    }
    var later := WalkGoesBack(graph, order, tail, b - a, from);
    assert order[later] == walk[b] && order[from] == walk[a];
  }

  // ---------------------------------------------------------------------- phases

  predicate RespectsPhases(graph: Graph, phases: seq<nat>)
    requires |phases| == |graph|
  {
    forall i, d :: 0 <= i < |graph| && d in graph[i] ==> d < |graph| && phases[d] <= phases[i]
  }

  lemma PhasesStepUp(graph: Graph, phases: seq<nat>, order: seq<nat>, k: nat)
    requires |phases| == |graph| && IsGreedy(graph, phases, order) && RespectsPhases(graph, phases)
    requires k + 1 < |order|
    ensures order[k] < |graph| && order[k + 1] < |graph| && phases[order[k]] <= phases[order[k + 1]]
  {
    assert IsLeastReady(graph, phases, Elements(order[..k]), order[k]);
    assert IsLeastReady(graph, phases, Elements(order[..k + 1]), order[k + 1]);
    assert order[..k + 1] == order[..k] + [order[k]];
    assert Elements(order[..k + 1]) == Elements(order[..k]) + {order[k]};
    if order[k] !in graph[order[k + 1]] {
      assert order[k + 1] in Ready(graph, Elements(order[..k]));
    }
  }

  /** If no dependency is in a later phase, phases never decrease along the order. */
  lemma {:induction false} PhasesNeverDecrease(graph: Graph, phases: seq<nat>, order: seq<nat>, i: nat, j: nat)
    requires |phases| == |graph| && IsGreedy(graph, phases, order) && RespectsPhases(graph, phases)
    requires i <= j < |order|
    ensures order[i] < |graph| && order[j] < |graph| && phases[order[i]] <= phases[order[j]]
    decreases j - i
  {
    if i == j {
      assert IsLeastReady(graph, phases, Elements(order[..i]), order[i]);
    } else {
      PhasesNeverDecrease(graph, phases, order, i, j - 1);
      PhasesStepUp(graph, phases, order, j - 1);
    }
  }
}
