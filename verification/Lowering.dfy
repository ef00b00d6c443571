/** The steps a DAG is lowered to: one per surviving node, in layered order. */
module Lowering {
  import opened Seqs
  import opened Graphs
  import opened Pipeline
  import opened Fusion
  import opened Plan

  /** What becomes of a dependency on a redundant cache. The compiler as written drops it;
      bridging replaces it by the node the cache would have repeated. */
  datatype CacheDependency = Dropped | Bridged

  /** The surviving node that stands for p. */
  ghost function Resolve(dag: PipelineDag, p: nat): (r: nat)
    requires dag.Acyclic() && p < |dag.nodes|
    ensures r < |dag.nodes| && Survives(dag, r)
    decreases Rank(dag.Graph(), p)
  {
    if Survives(dag, p) then p else (SolePredecessor(dag, p); Resolve(dag, dag.Predecessors(p)[0]))
  }

  lemma {:induction false} ResolveIsRoot(dag: PipelineDag, p: nat)
    requires dag.Acyclic() && p < |dag.nodes| && !Redundant(dag, p)
    ensures Resolve(dag, p) == Root(dag, p)
    decreases Rank(dag.Graph(), p)
  {
    if Absorbed(dag, p) {
      SolePredecessor(dag, p);
      ResolveIsRoot(dag, dag.Predecessors(p)[0]);
    }
  }

  /** The nodes whose steps a step with predecessors ps depends on. */
  ghost function DepNodes(dag: PipelineDag, ps: seq<nat>, mode: CacheDependency): (deps: seq<nat>)
    requires dag.Acyclic() && Below(ps, |dag.nodes|)
    ensures Below(deps, |dag.nodes|)
  {
    if ps == [] then [] else
    var p := ps[|ps| - 1];
    DepNodes(dag, ps[..|ps| - 1], mode) +
    if mode.Dropped? && Redundant(dag, p) then [] else [Resolve(dag, p)]
  }

  /** The predecessors whose dependency is kept. */
  ghost function Kept(dag: PipelineDag, ps: seq<nat>): (kept: seq<nat>)
    requires dag.EdgesInRange() && Below(ps, |dag.nodes|)
    ensures Below(kept, |dag.nodes|)
    ensures forall x :: x in kept <==> x in ps && !Redundant(dag, x)
  {
    if ps == [] then [] else
    assert ps == ps[..|ps| - 1] + [ps[|ps| - 1]];
    Kept(dag, ps[..|ps| - 1]) + if Redundant(dag, ps[|ps| - 1]) then [] else [ps[|ps| - 1]]
  }

  lemma {:induction false} DepNodesMembers(dag: PipelineDag, ps: seq<nat>, mode: CacheDependency, r: nat)
    requires dag.Acyclic() && Below(ps, |dag.nodes|)
    ensures r in DepNodes(dag, ps, mode) <==>
      exists p :: p in ps && !(mode.Dropped? && Redundant(dag, p)) && r == Resolve(dag, p)
  {
    if ps != [] {
      var m := |ps| - 1;
      var front, last := ps[..m], ps[m];
      DepNodesMembers(dag, front, mode, r);
      DepNodesLast(dag, ps, front, last, mode);
      assert forall p :: p in ps <==> p in front || p == last;
    }
  }

  lemma DepNodesLast(dag: PipelineDag, ps: seq<nat>, front: seq<nat>, last: nat, mode: CacheDependency)
    requires dag.Acyclic() && Below(ps, |dag.nodes|) && ps == front + [last]
    ensures Below(front, |dag.nodes|) && last < |dag.nodes|
    ensures DepNodes(dag, ps, mode) ==
      DepNodes(dag, front, mode) + if mode.Dropped? && Redundant(dag, last) then [] else [Resolve(dag, last)]
  {
    assert ps[..|ps| - 1] == front && ps[|ps| - 1] == last;
    assert forall k :: 0 <= k < |front| ==> front[k] == ps[k];
  }

  ghost function Names(dag: PipelineDag, s: seq<nat>): (ids: seq<string>)
    requires Below(s, |dag.nodes|)
    ensures |ids| == |s| && forall k :: 0 <= k < |s| ==> ids[k] == dag.nodes[s[k]].0
  {
    seq(|s|, k requires 0 <= k < |s| => dag.nodes[s[k]].0)
  }

  ghost function BodyOf(dag: PipelineDag, i: nat): StepBody
    requires dag.Acyclic() && i < |dag.nodes|
  {
    var ops := ChainOperations(dag, i);
    if dag.nodes[i].1.Transform? && |ops| > 1 then Fused(ops) else Single(dag.nodes[i].1)
  }

  lemma PredecessorsInRange(dag: PipelineDag, i: nat)
    requires dag.Acyclic() && i < |dag.nodes|
    ensures Below(dag.Predecessors(i), |dag.nodes|)
  {
    assert dag.Graph()[i] == dag.Predecessors(i);
  }

  ghost function BareStep(dag: PipelineDag, i: nat, mode: CacheDependency): ExecutionStep
    requires dag.Acyclic() && i < |dag.nodes|
  {
    PredecessorsInRange(dag, i);
    ExecutionStep(dag.nodes[i].0, BodyOf(dag, i), Names(dag, DepNodes(dag, dag.Predecessors(i), mode)), [])
  }

  ghost function Survivors(dag: PipelineDag, ord: seq<nat>): (s: seq<nat>)
    requires dag.EdgesInRange() && Below(ord, |dag.nodes|)
    ensures Below(s, |dag.nodes|)
    ensures forall x :: x in s <==> x in ord && Survives(dag, x)
  {
    if ord == [] then [] else
    assert ord == ord[..|ord| - 1] + [ord[|ord| - 1]];
    Survivors(dag, ord[..|ord| - 1]) + if Survives(dag, ord[|ord| - 1]) then [ord[|ord| - 1]] else []
  }

  lemma SurvivorsLast(dag: PipelineDag, ord: seq<nat>, front: seq<nat>, last: nat)
    requires dag.EdgesInRange() && Below(ord, |dag.nodes|) && ord == front + [last]
    ensures Below(front, |dag.nodes|) && last < |dag.nodes|
    ensures Survivors(dag, ord) == Survivors(dag, front) + if Survives(dag, last) then [last] else []
  {
    assert ord[..|ord| - 1] == front && ord[|ord| - 1] == last;
    assert forall k :: 0 <= k < |front| ==> front[k] == ord[k];
  }

  lemma {:induction false} SurvivorsDistinct(dag: PipelineDag, ord: seq<nat>)
    requires dag.EdgesInRange() && Below(ord, |dag.nodes|) && Distinct(ord)
    ensures Distinct(Survivors(dag, ord))
  {
    if ord != [] {
      var m := |ord| - 1;
      SurvivorsDistinct(dag, ord[..m]);
      assert ord[m] !in ord[..m];
    }
  }

  /** The survivors up to a survivor are those of the order up to it. */
  lemma {:induction false} SurvivorsSplit(dag: PipelineDag, ord: seq<nat>, j: nat)
    returns (k: nat)
    requires dag.EdgesInRange() && Below(ord, |dag.nodes|) && j < |Survivors(dag, ord)|
    ensures k < |ord| && ord[k] == Survivors(dag, ord)[j]
    ensures Survivors(dag, ord)[..j] == Survivors(dag, ord[..k])
  {
    var m := |ord| - 1;
    var before := Survivors(dag, ord[..m]);
    if j < |before| {
      k := SurvivorsSplit(dag, ord[..m], j);
      assert ord[..m][..k] == ord[..k];
      assert Survivors(dag, ord)[..j] == before[..j];
    } else {
      k := m;
      assert Survivors(dag, ord)[..j] == before;
    }
  }

  ghost function BareSteps(dag: PipelineDag, surv: seq<nat>, mode: CacheDependency): (steps: seq<ExecutionStep>)
    requires dag.Acyclic() && Below(surv, |dag.nodes|)
    ensures |steps| == |surv| && forall j :: 0 <= j < |surv| ==> steps[j] == BareStep(dag, surv[j], mode)
  {
    seq(|surv|, j requires 0 <= j < |surv| => BareStep(dag, surv[j], mode))
  }

  /** In a topological order the node standing for p comes no later than p. */
  lemma {:induction false} ResolveComesEarlier(dag: PipelineDag, ord: seq<nat>, k: nat)
    requires dag.Acyclic() && TopoPrefix(dag.Graph(), ord) && k < |ord|
    ensures exists i :: 0 <= i <= k && ord[i] == Resolve(dag, ord[k])
    decreases k
  {
    var p := ord[k];
    if !Survives(dag, p) {
      SolePredecessor(dag, p);
      assert PredsIn(dag.Graph(), p, ord[..k]);
      var q := dag.Predecessors(p)[0];
      assert q in dag.Graph()[p];
      var i: nat :| i < k && ord[..k][i] == q;
      ResolveComesEarlier(dag, ord, i);
    }
  }

  lemma DependenciesAreEarlierSurvivors(dag: PipelineDag, ord: seq<nat>, j: nat, mode: CacheDependency, r: nat)
    requires dag.Acyclic() && TopoPrefix(dag.Graph(), ord) && j < |Survivors(dag, ord)|
    requires Below(dag.Predecessors(Survivors(dag, ord)[j]), |dag.nodes|)
    requires r in DepNodes(dag, dag.Predecessors(Survivors(dag, ord)[j]), mode)
    ensures r in Survivors(dag, ord)[..j]
  {
    var v := Survivors(dag, ord)[j];
    var k := SurvivorsSplit(dag, ord, j);
    DepNodesMembers(dag, dag.Predecessors(v), mode, r);
    var p :| p in dag.Predecessors(v) && r == Resolve(dag, p);
    ResolvedPredecessorIsEarlier(dag, ord, k, p);
  }

  lemma ResolvedPredecessorIsEarlier(dag: PipelineDag, ord: seq<nat>, k: nat, p: nat)
    requires dag.Acyclic() && TopoPrefix(dag.Graph(), ord) && k < |ord|
    requires p in dag.Predecessors(ord[k])
    ensures p < |dag.nodes| && Resolve(dag, p) in ord[..k]
  {
    assert p in dag.Graph()[ord[k]];
    assert PredsIn(dag.Graph(), ord[k], ord[..k]);
    var i: nat :| i < k && ord[..k][i] == p;
    ResolveComesEarlier(dag, ord, i);
    var i' :| 0 <= i' <= i && ord[i'] == Resolve(dag, p);
    assert ord[..k][i'] == Resolve(dag, p);
  }

  lemma NamesDistinct(dag: PipelineDag, s: seq<nat>)
    requires dag.UniqueIds() && Below(s, |dag.nodes|) && Distinct(s)
    ensures Distinct(Names(dag, s))
  {
    forall i, j | 0 <= i < j < |s| ensures Names(dag, s)[i] != Names(dag, s)[j] {
      var ids := Ids(dag.nodes);
      assert ids[s[i]] == Names(dag, s)[i] && ids[s[j]] == Names(dag, s)[j];
      assert s[i] != s[j];
    }
  }

  /** Every dependency of a lowered step names an earlier step. */
  lemma BareStepsDependBackwards(dag: PipelineDag, ord: seq<nat>, mode: CacheDependency)
    requires dag.Acyclic() && TopoPrefix(dag.Graph(), ord)
    ensures DependsBackwards(BareSteps(dag, Survivors(dag, ord), mode))
  {
    var surv := Survivors(dag, ord);
    var steps := BareSteps(dag, surv, mode);
    assert StepIds(steps) == Names(dag, surv);
    forall j: nat | j < |steps| ensures DependenciesBefore(steps, j) {
      BareDependenciesBefore(dag, ord, mode, j, steps);
    }
  }

  lemma BareDependenciesBefore(dag: PipelineDag, ord: seq<nat>, mode: CacheDependency, j: nat,
                               steps: seq<ExecutionStep>)
    requires dag.Acyclic() && TopoPrefix(dag.Graph(), ord) && j < |Survivors(dag, ord)|
    requires steps == BareSteps(dag, Survivors(dag, ord), mode) && StepIds(steps) == Names(dag, Survivors(dag, ord))
    ensures DependenciesBefore(steps, j)
  {
    var surv := Survivors(dag, ord);
    PredecessorsInRange(dag, surv[j]);
    var deps := DepNodes(dag, dag.Predecessors(surv[j]), mode);
    forall k | 0 <= k < |steps[j].dependencies| ensures steps[j].dependencies[k] in StepIds(steps)[..j] {
      assert deps[k] in deps;
      DependenciesAreEarlierSurvivors(dag, ord, j, mode, deps[k]);
      var i: nat :| i < j && surv[..j][i] == deps[k];
      assert StepIds(steps)[..j][i] == dag.nodes[deps[k]].0;
    }
  }

  /** The surviving nodes in execution order. */
  ghost function StepNodes(dag: PipelineDag): (surv: seq<nat>)
    requires dag.Acyclic()
    ensures Below(surv, |dag.nodes|) && Distinct(surv)
    ensures forall x: nat :: x in surv <==> x < |dag.nodes| && Survives(dag, x)
  {
    LayeredOrderIsTopological(dag.Graph());
    SurvivorsDistinct(dag, LayeredOrder(dag.Graph()));
    Survivors(dag, LayeredOrder(dag.Graph()))
  }

  ghost function Lowered(dag: PipelineDag, mode: CacheDependency): (steps: seq<ExecutionStep>)
    requires dag.Acyclic()
    ensures DependsBackwards(steps) && |steps| == |StepNodes(dag)|
  {
    LayeredOrderIsTopological(dag.Graph());
    BareStepsDependBackwards(dag, LayeredOrder(dag.Graph()), mode);
    BareSteps(dag, StepNodes(dag), mode)
  }

  /** Unique ids stay unique. */
  lemma LoweredIds(dag: PipelineDag, mode: CacheDependency)
    requires dag.Acyclic()
    ensures dag.UniqueIds() ==> Distinct(StepIds(Lowered(dag, mode)))
  {
    assert StepIds(Lowered(dag, mode)) == Names(dag, StepNodes(dag));
    if dag.UniqueIds() { NamesDistinct(dag, StepNodes(dag)); }
  }

  /** The whole plan of a DAG. */
  ghost function PlanOf(dag: PipelineDag, mode: CacheDependency): (plan: CompiledPlan)
    requires dag.Acyclic()
    ensures DependsBackwards(plan.steps) && |plan.steps| == |StepNodes(dag)|
    ensures dag.UniqueIds() ==> Distinct(StepIds(plan.steps))
  {
    ScheduledKeepsGraph(Lowered(dag, mode));
    LoweredIds(dag, mode);
    Scheduled(Lowered(dag, mode))
  }

  /** The dependency edges of a lowered step lead to the steps of its DepNodes, in order. */
  lemma LoweredEdges(dag: PipelineDag, mode: CacheDependency, j: nat)
    requires dag.Valid() && j < |StepNodes(dag)|
    ensures Below(dag.Predecessors(StepNodes(dag)[j]), |dag.nodes|)
    ensures var deps, ps := DepNodes(dag, dag.Predecessors(StepNodes(dag)[j]), mode), StepGraph(Lowered(dag, mode))[j];
      |ps| == |deps| && forall k :: 0 <= k < |ps| ==> ps[k] < j && StepNodes(dag)[ps[k]] == deps[k]
  {
    var surv, steps := StepNodes(dag), Lowered(dag, mode);
    PredecessorsInRange(dag, surv[j]);
    DependencyPositions(steps, j);
    var deps, ps := DepNodes(dag, dag.Predecessors(surv[j]), mode), StepGraph(steps)[j];
    forall k | 0 <= k < |ps| ensures surv[ps[k]] == deps[k] {
      assert steps[ps[k]] == BareStep(dag, surv[ps[k]], mode);
      assert Ids(dag.nodes)[surv[ps[k]]] == Ids(dag.nodes)[deps[k]];
    }
  }

  /** No surviving node has a redundant cache among its predecessors, so no dependency is dropped. */
  ghost predicate NoneDropped(dag: PipelineDag)
    requires dag.EdgesInRange()
  {
    forall i: nat, p: nat :: i < |dag.nodes| && Survives(dag, i) && p < |dag.nodes| && p in dag.Predecessors(i) ==>
      !Redundant(dag, p)
  }

  lemma {:induction false} DepNodesAgree(dag: PipelineDag, ps: seq<nat>)
    requires dag.Acyclic() && Below(ps, |dag.nodes|)
    requires forall p :: p in ps ==> !Redundant(dag, p)
    ensures DepNodes(dag, ps, Dropped) == DepNodes(dag, ps, Bridged)
  {
    if ps != [] {
      DepNodesAgree(dag, ps[..|ps| - 1]);
      assert ps[|ps| - 1] in ps;
    }
  }

  /** Without dropped dependencies the plan as written is the bridged plan. */
  lemma PlansAgree(dag: PipelineDag)
    requires dag.Acyclic() && NoneDropped(dag)
    ensures Lowered(dag, Dropped) == Lowered(dag, Bridged)
    ensures PlanOf(dag, Dropped) == PlanOf(dag, Bridged)
  {
    var surv := StepNodes(dag);
    forall j | 0 <= j < |surv| ensures BareStep(dag, surv[j], Dropped) == BareStep(dag, surv[j], Bridged) {
      PredecessorsInRange(dag, surv[j]);
      assert surv[j] in surv;
      DepNodesAgree(dag, dag.Predecessors(surv[j]));
    }
    assert Lowered(dag, Dropped) == Lowered(dag, Bridged);
  }

  lemma ResolvedAppend(dag: PipelineDag, kept: seq<nat>, deps: seq<nat>, last: nat, kept': seq<nat>, deps': seq<nat>)
    requires dag.Acyclic() && Below(kept', |dag.nodes|) && last < |dag.nodes| && |deps| == |kept|
    requires kept' == kept + [last] && deps' == deps + [Resolve(dag, last)]
    requires forall k :: 0 <= k < |kept| ==> kept[k] < |dag.nodes| && deps[k] == Resolve(dag, kept[k])
    ensures |deps'| == |kept'| && forall k :: 0 <= k < |kept'| ==> deps'[k] == Resolve(dag, kept'[k])
  {
  }

  lemma {:induction false} BridgedDepNodes(dag: PipelineDag, ps: seq<nat>)
    requires dag.Acyclic() && Below(ps, |dag.nodes|)
    ensures |DepNodes(dag, ps, Bridged)| == |ps|
    ensures forall k :: 0 <= k < |ps| ==> DepNodes(dag, ps, Bridged)[k] == Resolve(dag, ps[k])
  {
    if ps != [] {
      var m := |ps| - 1;
      var front, last := ps[..m], ps[m];
      BridgedDepNodes(dag, front);
      DepNodesLast(dag, ps, front, last, Bridged);
      ResolvedAppend(dag, front, DepNodes(dag, front, Bridged), last, ps, DepNodes(dag, ps, Bridged));
    }
  }
}
