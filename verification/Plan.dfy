/** Compiled plans, and the plan a DAG is lowered to (crates/vil_ai_compiler/src/compiler.rs). */
module Plan {
  import opened Seqs
  import opened Graphs
  import opened Pipeline

  /** A fused step keeps its operation names as a sequence; the source prints them joined by " | ". */
  datatype StepBody =
    | Single(node: PipelineNode)
    | Fused(operations: seq<string>)

  datatype ExecutionStep = ExecutionStep(
    nodeId: string,
    nodeType: StepBody,
    dependencies: seq<string>,
    canParallelWith: seq<string>)

  /** parallelizable lists the tiers; each tier holds step indices. */
  datatype CompiledPlan = CompiledPlan(steps: seq<ExecutionStep>, parallelizable: seq<seq<nat>>)

  function StepIds(steps: seq<ExecutionStep>): (ids: seq<string>)
    ensures |ids| == |steps| && forall i :: 0 <= i < |steps| ==> ids[i] == steps[i].nodeId
  {
    seq(|steps|, i requires 0 <= i < |steps| => steps[i].nodeId)
  }

  /** The positions of the named steps, in the order of the names; unknown names are passed over. */
  function Positions(ids: seq<string>, names: seq<string>): (r: seq<nat>)
    ensures Below(r, |ids|)
  {
    if names == [] then [] else
    var name := names[|names| - 1];
    Positions(ids, names[..|names| - 1]) + if name in ids then [IndexOf(ids, name)] else []
  }

  /** The steps as a graph: the predecessors of a step are its dependencies. */
  function StepGraph(steps: seq<ExecutionStep>): (g: Graph)
    ensures |g| == |steps| && InRange(g)
    ensures forall i :: 0 <= i < |steps| ==> g[i] == Positions(StepIds(steps), steps[i].dependencies)
  {
    seq(|steps|, i requires 0 <= i < |steps| => Positions(StepIds(steps), steps[i].dependencies))
  }

  lemma {:induction false} PositionsKnown(ids: seq<string>, names: seq<string>)
    requires forall k :: 0 <= k < |names| ==> names[k] in ids
    ensures |Positions(ids, names)| == |names|
    ensures forall k :: 0 <= k < |names| ==> Positions(ids, names)[k] == IndexOf(ids, names[k])
  {
    if names != [] {
      var m := |names| - 1;
      PositionsKnown(ids, names[..m]);
      var before, all := Positions(ids, names[..m]), Positions(ids, names);
      assert all == before + [IndexOf(ids, names[m])];
      forall k | 0 <= k < |names| ensures all[k] == IndexOf(ids, names[k]) {
        if k < m { assert all[k] == before[k]; }
      }
    }
  }

  /** Every dependency names a strictly earlier step. */
  ghost predicate DependsBackwards(steps: seq<ExecutionStep>) {
    forall j: nat {:trigger DependenciesBefore(steps, j)} :: j < |steps| ==> DependenciesBefore(steps, j)
  }

  ghost predicate DependenciesBefore(steps: seq<ExecutionStep>, j: nat)
    requires j < |steps|
  {
    forall k :: 0 <= k < |steps[j].dependencies| ==> steps[j].dependencies[k] in StepIds(steps)[..j]
  }

  lemma DependencyPositions(steps: seq<ExecutionStep>, j: nat)
    requires DependsBackwards(steps) && j < |steps|
    ensures var ids, deps, ps := StepIds(steps), steps[j].dependencies, StepGraph(steps)[j];
      |ps| == |deps| && forall k :: 0 <= k < |deps| ==>
        ps[k] < j && steps[ps[k]].nodeId == deps[k] && deps[k] in ids && ps[k] == IndexOf(ids, deps[k])
  {
    var ids, deps := StepIds(steps), steps[j].dependencies;
    assert DependenciesBefore(steps, j);
    forall k | 0 <= k < |deps| ensures deps[k] in ids { assert deps[k] in ids[..j]; }
    PositionsKnown(ids, deps);
    forall k | 0 <= k < |deps| ensures StepGraph(steps)[j][k] < j {
      assert deps[k] in ids[..j];
      var i: nat :| i < j && ids[..j][i] == deps[k];
      IndexOfFirst(ids, i);
    }
  }

  lemma StepGraphEdgesBackwards(steps: seq<ExecutionStep>, i: nat, j: nat)
    requires DependsBackwards(steps) && Edge(StepGraph(steps), i, j)
    ensures i < j
  {
    DependencyPositions(steps, j);
  }

  /** Steps whose dependencies all point backwards form an acyclic graph. */
  lemma BackwardStepsAcyclic(steps: seq<ExecutionStep>)
    requires DependsBackwards(steps)
    ensures Dag(StepGraph(steps))
    ensures TopoOrder(StepGraph(steps), Identity(|steps|))
  {
    var g, ord := StepGraph(steps), Identity(|steps|);
    forall j | 0 <= j < |ord| ensures PredsIn(g, ord[j], ord[..j]) {
      forall u | u in g[j] ensures u in ord[..j] {
        StepGraphEdgesBackwards(steps, u, j);
        assert ord[..j][u] == u;
      }
    }
    TopoOrderAcyclic(g, ord);
  }

  function Identity(n: nat): (s: seq<nat>)
    ensures |s| == n && forall i :: 0 <= i < n ==> s[i] == i
  {
    seq(n, i requires 0 <= i < n => i)
  }

  /** The ids of the other members of a tier. */
  function Peers(ids: seq<string>, group: seq<nat>, si: nat): seq<string>
    requires Below(group, |ids|)
  {
    if group == [] then [] else
    var oi := group[|group| - 1];
    Peers(ids, group[..|group| - 1], si) + if oi != si then [ids[oi]] else []
  }

  /** Step j with the ids of the rest of its tier. */
  ghost function WithPeers(bare: seq<ExecutionStep>, g: Graph, j: nat): (step: ExecutionStep)
    requires Dag(g) && |g| == |bare| && j < |bare|
    ensures step.nodeId == bare[j].nodeId && step.dependencies == bare[j].dependencies
    ensures step.nodeType == bare[j].nodeType
  {
    bare[j].(canParallelWith := Peers(StepIds(bare), Layer(g, Depth(g, j)), j))
  }

  /** Tiers and parallel ids added to steps whose dependencies point backwards. */
  ghost function Scheduled(bare: seq<ExecutionStep>): (plan: CompiledPlan)
    requires DependsBackwards(bare)
    ensures |plan.steps| == |bare|
  {
    BackwardStepsAcyclic(bare);
    var g := StepGraph(bare);
    CompiledPlan(seq(|bare|, j requires 0 <= j < |bare| => WithPeers(bare, g, j)), Layers(g))
  }

  lemma ScheduledKeepsGraph(bare: seq<ExecutionStep>)
    requires DependsBackwards(bare)
    ensures StepIds(Scheduled(bare).steps) == StepIds(bare)
    ensures StepGraph(Scheduled(bare).steps) == StepGraph(bare)
    ensures DependsBackwards(Scheduled(bare).steps)
  {
    var steps := Scheduled(bare).steps;
    assert StepIds(steps) == StepIds(bare);
    assert StepGraph(steps) == StepGraph(bare);
    forall j: nat | j < |steps| ensures DependenciesBefore(steps, j) { assert DependenciesBefore(bare, j); }
  }
}
