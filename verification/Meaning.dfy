/** Compilation preserves meaning: the value every step computes is the value of the DAG node it stands for
    (crates/vil_ai_compiler/src/compiler.rs). */
module Meaning {
  import opened Wrappers
  import opened Seqs
  import opened Graphs
  import opened Pipeline
  import opened Fusion
  import opened Plan
  import opened Lowering

  /** What a node computes from its inputs, in predecessor order. */
  type Interp<!V> = (PipelineNode, seq<V>) -> V

  ghost function NodeLabels(dag: PipelineDag): (labels: seq<PipelineNode>)
    ensures |labels| == |dag.nodes| && forall i :: 0 <= i < |labels| ==> labels[i] == dag.nodes[i].1
  {
    seq(|dag.nodes|, i requires 0 <= i < |dag.nodes| => dag.nodes[i].1)
  }

  ghost function DagValue<V>(dag: PipelineDag, interp: Interp<V>, i: nat): V
    requires dag.Valid() && i < |dag.nodes|
  {
    Eval(dag.Graph(), NodeLabels(dag), interp, i)
  }

  /** The remaining operations of a fused step, left to right. */
  function RunRest<V>(interp: Interp<V>, v: V, ops: seq<string>): V {
    if ops == [] then v else RunRest(interp, interp(Transform(ops[0]), [v]), ops[1..])
  }

  function RunBody<V>(interp: Interp<V>, body: StepBody, inputs: seq<V>): V {
    match body
    case Single(node) => interp(node, inputs)
    case Fused(ops) =>
      RunRest(interp, interp(Transform(if ops == [] then "" else ops[0]), inputs), if ops == [] then [] else ops[1..])
  }

  function BodyOp<V>(interp: Interp<V>): (StepBody, seq<V>) -> V {
    (body, inputs) => RunBody(interp, body, inputs)
  }

  ghost function Bodies(steps: seq<ExecutionStep>): (bodies: seq<StepBody>)
    ensures |bodies| == |steps| && forall i :: 0 <= i < |bodies| ==> bodies[i] == steps[i].nodeType
  {
    seq(|steps|, i requires 0 <= i < |steps| => steps[i].nodeType)
  }

  /** The value of step si: its body applied to its dependencies' values, in order. */
  ghost function StepValue<V>(steps: seq<ExecutionStep>, interp: Interp<V>, si: nat): V
    requires DependsBackwards(steps) && si < |steps|
  {
    BackwardStepsAcyclic(steps);
    Eval(StepGraph(steps), Bodies(steps), BodyOp(interp), si)
  }

  /** Caching an already cached value under the same key changes nothing, whatever the lifetimes. */
  ghost predicate CachesAreIdempotent<V(!new)>(interp: Interp<V>) {
    forall ttl: nat, ttl': nat, key: string, inputs: seq<V> ::
      interp(Cache(ttl, key), [interp(Cache(ttl', key), inputs)]) == interp(Cache(ttl', key), inputs)
  }

  /** Every step computes what the last node of its chain computes in the DAG. */
  ghost predicate Preserves<V>(dag: PipelineDag, steps: seq<ExecutionStep>, interp: Interp<V>)
    requires dag.Valid() && DependsBackwards(steps) && |steps| == |StepNodes(dag)|
  {
    forall j: nat :: j < |steps| ==>
      StepValue(steps, interp, j) == DagValue(dag, interp, ChainEnd(dag, StepNodes(dag)[j]))
  }

  ghost function InputValues<V>(dag: PipelineDag, interp: Interp<V>, ps: seq<nat>): (vs: seq<V>)
    requires dag.Valid() && Below(ps, |dag.nodes|)
    ensures |vs| == |ps| && forall k :: 0 <= k < |ps| ==> vs[k] == DagValue(dag, interp, ps[k])
  {
    seq(|ps|, k requires 0 <= k < |ps| => DagValue(dag, interp, ps[k]))
  }

  lemma DagValueUnfold<V>(dag: PipelineDag, interp: Interp<V>, i: nat)
    requires dag.Valid() && i < |dag.nodes|
    ensures Below(dag.Predecessors(i), |dag.nodes|)
    ensures DagValue(dag, interp, i) == interp(dag.nodes[i].1, InputValues(dag, interp, dag.Predecessors(i)))
  {
    PredecessorsInRange(dag, i);
    EvalUnfold(dag.Graph(), NodeLabels(dag), interp, i, InputValues(dag, interp, dag.Predecessors(i)));
  }

  // ----- fusion -----

  /** Running the operations after the head of a chain yields the chain's last value. */
  lemma {:induction false} ChainValue<V>(dag: PipelineDag, interp: Interp<V>, i: nat)
    requires dag.Valid() && i < |dag.nodes| && dag.nodes[i].1.Transform?
    ensures ChainOperations(dag, i) != [] && ChainOperations(dag, i)[0] == dag.nodes[i].1.operation
    ensures RunRest(interp, DagValue(dag, interp, i), ChainOperations(dag, i)[1..]) ==
            DagValue(dag, interp, ChainEnd(dag, i))
    decreases |dag.nodes| - Rank(dag.Graph(), i)
  {
    ChainUnfold(dag, i);
    ChainOperationsUnfold(dag, i);
    if FuseNext(dag, i).Some? {
      var c := FuseNext(dag, i).value;
      ChainValue(dag, interp, c);
      DagValueUnfold(dag, interp, c);
      assert InputValues(dag, interp, dag.Predecessors(c)) == [DagValue(dag, interp, i)];
      assert ChainOperations(dag, i)[1..] == ChainOperations(dag, c);
    }
  }

  /** A step fed with its node's inputs computes the last value of the chain. */
  lemma BodyValue<V>(dag: PipelineDag, interp: Interp<V>, i: nat)
    requires dag.Valid() && i < |dag.nodes|
    ensures Below(dag.Predecessors(i), |dag.nodes|)
    ensures RunBody(interp, BodyOf(dag, i), InputValues(dag, interp, dag.Predecessors(i))) ==
            DagValue(dag, interp, ChainEnd(dag, i))
  {
    DagValueUnfold(dag, interp, i);
    if dag.nodes[i].1.Transform? {
      ChainValue(dag, interp, i);
    } else {
      NoFuseFromOther(dag, i);
    }
  }

  // ----- redundant caches -----

  /** The node a chain-ending p resolves to computes, at the end of its chain, p's own value. */
  ghost predicate ResolvesToOwnValue<V>(dag: PipelineDag, interp: Interp<V>, p: nat)
    requires dag.Valid() && p < |dag.nodes|
  {
    DagValue(dag, interp, ChainEnd(dag, Resolve(dag, p))) == DagValue(dag, interp, p)
  }

  /** Without redundancy fusion alone decides, whatever the interpretation. */
  lemma FusedValue<V>(dag: PipelineDag, interp: Interp<V>, p: nat)
    requires dag.Valid() && p < |dag.nodes| && FuseNext(dag, p) == None && !Redundant(dag, p)
    ensures ResolvesToOwnValue(dag, interp, p)
  {
    ResolveIsRoot(dag, p);
    NodeOnItsRootsChain(dag, p);
    ChainEndIsUnfused(dag, Root(dag, p), p);
  }

  /** A redundant cache repeats the value of the node it resolves to when caches are idempotent. */
  lemma {:induction false} ResolvedValue<V(!new)>(dag: PipelineDag, interp: Interp<V>, p: nat)
    requires dag.Valid() && p < |dag.nodes| && FuseNext(dag, p) == None
    requires CachesAreIdempotent(interp)
    ensures ResolvesToOwnValue(dag, interp, p)
    decreases Rank(dag.Graph(), p)
  {
    if Redundant(dag, p) {
      SolePredecessor(dag, p);
      var q := dag.Predecessors(p)[0];
      NoFuseFromOther(dag, q);
      ResolvedValue(dag, interp, q);
      DagValueUnfold(dag, interp, p);
      DagValueUnfold(dag, interp, q);
      assert InputValues(dag, interp, dag.Predecessors(p)) == [DagValue(dag, interp, q)];
    } else {
      FusedValue(dag, interp, p);
    }
  }

  // ----- the theorem -----

  lemma StepValueUnfold<V>(steps: seq<ExecutionStep>, interp: Interp<V>, j: nat, inputs: seq<V>)
    requires DependsBackwards(steps) && j < |steps|
    requires |inputs| == |StepGraph(steps)[j]|
    requires forall k :: 0 <= k < |inputs| ==>
      StepGraph(steps)[j][k] < |steps| && inputs[k] == StepValue(steps, interp, StepGraph(steps)[j][k])
    ensures StepValue(steps, interp, j) == RunBody(interp, steps[j].nodeType, inputs)
  {
    BackwardStepsAcyclic(steps);
    EvalUnfold(StepGraph(steps), Bodies(steps), BodyOp(interp), j, inputs);
  }

  /** Every predecessor a step reads computes the value of the node it resolves to. */
  ghost predicate InputsResolve<V>(dag: PipelineDag, interp: Interp<V>)
    requires dag.Valid()
  {
    forall i: nat, p: nat :: i < |dag.nodes| && p < |dag.nodes| && Survives(dag, i) && p in dag.Predecessors(i) ==>
      ResolvesToOwnValue(dag, interp, p)
  }

  lemma {:induction false} BridgedStepValue<V>(dag: PipelineDag, interp: Interp<V>, j: nat)
    requires dag.Valid() && InputsResolve(dag, interp) && j < |StepNodes(dag)|
    ensures StepValue(Lowered(dag, Bridged), interp, j) == DagValue(dag, interp, ChainEnd(dag, StepNodes(dag)[j]))
    decreases j
  {
    var steps, i := Lowered(dag, Bridged), StepNodes(dag)[j];
    assert i in StepNodes(dag);
    LoweredEdges(dag, Bridged, j);
    var preds := dag.Predecessors(i);
    BridgedDepNodes(dag, preds);
    var inputs := InputValues(dag, interp, preds);
    forall k | 0 <= k < |preds| ensures inputs[k] == StepValue(steps, interp, StepGraph(steps)[j][k]) {
      BridgedStepValue(dag, interp, StepGraph(steps)[j][k]);
      assert preds[k] in preds;
      assert ResolvesToOwnValue(dag, interp, preds[k]);
    }
    StepValueUnfold(steps, interp, j, inputs);
    assert steps[j].nodeType == BodyOf(dag, i);
    BodyValue(dag, interp, i);
  }

  /** Tiers and peers do not change what a step computes. */
  lemma ScheduledStepValue<V>(bare: seq<ExecutionStep>, interp: Interp<V>, j: nat)
    requires DependsBackwards(bare) && j < |bare|
    ensures DependsBackwards(Scheduled(bare).steps)
    ensures StepValue(Scheduled(bare).steps, interp, j) == StepValue(bare, interp, j)
  {
    ScheduledKeepsGraph(bare);
    assert Bodies(Scheduled(bare).steps) == Bodies(bare);
  }

  lemma BridgedPlanValues<V>(dag: PipelineDag, interp: Interp<V>)
    requires dag.Valid() && InputsResolve(dag, interp)
    ensures Preserves(dag, PlanOf(dag, Bridged).steps, interp)
  {
    var steps := PlanOf(dag, Bridged).steps;
    forall j: nat | j < |steps|
      ensures StepValue(steps, interp, j) == DagValue(dag, interp, ChainEnd(dag, StepNodes(dag)[j]))
    {
      BridgedStepValue(dag, interp, j);
      ScheduledStepValue(Lowered(dag, Bridged), interp, j);
    }
  }

  /** With redundant caches bridged, every DAG keeps its meaning when caches are idempotent. */
  lemma BridgedPlanPreserves<V(!new)>(dag: PipelineDag, interp: Interp<V>)
    requires dag.Valid() && CachesAreIdempotent(interp)
    ensures Preserves(dag, PlanOf(dag, Bridged).steps, interp)
  {
    forall i: nat, p: nat | i < |dag.nodes| && p < |dag.nodes| && Survives(dag, i) && p in dag.Predecessors(i)
      ensures ResolvesToOwnValue(dag, interp, p)
    {
      PredecessorEndsChain(dag, p, i);
      ResolvedValue(dag, interp, p);
    }
    BridgedPlanValues(dag, interp);
  }

  /** As written, a DAG in which no dependency is dropped keeps its meaning under every interpretation. */
  lemma WrittenPlanPreserves<V>(dag: PipelineDag, interp: Interp<V>)
    requires dag.Valid() && NoneDropped(dag)
    ensures Preserves(dag, PlanOf(dag, Dropped).steps, interp)
  {
    forall i: nat, p: nat | i < |dag.nodes| && p < |dag.nodes| && Survives(dag, i) && p in dag.Predecessors(i)
      ensures ResolvesToOwnValue(dag, interp, p)
    {
      PredecessorEndsChain(dag, p, i);
      FusedValue(dag, interp, p);
    }
    BridgedPlanValues(dag, interp);
    PlansAgree(dag);
  }
}
