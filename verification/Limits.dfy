/** Exactly when the compiler as written preserves meaning: when no surviving node has a redundant cache
    as a predecessor (crates/vil_ai_compiler/src/compiler.rs:186-201). */
module Limits {
  import opened Wrappers
  import opened Seqs
  import opened Graphs
  import opened Pipeline
  import opened Fusion
  import opened Plan
  import opened Lowering
  import opened Meaning

  /** A value that remembers how much work went into it and, for a cache, under which key it is stored. */
  datatype Trace = Trace(key: Option<string>, size: nat)

  function TotalSize(vs: seq<Trace>): nat {
    if vs == [] then 0 else TotalSize(vs[..|vs| - 1]) + vs[|vs| - 1].size
  }

  /** Counts the nodes behind a value; a cache passes on a value already stored under its key. */
  function Tracing(node: PipelineNode, inputs: seq<Trace>): Trace {
    if node.Cache? && |inputs| == 1 && inputs[0].key == Some(node.keyExpr) then inputs[0]
    else Trace(if node.Cache? then Some(node.keyExpr) else None, 1 + TotalSize(inputs))
  }

  lemma TracingIsIdempotent()
    ensures CachesAreIdempotent(Tracing)
  {
  }

  lemma TracedValue(dag: PipelineDag, i: nat)
    requires dag.Valid() && i < |dag.nodes|
    ensures Below(dag.Predecessors(i), |dag.nodes|)
    ensures DagValue(dag, Tracing, i) == Tracing(dag.nodes[i].1, InputValues(dag, Tracing, dag.Predecessors(i)))
    ensures DagValue(dag, Tracing, i).key == if dag.nodes[i].1.Cache? then Some(dag.nodes[i].1.keyExpr) else None
  {
    DagValueUnfold(dag, Tracing, i);
  }

  lemma {:induction false} TracedSizePositive(dag: PipelineDag, i: nat)
    requires dag.Valid() && i < |dag.nodes|
    ensures DagValue(dag, Tracing, i).size > 0
    decreases Rank(dag.Graph(), i)
  {
    TracedValue(dag, i);
    var preds := dag.Predecessors(i);
    if |preds| == 1 {
      assert preds[0] in dag.Graph()[i];
      EdgeRaisesRank(dag.Graph(), preds[0], i);
      TracedSizePositive(dag, preds[0]);
    }
  }

  /** Each further operation of a fused step adds one to the size. */
  lemma {:induction false} RunRestSize(v: Trace, ops: seq<string>)
    ensures RunRest(Tracing, v, ops).size == v.size + |ops|
    decreases |ops|
  {
    if ops != [] {
      assert TotalSize([v]) == v.size;
      RunRestSize(Tracing(Transform(ops[0]), [v]), ops[1..]);
    }
  }

  /** Inputs of smaller total size give a step of smaller size, unless a cache passes the larger input on. */
  lemma RunBodySize(body: StepBody, few: seq<Trace>, many: seq<Trace>)
    requires TotalSize(few) < TotalSize(many)
    requires body.Single? && body.node.Cache? ==> |many| == 1 ==> many[0].key != Some(body.node.keyExpr)
    ensures RunBody(Tracing, body, few).size < RunBody(Tracing, body, many).size
  {
    match body
    case Single(node) =>
      if |few| == 1 { assert TotalSize(few) == few[0].size; }
    case Fused(ops) =>
      var first := Transform(if ops == [] then "" else ops[0]);
      var rest := if ops == [] then [] else ops[1..];
      RunRestSize(Tracing(first, few), rest);
      RunRestSize(Tracing(first, many), rest);
  }

  lemma {:induction false} DroppedDepNodes(dag: PipelineDag, ps: seq<nat>)
    requires dag.Valid() && Below(ps, |dag.nodes|)
    ensures |DepNodes(dag, ps, Dropped)| == |Kept(dag, ps)|
    ensures forall k :: 0 <= k < |Kept(dag, ps)| ==> DepNodes(dag, ps, Dropped)[k] == Resolve(dag, Kept(dag, ps)[k])
  {
    if ps != [] {
      var m := |ps| - 1;
      var front, last := ps[..m], ps[m];
      assert ps == front + [last];
      DroppedDepNodes(dag, front);
      var kept, deps := Kept(dag, front), DepNodes(dag, front, Dropped);
      if Redundant(dag, last) {
        assert Kept(dag, ps) == kept && DepNodes(dag, ps, Dropped) == deps;
      } else {
        ResolvedAppend(dag, kept, deps, last, Kept(dag, ps), DepNodes(dag, ps, Dropped));
      }
    }
  }

  /** Dropping a predecessor loses size. */
  lemma {:induction false} KeptSize(dag: PipelineDag, ps: seq<nat>)
    requires dag.Valid() && Below(ps, |dag.nodes|)
    ensures TotalSize(InputValues(dag, Tracing, Kept(dag, ps))) <= TotalSize(InputValues(dag, Tracing, ps))
    ensures (exists p :: p in ps && Redundant(dag, p)) ==>
      TotalSize(InputValues(dag, Tracing, Kept(dag, ps))) < TotalSize(InputValues(dag, Tracing, ps))
  {
    if ps != [] {
      var m := |ps| - 1;
      var front, last := ps[..m], ps[m];
      assert ps == front + [last];
      KeptSize(dag, front);
      TracedSizePositive(dag, last);
      TracedSizeAppend(dag, front, last, ps);
      assert Kept(dag, ps) == if Redundant(dag, last) then Kept(dag, front) else Kept(dag, front) + [last];
      if !Redundant(dag, last) { TracedSizeAppend(dag, Kept(dag, front), last, Kept(dag, ps)); }
    }
  }

  lemma TracedSizeAppend(dag: PipelineDag, front: seq<nat>, last: nat, all: seq<nat>)
    requires dag.Valid() && Below(all, |dag.nodes|) && all == front + [last]
    ensures Below(front, |dag.nodes|) && last < |dag.nodes|
    ensures TotalSize(InputValues(dag, Tracing, all)) ==
            TotalSize(InputValues(dag, Tracing, front)) + DagValue(dag, Tracing, last).size
  {
    assert all[|front|] == last;
    assert forall k :: 0 <= k < |front| ==> front[k] == all[k];
    var v := DagValue(dag, Tracing, last);
    assert InputValues(dag, Tracing, all) == InputValues(dag, Tracing, front) + [v];
    TotalSizeAppend(InputValues(dag, Tracing, front), v);
  }

  lemma TotalSizeAppend(vs: seq<Trace>, v: Trace)
    ensures TotalSize(vs + [v]) == TotalSize(vs) + v.size
  {
    assert (vs + [v])[..|vs|] == vs;
  }

  /** A preserved plan feeds every step with the values of the predecessors it kept. */
  lemma WrittenStepValue(dag: PipelineDag, j: nat)
    requires dag.Valid() && j < |StepNodes(dag)|
    requires Preserves(dag, PlanOf(dag, Dropped).steps, Tracing)
    ensures Below(dag.Predecessors(StepNodes(dag)[j]), |dag.nodes|)
    ensures StepValue(Lowered(dag, Dropped), Tracing, j) ==
      RunBody(Tracing, BodyOf(dag, StepNodes(dag)[j]),
        InputValues(dag, Tracing, Kept(dag, dag.Predecessors(StepNodes(dag)[j]))))
  {
    var steps, i := Lowered(dag, Dropped), StepNodes(dag)[j];
    assert i in StepNodes(dag);
    LoweredEdges(dag, Dropped, j);
    var preds := dag.Predecessors(i);
    var kept := Kept(dag, preds);
    DroppedDepNodes(dag, preds);
    TracingIsIdempotent();
    var inputs := InputValues(dag, Tracing, kept);
    forall k | 0 <= k < |kept| ensures inputs[k] == StepValue(steps, Tracing, StepGraph(steps)[j][k]) {
      assert kept[k] in kept;
      PredecessorEndsChain(dag, kept[k], i);
      ResolvedValue(dag, Tracing, kept[k]);
      ScheduledStepValue(steps, Tracing, StepGraph(steps)[j][k]);
    }
    StepValueUnfold(steps, Tracing, j, inputs);
    assert steps[j].nodeType == BodyOf(dag, i);
  }

  /** A surviving cache with one predecessor does not find its own key there. */
  lemma SurvivingCacheSeesOtherKey(dag: PipelineDag, i: nat)
    requires dag.Valid() && i < |dag.nodes| && Survives(dag, i) && dag.nodes[i].1.Cache?
    requires |dag.Predecessors(i)| == 1
    ensures dag.Predecessors(i)[0] < |dag.nodes|
    ensures DagValue(dag, Tracing, dag.Predecessors(i)[0]).key != Some(dag.nodes[i].1.keyExpr)
  {
    PredecessorsInRange(dag, i);
    TracedValue(dag, dag.Predecessors(i)[0]);
  }

  /** A surviving node with a redundant predecessor computes a smaller value from what it kept. */
  lemma DroppingShrinks(dag: PipelineDag, i: nat, p: nat)
    requires dag.Valid() && i < |dag.nodes| && Survives(dag, i)
    requires p < |dag.nodes| && p in dag.Predecessors(i) && Redundant(dag, p)
    ensures Below(dag.Predecessors(i), |dag.nodes|)
    ensures RunBody(Tracing, BodyOf(dag, i), InputValues(dag, Tracing, Kept(dag, dag.Predecessors(i)))).size <
            DagValue(dag, Tracing, ChainEnd(dag, i)).size
  {
    BodyValue(dag, Tracing, i);
    var preds := dag.Predecessors(i);
    KeptSize(dag, preds);
    var few, many := InputValues(dag, Tracing, Kept(dag, preds)), InputValues(dag, Tracing, preds);
    if dag.nodes[i].1.Cache? && |many| == 1 { SurvivingCacheSeesOtherKey(dag, i); }
    RunBodySize(BodyOf(dag, i), few, many);
  }

  lemma PreservingDropsNothing(dag: PipelineDag)
    requires dag.Valid() && Preserves(dag, PlanOf(dag, Dropped).steps, Tracing)
    ensures NoneDropped(dag)
  {
    forall i: nat, p: nat | i < |dag.nodes| && Survives(dag, i) && p < |dag.nodes| && p in dag.Predecessors(i)
      ensures !Redundant(dag, p)
    {
      if Redundant(dag, p) {
        DroppingIsVisible(dag, i, p);
      }
    }
  }

  lemma DroppingIsVisible(dag: PipelineDag, i: nat, p: nat)
    requires dag.Valid() && i < |dag.nodes| && Survives(dag, i)
    requires p < |dag.nodes| && p in dag.Predecessors(i) && Redundant(dag, p)
    ensures CachesAreIdempotent(Tracing)
    ensures !Preserves(dag, PlanOf(dag, Dropped).steps, Tracing)
  {
    TracingIsIdempotent();
    var surv := StepNodes(dag);
    assert i in surv;
    var j: nat :| j < |surv| && surv[j] == i;
    DroppingShrinks(dag, i, p);
    if Preserves(dag, PlanOf(dag, Dropped).steps, Tracing) {
      WrittenStepValue(dag, j);
      ScheduledStepValue(Lowered(dag, Dropped), Tracing, j);
    }
  }

  /** The plan as written computes the DAG's values under every interpretation. */
  ghost predicate AlwaysPreserves(dag: PipelineDag)
    requires dag.Valid()
  {
    forall interp: Interp<Trace> :: Preserves(dag, PlanOf(dag, Dropped).steps, interp)
  }

  lemma NoneDroppedAlwaysPreserves(dag: PipelineDag)
    requires dag.Valid() && NoneDropped(dag)
    ensures AlwaysPreserves(dag)
  {
    forall interp: Interp<Trace> ensures Preserves(dag, PlanOf(dag, Dropped).steps, interp) {
      WrittenPlanPreserves(dag, interp);
    }
  }

  lemma AlwaysPreservingDropsNothing(dag: PipelineDag)
    requires dag.Valid() && AlwaysPreserves(dag)
    ensures NoneDropped(dag)
  {
    AlwaysPreservesOne(dag, Tracing);
    PreservingDropsNothing(dag);
  }

  lemma AlwaysPreservesOne(dag: PipelineDag, interp: Interp<Trace>)
    requires dag.Valid() && AlwaysPreserves(dag)
    ensures Preserves(dag, PlanOf(dag, Dropped).steps, interp)
  {
  }

  /** The plan as written preserves meaning exactly when no dependency is dropped.
      (`Meaning.WrittenPlanPreserves` gives one direction for every type of values;
      for the other, one interpretation whose caches are idempotent is enough.) */
  lemma PreservedExactlyWhenNoneDropped(dag: PipelineDag)
    requires dag.Valid()
    ensures NoneDropped(dag) <==> AlwaysPreserves(dag)
  {
    if NoneDropped(dag) { NoneDroppedAlwaysPreserves(dag); }
    if AlwaysPreserves(dag) { AlwaysPreservingDropsNothing(dag); }
  }

  // ----- the smallest example -----

  const CACHE_CHAIN := PipelineDag(
    [("c1", Cache(60, "query")), ("c2", Cache(60, "query")), ("gen", Generate("gpt-4", 1024, 0.7))],
    [(0, 1), (1, 2)])

  lemma CacheChainPredecessors(v: nat)
    ensures CACHE_CHAIN.Predecessors(v) == if v == 1 then [0] else if v == 2 then [1] else []
  {
    assert CACHE_CHAIN.edges == ([] + [(0, 1)]) + [(1, 2)];
    SourcesAppend([] + [(0, 1)], 1, 2, v);
    SourcesAppend([], 0, 1, v);
  }

  lemma CacheChainIsValid()
    ensures CACHE_CHAIN.Valid()
  {
    GraphInRange(CACHE_CHAIN);
    var g := CACHE_CHAIN.Graph();
    forall v: nat | v < 3 ensures g[v] == if v == 1 then [0] else if v == 2 then [1] else [] {
      CacheChainPredecessors(v);
    }
    LineIsAcyclic(g);
  }

  lemma LineIsAcyclic(g: Graph)
    requires g == [[], [0], [1]]
    ensures Dag(g)
  {
    var ord: seq<nat> := [0, 1, 2];
    assert ord[..0] == [] && ord[..1] == [0] && ord[..2] == [0, 1];
    assert PredsIn(g, 0, ord[..0]) && PredsIn(g, 1, ord[..1]) && PredsIn(g, 2, ord[..2]);
    TopoOrderAcyclic(g, ord);
  }

  lemma CacheChainEdges()
    ensures CACHE_CHAIN.Predecessors(1) == [0] && CACHE_CHAIN.Predecessors(2) == [1]
    ensures CACHE_CHAIN.Valid() && Reaches(CACHE_CHAIN.Graph(), 0, 2)
  {
    CacheChainPredecessors(1);
    CacheChainPredecessors(2);
    CacheChainIsValid();
    assert PathFromTo(CACHE_CHAIN.Graph(), [0, 1, 2], 0, 2);
  }

  /** Step j carries the id, has no dependencies and is in the first tier. */
  ghost predicate InFirstTierAlone(plan: CompiledPlan, id: string, j: nat) {
    && j < |plan.steps|
    && plan.steps[j].nodeId == id
    && plan.steps[j].dependencies == []
    && plan.parallelizable != []
    && j in plan.parallelizable[0]
  }

  /** For c1 -> c2 -> gen with one cache key, c2 disappears and gen is left without dependencies:
      it lands in the first tier beside c1, although c1 reaches it. */
  lemma CacheChainLosesItsConsumer()
    ensures CACHE_CHAIN.Valid() && Reaches(CACHE_CHAIN.Graph(), 0, 2)
    ensures Redundant(CACHE_CHAIN, 1) && !NoneDropped(CACHE_CHAIN)
    ensures exists j: nat :: InFirstTierAlone(PlanOf(CACHE_CHAIN, Dropped), "gen", j)
  {
    CacheChainEdges();
    var dag := CACHE_CHAIN;
    assert Redundant(dag, 1) && Survives(dag, 2) && 1 in dag.Predecessors(2);
    LoneConsumerMovesUp(dag, 2, 1);
  }

  /** Any survivor whose only predecessor is a redundant cache ends in the first tier without dependencies. */
  lemma LoneConsumerMovesUp(dag: PipelineDag, i: nat, p: nat)
    requires dag.Valid() && i < |dag.nodes| && p < |dag.nodes| && Survives(dag, i)
    requires dag.Predecessors(i) == [p] && Redundant(dag, p)
    ensures exists j: nat :: InFirstTierAlone(PlanOf(dag, Dropped), dag.nodes[i].0, j)
  {
    var surv := StepNodes(dag);
    assert i in surv;
    var j: nat :| j < |surv| && surv[j] == i;
    OnlyRedundantPredecessor(dag, i, p);
    SourceIsInFirstTier(dag, j);
  }

  lemma OnlyRedundantPredecessor(dag: PipelineDag, i: nat, p: nat)
    requires dag.Valid() && i < |dag.nodes| && p < |dag.nodes| && dag.Predecessors(i) == [p] && Redundant(dag, p)
    ensures BareStep(dag, i, Dropped).dependencies == []
  {
    var ps := [p];
    assert ps[..0] == [] && DepNodes(dag, ps[..0], Dropped) == [];
    assert DepNodes(dag, ps, Dropped) == [];
  }

  lemma SourceIsInFirstTier(dag: PipelineDag, j: nat)
    requires dag.Valid() && j < |StepNodes(dag)| && BareStep(dag, StepNodes(dag)[j], Dropped).dependencies == []
    ensures InFirstTierAlone(PlanOf(dag, Dropped), dag.nodes[StepNodes(dag)[j]].0, j)
  {
    var steps := Lowered(dag, Dropped);
    BackwardStepsAcyclic(steps);
    var g := StepGraph(steps);
    assert steps[j] == BareStep(dag, StepNodes(dag)[j], Dropped);
    assert g[j] == [];
    DepthUnfold(g, j);
    LayersPartition(g);
    assert j in Layers(g)[0];
  }
}
