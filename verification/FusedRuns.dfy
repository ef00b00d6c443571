/** Which nodes share a step, told from the nodes and edges of the DAG alone
    (crates/vil_ai_compiler/src/compiler.rs:107-181). */
module FusedRuns {
  import opened Wrappers
  import opened Seqs
  import opened Graphs
  import opened Pipeline
  import opened Fusion
  import opened Plan
  import opened Lowering
  import opened PlanShape

  /** Edge k is the only one that enters its target. */
  predicate OnlyWayIn(dag: PipelineDag, k: nat)
    requires k < |dag.edges|
  {
    forall j :: 0 <= j < |dag.edges| && j != k ==> dag.edges[j].1 != dag.edges[k].1
  }

  /** Edge k is the only one that leaves its source. */
  predicate OnlyWayOut(dag: PipelineDag, k: nat)
    requires k < |dag.edges|
  {
    forall j :: 0 <= j < |dag.edges| && j != k ==> dag.edges[j].0 != dag.edges[k].0
  }

  /** Both nodes are Transforms, and one edge leads from p to i, the only one out of p and the only one into i. */
  ghost predicate FusesInto(dag: PipelineDag, p: nat, i: nat) {
    && p < |dag.nodes| && i < |dag.nodes| && dag.nodes[p].1.Transform? && dag.nodes[i].1.Transform?
    && exists k: nat :: k < |dag.edges| && dag.edges[k] == (p, i) && OnlyWayIn(dag, k) && OnlyWayOut(dag, k)
  }

  /** Both nodes are Caches with one key, and one edge leads from p to i, the only one into i. */
  ghost predicate Repeats(dag: PipelineDag, p: nat, i: nat) {
    && p < |dag.nodes| && i < |dag.nodes| && dag.nodes[p].1.Cache? && dag.nodes[i].1.Cache?
    && dag.nodes[p].1.keyExpr == dag.nodes[i].1.keyExpr
    && exists k: nat :: k < |dag.edges| && dag.edges[k] == (p, i) && OnlyWayIn(dag, k)
  }

  ghost predicate IsFused(dag: PipelineDag, i: nat) {
    exists p: nat :: FusesInto(dag, p, i)
  }

  ghost predicate GoesOn(dag: PipelineDag, p: nat) {
    exists i: nat :: FusesInto(dag, p, i)
  }

  ghost predicate IsRepeated(dag: PipelineDag, i: nat) {
    exists p: nat :: Repeats(dag, p, i)
  }

  lemma SolePredecessorEdge(dag: PipelineDag, p: nat, i: nat)
    ensures dag.Predecessors(i) == [p] <==>
      exists k: nat :: k < |dag.edges| && dag.edges[k] == (p, i) && OnlyWayIn(dag, k)
  {
    var at := SourcesInEdgeOrder(dag.edges, i);
    if dag.Predecessors(i) == [p] {
      assert dag.edges[at[0]] == (p, i) && OnlyWayIn(dag, at[0]);
    }
    if k: nat :| k < |dag.edges| && dag.edges[k] == (p, i) && OnlyWayIn(dag, k) {
      assert k in at;
      AscendingUnique(at, [k]);
    }
  }

  lemma SoleSuccessorEdge(dag: PipelineDag, p: nat, i: nat)
    ensures dag.Successors(p) == [i] <==>
      exists k: nat :: k < |dag.edges| && dag.edges[k] == (p, i) && OnlyWayOut(dag, k)
  {
    var at := TargetsInEdgeOrder(dag.edges, p);
    if dag.Successors(p) == [i] {
      assert dag.edges[at[0]] == (p, i) && OnlyWayOut(dag, at[0]);
    }
    if k: nat :| k < |dag.edges| && dag.edges[k] == (p, i) && OnlyWayOut(dag, k) {
      assert k in at;
      AscendingUnique(at, [k]);
    }
  }

  lemma FusesIntoIsSole(dag: PipelineDag, p: nat, i: nat)
    requires p < |dag.nodes| && i < |dag.nodes|
    ensures FusesInto(dag, p, i) <==>
      dag.nodes[p].1.Transform? && dag.nodes[i].1.Transform? && dag.Predecessors(i) == [p] && dag.Successors(p) == [i]
  {
    SolePredecessorEdge(dag, p, i);
    SoleSuccessorEdge(dag, p, i);
    if dag.Predecessors(i) == [p] && dag.Successors(p) == [i] {
      var k: nat :| k < |dag.edges| && dag.edges[k] == (p, i) && OnlyWayIn(dag, k);
      var j: nat :| j < |dag.edges| && dag.edges[j] == (p, i) && OnlyWayOut(dag, j);
      assert j == k;
    }
  }

  /** A chain goes on from p to i exactly when p fuses into i. */
  lemma FollowsExactly(dag: PipelineDag, p: nat, i: nat)
    requires dag.Acyclic() && p < |dag.nodes| && i < |dag.nodes|
    ensures FuseNext(dag, p) == Some(i) <==> FusesInto(dag, p, i)
    ensures Follows(dag, p, i) <==> FusesInto(dag, p, i)
  {
    FuseNextIsAbsorbed(dag, p, i);
    FusesIntoIsSole(dag, p, i);
    EdgeBothWays(dag, p, i);
  }

  lemma AbsorbedExactly(dag: PipelineDag, i: nat)
    requires dag.Acyclic() && i < |dag.nodes|
    ensures Absorbed(dag, i) <==> IsFused(dag, i)
  {
    if Absorbed(dag, i) {
      SolePredecessor(dag, i);
      FollowsExactly(dag, dag.Predecessors(i)[0], i);
    }
    if p: nat :| FusesInto(dag, p, i) { FollowsExactly(dag, p, i); }
  }

  lemma RedundantExactly(dag: PipelineDag, i: nat)
    requires dag.Acyclic() && i < |dag.nodes|
    ensures Redundant(dag, i) <==> IsRepeated(dag, i)
  {
    if Redundant(dag, i) {
      SolePredecessor(dag, i);
      SolePredecessorEdge(dag, dag.Predecessors(i)[0], i);
      assert Repeats(dag, dag.Predecessors(i)[0], i);
    }
    if p: nat :| Repeats(dag, p, i) { SolePredecessorEdge(dag, p, i); }
  }

  /** A node has a step of its own exactly when nothing fuses into it and it repeats no cache. */
  lemma OwnStepExactly(dag: PipelineDag, i: nat)
    requires dag.Acyclic() && i < |dag.nodes|
    ensures i in StepNodes(dag) <==> !IsFused(dag, i) && !IsRepeated(dag, i)
  {
    AbsorbedExactly(dag, i);
    RedundantExactly(dag, i);
  }

  // ----- runs -----

  /** Each node of the run fuses into the next one. */
  ghost predicate Linked(dag: PipelineDag, run: seq<nat>) {
    forall k: nat {:trigger LinkAt(dag, run, k)} :: k + 1 < |run| ==> LinkAt(dag, run, k)
  }

  ghost predicate LinkAt(dag: PipelineDag, run: seq<nat>, k: nat)
    requires k + 1 < |run|
  {
    FusesInto(dag, run[k], run[k + 1])
  }

  /** A linked run that cannot be made longer at either end. */
  ghost predicate FullRun(dag: PipelineDag, run: seq<nat>) {
    && run != [] && Below(run, |dag.nodes|) && Linked(dag, run)
    && !IsFused(dag, run[0]) && !GoesOn(dag, run[|run| - 1])
  }

  /** The step carries the nodes of the run: a single node as it is, several ones by their operations in order. */
  ghost predicate StepCarries(dag: PipelineDag, step: ExecutionStep, run: seq<nat>)
    requires run != [] && Below(run, |dag.nodes|)
  {
    && step.nodeId == dag.nodes[run[0]].0
    && match step.nodeType
       case Single(node) => |run| == 1 && node == dag.nodes[run[0]].1
       case Fused(operations) => |run| > 1 && OperationsOf(dag, operations, run)
  }

  ghost predicate OperationsOf(dag: PipelineDag, operations: seq<string>, run: seq<nat>)
    requires Below(run, |dag.nodes|)
  {
    |operations| == |run| && forall k :: 0 <= k < |run| ==> dag.nodes[run[k]].1 == Transform(operations[k])
  }

  lemma {:induction false} OperationsAlong(dag: PipelineDag, run: seq<nat>)
    requires Below(run, |dag.nodes|) && forall k :: 0 <= k < |run| ==> dag.nodes[run[k]].1.Transform?
    ensures OperationsOf(dag, Operations(dag, run), run)
  {
    if run != [] {
      OperationsAlong(dag, run[1..]);
      OperationsUnfold(dag, run, run[0], run[1..], Operations(dag, run[1..]));
    }
  }

  lemma OperationsUnfold(dag: PipelineDag, run: seq<nat>, head: nat, rest: seq<nat>, ops: seq<string>)
    requires Below(run, |dag.nodes|) && run == [head] + rest && head < |dag.nodes| && dag.nodes[head].1.Transform?
    requires Below(rest, |dag.nodes|) && ops == Operations(dag, rest) && OperationsOf(dag, ops, rest)
    ensures OperationsOf(dag, Operations(dag, run), run)
  {
    assert run[1..] == rest;
    assert Operations(dag, run) == [dag.nodes[head].1.operation] + ops;
  }

  lemma {:induction false} ChainCannotGoOn(dag: PipelineDag, i: nat)
    requires dag.Acyclic() && i < |dag.nodes|
    ensures ChainEnd(dag, i) < |dag.nodes| && FuseNext(dag, ChainEnd(dag, i)) == None
    decreases |dag.nodes| - Rank(dag.Graph(), i)
  {
    ChainUnfold(dag, i);
    if FuseNext(dag, i).Some? { ChainCannotGoOn(dag, FuseNext(dag, i).value); }
  }

  lemma EndGoesNowhere(dag: PipelineDag, p: nat)
    requires dag.Acyclic() && p < |dag.nodes| && FuseNext(dag, p) == None
    ensures !GoesOn(dag, p)
  {
    if i: nat :| FusesInto(dag, p, i) { FollowsExactly(dag, p, i); }
  }

  /** The chain of a node that nothing fuses into is a full run. */
  lemma ChainIsFullRun(dag: PipelineDag, i: nat)
    requires dag.Acyclic() && i < |dag.nodes| && !Absorbed(dag, i)
    ensures FullRun(dag, Chain(dag, i))
  {
    var run := Chain(dag, i);
    ChainIsLinked(dag, i);
    forall k: nat | k + 1 < |run| ensures LinkAt(dag, run, k) {
      assert Follows(dag, run[k + 1 - 1], run[k + 1]);
      FollowsExactly(dag, run[k], run[k + 1]);
    }
    AbsorbedExactly(dag, i);
    ChainCannotGoOn(dag, i);
    EndGoesNowhere(dag, ChainEnd(dag, i));
  }

  lemma LinkedAreTransforms(dag: PipelineDag, run: seq<nat>)
    requires Linked(dag, run) && |run| > 1
    ensures Below(run, |dag.nodes|) && forall k :: 0 <= k < |run| ==> dag.nodes[run[k]].1.Transform?
  {
    forall k: nat | k < |run| ensures run[k] < |dag.nodes| && dag.nodes[run[k]].1.Transform? {
      assert if k > 0 then LinkAt(dag, run, k - 1) else LinkAt(dag, run, k);
    }
  }

  lemma BodyCarriesRun(dag: PipelineDag, i: nat, step: ExecutionStep)
    requires dag.Acyclic() && i < |dag.nodes| && Linked(dag, Chain(dag, i))
    requires step.nodeId == dag.nodes[i].0 && step.nodeType == BodyOf(dag, i)
    ensures StepCarries(dag, step, Chain(dag, i))
  {
    var run := Chain(dag, i);
    if |run| > 1 {
      LinkedAreTransforms(dag, run);
      OperationsAlong(dag, run);
    } else {
      assert |ChainOperations(dag, i)| <= 1;
    }
  }

  /** Step j of every compiled plan carries exactly a full run of nodes, in order, starting at its own node. */
  lemma StepCarriesFullRun(dag: PipelineDag, mode: CacheDependency, j: nat) returns (run: seq<nat>)
    requires dag.Acyclic() && j < |PlanOf(dag, mode).steps|
    ensures FullRun(dag, run) && run[0] == StepNodes(dag)[j]
    ensures StepCarries(dag, PlanOf(dag, mode).steps[j], run)
  {
    var i := StepNodes(dag)[j];
    assert i in StepNodes(dag);
    run := Chain(dag, i);
    ChainIsFullRun(dag, i);
    assert PlanOf(dag, mode).steps[j].nodeType == Lowered(dag, mode)[j].nodeType;
    BodyCarriesRun(dag, i, PlanOf(dag, mode).steps[j]);
  }

  /** Whenever p fuses into i, node i has no step of its own, and its operation directly follows that of p in the body
      of one step. */
  lemma FusedSideBySide(dag: PipelineDag, mode: CacheDependency, p: nat, i: nat)
    returns (j: nat, run: seq<nat>, k: nat)
    requires dag.Acyclic() && FusesInto(dag, p, i)
    ensures i !in StepNodes(dag)
    ensures j < |PlanOf(dag, mode).steps| && FullRun(dag, run) && StepCarries(dag, PlanOf(dag, mode).steps[j], run)
    ensures k + 1 < |run| && run[k] == p && run[k + 1] == i
    ensures PlanOf(dag, mode).steps[j].nodeType.Fused?
    ensures var operations := PlanOf(dag, mode).steps[j].nodeType.operations;
      k + 1 < |operations| && operations[k] == dag.nodes[p].1.operation && operations[k + 1] == dag.nodes[i].1.operation
  {
    OwnStepExactly(dag, i);
    j, run, k := RunThrough(dag, p, i);
    ChainIsFullRun(dag, StepNodes(dag)[j]);
    assert PlanOf(dag, mode).steps[j].nodeType == Lowered(dag, mode)[j].nodeType;
    BodyCarriesRun(dag, StepNodes(dag)[j], PlanOf(dag, mode).steps[j]);
  }

  /** The chain of p's root goes from p to i. */
  lemma RunThrough(dag: PipelineDag, p: nat, i: nat) returns (j: nat, run: seq<nat>, k: nat)
    requires dag.Acyclic() && FusesInto(dag, p, i)
    ensures j < |StepNodes(dag)| && !Absorbed(dag, StepNodes(dag)[j]) && run == Chain(dag, StepNodes(dag)[j])
    ensures k + 1 < |run| && run[k] == p && run[k + 1] == i
  {
    var r := Root(dag, p);
    RootSurvives(dag, p);
    assert r in StepNodes(dag);
    j :| 0 <= j < |StepNodes(dag)| && StepNodes(dag)[j] == r;
    run := Chain(dag, r);
    NodeOnItsRootsChain(dag, p);
    k :| 0 <= k < |run| && run[k] == p;
    FollowsExactly(dag, p, i);
    if k + 1 == |run| {
      ChainCannotGoOn(dag, r);
      assert false;
    }
    ChainIsLinked(dag, r);
    assert Follows(dag, run[k + 1 - 1], run[k + 1]);
    FuseNextIsAbsorbed(dag, p, run[k + 1]);
  }

  // ----- the order of the steps, and their dependencies -----

  lemma {:induction false} SurvivorsStaySorted(dag: PipelineDag, ord: seq<nat>)
    requires dag.Acyclic() && LayeredSorted(dag.Graph(), ord)
    ensures LayeredSorted(dag.Graph(), Survivors(dag, ord))
  {
    if ord != [] {
      var front, last := ord[..|ord| - 1], ord[|ord| - 1];
      SortedFront(dag.Graph(), ord, front, last);
      SurvivorsStaySorted(dag, front);
      SurvivorsLast(dag, ord, front, last);
      SortedAppend(dag.Graph(), ord, front, last, Survivors(dag, front));
    }
  }

  lemma SortedFront(g: Graph, ord: seq<nat>, front: seq<nat>, last: nat)
    requires Dag(g) && LayeredSorted(g, ord) && ord == front + [last]
    ensures LayeredSorted(g, front)
  {
    assert forall k :: 0 <= k < |front| ==> front[k] == ord[k];
  }

  lemma SortedAppend(g: Graph, ord: seq<nat>, front: seq<nat>, last: nat, some: seq<nat>)
    requires Dag(g) && ord == front + [last] && LayeredSorted(g, ord) && LayeredSorted(g, some)
    requires forall x :: x in some ==> x in front
    ensures LayeredSorted(g, some + [last])
  {
    assert ord[|front|] == last;
    forall i | 0 <= i < |some| ensures LayeredBefore(g, some[i], last) {
      assert some[i] in front;
      var k: nat :| k < |front| && front[k] == some[i];
      assert ord[k] == some[i];
    }
  }

  /** Steps are in the order of their nodes' depths, and of their indices at equal depth. */
  lemma StepsInDepthOrder(dag: PipelineDag, i: nat, j: nat)
    requires dag.Acyclic() && i < j < |StepNodes(dag)|
    ensures LayeredBefore(dag.Graph(), StepNodes(dag)[i], StepNodes(dag)[j])
  {
    LayeredOrderIsSorted(dag.Graph());
    LayeredOrderIsTopological(dag.Graph());
    SurvivorsStaySorted(dag, LayeredOrder(dag.Graph()));
  }

  /** The id names the first node of a full run through p. */
  ghost predicate HeadsRunOf(dag: PipelineDag, p: nat, id: string) {
    exists run :: FullRun(dag, run) && p in run && id == dag.nodes[run[0]].0
  }

  lemma RootHeadsRun(dag: PipelineDag, p: nat)
    requires dag.Acyclic() && p < |dag.nodes|
    ensures HeadsRunOf(dag, p, dag.nodes[Root(dag, p)].0)
  {
    ChainIsFullRun(dag, Root(dag, p));
    NodeOnItsRootsChain(dag, p);
    assert FullRun(dag, Chain(dag, Root(dag, p)));
  }

  /** Predecessor x keeps its dependency, which leads to d. */
  ghost predicate KeptOne(dag: PipelineDag, ps: seq<nat>, x: nat, d: nat)
    requires dag.Acyclic() && Below(ps, |dag.nodes|)
  {
    x < |ps| && !Redundant(dag, ps[x]) && d == Root(dag, ps[x])
  }

  /** Predecessor x is listed unless it is dropped. */
  ghost predicate KeptOrDropped(dag: PipelineDag, ps: seq<nat>, kept: seq<nat>, x: nat)
    requires dag.EdgesInRange() && Below(ps, |dag.nodes|)
  {
    x < |ps| && !Redundant(dag, ps[x]) ==> x in kept
  }

  /** kept lists the predecessors that keep their dependency, deps the roots they turn into. */
  ghost predicate KeptAt(dag: PipelineDag, ps: seq<nat>, kept: seq<nat>, deps: seq<nat>)
    requires dag.Acyclic() && Below(ps, |dag.nodes|)
  {
    && StrictlyAscending(kept) && Below(kept, |ps|) && |kept| == |deps|
    && (forall k: nat {:trigger KeptOne(dag, ps, kept[k], deps[k])} :: k < |kept| ==>
          KeptOne(dag, ps, kept[k], deps[k]))
    && forall x: nat {:trigger KeptOrDropped(dag, ps, kept, x)} :: KeptOrDropped(dag, ps, kept, x)
  }

  lemma DroppedAppend(dag: PipelineDag, front: seq<nat>, last: nat, ps: seq<nat>, kept: seq<nat>, deps: seq<nat>)
    requires dag.Acyclic() && Below(ps, |dag.nodes|) && ps == front + [last]
    requires Below(front, |dag.nodes|) && last < |dag.nodes| && KeptAt(dag, front, kept, deps)
    requires Redundant(dag, last)
    ensures KeptAt(dag, ps, kept, deps)
  {
    forall k: nat | k < |kept| ensures KeptOne(dag, ps, kept[k], deps[k]) {
      assert KeptOne(dag, front, kept[k], deps[k]);
    }
    forall x: nat ensures KeptOrDropped(dag, ps, kept, x) { assert KeptOrDropped(dag, front, kept, x); }
  }

  lemma KeptAppend(dag: PipelineDag, front: seq<nat>, last: nat, ps: seq<nat>, kept: seq<nat>, deps: seq<nat>,
                   kept': seq<nat>, deps': seq<nat>)
    requires dag.Acyclic() && Below(ps, |dag.nodes|) && ps == front + [last]
    requires Below(front, |dag.nodes|) && last < |dag.nodes| && KeptAt(dag, front, kept, deps)
    requires !Redundant(dag, last) && kept' == kept + [|front|] && deps' == deps + [Root(dag, last)]
    ensures KeptAt(dag, ps, kept', deps')
  {
    forall k: nat | k < |kept'| ensures KeptOne(dag, ps, kept'[k], deps'[k]) {
      if k < |kept| { assert KeptOne(dag, front, kept[k], deps[k]); }
    }
    forall x: nat ensures KeptOrDropped(dag, ps, kept', x) {
      assert KeptOrDropped(dag, front, kept, x);
      assert kept'[|kept|] == |front|;
    }
  }

  lemma {:induction false} KeptPositions(dag: PipelineDag, ps: seq<nat>) returns (kept: seq<nat>)
    requires dag.Acyclic() && Below(ps, |dag.nodes|)
    ensures KeptAt(dag, ps, kept, DepNodes(dag, ps, Dropped))
  {
    kept := [];
    if ps != [] {
      var front, last := ps[..|ps| - 1], ps[|ps| - 1];
      DepNodesLast(dag, ps, front, last, Dropped);
      var before := KeptPositions(dag, front);
      var deps := DepNodes(dag, front, Dropped);
      if Redundant(dag, last) {
        kept := before;
        DroppedAppend(dag, front, last, ps, kept, deps);
      } else {
        ResolveIsRoot(dag, last);
        kept := before + [|front|];
        KeptAppend(dag, front, last, ps, before, deps, kept, DepNodes(dag, ps, Dropped));
      }
    }
  }

  /** The edges, in order, that lead to node v from a node that repeats no cache. */
  ghost predicate KeptEdges(dag: PipelineDag, v: nat, at: seq<nat>) {
    && StrictlyAscending(at) && Below(at, |dag.edges|)
    && forall x: nat :: x < |dag.edges| ==>
         (x in at <==> dag.edges[x].1 == v && !IsRepeated(dag, dag.edges[x].0))
  }

  /** One id for each of these edges; it names the step that carries the edge's source. */
  ghost predicate NamesSources(dag: PipelineDag, at: seq<nat>, ids: seq<string>) {
    && |ids| == |at| && Below(at, |dag.edges|)
    && forall k: nat :: k < |at| ==> HeadsRunOf(dag, dag.edges[at[k]].0, ids[k])
  }

  lemma PickedEdges(dag: PipelineDag, v: nat, ps: seq<nat>, all: seq<nat>, kept: seq<nat>, deps: seq<nat>, at: seq<nat>)
    requires dag.Acyclic() && Below(ps, |dag.nodes|) && EdgesInto(dag.edges, v, ps, all) && KeptAt(dag, ps, kept, deps)
    requires Below(kept, |all|) && at == Pick(all, kept)
    ensures KeptEdges(dag, v, at)
  {
    forall x: nat | x < |dag.edges| ensures x in at <==> dag.edges[x].1 == v && !IsRepeated(dag, dag.edges[x].0) {
      if x in at {
        var k: nat :| k < |at| && at[k] == x;
        assert KeptOne(dag, ps, kept[k], deps[k]);
        RedundantExactly(dag, ps[kept[k]]);
      }
      if dag.edges[x].1 == v && !IsRepeated(dag, dag.edges[x].0) {
        var y: nat :| y < |all| && all[y] == x;
        RedundantExactly(dag, ps[y]);
        assert KeptOrDropped(dag, ps, kept, y);
        var k: nat :| k < |kept| && kept[k] == y;
        assert at[k] == x;
      }
    }
  }

  lemma PickedSources(dag: PipelineDag, v: nat, ps: seq<nat>, all: seq<nat>, kept: seq<nat>, deps: seq<nat>,
                      at: seq<nat>)
    requires dag.Acyclic() && Below(ps, |dag.nodes|) && EdgesInto(dag.edges, v, ps, all) && KeptAt(dag, ps, kept, deps)
    requires Below(kept, |all|) && at == Pick(all, kept) && Below(deps, |dag.nodes|)
    ensures NamesSources(dag, at, Names(dag, deps))
  {
    forall k: nat | k < |at| ensures HeadsRunOf(dag, dag.edges[at[k]].0, Names(dag, deps)[k]) {
      assert KeptOne(dag, ps, kept[k], deps[k]);
      RootHeadsRun(dag, ps[kept[k]]);
    }
  }

  lemma DependencyIds(dag: PipelineDag, mode: CacheDependency, j: nat, v: nat)
    requires dag.Acyclic() && j < |PlanOf(dag, mode).steps| && v == StepNodes(dag)[j]
    ensures v < |dag.nodes| && Below(dag.Predecessors(v), |dag.nodes|)
    ensures PlanOf(dag, mode).steps[j].dependencies == Names(dag, DepNodes(dag, dag.Predecessors(v), mode))
  {
    assert v in StepNodes(dag);
    PredecessorsInRange(dag, v);
    assert PlanOf(dag, mode).steps[j].dependencies == Lowered(dag, mode)[j].dependencies;
  }

  /** As written, step j has one dependency for each edge into its node that does not come from a repeating cache, in
      edge order, and it names the step that carries the edge's source. */
  lemma DirectDependencies(dag: PipelineDag, j: nat) returns (at: seq<nat>)
    requires dag.Acyclic() && j < |PlanOf(dag, Dropped).steps|
    ensures KeptEdges(dag, StepNodes(dag)[j], at)
    ensures NamesSources(dag, at, PlanOf(dag, Dropped).steps[j].dependencies)
  {
    var v := StepNodes(dag)[j];
    DependencyIds(dag, Dropped, j, v);
    var ps := dag.Predecessors(v);
    var all := SourcesInEdgeOrder(dag.edges, v);
    var kept := KeptPositions(dag, ps);
    at := Pick(all, kept);
    PickedEdges(dag, v, ps, all, kept, DepNodes(dag, ps, Dropped), at);
    PickedSources(dag, v, ps, all, kept, DepNodes(dag, ps, Dropped), at);
  }
}
