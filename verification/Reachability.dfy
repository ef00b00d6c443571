/** Dependencies of the plan against reachability in the DAG
    (crates/vil_ai_compiler/src/compiler.rs:107-121, 186-201). */
module Reachability {
  import opened Seqs
  import opened Graphs
  import opened Pipeline
  import opened Fusion
  import opened Plan
  import opened Lowering

  /** The DAG without the edges whose dependency is dropped: those out of redundant caches, or none. */
  ghost function KeptGraph(dag: PipelineDag, mode: CacheDependency): (g: Graph)
    requires dag.Valid()
    ensures |g| == |dag.nodes|
    ensures forall p: nat, v: nat :: Edge(g, p, v) <==>
      Edge(dag.Graph(), p, v) && p < |dag.nodes| && !(mode.Dropped? && Redundant(dag, p))
  {
    GraphInRange(dag);
    var g: Graph := seq(|dag.nodes|, v requires 0 <= v < |dag.nodes| =>
      if mode.Dropped? then Kept(dag, dag.Graph()[v]) else dag.Graph()[v]);
    forall p: nat, v: nat ensures Edge(g, p, v) <==>
      Edge(dag.Graph(), p, v) && p < |dag.nodes| && !(mode.Dropped? && Redundant(dag, p))
    {
      if v < |dag.nodes| { assert Below(dag.Graph()[v], |dag.nodes|); }
    }
    g
  }

  lemma KeptPathIsPath(dag: PipelineDag, mode: CacheDependency, u: nat, v: nat)
    requires dag.Valid() && Reaches(KeptGraph(dag, mode), u, v)
    ensures Reaches(dag.Graph(), u, v)
  {
    var g := KeptGraph(dag, mode);
    var p :| PathFromTo(g, p, u, v) && |p| > 1;
    forall k | 0 < k < |p| ensures Edge(dag.Graph(), p[k - 1], p[k]) { assert Edge(g, p[k - 1], p[k]); }
    assert PathFromTo(dag.Graph(), p, u, v);
  }

  /** When no edge is dropped every path is kept. */
  lemma PathIsBridgedPath(dag: PipelineDag, u: nat, v: nat)
    requires dag.Valid() && Reaches(dag.Graph(), u, v)
    ensures Reaches(KeptGraph(dag, Bridged), u, v)
  {
    var g := dag.Graph();
    var p :| PathFromTo(g, p, u, v) && |p| > 1;
    forall k | 0 < k < |p| ensures Edge(KeptGraph(dag, Bridged), p[k - 1], p[k]) { assert Edge(g, p[k - 1], p[k]); }
    assert PathFromTo(KeptGraph(dag, Bridged), p, u, v);
  }

  /** The representative of a node whose dependency is kept is the node itself or reaches it. */
  lemma {:induction false} ResolveReaches(dag: PipelineDag, mode: CacheDependency, p: nat)
    requires dag.Valid() && p < |dag.nodes| && !(mode.Dropped? && Redundant(dag, p))
    ensures Resolve(dag, p) == p || Reaches(KeptGraph(dag, mode), Resolve(dag, p), p)
    decreases Rank(dag.Graph(), p)
  {
    if !Survives(dag, p) {
      var g, q := KeptGraph(dag, mode), dag.Predecessors(p)[0];
      SolePredecessor(dag, p);
      ResolveReaches(dag, mode, q);
      EdgeReaches(g, q, p);
      if Resolve(dag, q) != q { ReachesTransitive(g, Resolve(dag, q), q, p); }
    }
  }

  /** A survivor that is p or reaches p is, or reaches, the node p resolves to. */
  lemma {:induction false} SurvivorReachesResolved(dag: PipelineDag, mode: CacheDependency, u: nat, p: nat)
    requires dag.Valid() && p < |dag.nodes| && u < |dag.nodes| && Survives(dag, u)
    requires u == p || Reaches(KeptGraph(dag, mode), u, p)
    ensures u == Resolve(dag, p) || Reaches(KeptGraph(dag, mode), u, Resolve(dag, p))
    decreases Rank(dag.Graph(), p)
  {
    if !Survives(dag, p) {
      SolePredecessor(dag, p);
      var w := ReachesLastEdge(KeptGraph(dag, mode), u, p);
      assert Edge(dag.Graph(), w, p) && w in dag.Predecessors(p);
      SurvivorReachesResolved(dag, mode, u, w);
    }
  }

  // ----- dependencies are kept paths -----

  lemma StepEdgeReaches(dag: PipelineDag, mode: CacheDependency, i: nat, j: nat)
    requires dag.Valid() && Edge(StepGraph(Lowered(dag, mode)), i, j)
    ensures i < j < |StepNodes(dag)| && Reaches(KeptGraph(dag, mode), StepNodes(dag)[i], StepNodes(dag)[j])
  {
    var surv, g := StepNodes(dag), KeptGraph(dag, mode);
    LoweredEdges(dag, mode, j);
    var v, deps := surv[j], DepNodes(dag, dag.Predecessors(surv[j]), mode);
    var ps := StepGraph(Lowered(dag, mode))[j];
    var k :| 0 <= k < |ps| && ps[k] == i;
    assert deps[k] in deps;
    DepNodesMembers(dag, dag.Predecessors(v), mode, deps[k]);
    var p: nat :| p in dag.Predecessors(v) && !(mode.Dropped? && Redundant(dag, p)) && deps[k] == Resolve(dag, p);
    assert Edge(dag.Graph(), p, v);
    EdgeReaches(g, p, v);
    ResolveReaches(dag, mode, p);
    if Resolve(dag, p) != p { ReachesTransitive(g, Resolve(dag, p), p, v); }
  }

  lemma {:induction false} DependencyIsKeptPath(dag: PipelineDag, mode: CacheDependency, i: nat, j: nat)
    requires dag.Valid() && Reaches(StepGraph(Lowered(dag, mode)), i, j)
    ensures i < |StepNodes(dag)| && j < |StepNodes(dag)|
    ensures Reaches(KeptGraph(dag, mode), StepNodes(dag)[i], StepNodes(dag)[j])
    decreases j
  {
    var sg := StepGraph(Lowered(dag, mode));
    var w := ReachesLastEdge(sg, i, j);
    StepEdgeReaches(dag, mode, w, j);
    if w != i {
      DependencyIsKeptPath(dag, mode, i, w);
      ReachesTransitive(KeptGraph(dag, mode), StepNodes(dag)[i], StepNodes(dag)[w], StepNodes(dag)[j]);
    }
  }

  /** A kept edge into a survivor is a dependency on the step of its source's representative. */
  lemma KeptEdgeIsDependency(dag: PipelineDag, mode: CacheDependency, p: nat, j: nat) returns (d: nat)
    requires dag.Valid() && j < |StepNodes(dag)| && Edge(KeptGraph(dag, mode), p, StepNodes(dag)[j])
    ensures p < |dag.nodes| && d < j && StepNodes(dag)[d] == Resolve(dag, p)
    ensures Edge(StepGraph(Lowered(dag, mode)), d, j)
  {
    var preds := dag.Predecessors(StepNodes(dag)[j]);
    LoweredEdges(dag, mode, j);
    DepNodesMembers(dag, preds, mode, Resolve(dag, p));
    var deps := DepNodes(dag, preds, mode);
    var k :| 0 <= k < |deps| && deps[k] == Resolve(dag, p);
    d := StepGraph(Lowered(dag, mode))[j][k];
  }

  lemma {:induction false} KeptPathIsDependency(dag: PipelineDag, mode: CacheDependency, i: nat, j: nat)
    requires dag.Valid() && i < |StepNodes(dag)| && j < |StepNodes(dag)|
    requires Reaches(KeptGraph(dag, mode), StepNodes(dag)[i], StepNodes(dag)[j])
    ensures Reaches(StepGraph(Lowered(dag, mode)), i, j)
    decreases j
  {
    var surv, sg := StepNodes(dag), StepGraph(Lowered(dag, mode));
    assert surv[i] in surv;
    var p := ReachesLastEdge(KeptGraph(dag, mode), surv[i], surv[j]);
    var d := KeptEdgeIsDependency(dag, mode, p, j);
    EdgeReaches(sg, d, j);
    SurvivorReachesResolved(dag, mode, surv[i], p);
    if surv[i] != surv[d] {
      KeptPathIsDependency(dag, mode, i, d);
      ReachesTransitive(sg, i, d, j);
    } else {
      assert i == d;
    }
  }

  /** One step is a transitive dependency of another exactly when its node reaches the other's over the edges
      that are kept; for every DAG, as written and bridged. */
  lemma DependenciesAreKeptPaths(dag: PipelineDag, mode: CacheDependency, i: nat, j: nat)
    requires dag.Valid() && i < |StepNodes(dag)| && j < |StepNodes(dag)|
    ensures Reaches(KeptGraph(dag, mode), StepNodes(dag)[i], StepNodes(dag)[j]) <==>
            Reaches(StepGraph(PlanOf(dag, mode).steps), i, j)
  {
    ScheduledKeepsGraph(Lowered(dag, mode));
    if Reaches(KeptGraph(dag, mode), StepNodes(dag)[i], StepNodes(dag)[j]) { KeptPathIsDependency(dag, mode, i, j); }
    if Reaches(StepGraph(Lowered(dag, mode)), i, j) { DependencyIsKeptPath(dag, mode, i, j); }
  }

  // ----- dependencies against the paths of the DAG -----

  /** A transitive dependency of the plan is always a path of the DAG. */
  lemma DependencyIsPath(dag: PipelineDag, mode: CacheDependency, i: nat, j: nat)
    requires dag.Valid() && Reaches(StepGraph(PlanOf(dag, mode).steps), i, j)
    ensures i < |StepNodes(dag)| && j < |StepNodes(dag)|
    ensures Reaches(dag.Graph(), StepNodes(dag)[i], StepNodes(dag)[j])
  {
    ScheduledKeepsGraph(Lowered(dag, mode));
    DependencyIsKeptPath(dag, mode, i, j);
    KeptPathIsPath(dag, mode, StepNodes(dag)[i], StepNodes(dag)[j]);
  }

  /** With redundant caches bridged, every path between survivors is a transitive dependency. */
  lemma PathIsBridgedDependency(dag: PipelineDag, i: nat, j: nat)
    requires dag.Valid() && i < |StepNodes(dag)| && j < |StepNodes(dag)|
    requires Reaches(dag.Graph(), StepNodes(dag)[i], StepNodes(dag)[j])
    ensures Reaches(StepGraph(PlanOf(dag, Bridged).steps), i, j)
  {
    PathIsBridgedPath(dag, StepNodes(dag)[i], StepNodes(dag)[j]);
    DependenciesAreKeptPaths(dag, Bridged, i, j);
  }

  /** Reachability is exact: one survivor reaches another in the DAG exactly when its step is a transitive
      dependency of the other's step; for the plan as written, when no dependency is dropped. */
  lemma ReachabilityIsExact(dag: PipelineDag, mode: CacheDependency, i: nat, j: nat)
    requires dag.Valid() && i < |StepNodes(dag)| && j < |StepNodes(dag)|
    requires mode.Bridged? || NoneDropped(dag)
    ensures Reaches(dag.Graph(), StepNodes(dag)[i], StepNodes(dag)[j]) <==>
            Reaches(StepGraph(PlanOf(dag, mode).steps), i, j)
  {
    if mode.Dropped? { PlansAgree(dag); }
    if Reaches(dag.Graph(), StepNodes(dag)[i], StepNodes(dag)[j]) { PathIsBridgedDependency(dag, i, j); }
    if Reaches(StepGraph(PlanOf(dag, mode).steps), i, j) { DependencyIsPath(dag, mode, i, j); }
  }

  // ----- the exact condition for the plan as written -----

  /** In the plan as written, dependencies are exactly the paths between survivors. */
  ghost predicate WrittenIsExact(dag: PipelineDag)
    requires dag.Valid()
  {
    forall i: nat, j: nat :: i < |StepNodes(dag)| && j < |StepNodes(dag)| ==>
      (Reaches(dag.Graph(), StepNodes(dag)[i], StepNodes(dag)[j]) <==>
       Reaches(StepGraph(PlanOf(dag, Dropped).steps), i, j))
  }

  /** Whenever a survivor v loses the dependency on a redundant cache p, the node p stands for still reaches v
      without passing through any redundant cache. */
  ghost predicate DropsAreCovered(dag: PipelineDag)
    requires dag.Valid()
  {
    forall v: nat, p: nat ::
      v < |dag.nodes| && p < |dag.nodes| && Survives(dag, v) && p in dag.Predecessors(v) && Redundant(dag, p) ==>
      Reaches(KeptGraph(dag, Dropped), Resolve(dag, p), v)
  }

  lemma {:induction false} CoveredPathIsKept(dag: PipelineDag, u: nat, v: nat)
    requires dag.Valid() && DropsAreCovered(dag) && u < |dag.nodes| && v < |dag.nodes|
    requires Survives(dag, u) && Survives(dag, v) && Reaches(dag.Graph(), u, v)
    ensures Reaches(KeptGraph(dag, Dropped), u, v)
    decreases Depth(dag.Graph(), v)
  {
    var g, kept := dag.Graph(), KeptGraph(dag, Dropped);
    var p := ReachesLastEdge(g, u, v);
    assert p in dag.Predecessors(v);
    var r := Resolve(dag, p);
    RepresentativeReaches(dag, p, v);
    if u != p { PathIsBridgedPath(dag, u, p); }
    SurvivorReachesResolved(dag, Bridged, u, p);
    if u != r {
      KeptPathIsPath(dag, Bridged, u, r);
      ResolveReaches(dag, Bridged, p);
      if r != p { KeptPathIsPath(dag, Bridged, r, p); ReachesRaisesDepth(g, r, p); }
      EdgeReaches(g, p, v);
      ReachesRaisesDepth(g, p, v);
      CoveredPathIsKept(dag, u, r);
      ReachesTransitive(kept, u, r, v);
    }
  }

  /** Over kept edges, the representative of a survivor's predecessor reaches the survivor. */
  lemma RepresentativeReaches(dag: PipelineDag, p: nat, v: nat)
    requires dag.Valid() && DropsAreCovered(dag) && v < |dag.nodes| && Survives(dag, v) && p in dag.Predecessors(v)
    ensures p < |dag.nodes| && Reaches(KeptGraph(dag, Dropped), Resolve(dag, p), v)
  {
    PredecessorsInRange(dag, v);
    assert Edge(dag.Graph(), p, v);
    if !Redundant(dag, p) {
      var kept := KeptGraph(dag, Dropped);
      EdgeReaches(kept, p, v);
      ResolveReaches(dag, Dropped, p);
      if Resolve(dag, p) != p { ReachesTransitive(kept, Resolve(dag, p), p, v); }
    }
  }

  lemma ExactCoversDrop(dag: PipelineDag, v: nat, p: nat)
    requires dag.Valid() && WrittenIsExact(dag)
    requires v < |dag.nodes| && p < |dag.nodes| && Survives(dag, v) && p in dag.Predecessors(v)
    ensures Reaches(KeptGraph(dag, Dropped), Resolve(dag, p), v)
  {
    var surv, g, r := StepNodes(dag), dag.Graph(), Resolve(dag, p);
    assert Edge(g, p, v);
    EdgeReaches(g, p, v);
    ResolveReaches(dag, Bridged, p);
    if r != p {
      KeptPathIsPath(dag, Bridged, r, p);
      ReachesTransitive(g, r, p, v);
    }
    assert r in surv && v in surv;
    var i: nat :| i < |surv| && surv[i] == r;
    var j: nat :| j < |surv| && surv[j] == v;
    DependenciesAreKeptPaths(dag, Dropped, i, j);
  }

  /** The plan as written keeps reachability exactly when every dropped dependency is covered. */
  lemma WrittenIsExactWhenCovered(dag: PipelineDag)
    requires dag.Valid()
    ensures WrittenIsExact(dag) <==> DropsAreCovered(dag)
  {
    if WrittenIsExact(dag) {
      forall v: nat, p: nat |
        v < |dag.nodes| && p < |dag.nodes| && Survives(dag, v) && p in dag.Predecessors(v) && Redundant(dag, p)
        ensures Reaches(KeptGraph(dag, Dropped), Resolve(dag, p), v)
      {
        ExactCoversDrop(dag, v, p);
      }
    }
    if DropsAreCovered(dag) {
      var surv := StepNodes(dag);
      forall i: nat, j: nat | i < |surv| && j < |surv|
        ensures Reaches(dag.Graph(), surv[i], surv[j]) <==> Reaches(StepGraph(PlanOf(dag, Dropped).steps), i, j)
      {
        assert surv[i] in surv && surv[j] in surv;
        if Reaches(dag.Graph(), surv[i], surv[j]) { CoveredPathIsKept(dag, surv[i], surv[j]); }
        if Reaches(StepGraph(PlanOf(dag, Dropped).steps), i, j) { DependencyIsPath(dag, Dropped, i, j); }
        DependenciesAreKeptPaths(dag, Dropped, i, j);
      }
    }
  }
}
