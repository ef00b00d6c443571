/** The shape of every compiled plan, and the two layerings compared
    (crates/vil_ai_compiler/src/compiler.rs:75-97, 186-258). */
module PlanShape {
  import opened Seqs
  import opened Graphs
  import opened Pipeline
  import opened Fusion
  import opened Plan
  import opened Lowering

  lemma {:induction false} PeersMembers(ids: seq<string>, group: seq<nat>, si: nat, id: string)
    requires Below(group, |ids|)
    ensures id in Peers(ids, group, si) <==> exists oi :: oi in group && oi != si && ids[oi] == id
  {
    if group != [] {
      var m := |group| - 1;
      PeersMembers(ids, group[..m], si, id);
      assert group == group[..m] + [group[m]];
      if exists oi :: oi in group && oi != si && ids[oi] == id {
        var oi :| oi in group && oi != si && ids[oi] == id;
        assert oi in group[..m] || oi == group[m];
      }
    }
  }

  ghost predicate InTier(tiers: seq<seq<nat>>, t: nat, si: nat) {
    t < |tiers| && si in tiers[t]
  }

  ghost predicate InSomeTier(tiers: seq<seq<nat>>, si: nat) {
    exists t :: InTier(tiers, t, si)
  }

  /** Tiers are non-empty and ascending, and every step index below n is in exactly one of them. */
  ghost predicate TiersPartition(tiers: seq<seq<nat>>, n: nat) {
    && (forall t :: 0 <= t < |tiers| ==> tiers[t] != [] && StrictlyAscending(tiers[t]) && Below(tiers[t], n))
    && (forall si: nat {:trigger InSomeTier(tiers, si)} :: si < n ==> InSomeTier(tiers, si))
    && forall t, u, si :: InTier(tiers, t, si) && InTier(tiers, u, si) ==> t == u
  }

  lemma LayersFormPartition(g: Graph)
    requires Dag(g)
    ensures TiersPartition(Layers(g), |g|)
  {
    LayersPartition(g);
    var tiers := Layers(g);
    forall t | 0 <= t < |tiers| ensures StrictlyAscending(tiers[t]) && Below(tiers[t], |g|) {
      assert tiers[t] == Layer(g, t);
    }
    forall si: nat | si < |g| ensures InSomeTier(tiers, si) {
      assert InTier(tiers, Depth(g, si), si);
    }
    forall t, u, si | InTier(tiers, t, si) && InTier(tiers, u, si) ensures t == u {
      assert Depth(g, si) == t && Depth(g, si) == u;
    }
  }

  /** A step's tier is the length of its longest chain of dependencies: such a chain exists and none is longer. */
  lemma TierIsLongestDependencyPath(dag: PipelineDag, mode: CacheDependency, t: nat, si: nat)
    returns (longest: seq<nat>)
    requires dag.Acyclic() && InTier(PlanOf(dag, mode).parallelizable, t, si)
    ensures IsPath(StepGraph(PlanOf(dag, mode).steps), longest) && longest[|longest| - 1] == si && |longest| - 1 == t
    ensures forall p :: IsPath(StepGraph(PlanOf(dag, mode).steps), p) && p[|p| - 1] == si ==> |p| - 1 <= t
  {
    PlanTiers(dag, mode);
    var g := StepGraph(PlanOf(dag, mode).steps);
    LayersPartition(g);
    longest := DepthIsAttained(g, si);
    forall p | IsPath(g, p) && p[|p| - 1] == si ensures |p| - 1 <= t { DepthBoundsPaths(g, p); }
  }

  /** The tiers of a plan are the layers of its own dependency graph. */
  lemma PlanTiers(dag: PipelineDag, mode: CacheDependency)
    requires dag.Acyclic()
    ensures Dag(StepGraph(PlanOf(dag, mode).steps))
    ensures PlanOf(dag, mode).parallelizable == Layers(StepGraph(PlanOf(dag, mode).steps))
  {
    ScheduledKeepsGraph(Lowered(dag, mode));
    BackwardStepsAcyclic(Lowered(dag, mode));
  }

  /** Transitive dependencies lie in strictly earlier tiers, so steps of one tier are independent. */
  lemma DependenciesInEarlierTiers(dag: PipelineDag, mode: CacheDependency, i: nat, j: nat, t: nat, u: nat)
    requires dag.Acyclic() && Reaches(StepGraph(PlanOf(dag, mode).steps), i, j)
    requires InTier(PlanOf(dag, mode).parallelizable, t, i) && InTier(PlanOf(dag, mode).parallelizable, u, j)
    ensures t < u
  {
    PlanTiers(dag, mode);
    LayersPartition(StepGraph(PlanOf(dag, mode).steps));
    ReachesRaisesDepth(StepGraph(PlanOf(dag, mode).steps), i, j);
  }

  /** Step si names step oi as one it can run in parallel with. */
  ghost predicate NamesPeer(steps: seq<ExecutionStep>, si: nat, oi: nat) {
    si < |steps| && oi < |steps| && steps[oi].nodeId in steps[si].canParallelWith
  }

  /** can_parallel_with names exactly the rest of the tier; it is symmetric and irreflexive. */
  lemma PeersAreTheRestOfTheTier(dag: PipelineDag, mode: CacheDependency, t: nat, si: nat, oi: nat)
    requires dag.Valid() && InTier(PlanOf(dag, mode).parallelizable, t, si) && oi < |PlanOf(dag, mode).steps|
    ensures NamesPeer(PlanOf(dag, mode).steps, si, oi) <==>
            InTier(PlanOf(dag, mode).parallelizable, t, oi) && oi != si
    ensures NamesPeer(PlanOf(dag, mode).steps, si, oi) <==> NamesPeer(PlanOf(dag, mode).steps, oi, si)
  {
    var bare := Lowered(dag, mode);
    BackwardStepsAcyclic(bare);
    LoweredIds(dag, mode);
    LayersPartition(StepGraph(bare));
    PeerExactly(bare, si, oi);
    PeerExactly(bare, oi, si);
  }

  lemma PeerExactly(bare: seq<ExecutionStep>, si: nat, oi: nat)
    requires DependsBackwards(bare) && Distinct(StepIds(bare)) && Dag(StepGraph(bare)) && si < |bare| && oi < |bare|
    ensures NamesPeer(Scheduled(bare).steps, si, oi) <==>
            Depth(StepGraph(bare), oi) == Depth(StepGraph(bare), si) && oi != si
  {
    var g, ids := StepGraph(bare), StepIds(bare);
    LayerMembers(g, Depth(g, si), oi);
    PeerIds(ids, Layer(g, Depth(g, si)), si, oi);
    assert Scheduled(bare).steps[si].canParallelWith == Peers(ids, Layer(g, Depth(g, si)), si);
  }

  /** With unique ids, the id of a step is among the peers exactly when the step is. */
  lemma PeerIds(ids: seq<string>, group: seq<nat>, si: nat, oi: nat)
    requires Distinct(ids) && Below(group, |ids|) && oi < |ids|
    ensures ids[oi] in Peers(ids, group, si) <==> oi in group && oi != si
  {
    PeersMembers(ids, group, si, ids[oi]);
  }

  lemma {:induction false} PeersWithoutOwn(ids: seq<string>, group: seq<nat>, si: nat)
    requires Below(group, |ids|) && si !in group
    ensures |Peers(ids, group, si)| == |group|
    ensures forall k :: 0 <= k < |group| ==> Peers(ids, group, si)[k] == ids[group[k]]
  {
    if group != [] { PeersWithoutOwn(ids, group[..|group| - 1], si); }
  }

  /** The peers of the tier's entry p are the other entries, each once and in tier order. */
  ghost predicate PeersSkip(ids: seq<string>, group: seq<nat>, p: nat, peers: seq<string>)
    requires Below(group, |ids|)
  {
    |peers| == |group| - 1 &&
    forall k :: 0 <= k < |peers| ==> peers[k] == ids[group[if k < p then k else k + 1]]
  }

  lemma {:induction false} PeersOfEntry(ids: seq<string>, group: seq<nat>, p: nat)
    requires Below(group, |ids|) && StrictlyAscending(group) && p < |group|
    ensures PeersSkip(ids, group, p, Peers(ids, group, group[p]))
  {
    var m := |group| - 1;
    var front := group[..m];
    if p < m {
      PeersOfEntry(ids, front, p);
      assert Peers(ids, group, group[p]) == Peers(ids, front, group[p]) + [ids[group[m]]];
    } else {
      PeersWithoutOwn(ids, front, group[m]);
      assert Peers(ids, group, group[m]) == Peers(ids, front, group[m]);
    }
  }

  /** can_parallel_with of a tier's entry p lists the ids of the other entries, each once, in tier order. */
  lemma PeersInTierOrder(dag: PipelineDag, mode: CacheDependency, t: nat, p: nat)
    requires dag.Acyclic() && t < |PlanOf(dag, mode).parallelizable| && p < |PlanOf(dag, mode).parallelizable[t]|
    ensures var plan := PlanOf(dag, mode);
      var tier := plan.parallelizable[t];
      && Below(tier, |plan.steps|)
      && PeersSkip(StepIds(plan.steps), tier, p, plan.steps[tier[p]].canParallelWith)
  {
    var bare := Lowered(dag, mode);
    BackwardStepsAcyclic(bare);
    ScheduledKeepsGraph(bare);
    var g := StepGraph(bare);
    LayersPartition(g);
    var tier := Layers(g)[t];
    assert tier[p] in tier;
    PeersOfEntry(StepIds(bare), tier, p);
  }

  /** Every compiled plan is well formed. */
  lemma PlanIsWellFormed(dag: PipelineDag, mode: CacheDependency)
    requires dag.Acyclic()
    ensures DependsBackwards(PlanOf(dag, mode).steps)
    ensures TiersPartition(PlanOf(dag, mode).parallelizable, |PlanOf(dag, mode).steps|)
  {
    ScheduledKeepsGraph(Lowered(dag, mode));
    BackwardStepsAcyclic(Lowered(dag, mode));
    LayersFormPartition(StepGraph(Lowered(dag, mode)));
  }

  // ----- the two layerings -----

  /** Depth first, then index. */
  ghost predicate LayeredBefore(g: Graph, u: nat, v: nat)
    requires Dag(g) && u < |g| && v < |g|
  {
    Depth(g, u) < Depth(g, v) || (Depth(g, u) == Depth(g, v) && u < v)
  }

  ghost predicate LayeredSorted(g: Graph, s: seq<nat>)
    requires Dag(g)
  {
    Below(s, |g|) && forall i, j :: 0 <= i < j < |s| ==> LayeredBefore(g, s[i], s[j])
  }

  lemma {:induction false} LayersAreSorted(g: Graph, k: nat)
    requires Dag(g) && k <= Height(g)
    ensures LayeredSorted(g, Flatten(Layers(g)[..k]))
  {
    if k > 0 {
      var m := k - 1;
      LayersAreSorted(g, m);
      NextLayerSorted(g, m, Flatten(Layers(g)[..m]), Flatten(Layers(g)[..m + 1]));
    }
  }

  lemma NextLayerSorted(g: Graph, m: nat, before: seq<nat>, all: seq<nat>)
    requires Dag(g) && m < Height(g) && before == Flatten(Layers(g)[..m]) && all == Flatten(Layers(g)[..m + 1])
    requires LayeredSorted(g, before)
    ensures LayeredSorted(g, all)
  {
    LayersTake(g, m);
    LayersAreTopological(g, m);
    LayerAppendSorted(g, before, Layer(g, m), all, m);
  }

  lemma LayerAppendSorted(g: Graph, before: seq<nat>, layer: seq<nat>, all: seq<nat>, k: nat)
    requires Dag(g) && LayeredSorted(g, before) && HoldsDepthsBelow(g, before, k)
    requires layer == Layer(g, k) && all == before + layer
    ensures LayeredSorted(g, all)
  {
    forall i | 0 <= i < |layer| ensures layer[i] < |g| && Depth(g, layer[i]) == k {
      assert layer[i] in layer;
      LayerMembers(g, k, layer[i]);
    }
    forall i, j | 0 <= i < j < |all| ensures LayeredBefore(g, all[i], all[j]) {
      if j >= |before| {
        assert all[j] == layer[j - |before|];
        if i < |before| { assert all[i] in before; }
      }
    }
  }

  lemma LayeredOrderIsSorted(g: Graph)
    requires Dag(g)
    ensures LayeredSorted(g, LayeredOrder(g))
  {
    LayersAreSorted(g, Height(g));
    assert Layers(g)[..Height(g)] == Layers(g);
  }

  ghost predicate NothingRemoved(dag: PipelineDag)
    requires dag.EdgesInRange()
  {
    forall i: nat :: i < |dag.nodes| ==> Survives(dag, i)
  }

  /** When nothing is removed, the first k nodes of an order all survive. */
  lemma {:induction false} SurvivorsAll(dag: PipelineDag, ord: seq<nat>, k: nat)
    requires dag.EdgesInRange() && NothingRemoved(dag) && Below(ord, |dag.nodes|) && k <= |ord|
    ensures Survivors(dag, ord[..k]) == ord[..k]
    decreases k
  {
    if k > 0 {
      var m := k - 1;
      SurvivorsAll(dag, ord, m);
      TakeOneMore(ord, m);
      NodeSurvives(dag, ord[m]);
      SurvivorsGrow(dag, ord[..m + 1], ord[..m], ord[m]);
    }
  }

  lemma NodeSurvives(dag: PipelineDag, i: nat)
    requires dag.EdgesInRange() && NothingRemoved(dag) && i < |dag.nodes|
    ensures Survives(dag, i)
  {
  }

  lemma SurvivorsGrow(dag: PipelineDag, ord: seq<nat>, front: seq<nat>, last: nat)
    requires dag.EdgesInRange() && Below(ord, |dag.nodes|) && ord == front + [last]
    requires Below(front, |dag.nodes|) && Survivors(dag, front) == front && last < |dag.nodes| && Survives(dag, last)
    ensures Survivors(dag, ord) == ord
  {
    SurvivorsLast(dag, ord, front, last);
  }

  lemma {:induction false} UnremovedDepNodes(dag: PipelineDag, ps: seq<nat>, mode: CacheDependency)
    requires dag.Valid() && NothingRemoved(dag) && Below(ps, |dag.nodes|)
    ensures DepNodes(dag, ps, mode) == ps
  {
    if ps != [] {
      var m := |ps| - 1;
      UnremovedDepNodes(dag, ps[..m], mode);
      assert Survives(dag, ps[m]) && Resolve(dag, ps[m]) == ps[m];
      assert ps == ps[..m] + [ps[m]];
    }
  }

  lemma {:induction false} StepDepthIsNodeDepth(dag: PipelineDag, mode: CacheDependency, j: nat)
    requires dag.Valid() && NothingRemoved(dag) && j < |StepNodes(dag)|
    ensures Dag(StepGraph(Lowered(dag, mode)))
    ensures Depth(StepGraph(Lowered(dag, mode)), j) == Depth(dag.Graph(), StepNodes(dag)[j])
    decreases j
  {
    var surv, g, sg := StepNodes(dag), dag.Graph(), StepGraph(Lowered(dag, mode));
    BackwardStepsAcyclic(Lowered(dag, mode));
    LoweredEdges(dag, mode, j);
    UnremovedDepNodes(dag, dag.Predecessors(surv[j]), mode);
    var depths := Pick(DepthTable(sg), sg[j]);
    forall k | 0 <= k < |sg[j]| ensures depths[k] == Depth(g, g[surv[j]][k]) {
      StepDepthIsNodeDepth(dag, mode, sg[j][k]);
    }
    DepthOfInputs(sg, j, depths);
    DepthOfInputs(g, surv[j], depths);
  }

  ghost function Through(surv: seq<nat>, group: seq<nat>): seq<nat>
    requires Below(group, |surv|)
  {
    seq(|group|, k requires 0 <= k < |group| => surv[group[k]])
  }

  /** When nothing is fused or eliminated, the rebuilt tiers are Kahn's layers, tier by tier. */
  lemma LayeringsAgree(dag: PipelineDag, mode: CacheDependency, t: nat)
    requires dag.Valid() && NothingRemoved(dag)
    ensures StepNodes(dag) == LayeredOrder(dag.Graph())
    ensures |PlanOf(dag, mode).parallelizable| == |Layers(dag.Graph())|
    ensures t < |Layers(dag.Graph())| ==>
      Below(PlanOf(dag, mode).parallelizable[t], |StepNodes(dag)|) &&
      Through(StepNodes(dag), PlanOf(dag, mode).parallelizable[t]) == Layers(dag.Graph())[t]
  {
    UnremovedNodes(dag);
    var surv, g, sg := StepNodes(dag), dag.Graph(), StepGraph(Lowered(dag, mode));
    BackwardStepsAcyclic(Lowered(dag, mode));
    HeightsAgree(dag, mode);
    if t < Height(g) { TierIsLayer(dag, mode, t); }
    TiersThrough(g, sg, surv, PlanOf(dag, mode).parallelizable, t);
  }

  lemma UnremovedNodes(dag: PipelineDag)
    requires dag.Valid() && NothingRemoved(dag)
    ensures StepNodes(dag) == LayeredOrder(dag.Graph())
  {
    LayeredOrderIsTopological(dag.Graph());
    var ord := LayeredOrder(dag.Graph());
    SurvivorsAll(dag, ord, |ord|);
    assert ord[..|ord|] == ord;
  }

  lemma TiersThrough(g: Graph, sg: Graph, surv: seq<nat>, tiers: seq<seq<nat>>, t: nat)
    requires Dag(g) && Dag(sg) && Height(sg) == Height(g) && |sg| == |surv| && tiers == Layers(sg)
    requires t < Height(g) ==> Through(surv, Layer(sg, t)) == Layer(g, t)
    ensures |tiers| == |Layers(g)|
    ensures t < |Layers(g)| ==> Below(tiers[t], |surv|) && Through(surv, tiers[t]) == Layers(g)[t]
  {
  }

  lemma HeightsAgree(dag: PipelineDag, mode: CacheDependency)
    requires dag.Valid() && NothingRemoved(dag) && Dag(StepGraph(Lowered(dag, mode)))
    ensures Height(StepGraph(Lowered(dag, mode))) == Height(dag.Graph())
  {
    var surv, g, sg := StepNodes(dag), dag.Graph(), StepGraph(Lowered(dag, mode));
    forall v: nat | v < |g| ensures v in surv { assert Survives(dag, v); }
    forall j: nat | j < |sg| ensures Depth(sg, j) == Depth(g, surv[j]) { StepDepthIsNodeDepth(dag, mode, j); }
    SameDepthsSameHeight(g, sg, surv);
  }

  /** Graphs whose nodes correspond with equal depths have equal heights. */
  lemma SameDepthsSameHeight(g: Graph, sg: Graph, surv: seq<nat>)
    requires Dag(g) && Dag(sg) && |surv| == |sg| && Below(surv, |g|)
    requires forall v: nat :: v < |g| ==> v in surv
    requires forall j: nat :: j < |sg| ==> Depth(sg, j) == Depth(g, surv[j])
    ensures Height(sg) == Height(g)
  {
    HeightBounds(g);
    HeightBounds(sg);
    if |g| > 0 {
      var v: nat :| v < |g| && Depth(g, v) == Height(g) - 1;
      assert v in surv;
      var j: nat :| j < |surv| && surv[j] == v;
      assert Depth(sg, j) < Height(sg);
      var j': nat :| j' < |sg| && Depth(sg, j') == Height(sg) - 1;
      assert Depth(g, surv[j']) < Height(g);
    } else {
      HeadIsMember(surv);
    }
  }

  lemma TierIsLayer(dag: PipelineDag, mode: CacheDependency, t: nat)
    requires dag.Valid() && NothingRemoved(dag) && Dag(StepGraph(Lowered(dag, mode)))
    requires StepNodes(dag) == LayeredOrder(dag.Graph())
    ensures Through(StepNodes(dag), Layer(StepGraph(Lowered(dag, mode)), t)) == Layer(dag.Graph(), t)
  {
    var surv, g, sg := StepNodes(dag), dag.Graph(), StepGraph(Lowered(dag, mode));
    var group := Layer(sg, t);
    var image := Through(surv, group);
    forall k | 0 <= k < |group| ensures image[k] == surv[group[k]] && Depth(g, image[k]) == t {
      assert group[k] in group;
      LayerMembers(sg, t, group[k]);
      StepDepthIsNodeDepth(dag, mode, group[k]);
    }
    LayeredOrderIsSorted(g);
    forall i, j | 0 <= i < j < |image| ensures image[i] < image[j] {
      assert LayeredBefore(g, surv[group[i]], surv[group[j]]);
    }
    forall x ensures x in image <==> x in Layer(g, t) {
      if x in image {
        var k :| 0 <= k < |image| && image[k] == x;
        LayerMembers(g, t, x);
      }
      if x in Layer(g, t) {
        LayerMembers(g, t, x);
        assert x in surv;
        var j: nat :| j < |surv| && surv[j] == x;
        StepDepthIsNodeDepth(dag, mode, j);
        LayerMembers(sg, t, j);
        var k :| 0 <= k < |group| && group[k] == j;
        assert image[k] == x;
      }
    }
    AscendingUnique(image, Layer(g, t));
  }
}
