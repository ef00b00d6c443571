/** The optimising compiler, phase by phase, in place (crates/vil_ai_compiler/src/compiler.rs). */
module Compiler {
  import opened Wrappers
  import opened Seqs
  import opened Graphs
  import opened Pipeline
  import opened Fusion
  import opened Plan
  import opened Lowering
  import Kahn

  // ----- optimisation 3: fuse chains of Transform nodes -----

  ghost function FuseMark(dag: PipelineDag, seen: seq<nat>, c: nat): Option<nat>
    requires dag.Acyclic() && c < |dag.nodes|
  {
    if Absorbed(dag, c) && dag.Predecessors(c)[0] in seen then Some(Root(dag, c)) else None
  }

  /** Fusion is decided: every absorbed node is marked with its root. */
  ghost predicate FusionDone(dag: PipelineDag, fusedInto: array<Option<nat>>)
    requires dag.Acyclic()
    reads fusedInto
  {
    && fusedInto.Length == |dag.nodes|
    && forall c: nat :: c < |dag.nodes| ==>
         fusedInto[c] == if Absorbed(dag, c) then Some(Root(dag, c)) else None
  }

  /** A visited node's own mark is final, since its predecessors were visited before it. */
  lemma OwnMarkIsFinal(dag: PipelineDag, topo: seq<nat>, k: nat)
    requires dag.Acyclic() && TopoPrefix(dag.Graph(), topo) && k < |topo|
    ensures FuseMark(dag, topo[..k], topo[k]) == if Absorbed(dag, topo[k]) then Some(Root(dag, topo[k])) else None
  {
    var idx := topo[k];
    if Absorbed(dag, idx) {
      SolePredecessor(dag, idx);
      assert PredsIn(dag.Graph(), idx, topo[..k]);
      assert dag.Predecessors(idx)[0] in dag.Graph()[idx];
    }
  }

  lemma FuseMarkStep(dag: PipelineDag, topo: seq<nat>, k: nat, c: nat)
    requires dag.Acyclic() && TopoPrefix(dag.Graph(), topo) && k < |topo| && c < |dag.nodes|
    ensures FuseMark(dag, topo[..k + 1], c) ==
      if FuseNext(dag, topo[k]) == Some(c) then Some(Root(dag, topo[k])) else FuseMark(dag, topo[..k], c)
  {
    var idx := topo[k];
    assert topo[..k + 1] == topo[..k] + [idx];
    FuseNextIsAbsorbed(dag, idx, c);
    if Absorbed(dag, c) { SolePredecessor(dag, c); }
  }

  /** The marks once the nodes of seen have been visited. */
  ghost function Marks(dag: PipelineDag, seen: seq<nat>): (marks: seq<Option<nat>>)
    requires dag.Acyclic()
    ensures |marks| == |dag.nodes|
  {
    seq(|dag.nodes|, c requires 0 <= c < |dag.nodes| => FuseMark(dag, seen, c))
  }

  lemma MarksStep(dag: PipelineDag, topo: seq<nat>, k: nat, marks: seq<Option<nat>>, next: Option<nat>)
    requires dag.Acyclic() && TopoPrefix(dag.Graph(), topo) && k < |topo|
    requires marks == Marks(dag, topo[..k]) && next == FuseNext(dag, topo[k])
    requires next.Some? ==> next.value < |dag.nodes|
    ensures Marks(dag, topo[..k + 1]) ==
      if next.None? then marks
      else marks[next.value := Some(if marks[topo[k]].Some? then marks[topo[k]].value else topo[k])]
  {
    OwnMarkIsFinal(dag, topo, k);
    var after, root := Marks(dag, topo[..k + 1]), Root(dag, topo[k]);
    forall c: nat | c < |dag.nodes| ensures after[c] == if next == Some(c) then Some(root) else marks[c] {
      FuseMarkStep(dag, topo, k, c);
    }
    OneMarkSet(marks, after, next, root);
  }

  lemma OneMarkSet(marks: seq<Option<nat>>, after: seq<Option<nat>>, next: Option<nat>, root: nat)
    requires |after| == |marks| && (next.Some? ==> next.value < |marks|)
    requires forall c: nat :: c < |marks| ==> after[c] == if next == Some(c) then Some(root) else marks[c]
    ensures after == if next.None? then marks else marks[next.value := Some(root)]
  {
  }

  /** The node to absorb after idx, found the way the compiler looks for it. */
  method FuseTarget(dag: PipelineDag, idx: nat) returns (target: Option<nat>)
    requires dag.Acyclic() && idx < |dag.nodes|
    ensures target == FuseNext(dag, idx) && (target.Some? ==> target.value < |dag.nodes|)
  {
    if !dag.nodes[idx].1.Transform? {
      NoFuseFromOther(dag, idx);
      return None;
    }
    var succs := dag.Successors(idx);
    if |succs| == 1 {
      var succ := succs[0];
      assert succ in succs;
      SuccessorsInRange(dag, idx, succ);
      if dag.nodes[succ].1.Transform? && |dag.Predecessors(succ)| == 1 {
        return Some(succ);
      }
    }
    return None;
  }

  method FuseTransforms(dag: PipelineDag, topo: seq<nat>) returns (fusedInto: array<Option<nat>>)
    requires dag.Acyclic() && TopoOrder(dag.Graph(), topo)
    ensures fresh(fusedInto) && FusionDone(dag, fusedInto)
  {
    fusedInto := new Option<nat>[|dag.nodes|](_ => None);
    assert fusedInto[..] == Marks(dag, []);
    for k := 0 to |topo|
      invariant fusedInto[..] == Marks(dag, topo[..k])
    {
      var idx := topo[k];
      var root := if fusedInto[idx].Some? then fusedInto[idx].value else idx;
      var target := FuseTarget(dag, idx);
      MarksStep(dag, topo, k, fusedInto[..], target);
      if target.Some? {
        fusedInto[target.value] := Some(root);
      }
    }
    assert topo[..|topo|] == topo;
    AllMarksFinal(dag, topo, fusedInto);
  }

  lemma AllMarksFinal(dag: PipelineDag, topo: seq<nat>, fusedInto: array<Option<nat>>)
    requires dag.Acyclic() && TopoOrder(dag.Graph(), topo)
    requires fusedInto[..] == Marks(dag, topo)
    ensures FusionDone(dag, fusedInto)
  {
    DistinctCoversRange(topo, |dag.nodes|);
    forall c: nat | c < |dag.nodes|
      ensures fusedInto[c] == if Absorbed(dag, c) then Some(Root(dag, c)) else None
    {
      assert fusedInto[..][c] == FuseMark(dag, topo, c);
      if Absorbed(dag, c) { SolePredecessor(dag, c); }
    }
  }

  // ----- optimisation 4: mark redundant Cache nodes -----

  method MarkRedundant(dag: PipelineDag, topo: seq<nat>) returns (redundant: array<bool>)
    requires dag.Acyclic() && TopoOrder(dag.Graph(), topo)
    ensures fresh(redundant) && redundant.Length == |dag.nodes|
    ensures forall i: nat :: i < |dag.nodes| ==> redundant[i] == Redundant(dag, i)
  {
    redundant := new bool[|dag.nodes|](_ => false);
    for k := 0 to |topo|
      invariant forall i: nat :: i < |dag.nodes| ==> redundant[i] == (i in topo[..k] && Redundant(dag, i))
    {
      var idx := topo[k];
      assert topo[..k + 1] == topo[..k] + [idx];
      if dag.nodes[idx].1.Cache? {
        var preds := dag.Predecessors(idx);
        if |preds| == 1 {
          PredecessorsInRange(dag, idx);
          if dag.nodes[preds[0]].1.Cache? && dag.nodes[preds[0]].1.keyExpr == dag.nodes[idx].1.keyExpr {
            redundant[idx] := true;
          }
        }
      }
    }
    assert topo[..|topo|] == topo;
    DistinctCoversRange(topo, |dag.nodes|);
  }

  // ----- building the steps -----

  /** tail lists the operations after cur on the chain of idx, child being the next node. */
  ghost predicate ChainTail(dag: PipelineDag, idx: nat, cur: nat, child: Option<nat>, tail: seq<string>)
    requires dag.Acyclic() && cur < |dag.nodes|
  {
    match child
    case None => tail == []
    case Some(c) =>
      && c < |dag.nodes|
      && dag.nodes[c].1.Transform?
      && Root(dag, c) == idx
      && Rank(dag.Graph(), cur) < Rank(dag.Graph(), c)
      && tail == ChainOperations(dag, c)
  }

  /** The first successor of cur that was fused into idx; on idx's own chain this is the chain's next node. */
  method FindFusedChild(dag: PipelineDag, fusedInto: array<Option<nat>>, idx: nat, cur: nat)
    returns (child: Option<nat>, ghost tail: seq<string>)
    requires dag.Acyclic() && FusionDone(dag, fusedInto)
    requires idx < |dag.nodes| && cur < |dag.nodes| && Root(dag, cur) == idx && dag.nodes[cur].1.Transform?
    ensures child == FuseNext(dag, cur)
    ensures ChainOperations(dag, cur) == [dag.nodes[cur].1.operation] + tail
    ensures ChainTail(dag, idx, cur, child, tail)
  {
    ChainUnfold(dag, cur);
    ChainOperationsUnfold(dag, cur);
    tail := if FuseNext(dag, cur).None? then [] else ChainOperations(dag, FuseNext(dag, cur).value);
    var succs := dag.Successors(cur);
    forall s | s in succs ensures s < |dag.nodes| &&
      (fusedInto[s] == Some(idx) <==> FuseNext(dag, cur) == Some(s))
    {
      FusedChildIsNext(dag, idx, cur, s);
    }
    forall k | 0 <= k < |succs| ensures succs[k] < |dag.nodes| { assert succs[k] in succs; }
    child := FirstFused(fusedInto, succs, idx, FuseNext(dag, cur));
  }

  /** The first of succs that was fused into idx, when `next` is the only one that can be. */
  method FirstFused(fusedInto: array<Option<nat>>, succs: seq<nat>, idx: nat, ghost next: Option<nat>)
    returns (child: Option<nat>)
    requires Below(succs, fusedInto.Length)
    requires forall s :: s in succs ==> (fusedInto[s] == Some(idx) <==> next == Some(s))
    requires next.Some? ==> next.value in succs
    ensures child == next
  {
    for k := 0 to |succs|
      invariant forall s :: s in succs[..k] ==> next != Some(s)
    {
      if fusedInto[succs[k]] == Some(idx) {
        return Some(succs[k]);
      }
    }
    assert succs[..|succs|] == succs;
    return None;
  }

  lemma FusedChildIsNext(dag: PipelineDag, idx: nat, cur: nat, s: nat)
    requires dag.Acyclic() && idx < |dag.nodes| && cur < |dag.nodes| && Root(dag, cur) == idx
    requires s in dag.Successors(cur)
    ensures s < |dag.nodes|
    ensures Absorbed(dag, s) && Root(dag, s) == idx <==> FuseNext(dag, cur) == Some(s)
  {
    SuccessorsInRange(dag, cur, s);
    if Absorbed(dag, s) {
      SolePredecessor(dag, s);
      FuseNextIsAbsorbed(dag, cur, s);
    }
    if FuseNext(dag, cur) == Some(s) { ChainUnfold(dag, cur); }
  }

  /** Walks the fuse chain forward from its root and collects the operation names. */
  method CollectOperations(dag: PipelineDag, fusedInto: array<Option<nat>>, idx: nat) returns (ops: seq<string>)
    requires dag.Acyclic() && FusionDone(dag, fusedInto)
    requires idx < |dag.nodes| && dag.nodes[idx].1.Transform? && Root(dag, idx) == idx
    ensures ops == ChainOperations(dag, idx)
  {
    ghost var all := ChainOperations(dag, idx);
    ops := [dag.nodes[idx].1.operation];
    var cur := idx;
    var fusedChild, tail := FindFusedChild(dag, fusedInto, idx, cur);
    while fusedChild.Some?
      invariant cur < |dag.nodes| && ChainTail(dag, idx, cur, fusedChild, tail)
      invariant all == ops + tail
      decreases |dag.nodes| - Rank(dag.Graph(), cur)
    {
      cur := fusedChild.value;
      ghost var rest := tail;
      var op := dag.nodes[cur].1.operation;
      ops := ops + [op];
      fusedChild, tail := FindFusedChild(dag, fusedInto, idx, cur);
      assert rest == [op] + tail;
    }
  }

  /** idxToStep points from every listed node to its place in surv, and from no other node. */
  ghost predicate StepIndex(idxToStep: array<Option<nat>>, surv: seq<nat>)
    reads idxToStep
  {
    forall i: nat :: i < idxToStep.Length ==> PointsInto(idxToStep[i], surv, i)
  }

  ghost predicate PointsInto(entry: Option<nat>, surv: seq<nat>, i: nat) {
    match entry
    case Some(j) => j < |surv| && surv[j] == i
    case None => i !in surv
  }

  /** Step j carries the id of the surviving node surv[j]. */
  ghost predicate StepsStandFor(dag: PipelineDag, steps: seq<ExecutionStep>, surv: seq<nat>)
    requires dag.Acyclic()
  {
    && |steps| == |surv|
    && Below(surv, |dag.nodes|)
    && forall j :: 0 <= j < |surv| ==> Survives(dag, surv[j]) && steps[j].nodeId == dag.nodes[surv[j]].0
  }

  /** The dependency a predecessor contributes: its own step, or the step of its root, or nothing. */
  method DependencyOf(dag: PipelineDag, fusedInto: array<Option<nat>>, idxToStep: array<Option<nat>>,
                      steps: seq<ExecutionStep>, p: nat, ghost surv: seq<nat>)
    returns (dep: Option<string>)
    requires dag.Acyclic() && FusionDone(dag, fusedInto) && idxToStep.Length == |dag.nodes| &&
      StepIndex(idxToStep, surv)
    requires StepsStandFor(dag, steps, surv)
    requires p < |dag.nodes| && (!Redundant(dag, p) ==> Resolve(dag, p) in surv)
    ensures dep == if Redundant(dag, p) then None else Some(dag.nodes[Resolve(dag, p)].0)
  {
    if idxToStep[p].Some? {
      return Some(steps[idxToStep[p].value].nodeId);
    }
    if !Redundant(dag, p) { ResolveIsRoot(dag, p); }
    var root: nat := p;
    while fusedInto[root].Some?
      invariant root < |dag.nodes| && Root(dag, root) == Root(dag, p)
      decreases if fusedInto[root].Some? then 1 else 0
    {
      root := fusedInto[root].value;
    }
    if idxToStep[root].Some? {
      dep := Some(steps[idxToStep[root].value].nodeId);
    } else {
      dep := None;
    }
  }

  /** The steps built from the first k nodes of the order, and where to find them. */
  ghost predicate BuiltUpTo(dag: PipelineDag, topo: seq<nat>, k: nat, idxToStep: array<Option<nat>>,
                            steps: seq<ExecutionStep>, surv: seq<nat>)
    requires dag.Acyclic() && TopoOrder(dag.Graph(), topo) && k <= |topo|
    reads idxToStep
  {
    && surv == Survivors(dag, topo[..k])
    && steps == BareSteps(dag, surv, Dropped)
    && idxToStep.Length == |dag.nodes|
    && StepIndex(idxToStep, surv)
  }

  lemma BuiltSkip(dag: PipelineDag, topo: seq<nat>, k: nat, idxToStep: array<Option<nat>>,
                  steps: seq<ExecutionStep>, surv: seq<nat>)
    requires dag.Acyclic() && TopoOrder(dag.Graph(), topo) && k < |topo| && !Survives(dag, topo[k])
    requires BuiltUpTo(dag, topo, k, idxToStep, steps, surv)
    ensures BuiltUpTo(dag, topo, k + 1, idxToStep, steps, surv)
  {
    SurvivorsStep(dag, topo, k);
  }

  method AddStep(dag: PipelineDag, topo: seq<nat>, k: nat, fusedInto: array<Option<nat>>,
                 idxToStep: array<Option<nat>>, before: seq<ExecutionStep>, ghost surv: seq<nat>)
    returns (steps: seq<ExecutionStep>)
    requires dag.Acyclic() && TopoOrder(dag.Graph(), topo) && k < |topo| && Survives(dag, topo[k])
    requires FusionDone(dag, fusedInto) && fusedInto != idxToStep
    requires BuiltUpTo(dag, topo, k, idxToStep, before, surv)
    modifies idxToStep
    ensures BuiltUpTo(dag, topo, k + 1, idxToStep, steps, surv + [topo[k]])
  {
    var idx := topo[k];
    var step := MakeStep(dag, topo, k, fusedInto, idxToStep, before, surv);
    SurvivorsStep(dag, topo, k);
    BareStepsAppend(dag, surv, idx);
    idxToStep[idx] := Some(|before|);
    steps := before + [step];
    assert StepIndex(idxToStep, surv + [idx]);
  }

  method BuildSteps(dag: PipelineDag, topo: seq<nat>, fusedInto: array<Option<nat>>, redundant: array<bool>)
    returns (steps: seq<ExecutionStep>)
    requires dag.Acyclic() && TopoOrder(dag.Graph(), topo)
    requires FusionDone(dag, fusedInto) && redundant.Length == |dag.nodes|
    requires forall i: nat :: i < |dag.nodes| ==> redundant[i] == Redundant(dag, i)
    ensures steps == BareSteps(dag, Survivors(dag, topo), Dropped)
  {
    var idxToStep: array<Option<nat>> := new Option<nat>[|dag.nodes|](_ => None);
    steps := [];
    ghost var surv: seq<nat> := [];
    for k := 0 to |topo|
      invariant BuiltUpTo(dag, topo, k, idxToStep, steps, surv)
    {
      var idx := topo[k];
      if fusedInto[idx].Some? || redundant[idx] {
        BuiltSkip(dag, topo, k, idxToStep, steps, surv);
        continue;
      }
      steps := AddStep(dag, topo, k, fusedInto, idxToStep, steps, surv);
      surv := surv + [idx];
    }
    assert topo[..|topo|] == topo;
  }

  method MakeStep(dag: PipelineDag, topo: seq<nat>, k: nat, fusedInto: array<Option<nat>>,
                  idxToStep: array<Option<nat>>, steps: seq<ExecutionStep>, ghost surv: seq<nat>)
    returns (step: ExecutionStep)
    requires dag.Acyclic() && TopoOrder(dag.Graph(), topo) && k < |topo| && Survives(dag, topo[k])
    requires FusionDone(dag, fusedInto) && idxToStep.Length == |dag.nodes| && StepIndex(idxToStep, surv)
    requires surv == Survivors(dag, topo[..k]) && steps == BareSteps(dag, surv, Dropped)
    ensures step == BareStep(dag, topo[k], Dropped)
  {
    var idx := topo[k];
    var nodeType := Single(dag.nodes[idx].1);
    if dag.nodes[idx].1.Transform? {
      var ops := CollectOperations(dag, fusedInto, idx);
      if |ops| > 1 { nodeType := Fused(ops); }
    }
    var depIds := CollectDependencies(dag, topo, k, fusedInto, idxToStep, steps, surv);
    step := ExecutionStep(dag.nodes[idx].0, nodeType, depIds, []);
  }

  lemma SurvivorsStep(dag: PipelineDag, topo: seq<nat>, k: nat)
    requires dag.EdgesInRange() && Below(topo, |dag.nodes|) && Distinct(topo) && k < |topo|
    ensures Survivors(dag, topo[..k + 1]) ==
      Survivors(dag, topo[..k]) + if Survives(dag, topo[k]) then [topo[k]] else []
    ensures topo[k] !in Survivors(dag, topo[..k])
  {
    assert topo[..k + 1][..k] == topo[..k];
    assert topo[k] !in topo[..k];
  }

  lemma BareStepsAppend(dag: PipelineDag, surv: seq<nat>, idx: nat)
    requires dag.Acyclic() && Below(surv, |dag.nodes|) && idx < |dag.nodes|
    ensures BareSteps(dag, surv + [idx], Dropped) == BareSteps(dag, surv, Dropped) + [BareStep(dag, idx, Dropped)]
  {
  }

  lemma DepNamesStep(dag: PipelineDag, preds: seq<nat>, i: nat)
    requires dag.Acyclic() && Below(preds, |dag.nodes|) && i < |preds|
    ensures Names(dag, DepNodes(dag, preds[..i + 1], Dropped)) ==
      Names(dag, DepNodes(dag, preds[..i], Dropped)) +
      if Redundant(dag, preds[i]) then [] else [dag.nodes[Resolve(dag, preds[i])].0]
  {
    assert preds[..i + 1][..i] == preds[..i];
  }

  method CollectDependencies(dag: PipelineDag, topo: seq<nat>, k: nat, fusedInto: array<Option<nat>>,
                             idxToStep: array<Option<nat>>, steps: seq<ExecutionStep>, ghost surv: seq<nat>)
    returns (depIds: seq<string>)
    requires dag.Acyclic() && TopoOrder(dag.Graph(), topo) && k < |topo|
    requires FusionDone(dag, fusedInto) && idxToStep.Length == |dag.nodes| && StepIndex(idxToStep, surv)
    requires surv == Survivors(dag, topo[..k]) && steps == BareSteps(dag, surv, Dropped)
    ensures Below(dag.Predecessors(topo[k]), |dag.nodes|)
    ensures depIds == Names(dag, DepNodes(dag, dag.Predecessors(topo[k]), Dropped))
  {
    var preds := dag.Predecessors(topo[k]);
    PredecessorsInRange(dag, topo[k]);
    assert StepsStandFor(dag, steps, surv) by {
      forall j | 0 <= j < |surv| ensures Survives(dag, surv[j]) { assert surv[j] in surv; }
    }
    depIds := [];
    for i := 0 to |preds|
      invariant depIds == Names(dag, DepNodes(dag, preds[..i], Dropped))
    {
      DepNamesStep(dag, preds, i);
      if !Redundant(dag, preds[i]) { PredecessorIsBuilt(dag, topo, k, preds[i]); }
      var dep := DependencyOf(dag, fusedInto, idxToStep, steps, preds[i], surv);
      if dep.Some? { depIds := depIds + [dep.value]; }
    }
    assert preds[..|preds|] == preds;
  }

  lemma PredecessorIsBuilt(dag: PipelineDag, topo: seq<nat>, k: nat, p: nat)
    requires dag.Acyclic() && TopoPrefix(dag.Graph(), topo) && k < |topo|
    requires p in dag.Predecessors(topo[k])
    ensures p < |dag.nodes| && Resolve(dag, p) in Survivors(dag, topo[..k])
  {
    ResolvedPredecessorIsEarlier(dag, topo, k, p);
  }

  // ----- rebuilding the tiers -----

  /** ps are the places of the named steps, all before si. */
  ghost predicate FoundEarlier(ids: seq<string>, names: seq<string>, ps: seq<nat>, si: nat) {
    && |ps| == |names|
    && forall k: nat {:trigger FoundAt(ids, names, ps, k)} :: k < |names| ==> FoundAt(ids, names, ps, k) && ps[k] < si
  }

  predicate FoundAt(ids: seq<string>, names: seq<string>, ps: seq<nat>, k: nat)
    requires |ps| == |names| && k < |names|
  {
    names[k] in ids && IndexOf(ids, names[k]) == ps[k]
  }

  /** The tiers of a step's dependencies. */
  method DependencyTiers(ids: seq<string>, deps: seq<string>, stepTier: array<nat>, si: nat, ghost ps: seq<nat>)
    returns (depTiers: seq<nat>)
    requires FoundEarlier(ids, deps, ps, si) && si < |ids| == stepTier.Length
    ensures |depTiers| == |ps| && forall k :: 0 <= k < |ps| ==> ps[k] < si && depTiers[k] == stepTier[ps[k]]
  {
    depTiers := [];
    for k := 0 to |deps|
      invariant |depTiers| == k
      invariant forall j :: 0 <= j < k ==> ps[j] < si && depTiers[j] == stepTier[ps[j]]
    {
      assert FoundAt(ids, deps, ps, k);
      depTiers := depTiers + [stepTier[IndexOf(ids, deps[k])]];
    }
  }

  /** The tier just after the latest tier of a step's dependencies. */
  method TierOf(steps: seq<ExecutionStep>, si: nat, stepTier: array<nat>) returns (tier: nat)
    requires DependsBackwards(steps) && Dag(StepGraph(steps)) && si < |steps| == stepTier.Length
    requires forall j: nat :: j < si ==> stepTier[j] == Depth(StepGraph(steps), j)
    ensures tier == Depth(StepGraph(steps), si)
  {
    ghost var g, ps := StepGraph(steps), StepGraph(steps)[si];
    DependenciesFound(steps, si);
    var depTiers := DependencyTiers(StepIds(steps), steps[si].dependencies, stepTier, si, ps);
    DepthOfInputs(g, si, depTiers);
    tier := MaxPlusOne(depTiers);
  }

  method StepTiers(steps: seq<ExecutionStep>) returns (stepTier: array<nat>)
    requires DependsBackwards(steps) && Dag(StepGraph(steps))
    ensures fresh(stepTier) && stepTier.Length == |steps|
    ensures forall si: nat :: si < |steps| ==> stepTier[si] == Depth(StepGraph(steps), si)
  {
    stepTier := new nat[|steps|](_ => 0);
    for si := 0 to |steps|
      invariant forall j: nat :: j < si ==> stepTier[j] == Depth(StepGraph(steps), j)
    {
      var tier := TierOf(steps, si, stepTier);
      stepTier[si] := tier;
    }
  }

  lemma DependenciesFound(steps: seq<ExecutionStep>, j: nat)
    requires DependsBackwards(steps) && j < |steps|
    ensures FoundEarlier(StepIds(steps), steps[j].dependencies, StepGraph(steps)[j], j)
  {
    var ids, deps, ps := StepIds(steps), steps[j].dependencies, StepGraph(steps)[j];
    DependencyPositions(steps, j);
    forall k: nat | k < |deps| ensures FoundAt(ids, deps, ps, k) {
      assert deps[k] in ids;
    }
  }

  /** The indices of the steps of tier t, in order. */
  method TierGroup(stepTier: array<nat>, t: nat) returns (group: seq<nat>)
    ensures StrictlyAscending(group) && Below(group, stepTier.Length)
    ensures forall si: nat :: si in group <==> si < stepTier.Length && stepTier[si] == t
  {
    group := [];
    for si := 0 to stepTier.Length
      invariant StrictlyAscending(group) && Below(group, si)
      invariant forall i: nat :: i in group <==> i < si && stepTier[i] == t
    {
      if stepTier[si] == t { group := group + [si]; }
    }
  }

  method TierGroups(g: Graph, stepTier: array<nat>) returns (groups: seq<seq<nat>>)
    requires Dag(g) && stepTier.Length == |g|
    requires forall si: nat :: si < |g| ==> stepTier[si] == Depth(g, si)
    ensures groups == Layers(g)
  {
    var tierCount := MaxPlusOne(stepTier[..]);
    assert tierCount == Height(g) by {
      assert stepTier[..] == seq(|g|, v requires 0 <= v < |g| => Depth(g, v));
    }
    var maxTier := if tierCount == 0 then 0 else tierCount - 1;
    groups := [];
    ghost var layers := Layers(g);
    for t := 0 to maxTier + 1
      invariant groups == layers[..if t < tierCount then t else tierCount]
    {
      var group := TierGroup(stepTier, t);
      GroupIsLayer(g, group, t);
      groups := AppendTier(groups, group, layers, t);
    }
  }

  /** Adds a tier unless it is empty. */
  method AppendTier(before: seq<seq<nat>>, group: seq<nat>, ghost layers: seq<seq<nat>>, ghost t: nat)
    returns (groups: seq<seq<nat>>)
    requires before == layers[..if t < |layers| then t else |layers|]
    requires if t < |layers| then layers[t] == group && group != [] else group == []
    ensures groups == layers[..if t + 1 < |layers| then t + 1 else |layers|]
  {
    groups := before;
    if group != [] {
      groups := before + [group];
    }
  }

  lemma GroupIsLayer(g: Graph, group: seq<nat>, t: nat)
    requires Dag(g) && StrictlyAscending(group)
    requires forall si: nat :: si in group <==> si < |g| && Depth(g, si) == t
    ensures group == Layer(g, t)
    ensures t < Height(g) ==> Layers(g)[t] == group && group != []
    ensures t >= Height(g) ==> group == []
  {
    forall x ensures x in group <==> x in Layer(g, t) {
      if x >= 0 { LayerMembers(g, t, x); }
    }
    AscendingUnique(group, Layer(g, t));
    LayersPartition(g);
    assert group != [] ==> group[0] in group;
  }

  // ----- naming the peers of every step -----

  /** The entries of tiers before t and the listed ones are final; the others are untouched. */
  ghost predicate FilledUpTo<T>(bare: seq<T>, final: seq<T>, tierOf: seq<nat>, steps: seq<T>, t: nat, seen: seq<nat>) {
    && |steps| == |bare| == |final| == |tierOf|
    && forall si: nat :: si < |bare| ==>
      steps[si] == if tierOf[si] < t || si in seen then final[si] else bare[si]
  }

  lemma FillOne<T>(bare: seq<T>, final: seq<T>, tierOf: seq<nat>, steps: seq<T>, t: nat, group: seq<nat>, k: nat)
    requires k < |group| && group[k] < |bare|
    requires FilledUpTo(bare, final, tierOf, steps, t, group[..k])
    ensures FilledUpTo(bare, final, tierOf, steps[group[k] := final[group[k]]], t, group[..k + 1])
  {
    assert group[..k + 1] == group[..k] + [group[k]];
  }

  lemma FillTier<T>(bare: seq<T>, final: seq<T>, tierOf: seq<nat>, steps: seq<T>, t: nat, group: seq<nat>)
    requires FilledUpTo(bare, final, tierOf, steps, t, group)
    requires forall si: nat :: si < |tierOf| ==> (si in group <==> tierOf[si] == t)
    ensures FilledUpTo(bare, final, tierOf, steps, t + 1, [])
  {
  }

  /** final carries the peers of every member of the group, and the ids of bare. */
  ghost predicate FinalOnGroup(bare: seq<ExecutionStep>, final: seq<ExecutionStep>, ids: seq<string>, group: seq<nat>) {
    && |final| == |bare| == |ids|
    && Below(group, |bare|)
    && (forall i: nat :: i < |bare| ==> bare[i].nodeId == ids[i] && final[i].nodeId == ids[i])
    && forall k :: 0 <= k < |group| ==>
         final[group[k]] == bare[group[k]].(canParallelWith := Peers(ids, group, group[k]))
  }

  lemma ScheduledOnGroup(bare: seq<ExecutionStep>, t: nat)
    requires DependsBackwards(bare) && Dag(StepGraph(bare))
    ensures FinalOnGroup(bare, Scheduled(bare).steps, StepIds(bare), Layer(StepGraph(bare), t))
  {
    ScheduledKeepsGraph(bare);
    var final, group := Scheduled(bare).steps, Layer(StepGraph(bare), t);
    forall i: nat | i < |bare| ensures final[i].nodeId == StepIds(bare)[i] {
      assert StepIds(final)[i] == final[i].nodeId;
    }
    forall k | 0 <= k < |group|
      ensures final[group[k]] == bare[group[k]].(canParallelWith := Peers(StepIds(bare), group, group[k]))
    {
      assert group[k] in group;
      LayerMembers(StepGraph(bare), t, group[k]);
    }
  }

  method FillGroup(before: seq<ExecutionStep>, t: nat, group: seq<nat>,
                   ghost bare: seq<ExecutionStep>, ghost final: seq<ExecutionStep>, ghost tierOf: seq<nat>)
    returns (steps: seq<ExecutionStep>)
    requires FinalOnGroup(bare, final, StepIds(bare), group) && Distinct(group)
    requires |tierOf| == |bare| && forall si: nat :: si < |tierOf| ==> (si in group <==> tierOf[si] == t)
    requires FilledUpTo(bare, final, tierOf, before, t, [])
    ensures FilledUpTo(bare, final, tierOf, steps, t + 1, [])
  {
    steps := before;
    for k := 0 to |group|
      invariant FilledUpTo(bare, final, tierOf, steps, t, group[..k])
    {
      var si := group[k];
      assert si in group && si !in group[..k];
      assert StepIds(steps) == StepIds(bare);
      FillOne(bare, final, tierOf, steps, t, group, k);
      steps := steps[si := steps[si].(canParallelWith := Peers(StepIds(steps), group, si))];
    }
    assert group[..|group|] == group;
    FillTier(bare, final, tierOf, steps, t, group);
  }

  /** What filling the groups one after the other needs to know of them. */
  ghost predicate GroupsFor(bare: seq<ExecutionStep>, final: seq<ExecutionStep>, tierOf: seq<nat>,
                            groups: seq<seq<nat>>) {
    && |tierOf| == |bare| == |final|
    && (forall t :: 0 <= t < |groups| ==> GroupAt(bare, final, tierOf, groups[t], t))
    && forall si: nat :: si < |bare| ==> tierOf[si] < |groups|
  }

  ghost predicate GroupAt(bare: seq<ExecutionStep>, final: seq<ExecutionStep>, tierOf: seq<nat>, group: seq<nat>,
                          t: nat) {
    && FinalOnGroup(bare, final, StepIds(bare), group)
    && Distinct(group)
    && forall si: nat :: si < |tierOf| ==> (si in group <==> tierOf[si] == t)
  }

  lemma LayersAreGroups(bare: seq<ExecutionStep>)
    requires DependsBackwards(bare) && Dag(StepGraph(bare))
    ensures GroupsFor(bare, Scheduled(bare).steps, DepthTable(StepGraph(bare)), Layers(StepGraph(bare)))
  {
    var g := StepGraph(bare);
    LayersPartition(g);
    forall t | 0 <= t < |Layers(g)| ensures GroupAt(bare, Scheduled(bare).steps, DepthTable(g), Layers(g)[t], t) {
      ScheduledOnGroup(bare, t);
      assert Layers(g)[t] == Layer(g, t);
      forall si: nat | si < |bare| ensures si in Layer(g, t) <==> DepthTable(g)[si] == t { LayerMembers(g, t, si); }
    }
    forall si: nat | si < |bare| ensures DepthTable(g)[si] < |Layers(g)| { assert Depth(g, si) < |Layers(g)|; }
  }

  method FillParallel(bare: seq<ExecutionStep>, groups: seq<seq<nat>>, ghost tierOf: seq<nat>,
                      ghost final: seq<ExecutionStep>)
    returns (steps: seq<ExecutionStep>)
    requires GroupsFor(bare, final, tierOf, groups)
    ensures steps == final
  {
    steps := bare;
    for t := 0 to |groups|
      invariant FilledUpTo(bare, final, tierOf, steps, t, [])
    {
      assert GroupAt(bare, final, tierOf, groups[t], t);
      steps := FillGroup(steps, t, groups[t], bare, final, tierOf);
    }
  }

  /** Adds tiers and peers to the bare steps. */
  method Schedule(bare: seq<ExecutionStep>) returns (plan: CompiledPlan)
    requires DependsBackwards(bare)
    ensures plan == Scheduled(bare)
  {
    BackwardStepsAcyclic(bare);
    var stepTier := StepTiers(bare);
    var groups := TierGroups(StepGraph(bare), stepTier);
    LayersAreGroups(bare);
    var steps := FillParallel(bare, groups, DepthTable(StepGraph(bare)), Scheduled(bare).steps);
    plan := CompiledPlan(steps, groups);
  }

  // ----- the whole compiler -----

  method Compile(dag: PipelineDag) returns (r: Result<CompiledPlan, DagError>)
    requires dag.EdgesInRange()
    ensures r.Err? <==> Cyclic(dag.Graph())
    ensures r.Err? ==> r.error == CycleDetected
    ensures r.Ok? ==> dag.Acyclic() && r.value == PlanOf(dag, Dropped)
  {
    GraphInRange(dag);
    if |dag.nodes| == 0 {
      EmptyPlan(dag);
      return Ok(CompiledPlan([], []));
    }
    var topo, tiers := Kahn.LayeredSort(dag);
    if |topo| != |dag.nodes| {
      return Err(CycleDetected);
    }
    LayeredOrderIsTopological(dag.Graph());
    var fusedInto := FuseTransforms(dag, topo);
    var redundant := MarkRedundant(dag, topo);
    var bare := BuildSteps(dag, topo, fusedInto, redundant);
    assert bare == Lowered(dag, Dropped);
    var plan := Schedule(bare);
    return Ok(plan);
  }

  lemma EmptyPlan(dag: PipelineDag)
    requires dag.EdgesInRange() && |dag.nodes| == 0
    ensures dag.Acyclic() && PlanOf(dag, Dropped) == CompiledPlan([], [])
  {
    GraphInRange(dag);
    assert TopoOrder(dag.Graph(), []);
    TopoOrderAcyclic(dag.Graph(), []);
    var surv := StepNodes(dag);
    HeadIsMember(surv);
    var steps := Lowered(dag, Dropped);
    BackwardStepsAcyclic(steps);
    HeightBounds(StepGraph(steps));
  }
}
