/** Which nodes the compiler absorbs or drops, stated on the DAG alone
    (crates/vil_ai_compiler/src/compiler.rs, optimisations 3 and 4). */
module Fusion {
  import opened Wrappers
  import opened Seqs
  import opened Graphs
  import opened Pipeline

  /** A Transform whose only predecessor is a Transform with no other successor. */
  predicate Absorbed(dag: PipelineDag, i: nat)
    requires dag.EdgesInRange() && i < |dag.nodes|
  {
    var preds := dag.Predecessors(i);
    && dag.nodes[i].1.Transform?
    && |preds| == 1
    && preds[0] < |dag.nodes|
    && dag.nodes[preds[0]].1.Transform?
    && |dag.Successors(preds[0])| == 1
  }

  /** A Cache whose only predecessor is a Cache with the same key. */
  predicate Redundant(dag: PipelineDag, i: nat)
    requires dag.EdgesInRange() && i < |dag.nodes|
  {
    var preds := dag.Predecessors(i);
    && dag.nodes[i].1.Cache?
    && |preds| == 1
    && preds[0] < |dag.nodes|
    && dag.nodes[preds[0]].1.Cache?
    && dag.nodes[preds[0]].1.keyExpr == dag.nodes[i].1.keyExpr
  }

  predicate Survives(dag: PipelineDag, i: nat)
    requires dag.EdgesInRange() && i < |dag.nodes|
  {
    !Absorbed(dag, i) && !Redundant(dag, i)
  }

  lemma SolePredecessor(dag: PipelineDag, i: nat)
    requires dag.Acyclic() && i < |dag.nodes|
    requires !Survives(dag, i)
    ensures dag.Predecessors(i) == [dag.Predecessors(i)[0]]
    ensures Edge(dag.Graph(), dag.Predecessors(i)[0], i)
    ensures Dag(dag.Graph()) && Rank(dag.Graph(), dag.Predecessors(i)[0]) < Rank(dag.Graph(), i)
  {
    var p := dag.Predecessors(i)[0];
    assert p in dag.Graph()[i];
    EdgeRaisesRank(dag.Graph(), p, i);
  }

  /** The head of the fused chain node i belongs to; i itself when it is not absorbed. */
  ghost function Root(dag: PipelineDag, i: nat): (r: nat)
    requires dag.Acyclic() && i < |dag.nodes|
    ensures r < |dag.nodes| && !Absorbed(dag, r)
    ensures dag.nodes[i].1.Transform? ==> dag.nodes[r].1.Transform?
    ensures !dag.nodes[i].1.Transform? ==> r == i
    decreases Rank(dag.Graph(), i)
  {
    if Absorbed(dag, i) then (SolePredecessor(dag, i); Root(dag, dag.Predecessors(i)[0])) else i
  }

  /** The node absorbed directly after i, if there is one. */
  function FuseNext(dag: PipelineDag, i: nat): (next: Option<nat>)
    requires dag.EdgesInRange() && i < |dag.nodes|
  {
    var succs := dag.Successors(i);
    if |succs| == 1 && succs[0] < |dag.nodes| && Absorbed(dag, succs[0]) then Some(succs[0]) else None
  }

  lemma SuccessorsInRange(dag: PipelineDag, i: nat, c: nat)
    requires dag.EdgesInRange() && c in dag.Successors(i)
    ensures c < |dag.nodes| && i in dag.Predecessors(c)
  {
    TargetsMembers(dag.edges, i, c);
    SourcesMembers(dag.edges, i, c);
  }

  /** c follows i in a chain exactly when c is absorbed and i is its predecessor. */
  lemma FuseNextIsAbsorbed(dag: PipelineDag, i: nat, c: nat)
    requires dag.Acyclic() && i < |dag.nodes| && c < |dag.nodes|
    ensures FuseNext(dag, i) == Some(c) <==> Absorbed(dag, c) && dag.Predecessors(c) == [i]
  {
    TargetsMembers(dag.edges, i, c);
    SourcesMembers(dag.edges, i, c);
    if FuseNext(dag, i) == Some(c) {
      assert c in dag.Successors(i);
      assert i in dag.Predecessors(c);
    }
    if Absorbed(dag, c) && dag.Predecessors(c) == [i] {
      assert i in dag.Predecessors(c);
      assert c in dag.Successors(i);
    }
  }

  /** Node i and everything absorbed after it, in order. */
  ghost function Chain(dag: PipelineDag, i: nat): (chain: seq<nat>)
    requires dag.Acyclic() && i < |dag.nodes|
    ensures chain != [] && chain[0] == i && Below(chain, |dag.nodes|)
    decreases |dag.nodes| - Rank(dag.Graph(), i)
  {
    match FuseNext(dag, i)
    case None => [i]
    case Some(c) =>
      FuseNextIsAbsorbed(dag, i, c);
      SolePredecessor(dag, c);
      [i] + Chain(dag, c)
  }

  ghost function ChainEnd(dag: PipelineDag, i: nat): nat
    requires dag.Acyclic() && i < |dag.nodes|
  {
    Chain(dag, i)[|Chain(dag, i)| - 1]
  }

  /** The operations of a run of Transform nodes. */
  ghost function Operations(dag: PipelineDag, chain: seq<nat>): (ops: seq<string>)
    requires Below(chain, |dag.nodes|)
    ensures |ops| <= |chain|
  {
    if chain == [] then [] else
    var node := dag.nodes[chain[0]].1;
    (if node.Transform? then [node.operation] else []) + Operations(dag, chain[1..])
  }

  /** The operations of the chain that starts at i. */
  ghost function ChainOperations(dag: PipelineDag, i: nat): seq<string>
    requires dag.Acyclic() && i < |dag.nodes|
  {
    Operations(dag, Chain(dag, i))
  }

  lemma ChainOperationsUnfold(dag: PipelineDag, i: nat)
    requires dag.Acyclic() && i < |dag.nodes| && dag.nodes[i].1.Transform?
    ensures FuseNext(dag, i) == None ==> ChainOperations(dag, i) == [dag.nodes[i].1.operation]
    ensures FuseNext(dag, i).Some? ==>
      ChainOperations(dag, i) == [dag.nodes[i].1.operation] + ChainOperations(dag, FuseNext(dag, i).value)
  {
    ChainUnfold(dag, i);
    if FuseNext(dag, i).Some? {
      assert Chain(dag, i)[1..] == Chain(dag, FuseNext(dag, i).value);
    }
  }

  /** c is absorbed and p is its predecessor. */
  ghost predicate Follows(dag: PipelineDag, p: nat, c: nat)
    requires dag.EdgesInRange() && c < |dag.nodes|
  {
    Absorbed(dag, c) && dag.Predecessors(c) == [p]
  }

  lemma ChainUnfold(dag: PipelineDag, i: nat)
    requires dag.Acyclic() && i < |dag.nodes|
    ensures FuseNext(dag, i) == None ==> Chain(dag, i) == [i]
    ensures FuseNext(dag, i).Some? ==> var c := FuseNext(dag, i).value;
      && c < |dag.nodes| && Chain(dag, i) == [i] + Chain(dag, c) && Follows(dag, i, c)
      && Rank(dag.Graph(), i) < Rank(dag.Graph(), c) && Root(dag, c) == Root(dag, i)
      && ChainEnd(dag, i) == ChainEnd(dag, c)
  {
    if FuseNext(dag, i).Some? {
      var c := FuseNext(dag, i).value;
      FuseNextIsAbsorbed(dag, i, c);
      SolePredecessor(dag, c);
    }
  }

  /** Everything in a chain after its head is absorbed, with the chain's previous node as predecessor. */
  lemma {:induction false} ChainIsLinked(dag: PipelineDag, i: nat)
    requires dag.Acyclic() && i < |dag.nodes|
    ensures forall k :: 0 < k < |Chain(dag, i)| ==> Follows(dag, Chain(dag, i)[k - 1], Chain(dag, i)[k])
    decreases |dag.nodes| - Rank(dag.Graph(), i)
  {
    ChainUnfold(dag, i);
    if FuseNext(dag, i).Some? {
      var c := FuseNext(dag, i).value;
      ChainIsLinked(dag, c);
      var chain, rest := Chain(dag, i), Chain(dag, c);
      forall k | 0 < k < |chain| ensures Follows(dag, chain[k - 1], chain[k]) {
        if k > 1 { assert Follows(dag, rest[k - 2], rest[k - 1]); }
      }
    }
  }

  lemma {:induction false} ChainSharesRoot(dag: PipelineDag, i: nat, x: nat)
    requires dag.Acyclic() && i < |dag.nodes| && x in Chain(dag, i)
    ensures x < |dag.nodes| && Root(dag, x) == Root(dag, i)
    decreases |dag.nodes| - Rank(dag.Graph(), i)
  {
    ChainUnfold(dag, i);
    if x != i { ChainSharesRoot(dag, FuseNext(dag, i).value, x); }
  }

  /** Every node lies on the chain of its root, and on no other root's chain. */
  lemma {:induction false} NodeOnItsRootsChain(dag: PipelineDag, i: nat)
    requires dag.Acyclic() && i < |dag.nodes|
    ensures i in Chain(dag, Root(dag, i))
    ensures forall r: nat :: r < |dag.nodes| && !Absorbed(dag, r) && i in Chain(dag, r) ==> r == Root(dag, i)
    decreases Rank(dag.Graph(), i)
  {
    if Absorbed(dag, i) {
      var p := dag.Predecessors(i)[0];
      SolePredecessor(dag, i);
      NodeOnItsRootsChain(dag, p);
      FuseNextIsAbsorbed(dag, p, i);
      ChainStepsForward(dag, Root(dag, i), p, i);
    }
    forall r: nat | r < |dag.nodes| && !Absorbed(dag, r) && i in Chain(dag, r) ensures r == Root(dag, i) {
      ChainSharesRoot(dag, r, i);
    }
  }

  lemma {:induction false} ChainStepsForward(dag: PipelineDag, r: nat, p: nat, c: nat)
    requires dag.Acyclic() && r < |dag.nodes| && p < |dag.nodes| && FuseNext(dag, p) == Some(c)
    requires p in Chain(dag, r)
    ensures c in Chain(dag, r)
    decreases |dag.nodes| - Rank(dag.Graph(), r)
  {
    ChainUnfold(dag, r);
    if r != p {
      ChainStepsForward(dag, FuseNext(dag, r).value, p, c);
    } else {
      assert Chain(dag, c)[0] in Chain(dag, c);
    }
  }

  /** The head of a chain survives unless the node was dropped as redundant. */
  lemma RootSurvives(dag: PipelineDag, i: nat)
    requires dag.Acyclic() && i < |dag.nodes| && !Redundant(dag, i)
    ensures Survives(dag, Root(dag, i))
  {
  }

  lemma NoFuseFromOther(dag: PipelineDag, idx: nat)
    requires dag.Acyclic() && idx < |dag.nodes| && !dag.nodes[idx].1.Transform?
    ensures FuseNext(dag, idx) == None
  {
    if FuseNext(dag, idx).Some? { FuseNextIsAbsorbed(dag, idx, FuseNext(dag, idx).value); }
  }

  /** A chain ends at its only member without a follower. */
  lemma {:induction false} ChainEndIsUnfused(dag: PipelineDag, r: nat, p: nat)
    requires dag.Acyclic() && r < |dag.nodes| && p < |dag.nodes|
    requires p in Chain(dag, r) && FuseNext(dag, p) == None
    ensures ChainEnd(dag, r) == p
    decreases |dag.nodes| - Rank(dag.Graph(), r)
  {
    ChainUnfold(dag, r);
    if FuseNext(dag, r).Some? { ChainEndIsUnfused(dag, FuseNext(dag, r).value, p); }
  }

  /** A predecessor of a node that was not absorbed ends its chain. */
  lemma PredecessorEndsChain(dag: PipelineDag, p: nat, i: nat)
    requires dag.Acyclic() && i < |dag.nodes| && p in dag.Predecessors(i) && !Absorbed(dag, i)
    ensures p < |dag.nodes| && FuseNext(dag, p) == None
  {
    EdgeBothWays(dag, p, i);
    assert p in dag.Graph()[i];
    assert i in dag.Successors(p);
  }
}
