/** Fusion conserves the Transform operations of the DAG (crates/vil_ai_compiler/src/compiler.rs:107-121, 154-181). */
module Conservation {
  import opened Seqs
  import opened Graphs
  import opened Pipeline
  import opened Fusion
  import opened Plan
  import opened Lowering

  /** The Transform operations a step carries, in order. */
  function StepOperations(body: StepBody): seq<string> {
    match body
    case Single(node) => if node.Transform? then [node.operation] else []
    case Fused(ops) => ops
  }

  function AllStepOperations(steps: seq<ExecutionStep>): seq<string> {
    if steps == [] then [] else
    AllStepOperations(steps[..|steps| - 1]) + StepOperations(steps[|steps| - 1].nodeType)
  }

  /** A step carries exactly the operations of its node's chain, in chain order. */
  lemma BodyCarriesChain(dag: PipelineDag, i: nat)
    requires dag.Acyclic() && i < |dag.nodes|
    ensures StepOperations(BodyOf(dag, i)) == ChainOperations(dag, i)
  {
    ChainUnfold(dag, i);
    if dag.nodes[i].1.Transform? {
      ChainOperationsUnfold(dag, i);
    } else {
      NoFuseFromOther(dag, i);
      assert Chain(dag, i)[1..] == [];
    }
  }

  /** The chains of the surviving nodes, one after the other. */
  ghost function AllChains(dag: PipelineDag, surv: seq<nat>): (all: seq<nat>)
    requires dag.Acyclic() && Below(surv, |dag.nodes|)
    ensures Below(all, |dag.nodes|)
  {
    if surv == [] then [] else
    AllChains(dag, surv[..|surv| - 1]) + Chain(dag, surv[|surv| - 1])
  }

  lemma {:induction false} AllChainsMembers(dag: PipelineDag, surv: seq<nat>, x: nat)
    requires dag.Acyclic() && Below(surv, |dag.nodes|)
    requires forall r: nat :: r in surv ==> r < |dag.nodes| && Survives(dag, r)
    ensures x in AllChains(dag, surv) <==> x < |dag.nodes| && !Redundant(dag, x) && Root(dag, x) in surv
  {
    if surv != [] {
      var m := |surv| - 1;
      var r := surv[m];
      assert r in surv;
      forall r': nat | r' in surv[..m] ensures r' < |dag.nodes| && Survives(dag, r') { assert r' in surv; }
      AllChainsMembers(dag, surv[..m], x);
      assert surv == surv[..m] + [r];
      ChainMembers(dag, r, x);
    }
  }

  /** The chain of a survivor holds the nodes rooted in it. */
  lemma ChainMembers(dag: PipelineDag, r: nat, x: nat)
    requires dag.Acyclic() && r < |dag.nodes| && Survives(dag, r)
    ensures x in Chain(dag, r) <==> x < |dag.nodes| && !Redundant(dag, x) && Root(dag, x) == r
  {
    if x in Chain(dag, r) {
      ChainSharesRoot(dag, r, x);
    }
    if x < |dag.nodes| && Root(dag, x) == r { NodeOnItsRootsChain(dag, x); }
  }

  lemma {:induction false} ChainClimbs(dag: PipelineDag, i: nat, x: nat)
    requires dag.Acyclic() && i < |dag.nodes| && x in Chain(dag, i)
    ensures x < |dag.nodes| && Rank(dag.Graph(), x) >= Rank(dag.Graph(), i)
    decreases |dag.nodes| - Rank(dag.Graph(), i)
  {
    ChainUnfold(dag, i);
    if x != i { ChainClimbs(dag, FuseNext(dag, i).value, x); }
  }

  lemma {:induction false} ChainDistinct(dag: PipelineDag, i: nat)
    requires dag.Acyclic() && i < |dag.nodes|
    ensures Distinct(Chain(dag, i))
    decreases |dag.nodes| - Rank(dag.Graph(), i)
  {
    ChainUnfold(dag, i);
    if FuseNext(dag, i).Some? {
      var c := FuseNext(dag, i).value;
      ChainDistinct(dag, c);
      forall x | x in Chain(dag, c) ensures x !in [i] { ChainClimbs(dag, c, x); }
      DistinctConcat([i], Chain(dag, c));
    }
  }

  lemma {:induction false} AllChainsDistinct(dag: PipelineDag, surv: seq<nat>)
    requires dag.Acyclic() && Below(surv, |dag.nodes|) && Distinct(surv)
    requires forall r: nat :: r in surv ==> r < |dag.nodes| && Survives(dag, r)
    ensures Distinct(AllChains(dag, surv))
  {
    if surv != [] {
      var m := |surv| - 1;
      var r := surv[m];
      assert r in surv && r !in surv[..m];
      forall r': nat | r' in surv[..m] ensures r' < |dag.nodes| && Survives(dag, r') { assert r' in surv; }
      AllChainsDistinct(dag, surv[..m]);
      ChainDistinct(dag, r);
      forall x | x in Chain(dag, r) ensures x !in AllChains(dag, surv[..m]) {
        ChainMembers(dag, r, x);
        AllChainsMembers(dag, surv[..m], x);
      }
      DistinctConcat(AllChains(dag, surv[..m]), Chain(dag, r));
    }
  }

  /** Chains partition the DAG: every node except the redundant caches occurs in exactly one step, exactly once. */
  lemma ChainsPartition(dag: PipelineDag)
    requires dag.Acyclic()
    ensures Distinct(AllChains(dag, StepNodes(dag)))
    ensures forall x: nat :: x in AllChains(dag, StepNodes(dag)) <==> x < |dag.nodes| && !Redundant(dag, x)
  {
    var surv := StepNodes(dag);
    AllChainsDistinct(dag, surv);
    forall x: nat ensures x in AllChains(dag, surv) <==> x < |dag.nodes| && !Redundant(dag, x) {
      AllChainsMembers(dag, surv, x);
      if x < |dag.nodes| && !Redundant(dag, x) { RootSurvives(dag, x); }
    }
  }

  // ----- operations as multisets -----

  lemma {:induction false} OperationsConcat(dag: PipelineDag, a: seq<nat>, b: seq<nat>)
    requires Below(a, |dag.nodes|) && Below(b, |dag.nodes|) && Below(a + b, |dag.nodes|)
    ensures Operations(dag, a + b) == Operations(dag, a) + Operations(dag, b)
  {
    if a == [] {
      assert a + b == b;
    } else {
      assert (a + b)[1..] == a[1..] + b;
      OperationsConcat(dag, a[1..], b);
    }
  }

  lemma {:induction false} StepsCarryAllChains(dag: PipelineDag, surv: seq<nat>, mode: CacheDependency)
    requires dag.Acyclic() && Below(surv, |dag.nodes|)
    ensures AllStepOperations(BareSteps(dag, surv, mode)) == Operations(dag, AllChains(dag, surv))
  {
    if surv != [] {
      var m := |surv| - 1;
      var front, last := surv[..m], surv[m];
      StepsCarryAllChains(dag, front, mode);
      StepOperationsLast(BareSteps(dag, surv, mode), BareSteps(dag, front, mode), BareStep(dag, last, mode));
      BodyCarriesChain(dag, last);
      ChainsLast(dag, surv, front, last);
    }
  }

  lemma ChainsLast(dag: PipelineDag, surv: seq<nat>, front: seq<nat>, last: nat)
    requires dag.Acyclic() && Below(surv, |dag.nodes|) && surv != []
    requires front == surv[..|surv| - 1] && last == surv[|surv| - 1]
    ensures Operations(dag, AllChains(dag, surv)) == Operations(dag, AllChains(dag, front)) + ChainOperations(dag, last)
  {
    OperationsConcat(dag, AllChains(dag, front), Chain(dag, last));
  }

  lemma StepOperationsLast(steps: seq<ExecutionStep>, before: seq<ExecutionStep>, last: ExecutionStep)
    requires |steps| == |before| + 1 && steps[|before|] == last
    requires forall k :: 0 <= k < |before| ==> steps[k] == before[k]
    ensures AllStepOperations(steps) == AllStepOperations(before) + StepOperations(last.nodeType)
  {
    assert steps[..|before|] == before;
  }

  /** Without the position of one of its elements. */
  function Without(s: seq<nat>, k: nat): seq<nat>
    requires k < |s|
  {
    s[..k] + s[k + 1..]
  }

  lemma OperationsWithout(dag: PipelineDag, s: seq<nat>, k: nat)
    requires Below(s, |dag.nodes|) && k < |s|
    ensures Below(Without(s, k), |dag.nodes|)
    ensures multiset(Operations(dag, s)) ==
      multiset(Operations(dag, Without(s, k))) + multiset(Operations(dag, [s[k]]))
  {
    assert s == s[..k] + ([s[k]] + s[k + 1..]);
    OperationsConcat(dag, s[..k], [s[k]] + s[k + 1..]);
    OperationsConcat(dag, [s[k]], s[k + 1..]);
    OperationsConcat(dag, s[..k], s[k + 1..]);
  }

  /** a and b list the same nodes once each, except that b may hold more nodes other than Transform. */
  ghost predicate SameTransforms(dag: PipelineDag, a: seq<nat>, b: seq<nat>) {
    && Distinct(a) && Distinct(b) && Below(b, |dag.nodes|)
    && (forall x :: x in a ==> x in b)
    && forall x: nat :: x in b && x !in a && x < |dag.nodes| ==> !dag.nodes[x].1.Transform?
  }

  lemma SameTransformsWithoutLast(dag: PipelineDag, a: seq<nat>, b: seq<nat>)
    requires SameTransforms(dag, a, b) && b != []
    ensures b[|b| - 1] !in a ==> SameTransforms(dag, a, b[..|b| - 1])
    ensures forall k: nat :: k < |a| && a[k] == b[|b| - 1] ==> SameTransforms(dag, Without(a, k), b[..|b| - 1])
  {
    var y, b' := b[|b| - 1], b[..|b| - 1];
    assert b == b' + [y];
    forall x ensures x in b' <==> x in b && x != y { }
    forall k: nat | k < |a| && a[k] == y ensures SameTransforms(dag, Without(a, k), b') {
      WithoutMembers(a, k);
    }
  }

  lemma {:induction false} SameTransformsSameOperations(dag: PipelineDag, a: seq<nat>, b: seq<nat>)
    requires Below(a, |dag.nodes|) && SameTransforms(dag, a, b)
    ensures multiset(Operations(dag, a)) == multiset(Operations(dag, b))
    decreases |b|
  {
    if b == [] {
      HeadIsMember(a);
      assert a == [];
    } else {
      var m := |b| - 1;
      var y := b[m];
      assert Without(b, m) == b[..m];
      OperationsWithout(dag, b, m);
      SameTransformsWithoutLast(dag, a, b);
      if y in a {
        var k: nat :| k < |a| && a[k] == y;
        OperationsWithout(dag, a, k);
        SameTransformsSameOperations(dag, Without(a, k), b[..m]);
      } else {
        assert y in b;
        assert Operations(dag, [y]) == [];
        SameTransformsSameOperations(dag, a, b[..m]);
      }
    }
  }

  lemma WithoutMembers(s: seq<nat>, k: nat)
    requires Distinct(s) && k < |s|
    ensures Distinct(Without(s, k))
    ensures forall x :: x in Without(s, k) <==> x in s && x != s[k]
  {
    var t := Without(s, k);
    forall x ensures x in t <==> x in s && x != s[k] {
      if x in s && x != s[k] {
        var i :| 0 <= i < |s| && s[i] == x;
        assert t[if i < k then i else i - 1] == x;
      }
    }
  }

  /** Every Transform operation of the DAG occurs in the plan as often as in the DAG: none is lost or doubled. */
  lemma OperationsConserved(dag: PipelineDag, mode: CacheDependency)
    requires dag.Acyclic()
    ensures multiset(AllStepOperations(PlanOf(dag, mode).steps)) == multiset(Operations(dag, Identity(|dag.nodes|)))
  {
    SameBodiesSameOperations(PlanOf(dag, mode).steps, Lowered(dag, mode));
    StepsCarryAllChains(dag, StepNodes(dag), mode);
    ChainsCoverTransforms(dag);
    SameTransformsSameOperations(dag, AllChains(dag, StepNodes(dag)), Identity(|dag.nodes|));
  }

  lemma {:induction false} SameBodiesSameOperations(a: seq<ExecutionStep>, b: seq<ExecutionStep>)
    requires |a| == |b| && forall k :: 0 <= k < |a| ==> a[k].nodeType == b[k].nodeType
    ensures AllStepOperations(a) == AllStepOperations(b)
  {
    if a != [] { SameBodiesSameOperations(a[..|a| - 1], b[..|b| - 1]); }
  }

  lemma ChainsCoverTransforms(dag: PipelineDag)
    requires dag.Acyclic()
    ensures SameTransforms(dag, AllChains(dag, StepNodes(dag)), Identity(|dag.nodes|))
  {
    ChainsPartition(dag);
    var all := Identity(|dag.nodes|);
    forall x | x in AllChains(dag, StepNodes(dag)) ensures x in all { assert all[x] == x; }
  }
}
