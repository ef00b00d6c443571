/** The two in-place versions of Kahn's algorithm: the cycle test on a stack
    (crates/vil_ai_compiler/src/dag.rs) and the layered topological sort
    (crates/vil_ai_compiler/src/compiler.rs). */
module Kahn {
  import opened Seqs
  import opened Graphs
  import opened Pipeline

  /** How many entries of s lie outside S. */
  ghost function CountOutside(s: seq<nat>, S: set<nat>): nat {
    if s == [] then 0 else
    CountOutside(s[..|s| - 1], S) + if s[|s| - 1] in S then 0 else 1
  }

  ghost function Occurrences(s: seq<nat>, x: nat): nat {
    if s == [] then 0 else
    Occurrences(s[..|s| - 1], x) + if s[|s| - 1] == x then 1 else 0
  }

  lemma {:induction false} CountOutsideZero(s: seq<nat>, S: set<nat>)
    ensures CountOutside(s, S) == 0 <==> forall u :: u in s ==> u in S
  {
    if s != [] {
      var m := |s| - 1;
      CountOutsideZero(s[..m], S);
      assert s == s[..m] + [s[m]];
    }
  }

  lemma {:induction false} CountOutsideAdd(s: seq<nat>, S: set<nat>, x: nat)
    requires x !in S
    ensures CountOutside(s, S) == CountOutside(s, S + {x}) + Occurrences(s, x)
  {
    if s != [] { CountOutsideAdd(s[..|s| - 1], S, x); }
  }

  lemma {:induction false} OccurrencesInPrefix(edges: seq<(nat, nat)>, k: nat, v: nat, x: nat)
    requires k <= |edges|
    ensures Occurrences(Sources(edges[..k], v), x) <= Occurrences(Sources(edges, v), x)
    decreases |edges|
  {
    if k == |edges| {
      assert edges[..k] == edges;
    } else {
      var m := |edges| - 1;
      OccurrencesInPrefix(edges[..m], k, v, x);
      assert edges[..m][..k] == edges[..k];
      SourcesStep(edges, m, v, x);
      assert edges[..m + 1] == edges;
    }
  }

  lemma SourcesStep(edges: seq<(nat, nat)>, k: nat, v: nat, x: nat)
    requires k < |edges|
    ensures Occurrences(Sources(edges[..k + 1], v), x) ==
            Occurrences(Sources(edges[..k], v), x) + if edges[k] == (x, v) then 1 else 0
  {
    var prefix := edges[..k + 1];
    assert prefix[..k] == edges[..k] && prefix[k] == edges[k];
    var s := Sources(edges[..k], v);
    if edges[k].1 == v {
      assert Sources(prefix, v) == s + [edges[k].0];
      assert (s + [edges[k].0])[..|s|] == s;
    } else {
      assert Sources(prefix, v) == s + [] == s;
    }
  }

  /** The degrees count, for every node, the incoming edges whose source is not done. */
  ghost predicate PendingCounts(dag: PipelineDag, degrees: seq<nat>, done: set<nat>) {
    && |degrees| == |dag.nodes|
    && forall v: nat :: v < |dag.nodes| ==> degrees[v] == CountOutside(dag.Predecessors(v), done)
  }

  ghost predicate CountsPending(dag: PipelineDag, inDegree: array<nat>, done: set<nat>)
    reads inDegree
  {
    PendingCounts(dag, inDegree[..], done)
  }

  /** Every predecessor of v is done. */
  ghost predicate Ready(dag: PipelineDag, done: set<nat>, v: nat) {
    v < |dag.nodes| && forall u :: u in dag.Predecessors(v) ==> u in done
  }

  method InDegrees(dag: PipelineDag) returns (inDegree: array<nat>)
    requires dag.EdgesInRange()
    ensures fresh(inDegree) && CountsPending(dag, inDegree, {})
  {
    inDegree := new nat[|dag.nodes|](_ => 0);
    for k := 0 to |dag.edges|
      invariant forall v :: 0 <= v < |dag.nodes| ==> inDegree[v] == |Sources(dag.edges[..k], v)|
    {
      var to := dag.edges[k].1;
      assert dag.edges[..k + 1][..k] == dag.edges[..k];
      inDegree[to] := inDegree[to] + 1;
    }
    assert dag.edges[..|dag.edges|] == dag.edges;
    forall v: nat | v < |dag.nodes| ensures inDegree[..][v] == CountOutside(dag.Predecessors(v), {}) {
      CountOutsideEmpty(dag.Predecessors(v));
    }
  }

  lemma {:induction false} CountOutsideEmpty(s: seq<nat>)
    ensures CountOutside(s, {}) == |s|
  {
    if s != [] { CountOutsideEmpty(s[..|s| - 1]); }
  }

  /** The nodes whose in-degree is zero, in index order. */
  method ZeroDegrees(dag: PipelineDag, inDegree: array<nat>) returns (queue: seq<nat>)
    requires dag.EdgesInRange() && CountsPending(dag, inDegree, {})
    ensures StrictlyAscending(queue)
    ensures forall v: nat :: v in queue <==> Ready(dag, {}, v)
  {
    queue := [];
    ghost var degrees := inDegree[..];
    for i := 0 to inDegree.Length
      invariant degrees == inDegree[..] && ReadyBelow(dag, queue, i)
    {
      ghost var before := queue;
      if inDegree[i] == 0 { queue := queue + [i]; }
      ZeroIsReady(dag, degrees, before, i, queue);
    }
    ReadyBelowAll(dag, queue);
  }

  /** The queue lists the nodes below i that are ready at the start, in index order. */
  ghost predicate ReadyBelow(dag: PipelineDag, queue: seq<nat>, i: nat) {
    StrictlyAscending(queue) && Below(queue, i) && forall v: nat :: v in queue <==> v < i && Ready(dag, {}, v)
  }

  lemma ZeroIsReady(dag: PipelineDag, degrees: seq<nat>, before: seq<nat>, i: nat, queue: seq<nat>)
    requires PendingCounts(dag, degrees, {}) && i < |dag.nodes| && ReadyBelow(dag, before, i)
    requires queue == if degrees[i] == 0 then before + [i] else before
    ensures ReadyBelow(dag, queue, i + 1)
  {
    CountOutsideZero(dag.Predecessors(i), {});
    assert degrees[i] == 0 <==> Ready(dag, {}, i);
  }

  lemma ReadyBelowAll(dag: PipelineDag, queue: seq<nat>)
    requires ReadyBelow(dag, queue, |dag.nodes|)
    ensures StrictlyAscending(queue) && forall v: nat :: v in queue <==> Ready(dag, {}, v)
  {
  }

  /** What is left of v's in-degree after the first k edges have been scanned for sources equal to node. */
  ghost function Remaining(dag: PipelineDag, done: set<nat>, node: nat, k: nat, v: nat): int
    requires k <= |dag.edges|
  {
    CountOutside(dag.Predecessors(v), done) - Occurrences(Sources(dag.edges[..k], v), node)
  }

  /** The in-degree never underflows: an edge out of node is still counted when it is scanned. */
  lemma RemainingStep(dag: PipelineDag, done: set<nat>, node: nat, k: nat, v: nat)
    requires k < |dag.edges| && node !in done
    ensures Remaining(dag, done, node, k + 1, v) ==
            Remaining(dag, done, node, k, v) - if dag.edges[k] == (node, v) then 1 else 0
    ensures Remaining(dag, done, node, k + 1, v) >= 0
  {
    SourcesStep(dag.edges, k, v, node);
    OccurrencesInPrefix(dag.edges, k + 1, v, node);
    CountOutsideAdd(dag.Predecessors(v), done, node);
  }

  lemma RemainingEnds(dag: PipelineDag, done: set<nat>, node: nat, v: nat)
    requires node !in done && v < |dag.nodes|
    ensures Remaining(dag, done, node, 0, v) == CountOutside(dag.Predecessors(v), done)
    ensures Remaining(dag, done, node, |dag.edges|, v) == CountOutside(dag.Predecessors(v), done + {node})
    ensures CountOutside(dag.Predecessors(v), done) == 0 <==> Ready(dag, done, v)
    ensures CountOutside(dag.Predecessors(v), done + {node}) == 0 <==> Ready(dag, done + {node}, v)
  {
    assert dag.edges[..|dag.edges|] == dag.edges;
    CountOutsideAdd(dag.Predecessors(v), done, node);
    CountOutsideZero(dag.Predecessors(v), done);
    CountOutsideZero(dag.Predecessors(v), done + {node});
  }

  /** After k edges, released holds the nodes whose in-degree has just reached zero, once each. */
  ghost predicate ReleasedAfter(dag: PipelineDag, done: set<nat>, node: nat, k: nat, released: seq<nat>)
    requires k <= |dag.edges|
  {
    && Distinct(released)
    && Below(released, |dag.nodes|)
    && forall v: nat :: v < |dag.nodes| ==> (v in released <==> JustZero(dag, done, node, k, v))
  }

  ghost predicate JustZero(dag: PipelineDag, done: set<nat>, node: nat, k: nat, v: nat)
    requires k <= |dag.edges|
  {
    Remaining(dag, done, node, k, v) == 0 && Remaining(dag, done, node, 0, v) > 0
  }

  lemma ReleasedStep(dag: PipelineDag, done: set<nat>, node: nat, k: nat, released: seq<nat>)
    requires dag.EdgesInRange() && k < |dag.edges| && node !in done
    requires ReleasedAfter(dag, done, node, k, released)
    ensures var (from, to) := dag.edges[k];
      ReleasedAfter(dag, done, node, k + 1,
        if from == node && Remaining(dag, done, node, k + 1, to) == 0 then released + [to] else released)
  {
    var (from, to) := dag.edges[k];
    RemainingStep(dag, done, node, k, to);
    assert from == node ==> to !in released;
    forall v: nat | v < |dag.nodes| && (v != to || from != node)
      ensures JustZero(dag, done, node, k + 1, v) <==> JustZero(dag, done, node, k, v)
    {
      RemainingStep(dag, done, node, k, v);
    }
    RemainingDrops(dag, done, node, k, to);
  }

  lemma {:induction false} RemainingDrops(dag: PipelineDag, done: set<nat>, node: nat, k: nat, v: nat)
    requires k <= |dag.edges| && node !in done
    ensures Remaining(dag, done, node, k, v) <= Remaining(dag, done, node, 0, v)
  {
    if k > 0 {
      RemainingStep(dag, done, node, k - 1, v);
      RemainingDrops(dag, done, node, k - 1, v);
    }
  }

  /** The degrees after the first k edges have been scanned. */
  ghost predicate Scanned(dag: PipelineDag, degrees: seq<nat>, done: set<nat>, node: nat, k: nat)
    requires k <= |dag.edges|
  {
    && |degrees| == |dag.nodes|
    && forall v: nat :: v < |dag.nodes| ==> degrees[v] == Remaining(dag, done, node, k, v)
  }

  lemma ScannedEnds(dag: PipelineDag, degrees: seq<nat>, done: set<nat>, node: nat)
    requires node !in done && |degrees| == |dag.nodes|
    ensures PendingCounts(dag, degrees, done) <==> Scanned(dag, degrees, done, node, 0)
    ensures PendingCounts(dag, degrees, done + {node}) <==> Scanned(dag, degrees, done, node, |dag.edges|)
  {
    forall v: nat | v < |dag.nodes|
      ensures Remaining(dag, done, node, 0, v) == CountOutside(dag.Predecessors(v), done)
      ensures Remaining(dag, done, node, |dag.edges|, v) == CountOutside(dag.Predecessors(v), done + {node})
    {
      RemainingEnds(dag, done, node, v);
    }
  }

  /** The degrees after one more edge: the target of an edge out of node loses one. */
  function AfterEdge(degrees: seq<nat>, edge: (nat, nat), node: nat): (after: seq<nat>)
    requires edge.1 < |degrees|
  {
    if edge.0 == node && degrees[edge.1] > 0 then degrees[edge.1 := degrees[edge.1] - 1] else degrees
  }

  function AfterRelease(released: seq<nat>, after: seq<nat>, edge: (nat, nat), node: nat): seq<nat>
    requires edge.1 < |after|
  {
    if edge.0 == node && after[edge.1] == 0 then released + [edge.1] else released
  }

  /** Scanning edge k: an edge out of node finds its target's degree positive, and lowering it keeps the counts. */
  lemma ScanEdge(dag: PipelineDag, degrees: seq<nat>, done: set<nat>, node: nat, k: nat)
    requires dag.EdgesInRange() && k < |dag.edges| && node !in done && Scanned(dag, degrees, done, node, k)
    ensures dag.edges[k].0 == node ==> degrees[dag.edges[k].1] > 0
    ensures Scanned(dag, AfterEdge(degrees, dag.edges[k], node), done, node, k + 1)
  {
    RemainingStep(dag, done, node, k, dag.edges[k].1);
    var after := AfterEdge(degrees, dag.edges[k], node);
    forall v: nat | v < |dag.nodes| ensures after[v] == Remaining(dag, done, node, k + 1, v) {
      RemainingStep(dag, done, node, k, v);
    }
  }

  lemma ReleaseStep(dag: PipelineDag, after: seq<nat>, done: set<nat>, node: nat, k: nat, released: seq<nat>)
    requires dag.EdgesInRange() && k < |dag.edges| && node !in done && Scanned(dag, after, done, node, k + 1)
    requires ReleasedAfter(dag, done, node, k, released)
    ensures ReleasedAfter(dag, done, node, k + 1, AfterRelease(released, after, dag.edges[k], node))
  {
    ReleasedStep(dag, done, node, k, released);
    assert after[dag.edges[k].1] == Remaining(dag, done, node, k + 1, dag.edges[k].1);
  }

  lemma ReleasedEnds(dag: PipelineDag, done: set<nat>, node: nat, released: seq<nat>)
    requires node !in done && ReleasedAfter(dag, done, node, |dag.edges|, released)
    ensures forall v: nat :: v in released <==> Ready(dag, done + {node}, v) && !Ready(dag, done, v)
  {
    forall v: nat ensures v in released <==> Ready(dag, done + {node}, v) && !Ready(dag, done, v) {
      if v < |dag.nodes| {
        RemainingEnds(dag, done, node, v);
        assert v in released <==> JustZero(dag, done, node, |dag.edges|, v);
      }
    }
  }

  /** Processes one node: lowers the in-degree of its successors edge by edge and returns those that reach zero. */
  method Release(dag: PipelineDag, inDegree: array<nat>, node: nat, ghost done: set<nat>) returns (released: seq<nat>)
    requires dag.EdgesInRange() && CountsPending(dag, inDegree, done)
    requires node < |dag.nodes| && node !in done
    modifies inDegree
    ensures CountsPending(dag, inDegree, done + {node})
    ensures Distinct(released)
    ensures forall v: nat :: v in released <==> Ready(dag, done + {node}, v) && !Ready(dag, done, v)
  {
    released := [];
    ScannedEnds(dag, inDegree[..], done, node);
    for k := 0 to |dag.edges|
      invariant Scanned(dag, inDegree[..], done, node, k)
      invariant ReleasedAfter(dag, done, node, k, released)
    {
      ScanEdge(dag, inDegree[..], done, node, k);
      ReleaseStep(dag, AfterEdge(inDegree[..], dag.edges[k], node), done, node, k, released);
      released := LowerDegree(inDegree, dag.edges[k], node, released);
    }
    ScannedEnds(dag, inDegree[..], done, node);
    ReleasedEnds(dag, done, node, released);
  }

  /** Scans one edge. */
  method LowerDegree(inDegree: array<nat>, edge: (nat, nat), node: nat, before: seq<nat>) returns (released: seq<nat>)
    requires edge.1 < inDegree.Length && (edge.0 == node ==> inDegree[edge.1] > 0)
    modifies inDegree
    ensures inDegree[..] == AfterEdge(old(inDegree[..]), edge, node)
    ensures released == AfterRelease(before, inDegree[..], edge, node)
  {
    released := before;
    var (from, to) := edge;
    if from == node {
      inDegree[to] := inDegree[to] - 1;
      if inDegree[to] == 0 { released := released + [to]; }
    }
  }

  /** When nothing is ready any more, either every node has been listed or the graph has a cycle. */
  lemma ExhaustedQueueDecides(dag: PipelineDag, ord: seq<nat>)
    requires dag.EdgesInRange() && TopoPrefix(dag.Graph(), ord)
    requires forall v: nat :: Ready(dag, Elements(ord), v) ==> v in ord
    ensures |ord| == |dag.nodes| <==> !Cyclic(dag.Graph())
  {
    var g := dag.Graph();
    DistinctBounded(ord, |g|);
    if |ord| == |g| {
      TopoOrderAcyclic(g, ord);
    } else {
      var S := Range(|g|) - Elements(ord);
      forall v | v in S ensures v < |g| && WaitsIn(g, S, v) {
        assert !Ready(dag, Elements(ord), v);
        var u :| u in dag.Predecessors(v) && u !in Elements(ord);
        EdgeBothWays(dag, u, v);
        assert u in S && Edge(g, u, v);
      }
      StuckPrefixHasCycle(g, ord);
    }
  }

  lemma ReadyExtends(dag: PipelineDag, ord: seq<nat>, v: nat)
    requires dag.EdgesInRange() && TopoPrefix(dag.Graph(), ord)
    requires v !in ord && Ready(dag, Elements(ord), v)
    ensures TopoPrefix(dag.Graph(), ord + [v])
    ensures Elements(ord + [v]) == Elements(ord) + {v}
    ensures |ord| < |dag.nodes|
  {
    assert PredsIn(dag.Graph(), v, ord);
    TopoPrefixExtend(dag.Graph(), ord, v);
    DistinctBounded(ord + [v], |dag.nodes|);
  }

  /** The queue holds the ready nodes that are not done, once each. */
  ghost predicate QueueHoldsReady(dag: PipelineDag, done: set<nat>, queue: seq<nat>) {
    Distinct(queue) && forall v: nat :: v in queue <==> Ready(dag, done, v) && v !in done
  }

  lemma ReadyGrows(dag: PipelineDag, done: set<nat>, done': set<nat>, v: nat)
    requires done <= done' && Ready(dag, done, v)
    ensures Ready(dag, done', v)
  {
  }

  lemma QueueAfterRelease(dag: PipelineDag, ord: seq<nat>, node: nat, rest: seq<nat>, released: seq<nat>)
    requires TopoPrefix(dag.Graph(), ord) && node !in ord && node !in rest
    requires QueueHoldsReady(dag, Elements(ord), rest + [node])
    requires Distinct(released)
    requires forall v: nat :: v in released <==>
      Ready(dag, Elements(ord) + {node}, v) && !Ready(dag, Elements(ord), v)
    ensures QueueHoldsReady(dag, Elements(ord + [node]), rest + released)
  {
    var done, done' := Elements(ord), Elements(ord) + {node};
    assert Elements(ord + [node]) == done';
    assert node in rest + [node];
    forall v: nat | v in rest ensures Ready(dag, done, v) && v !in done' { assert v in rest + [node]; }
    forall i, j | 0 <= i < j < |rest| ensures rest[i] != rest[j] {
      assert (rest + [node])[i] == rest[i] && (rest + [node])[j] == rest[j];
    }
    forall v: nat | v in released ensures v !in rest { assert !Ready(dag, done, v); }
    DistinctConcat(rest, released);
    forall v: nat | v in ord ensures Ready(dag, done, v) {
      var k :| 0 <= k < |ord| && ord[k] == v;
      assert PredsIn(dag.Graph(), ord[k], ord[..k]);
    }
    forall v: nat ensures v in rest + released <==> Ready(dag, done', v) && v !in done' {
      if Ready(dag, done, v) { ReadyGrows(dag, done, done', v); }
      if Ready(dag, done, v) && v !in done' { assert v in rest + [node]; }
    }
  }

  /** The cycle test: pops ready nodes off a stack and compares the count with the number of nodes. */
  method HasCycle(dag: PipelineDag) returns (r: bool)
    requires dag.EdgesInRange()
    ensures r <==> Cyclic(dag.Graph())
  {
    var n := |dag.nodes|;
    var inDegree := InDegrees(dag);
    var queue := ZeroDegrees(dag, inDegree);
    var visited := 0;
    ghost var ord: seq<nat> := [];
    assert Elements(ord) == {};
    while queue != []
      invariant visited == |ord| && TopoPrefix(dag.Graph(), ord)
      invariant CountsPending(dag, inDegree, Elements(ord))
      invariant QueueHoldsReady(dag, Elements(ord), queue)
      invariant |ord| <= n
      decreases n - |ord|
    {
      var last := |queue| - 1;
      var node := queue[last];
      assert node in queue && node !in queue[..last];
      queue := queue[..last];
      visited := visited + 1;
      ReadyExtends(dag, ord, node);
      var released := Release(dag, inDegree, node, Elements(ord));
      QueueAfterRelease(dag, ord, node, queue, released);
      ord := ord + [node];
      queue := queue + released;
    }
    ExhaustedQueueDecides(dag, ord);
    r := visited != n;
  }

  // ----- the layered topological sort -----

  lemma QueueRotate(dag: PipelineDag, done: set<nat>, node: nat, rest: seq<nat>)
    requires QueueHoldsReady(dag, done, [node] + rest)
    ensures QueueHoldsReady(dag, done, rest + [node])
    ensures node !in rest && node !in done && Ready(dag, done, node)
  {
    var a, b := [node] + rest, rest + [node];
    assert a[0] in a;
    forall i | 0 <= i < |rest| ensures rest[i] != node { assert a[i + 1] == rest[i]; }
    forall i, j | 0 <= i < j < |rest| ensures rest[i] != rest[j] { assert a[i + 1] == rest[i] && a[j + 1] == rest[j]; }
    forall v: nat ensures v in b <==> v in a { }
  }

  lemma QueueSorted(dag: PipelineDag, done: set<nat>, queue: seq<nat>)
    requires QueueHoldsReady(dag, done, queue)
    ensures QueueHoldsReady(dag, done, Sort(queue))
    ensures |Sort(queue)| == |queue|
  {
    SortDistinct(queue);
  }

  lemma SettledIsReady(dag: PipelineDag, k: nat, v: nat)
    ensures v in Settled(dag.Graph(), k + 1) <==> Ready(dag, Settled(dag.Graph(), k), v)
  {
  }

  /** The sorted queue at the start of round k is layer k. */
  lemma QueueIsLayer(dag: PipelineDag, k: nat, queue: seq<nat>)
    requires QueueHoldsReady(dag, Settled(dag.Graph(), k), queue)
    ensures Sort(queue) == Layer(dag.Graph(), k)
    ensures Settled(dag.Graph(), k) + Elements(Sort(queue)) == Settled(dag.Graph(), k + 1)
  {
    var g := dag.Graph();
    SortDistinct(queue);
    SettledGrows(g, k);
    forall v: nat ensures v in queue <==> v in Settled(g, k + 1) - Settled(g, k) { SettledIsReady(dag, k, v); }
    forall v ensures v in Sort(queue) <==> v in Layer(g, k) { }
    AscendingUnique(Sort(queue), Layer(g, k));
  }

  lemma HeightAtMost(g: Graph, k: nat)
    requires Dag(g) && Settled(g, k) == Range(|g|)
    ensures Height(g) <= k
  {
    HeightBounds(g);
    if |g| > 0 {
      var v: nat :| v < |g| && Depth(g, v) == Height(g) - 1;
      assert v in Settled(g, k);
      SettledByDepth(g, k, v);
    }
  }

  lemma HeightAtLeast(g: Graph, k: nat)
    requires Dag(g) && k > 0 && Layer(g, k - 1) != []
    ensures Height(g) >= k
  {
    HeightBounds(g);
    var u := Layer(g, k - 1)[0];
    assert u in Layer(g, k - 1);
    LayerMembers(g, k - 1, u);
  }

  /** Lists the first node of a queue of ready nodes; those it releases join the queue. */
  method ProcessNode(dag: PipelineDag, inDegree: array<nat>, node: nat, ghost topo: seq<nat>, ghost rest: seq<nat>)
    returns (released: seq<nat>)
    requires dag.EdgesInRange() && TopoPrefix(dag.Graph(), topo)
    requires CountsPending(dag, inDegree, Elements(topo)) && QueueHoldsReady(dag, Elements(topo), [node] + rest)
    modifies inDegree
    ensures TopoPrefix(dag.Graph(), topo + [node]) && CountsPending(dag, inDegree, Elements(topo + [node]))
    ensures QueueHoldsReady(dag, Elements(topo + [node]), rest + released)
  {
    QueueRotate(dag, Elements(topo), node, rest);
    ReadyExtends(dag, topo, node);
    released := Release(dag, inDegree, node, Elements(topo));
    QueueAfterRelease(dag, topo, node, rest, released);
  }

  /** Processes one round: lists its nodes and collects those they release. */
  method ProcessTier(dag: PipelineDag, inDegree: array<nat>, tier: seq<nat>, before: seq<nat>)
    returns (topo: seq<nat>, nextQueue: seq<nat>)
    requires dag.EdgesInRange() && TopoPrefix(dag.Graph(), before)
    requires CountsPending(dag, inDegree, Elements(before))
    requires QueueHoldsReady(dag, Elements(before), tier)
    modifies inDegree
    ensures topo == before + tier && TopoPrefix(dag.Graph(), topo)
    ensures CountsPending(dag, inDegree, Elements(topo))
    ensures QueueHoldsReady(dag, Elements(topo), nextQueue)
  {
    topo, nextQueue := before, [];
    assert tier[0..] + nextQueue == tier;
    for i := 0 to |tier|
      invariant topo == before + tier[..i] && TopoPrefix(dag.Graph(), topo)
      invariant CountsPending(dag, inDegree, Elements(topo))
      invariant QueueHoldsReady(dag, Elements(topo), tier[i..] + nextQueue)
    {
      var node := tier[i];
      ghost var rest := tier[i + 1..] + nextQueue;
      assert tier[i..] + nextQueue == [node] + rest;
      var released := ProcessNode(dag, inDegree, node, topo, rest);
      topo := topo + [node];
      nextQueue := nextQueue + released;
      assert rest + released == tier[i + 1..] + nextQueue;
      assert tier[..i + 1] == tier[..i] + [node];
    }
    assert tier[..|tier|] == tier;
    assert tier[|tier|..] + nextQueue == nextQueue;
  }

  /** tiers are the first rounds of the graph, and topo lists them one after the other. */
  ghost predicate RoundsSoFar(g: Graph, topo: seq<nat>, tiers: seq<seq<nat>>) {
    && topo == Flatten(tiers)
    && Elements(topo) == Settled(g, |tiers|)
    && forall k :: 0 <= k < |tiers| ==> tiers[k] == Layer(g, k) && tiers[k] != []
  }

  lemma RoundsStep(dag: PipelineDag, topo: seq<nat>, tiers: seq<seq<nat>>, queue: seq<nat>)
    requires RoundsSoFar(dag.Graph(), topo, tiers) && queue != []
    requires QueueHoldsReady(dag, Elements(topo), queue)
    ensures QueueHoldsReady(dag, Elements(topo), Sort(queue))
    ensures RoundsSoFar(dag.Graph(), topo + Sort(queue), tiers + [Sort(queue)])
  {
    QueueSorted(dag, Elements(topo), queue);
    QueueIsLayer(dag, |tiers|, queue);
    RoundsAppend(dag.Graph(), topo, tiers, Sort(queue));
  }

  lemma RoundsAppend(g: Graph, topo: seq<nat>, tiers: seq<seq<nat>>, tier: seq<nat>)
    requires RoundsSoFar(g, topo, tiers)
    requires tier == Layer(g, |tiers|) && tier != []
    requires Settled(g, |tiers|) + Elements(tier) == Settled(g, |tiers| + 1)
    ensures RoundsSoFar(g, topo + tier, tiers + [tier])
  {
    FlattenAppend(tiers, tier);
    assert Elements(topo + tier) == Elements(topo) + Elements(tier);
    var tiers' := tiers + [tier];
    forall k | 0 <= k < |tiers'| ensures tiers'[k] == Layer(g, k) && tiers'[k] != [] {
      if k < |tiers| { assert tiers'[k] == tiers[k]; }
    }
  }

  lemma AllRoundsAreLayers(g: Graph, topo: seq<nat>, tiers: seq<seq<nat>>)
    requires Dag(g) && TopoOrder(g, topo) && RoundsSoFar(g, topo, tiers)
    ensures tiers == Layers(g)
  {
    DistinctCoversRange(topo, |g|);
    assert Settled(g, |tiers|) == Range(|g|);
    HeightAtMost(g, |tiers|);
    if |tiers| > 0 { HeightAtLeast(g, |tiers|); }
  }

  /** Peels the graph round by round; the order is complete exactly when there is no cycle. */
  method LayeredSort(dag: PipelineDag) returns (topo: seq<nat>, tiers: seq<seq<nat>>)
    requires dag.EdgesInRange()
    ensures |topo| == |dag.nodes| <==> !Cyclic(dag.Graph())
    ensures TopoPrefix(dag.Graph(), topo) && RoundsSoFar(dag.Graph(), topo, tiers)
    ensures Dag(dag.Graph()) ==> tiers == Layers(dag.Graph()) && topo == LayeredOrder(dag.Graph())
  {
    ghost var g := dag.Graph();
    var inDegree := InDegrees(dag);
    var queue := ZeroDegrees(dag, inDegree);
    QueueSorted(dag, {}, queue);
    queue := Sort(queue);
    topo, tiers := [], [];
    assert Elements(topo) == {};
    while queue != []
      invariant TopoPrefix(g, topo) && |topo| <= |g|
      invariant RoundsSoFar(g, topo, tiers)
      invariant CountsPending(dag, inDegree, Elements(topo))
      invariant QueueHoldsReady(dag, Elements(topo), queue)
      decreases |g| - |topo|
    {
      RoundsStep(dag, topo, tiers, queue);
      QueueSorted(dag, Elements(topo), queue);
      queue := Sort(queue);
      var currentTier := queue;
      tiers := tiers + [currentTier];
      topo, queue := ProcessTier(dag, inDegree, currentTier, topo);
      DistinctBounded(topo, |g|);
    }
    ExhaustedQueueDecides(dag, topo);
    if Dag(g) { AllRoundsAreLayers(g, topo, tiers); }
  }
}
