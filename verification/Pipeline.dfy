/** Pipeline nodes and the DAG they form (crates/vil_ai_compiler/src/node.rs, dag.rs). */
module Pipeline {
  import opened Seqs
  import opened Graphs

  datatype MergeStrategy = Concat | First | Collect

  datatype PipelineNode =
    | Embed(model: string, dimensions: nat)
    | Search(index: string, topK: nat)
    | Rerank(model: string, topN: nat)
    | Generate(model: string, maxTokens: nat, temperature: real)
    | Transform(operation: string)
    | Filter(predicateText: string)
    | Branch(condition: string)
    | Merge(strategy: MergeStrategy)
    | Cache(ttlSecs: nat, keyExpr: string)

  datatype DagError =
    | NodeNotFound(id: string)
    | CycleDetected
    | DuplicateNode(id: string)

  /** Nodes are (id, node); edges are (from index, to index). */
  datatype PipelineDag = PipelineDag(nodes: seq<(string, PipelineNode)>, edges: seq<(nat, nat)>) {

    function Predecessors(idx: nat): seq<nat> {
      Sources(edges, idx)
    }

    function Successors(idx: nat): seq<nat> {
      Targets(edges, idx)
    }

    function Graph(): (g: Graph)
      ensures |g| == |nodes|
      ensures forall v :: 0 <= v < |g| ==> g[v] == Predecessors(v)
    {
      seq(|nodes|, v requires 0 <= v < |nodes| => Predecessors(v))
    }

    predicate EdgesInRange() {
      forall k :: 0 <= k < |edges| ==> edges[k].0 < |nodes| && edges[k].1 < |nodes|
    }

    predicate UniqueIds() {
      Distinct(Ids(nodes))
    }

    /** What `compile` accepts. */
    ghost predicate Acyclic() {
      EdgesInRange() && Dag(Graph())
    }

    /** What `DagBuilder.Build` establishes. */
    ghost predicate Valid() {
      Acyclic() && UniqueIds()
    }
  }

  function Ids(nodes: seq<(string, PipelineNode)>): (ids: seq<string>)
    ensures |ids| == |nodes| && forall i :: 0 <= i < |nodes| ==> ids[i] == nodes[i].0
  {
    seq(|nodes|, i requires 0 <= i < |nodes| => nodes[i].0)
  }

  /** The sources of the edges into idx, in edge order. */
  function Sources(edges: seq<(nat, nat)>, idx: nat): seq<nat> {
    if edges == [] then [] else
    var (from, to) := edges[|edges| - 1];
    Sources(edges[..|edges| - 1], idx) + if to == idx then [from] else []
  }

  /** The targets of the edges out of idx, in edge order. */
  function Targets(edges: seq<(nat, nat)>, idx: nat): seq<nat> {
    if edges == [] then [] else
    var (from, to) := edges[|edges| - 1];
    Targets(edges[..|edges| - 1], idx) + if from == idx then [to] else []
  }

  /** at lists the positions of all edges into idx, and sources their sources. */
  ghost predicate EdgesInto(edges: seq<(nat, nat)>, idx: nat, sources: seq<nat>, at: seq<nat>) {
    && StrictlyAscending(at) && Below(at, |edges|) && |at| == |sources|
    && (forall k: nat :: k < |at| ==> edges[at[k]] == (sources[k], idx))
    && forall j: nat :: j < |edges| && edges[j].1 == idx ==> j in at
  }

  /** at lists the positions of all edges out of idx, and targets their targets. */
  ghost predicate EdgesOutOf(edges: seq<(nat, nat)>, idx: nat, targets: seq<nat>, at: seq<nat>) {
    && StrictlyAscending(at) && Below(at, |edges|) && |at| == |targets|
    && (forall k: nat :: k < |at| ==> edges[at[k]] == (idx, targets[k]))
    && forall j: nat :: j < |edges| && edges[j].0 == idx ==> j in at
  }

  lemma EdgesIntoGrow(edges: seq<(nat, nat)>, last: (nat, nat), idx: nat, sources: seq<nat>, at: seq<nat>)
    requires EdgesInto(edges, idx, sources, at)
    ensures last.1 != idx ==> EdgesInto(edges + [last], idx, sources, at)
    ensures last.1 == idx ==> EdgesInto(edges + [last], idx, sources + [last.0], at + [|edges|])
  {
  }

  lemma EdgesOutOfGrow(edges: seq<(nat, nat)>, last: (nat, nat), idx: nat, targets: seq<nat>, at: seq<nat>)
    requires EdgesOutOf(edges, idx, targets, at)
    ensures last.0 != idx ==> EdgesOutOf(edges + [last], idx, targets, at)
    ensures last.0 == idx ==> EdgesOutOf(edges + [last], idx, targets + [last.1], at + [|edges|])
  {
  }

  /** One source for each edge into idx, in edge order. */
  lemma {:induction false} SourcesInEdgeOrder(edges: seq<(nat, nat)>, idx: nat) returns (at: seq<nat>)
    ensures EdgesInto(edges, idx, Sources(edges, idx), at)
  {
    at := [];
    if edges != [] {
      var front, last := edges[..|edges| - 1], edges[|edges| - 1];
      assert edges == front + [last];
      at := SourcesInEdgeOrder(front, idx);
      EdgesIntoGrow(front, last, idx, Sources(front, idx), at);
      if last.1 == idx { at := at + [|front|]; }
    }
  }

  /** One target for each edge out of idx, in edge order. */
  lemma {:induction false} TargetsInEdgeOrder(edges: seq<(nat, nat)>, idx: nat) returns (at: seq<nat>)
    ensures EdgesOutOf(edges, idx, Targets(edges, idx), at)
  {
    at := [];
    if edges != [] {
      var front, last := edges[..|edges| - 1], edges[|edges| - 1];
      assert edges == front + [last];
      at := TargetsInEdgeOrder(front, idx);
      EdgesOutOfGrow(front, last, idx, Targets(front, idx), at);
      if last.0 == idx { at := at + [|front|]; }
    }
  }

  lemma SourcesAppend(edges: seq<(nat, nat)>, from: nat, to: nat, idx: nat)
    ensures Sources(edges + [(from, to)], idx) == Sources(edges, idx) + if to == idx then [from] else []
  {
    assert (edges + [(from, to)])[..|edges|] == edges;
  }

  lemma {:induction false} SourcesMembers(edges: seq<(nat, nat)>, u: nat, v: nat)
    ensures u in Sources(edges, v) <==> (u, v) in edges
  {
    if edges != [] {
      var m := |edges| - 1;
      SourcesMembers(edges[..m], u, v);
      assert edges == edges[..m] + [edges[m]];
      assert (u, v) in edges <==> (u, v) in edges[..m] || (u, v) == edges[m];
    }
  }

  lemma {:induction false} TargetsMembers(edges: seq<(nat, nat)>, u: nat, v: nat)
    ensures v in Targets(edges, u) <==> (u, v) in edges
  {
    if edges != [] {
      var m := |edges| - 1;
      TargetsMembers(edges[..m], u, v);
      assert edges == edges[..m] + [edges[m]];
      assert (u, v) in edges <==> (u, v) in edges[..m] || (u, v) == edges[m];
    }
  }

  lemma GraphInRange(dag: PipelineDag)
    requires dag.EdgesInRange()
    ensures InRange(dag.Graph())
  {
    forall v, k | 0 <= v < |dag.nodes| && 0 <= k < |dag.Graph()[v]| ensures dag.Graph()[v][k] < |dag.nodes| {
      SourcesMembers(dag.edges, dag.Graph()[v][k], v);
    }
  }

  /** Successors and predecessors describe the same edges. */
  lemma EdgeBothWays(dag: PipelineDag, u: nat, v: nat)
    requires dag.EdgesInRange() && v < |dag.nodes|
    ensures Edge(dag.Graph(), u, v) <==> v in dag.Successors(u)
    ensures Edge(dag.Graph(), u, v) <==> u in dag.Predecessors(v)
    ensures Edge(dag.Graph(), u, v) ==> u < |dag.nodes|
  {
    SourcesMembers(dag.edges, u, v);
    TargetsMembers(dag.edges, u, v);
  }
}
