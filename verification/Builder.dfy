/** The fluent DAG builder (crates/vil_ai_compiler/src/dag.rs). */
module Builder {
  import opened Wrappers
  import opened Seqs
  import opened Graphs
  import opened Pipeline
  import Kahn

  /** Position i holds the first id that occurred before. */
  ghost predicate FirstRepeat(ids: seq<string>, i: nat) {
    i < |ids| && Distinct(ids[..i]) && ids[i] in ids[..i]
  }

  predicate Resolves(ids: seq<string>, e: (string, string)) {
    e.0 in ids && e.1 in ids
  }

  /** Edge k is the first one with an unknown end. */
  ghost predicate FirstUnresolved(ids: seq<string>, edges: seq<(string, string)>, k: nat) {
    && k < |edges|
    && !Resolves(ids, edges[k])
    && forall j :: 0 <= j < k ==> Resolves(ids, edges[j])
  }

  /** dag is the described graph with every edge naming its two ends by index. */
  ghost predicate Describes(nodes: seq<(string, PipelineNode)>, edges: seq<(string, string)>, dag: PipelineDag) {
    && dag.nodes == nodes
    && |dag.edges| == |edges|
    && dag.EdgesInRange()
    && forall k :: 0 <= k < |edges| ==>
      nodes[dag.edges[k].0].0 == edges[k].0 && nodes[dag.edges[k].1].0 == edges[k].1
  }

  class DagBuilder {
    var nodes: seq<(string, PipelineNode)>
    var edges: seq<(string, string)>

    constructor ()
      ensures nodes == [] && edges == []
    {
      nodes, edges := [], [];
    }

    method Node(id: string, node: PipelineNode)
      modifies this
      ensures nodes == old(nodes) + [(id, node)] && edges == old(edges)
    {
      nodes := nodes + [(id, node)];
    }

    method Edge(from: string, to: string)
      modifies this
      ensures edges == old(edges) + [(from, to)] && nodes == old(nodes)
    {
      edges := edges + [(from, to)];
    }

    /** Duplicate ids are reported first, then unknown edge ends, then cycles; otherwise the DAG is returned. */
    method Build() returns (r: Result<PipelineDag, DagError>)
      ensures r.Ok? ==> r.value.Valid() && Describes(nodes, edges, r.value)
      ensures (r.Err? && r.error.DuplicateNode?) <==> !Distinct(Ids(nodes))
      ensures (r.Err? && r.error.DuplicateNode?) ==>
        exists i: nat :: FirstRepeat(Ids(nodes), i) && r.error.id == Ids(nodes)[i]
      ensures (r.Err? && r.error.NodeNotFound?) <==>
        Distinct(Ids(nodes)) && exists k: nat :: FirstUnresolved(Ids(nodes), edges, k)
      ensures (r.Err? && r.error.NodeNotFound?) ==>
        exists k: nat :: FirstUnresolved(Ids(nodes), edges, k) &&
          r.error.id == if edges[k].0 in Ids(nodes) then edges[k].1 else edges[k].0
      ensures (r.Err? && r.error.CycleDetected?) <==>
        Distinct(Ids(nodes)) && exists dag :: Describes(nodes, edges, dag) && Cyclic(dag.Graph())
    {
      var repeated, seen := IndexIds(nodes);
      if repeated.Some? {
        return Err(DuplicateNode(nodes[repeated.value].0));
      }
      var resolution := ResolveEdges(nodes, edges, seen);
      if resolution.Err? {
        ghost var k: nat :| FirstUnresolved(Ids(nodes), edges, k);
        UnresolvedUndescribed(nodes, edges, k);
        return Err(NodeNotFound(resolution.error));
      }
      var dag := PipelineDag(nodes, resolution.value);
      DescriptionUnique(nodes, edges, dag);
      GraphInRange(dag);
      var cyclic := Kahn.HasCycle(dag);
      if cyclic {
        return Err(CycleDetected);
      }
      return Ok(dag);
    }
  }

  /** seen maps every id to its position. */
  ghost predicate Indexes(seen: map<string, nat>, ids: seq<string>) {
    && seen.Keys == Elements(ids)
    && forall id :: id in seen ==> seen[id] < |ids| && ids[seen[id]] == id
  }

  /** Enters the ids into a map one by one and stops at the first one already there. */
  method IndexIds(nodes: seq<(string, PipelineNode)>) returns (repeated: Option<nat>, seen: map<string, nat>)
    ensures repeated.None? ==> Distinct(Ids(nodes)) && Indexes(seen, Ids(nodes))
    ensures repeated.Some? ==> FirstRepeat(Ids(nodes), repeated.value) && !Distinct(Ids(nodes))
  {
    ghost var ids := Ids(nodes);
    seen := map[];
    for i := 0 to |nodes|
      invariant Distinct(ids[..i]) && Indexes(seen, ids[..i])
    {
      var id := nodes[i].0;
      if id in seen {
        assert ids[..i][seen[id]] == ids[i];
        return Some(i), seen;
      }
      seen := seen[id := i];
      assert ids[..i + 1] == ids[..i] + [id];
    }
    assert ids[..|nodes|] == ids;
    repeated := None;
  }

  /** Looks both ends of every edge up, the source first, and stops at the first unknown one. */
  method ResolveEdges(nodes: seq<(string, PipelineNode)>, edges: seq<(string, string)>, seen: map<string, nat>)
    returns (r: Result<seq<(nat, nat)>, string>)
    requires Indexes(seen, Ids(nodes))
    ensures r.Ok? ==> Describes(nodes, edges, PipelineDag(nodes, r.value))
    ensures r.Ok? ==> forall k :: 0 <= k < |edges| ==> Resolves(Ids(nodes), edges[k])
    ensures r.Err? ==> exists k: nat ::
      FirstUnresolved(Ids(nodes), edges, k) && r.error == if edges[k].0 in Ids(nodes) then edges[k].1 else edges[k].0
  {
    ghost var ids := Ids(nodes);
    var resolved: seq<(nat, nat)> := [];
    for k := 0 to |edges|
      invariant forall j :: 0 <= j < k ==> Resolves(ids, edges[j])
      invariant Describes(nodes, edges[..k], PipelineDag(nodes, resolved))
    {
      var (from, to) := edges[k];
      if from !in seen {
        assert FirstUnresolved(ids, edges, k);
        return Err(from);
      }
      if to !in seen {
        assert FirstUnresolved(ids, edges, k);
        return Err(to);
      }
      resolved := resolved + [(seen[from], seen[to])];
    }
    assert edges[..|edges|] == edges;
    return Ok(resolved);
  }

  lemma DescribedResolves(nodes: seq<(string, PipelineNode)>, edges: seq<(string, string)>, dag: PipelineDag, k: nat)
    requires Describes(nodes, edges, dag) && k < |edges|
    ensures Resolves(Ids(nodes), edges[k])
  {
    assert Ids(nodes)[dag.edges[k].0] in Ids(nodes) && Ids(nodes)[dag.edges[k].1] in Ids(nodes);
  }

  lemma UnresolvedUndescribed(nodes: seq<(string, PipelineNode)>, edges: seq<(string, string)>, k: nat)
    requires FirstUnresolved(Ids(nodes), edges, k)
    ensures forall dag :: !Describes(nodes, edges, dag)
  {
    forall dag ensures !Describes(nodes, edges, dag) {
      if Describes(nodes, edges, dag) {
        DescribedResolves(nodes, edges, dag, k);
      }
    }
  }

  /** With unique ids at most one DAG is described. */
  lemma DescriptionUnique(nodes: seq<(string, PipelineNode)>, edges: seq<(string, string)>, dag: PipelineDag)
    requires Distinct(Ids(nodes)) && Describes(nodes, edges, dag)
    ensures forall dag' :: Describes(nodes, edges, dag') ==> dag' == dag
  {
    forall dag' | Describes(nodes, edges, dag') ensures dag' == dag {
      var ids := Ids(nodes);
      forall k | 0 <= k < |edges| ensures dag'.edges[k] == dag.edges[k] {
        var (a, b) := dag.edges[k];
        var (a', b') := dag'.edges[k];
        assert ids[a] == ids[a'] && ids[b] == ids[b'];
      }
      assert dag'.edges == dag.edges;
    }
  }
}
