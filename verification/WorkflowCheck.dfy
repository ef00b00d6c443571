/** The workflow acyclicity check (crates/vil_cli/src/checker.rs:218-289). */
module WorkflowCheck {
  import opened Seqs
  import opened Walks
  import opened CycleSearch

  /** A dependency is a bare task id or a task with options. */
  datatype DepSpec =
    | Simple(id: string)
    | Advanced(task: string, detach: bool)
  {
    function TaskId(): string {
      match this
      case Simple(id) => id
      case Advanced(task, _) => task
    }
  }

  /** A task or a branch. */
  datatype Item = Item(id: string, deps: seq<DepSpec>)

  datatype Workflow = Workflow(tasks: seq<Item>, branches: seq<Item>)

  /** The entry names dep, bare or with options, detached or not. */
  predicate Names(entry: DepSpec, dep: string) {
    entry == Simple(dep) || entry == Advanced(dep, false) || entry == Advanced(dep, true)
  }

  predicate NamesDep(deps: seq<DepSpec>, dep: string) {
    exists k :: 0 <= k < |deps| && Names(deps[k], dep)
  }

  lemma NamesDepExactly(deps: seq<DepSpec>, dep: string)
    ensures NamesDep(deps, dep) <==>
      exists k :: 0 <= k < |deps| && (deps[k] == Simple(dep) || exists detach :: deps[k] == Advanced(dep, detach))
  {
    forall k | 0 <= k < |deps|
      ensures Names(deps[k], dep) <==> deps[k] == Simple(dep) || exists detach :: deps[k] == Advanced(dep, detach)
    {
      if deps[k].Advanced? && deps[k].task == dep { assert deps[k] == Advanced(dep, deps[k].detach); }
    }
  }

  predicate ItemDependsOn(items: seq<Item>, id: string, dep: string) {
    exists k :: 0 <= k < |items| && items[k].id == id && NamesDep(items[k].deps, dep)
  }

  /** Some task or branch with this id lists dep among its dependencies. */
  predicate DependsOn(wf: Workflow, id: string, dep: string) {
    ItemDependsOn(wf.tasks, id, dep) || ItemDependsOn(wf.branches, id, dep)
  }

  /** A circular chain of dependencies: every entry depends on the one before it. */
  ghost predicate DependencyCycle(wf: Workflow, p: seq<string>) {
    && |p| > 1
    && p[0] == p[|p| - 1]
    && forall k :: 0 < k < |p| ==> DependsOn(wf, p[k], p[k - 1])
  }

  ghost predicate IsCyclic(wf: Workflow) {
    exists p :: DependencyCycle(wf, p)
  }

  // ----- building the adjacency lists -----

  predicate Lists(adj: map<string, seq<string>>, from: string, to: string) {
    from in adj && to in adj[from]
  }

  /** Enters one dependency edge. */
  function AddEdge(adj: map<string, seq<string>>, from: string, to: string): map<string, seq<string>> {
    adj[from := (if from in adj then adj[from] else []) + [to]]
  }

  lemma AddEdgeLists(adj: map<string, seq<string>>, from: string, to: string)
    ensures forall u, v :: Lists(AddEdge(adj, from, to), u, v) <==> Lists(adj, u, v) || (u == from && v == to)
  {
  }

  method AddDeps(adj0: map<string, seq<string>>, id: string, deps: seq<DepSpec>) returns (adj: map<string, seq<string>>)
    ensures forall u, v :: Lists(adj, u, v) <==> Lists(adj0, u, v) || (v == id && NamesDep(deps, u))
  {
    adj := adj0;
    for k := 0 to |deps|
      invariant forall u, v :: Lists(adj, u, v) <==> Lists(adj0, u, v) || (v == id && NamesDep(deps[..k], u))
    {
      AddEdgeLists(adj, deps[k].TaskId(), id);
      NamesDepStep(deps, k);
      adj := AddEdge(adj, deps[k].TaskId(), id);
    }
    assert deps[..|deps|] == deps;
  }

  lemma NamesDepStep(deps: seq<DepSpec>, k: nat)
    requires k < |deps|
    ensures forall u :: NamesDep(deps[..k + 1], u) <==> NamesDep(deps[..k], u) || deps[k].TaskId() == u
  {
    forall u ensures NamesDep(deps[..k + 1], u) <==> NamesDep(deps[..k], u) || deps[k].TaskId() == u {
      assert deps[..k + 1] == deps[..k] + [deps[k]];
      assert Names(deps[k], u) <==> deps[k].TaskId() == u;
      if Names(deps[k], u) { assert Names(deps[..k + 1][k], u); }
      if NamesDep(deps[..k], u) {
        var i :| 0 <= i < k && Names(deps[..k][i], u);
        assert Names(deps[..k + 1][i], u);
      }
      if NamesDep(deps[..k + 1], u) {
        var i :| 0 <= i < k + 1 && Names(deps[..k + 1][i], u);
        if i < k { assert Names(deps[..k][i], u); }
      }
    }
  }

  method AddItems(adj0: map<string, seq<string>>, items: seq<Item>) returns (adj: map<string, seq<string>>)
    ensures forall u, v :: Lists(adj, u, v) <==> Lists(adj0, u, v) || ItemDependsOn(items, v, u)
  {
    adj := adj0;
    for k := 0 to |items|
      invariant forall u, v :: Lists(adj, u, v) <==> Lists(adj0, u, v) || ItemDependsOn(items[..k], v, u)
    {
      ItemDependsOnStep(items, k);
      adj := AddDeps(adj, items[k].id, items[k].deps);
    }
    assert items[..|items|] == items;
  }

  lemma ItemDependsOnStep(items: seq<Item>, k: nat)
    requires k < |items|
    ensures forall u, v :: ItemDependsOn(items[..k + 1], v, u) <==>
      ItemDependsOn(items[..k], v, u) || (items[k].id == v && NamesDep(items[k].deps, u))
  {
    forall u, v ensures ItemDependsOn(items[..k + 1], v, u) <==>
      ItemDependsOn(items[..k], v, u) || (items[k].id == v && NamesDep(items[k].deps, u))
    {
      assert items[..k + 1] == items[..k] + [items[k]];
      if items[k].id == v && NamesDep(items[k].deps, u) { assert items[..k + 1][k].id == v; }
      if ItemDependsOn(items[..k], v, u) {
        var i :| 0 <= i < k && items[..k][i].id == v && NamesDep(items[..k][i].deps, u);
        assert items[..k + 1][i].id == v;
      }
      if ItemDependsOn(items[..k + 1], v, u) {
        var i :| 0 <= i < k + 1 && items[..k + 1][i].id == v && NamesDep(items[..k + 1][i].deps, u);
        if i < k { assert items[..k][i].id == v; }
      }
    }
  }

  // ----- the check -----

  ghost function SetsOf(lists: map<string, seq<string>>): (adj: Adjacency)
    ensures adj.Keys == lists.Keys && forall u :: u in lists ==> adj[u] == Elements(lists[u])
  {
    map u | u in lists :: Elements(lists[u])
  }

  function ItemIds(items: seq<Item>): (ids: seq<string>)
    ensures |ids| == |items| && forall k :: 0 <= k < |items| ==> ids[k] == items[k].id
  {
    seq(|items|, k requires 0 <= k < |items| => items[k].id)
  }

  /** A circuit of the adjacency lists is a dependency cycle, and passes through declared ids only. */
  lemma CircuitsAreDependencyCycles(wf: Workflow, lists: map<string, seq<string>>, ids: set<string>)
    requires forall u, v :: Lists(lists, u, v) <==> DependsOn(wf, v, u)
    requires ids == Elements(ItemIds(wf.tasks) + ItemIds(wf.branches))
    ensures CircuitFrom(SetsOf(lists), ids) <==> IsCyclic(wf)
  {
    var adj := SetsOf(lists);
    forall u, v ensures v in Succ(adj, u) <==> DependsOn(wf, v, u) { assert v in Succ(adj, u) <==> Lists(lists, u, v); }
    if CircuitFrom(adj, ids) {
      var w, p :| Walk(adj, w) && w[0] in ids && Circuit(adj, p) && p[0] == w[|w| - 1];
      assert DependencyCycle(wf, p);
    }
    if IsCyclic(wf) {
      var p :| DependencyCycle(wf, p);
      assert Circuit(adj, p);
      var m := |p| - 1;
      assert DependsOn(wf, p[m], p[m - 1]);
      DependentIsDeclared(wf, p[m], p[m - 1]);
      assert Walk(adj, [p[0]]) && [p[0]][0] in ids;
    }
  }

  lemma DependentIsDeclared(wf: Workflow, id: string, dep: string)
    requires DependsOn(wf, id, dep)
    ensures id in ItemIds(wf.tasks) + ItemIds(wf.branches)
  {
    if ItemDependsOn(wf.tasks, id, dep) {
      var k :| 0 <= k < |wf.tasks| && wf.tasks[k].id == id && NamesDep(wf.tasks[k].deps, dep);
      assert ItemIds(wf.tasks)[k] == id;
    } else {
      var k :| 0 <= k < |wf.branches| && wf.branches[k].id == id && NamesDep(wf.branches[k].deps, dep);
      assert ItemIds(wf.branches)[k] == id;
    }
  }

  /** Starts a search from every root that has not been visited; stops at the first circuit. */
  method SearchFrom(ids: seq<string>, lists: map<string, seq<string>>) returns (cycle: bool)
    ensures cycle <==> CircuitFrom(SetsOf(lists), Elements(ids))
  {
    ghost var adj := SetsOf(lists);
    ghost var all := AllNodes(adj) + Elements(ids);
    var search := new CycleFinder();
    for k := 0 to |ids|
      invariant search.Valid(adj) && search.stack == [] && search.visited <= all
      invariant Elements(ids[..k]) <= Elements(search.finished)
      invariant fresh(search)
    {
      assert ids[..k + 1] == ids[..k] + [ids[k]];
      assert ids[k] in Elements(ids);
      if ids[k] !in search.visited {
        var found := search.DfsList(ids[k], lists, adj, all);
        if found {
          WidenRoots(adj, {ids[k]}, Elements(ids));
          return true;
        }
      }
    }
    assert ids[..|ids|] == ids;
    FinishedRootsReachNoCircuit(adj, search.finished, Elements(ids));
    return false;
  }

  method CheckWorkflow(wf: Workflow) returns (cycle: bool)
    ensures cycle <==> IsCyclic(wf)
  {
    var adj: map<string, seq<string>> := map[];
    adj := AddItems(adj, wf.tasks);
    adj := AddItems(adj, wf.branches);
    var allIds := ItemIds(wf.tasks) + ItemIds(wf.branches);
    CircuitsAreDependencyCycles(wf, adj, Elements(allIds));
    cycle := SearchFrom(allIds, adj);
  }

  /** Checks all workflows, in any order, and names those with a cycle. */
  method CheckWorkflows(workflows: seq<(string, Workflow)>) returns (ok: bool, failed: seq<string>)
    ensures ok <==> forall k :: 0 <= k < |workflows| ==> !IsCyclic(workflows[k].1)
    ensures forall name :: name in failed <==>
      exists k :: 0 <= k < |workflows| && workflows[k].0 == name && IsCyclic(workflows[k].1)
  {
    ok, failed := true, [];
    for k := 0 to |workflows|
      invariant ok <==> forall i :: 0 <= i < k ==> !IsCyclic(workflows[i].1)
      invariant forall name :: name in failed <==>
        exists i :: 0 <= i < k && workflows[i].0 == name && IsCyclic(workflows[i].1)
    {
      var cycle := CheckWorkflow(workflows[k].1);
      if cycle {
        failed := failed + [workflows[k].0];
        ok := false;
      }
    }
  }
}
