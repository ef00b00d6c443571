/** Depth-first search for a cycle with shared `visited` and `in_stack` sets
    (crates/vil_cli/src/checker.rs, `dfs_cycle` and `dfs_wf`). */
module CycleSearch {
  import opened Seqs
  import opened Walks

  // ----- finishing order -----

  lemma {:induction false} WalkStaysFinished(adj: Adjacency, finished: seq<string>, p: seq<string>, i: nat)
    requires ClosedOrder(adj, finished) && Walk(adj, p) && i < |finished| && finished[i] == p[0]
    ensures exists j :: 0 <= j <= i && finished[j] == p[|p| - 1] && (|p| > 1 ==> j < i)
    decreases |p|
  {
    if |p| > 1 {
      assert p[1] in Succ(adj, p[0]);
      assert p[1] in Elements(finished[..i]);
      var i': nat :| i' < i && finished[..i][i'] == p[1];
      assert Walk(adj, p[1..]) by {
        forall k | 0 < k < |p[1..]| ensures p[1..][k] in Succ(adj, p[1..][k - 1]) {
          assert p[k + 1] in Succ(adj, p[k]);
        }
      }
      WalkStaysFinished(adj, finished, p[1..], i');
    }
  }

  /** No circuit passes through a finished node. */
  lemma FinishedNodeOnNoCircuit(adj: Adjacency, finished: seq<string>, p: seq<string>)
    requires ClosedOrder(adj, finished) && Distinct(finished) && Circuit(adj, p)
    ensures p[0] !in finished
  {
    if p[0] in finished {
      var i: nat :| i < |finished| && finished[i] == p[0];
      WalkStaysFinished(adj, finished, p, i);
    }
  }

  /** When all roots are finished, no circuit can be reached from them. */
  lemma FinishedRootsReachNoCircuit(adj: Adjacency, finished: seq<string>, roots: set<string>)
    requires ClosedOrder(adj, finished) && Distinct(finished) && roots <= Elements(finished)
    ensures !CircuitFrom(adj, roots)
  {
    if CircuitFrom(adj, roots) {
      var w, p :| Walk(adj, w) && w[0] in roots && Circuit(adj, p) && p[0] == w[|w| - 1];
      var i: nat :| i < |finished| && finished[i] == w[0];
      WalkStaysFinished(adj, finished, w, i);
      FinishedNodeOnNoCircuit(adj, finished, p);
    }
  }

  /** An edge from the top of the stack back into the stack closes a circuit reachable from the stack's bottom. */
  lemma BackEdgeClosesCircuit(adj: Adjacency, stack: seq<string>, next: string)
    requires Walk(adj, stack) && next in stack && next in Succ(adj, stack[|stack| - 1])
    ensures CircuitFrom(adj, {stack[0]})
  {
    var i: nat :| i < |stack| && stack[i] == next;
    var p, w := stack[i..] + [next], stack[..i + 1];
    assert Walk(adj, w);
    forall k | 0 < k < |p| ensures p[k] in Succ(adj, p[k - 1]) {
      if k < |stack| - i { assert p[k] == stack[i + k] && p[k - 1] == stack[i + k - 1]; }
    }
    assert Circuit(adj, p) && p[0] == w[|w| - 1] && w[0] in {stack[0]};
  }

  /** The search state shared by all calls. */
  class CycleFinder {
    var visited: set<string>
    var inStack: set<string>
    ghost var stack: seq<string>     // the calls in progress, outermost first
    ghost var finished: seq<string>  // the completed nodes, in order of completion

    ghost predicate Valid(adj: Adjacency)
      reads this
    {
      && visited == inStack + Elements(finished)
      && inStack == Elements(stack)
      && inStack !! Elements(finished)
      && Distinct(stack) && Distinct(finished)
      && (stack != [] ==> Walk(adj, stack))
      && ClosedOrder(adj, finished)
    }

    constructor ()
      ensures visited == {} && inStack == {} && stack == [] && finished == []
      ensures forall adj :: Valid(adj)
    {
      visited, inStack, stack, finished := {}, {}, [], [];
    }

    /** A call for node begins: it is visited, and on the stack. */
    method Enter(ghost adj: Adjacency, node: string)
      requires Valid(adj) && node !in visited
      requires stack != [] ==> node in Succ(adj, stack[|stack| - 1])
      modifies this
      ensures Valid(adj) && visited == old(visited) + {node}
      ensures stack == old(stack) + [node] && finished == old(finished)
    {
      visited := visited + {node};
      inStack := inStack + {node};
      stack := stack + [node];
    }

    /** The call for node ends: it leaves the stack, and is finished. */
    method Leave(ghost adj: Adjacency, node: string)
      requires Valid(adj) && stack != [] && stack[|stack| - 1] == node && Succ(adj, node) <= Elements(finished)
      modifies this
      ensures Valid(adj) && visited == old(visited)
      ensures stack == old(stack)[..|old(stack)| - 1]
      ensures finished == old(finished) + [node] && Elements(finished) == Elements(old(finished)) + {node}
    {
      inStack := inStack - {node};
      ghost var s, f := stack, finished;
      stack := stack[..|stack| - 1];
      finished := finished + [node];
      assert s == stack + [node];
      FinishOne(adj, stack, f, node);
    }

    /** Moving the top of the stack to the finished nodes. */
    static lemma FinishOne(adj: Adjacency, stack: seq<string>, finished: seq<string>, node: string)
      requires Distinct(stack + [node]) && Distinct(finished) && Elements(stack + [node]) !! Elements(finished)
      requires Walk(adj, stack + [node]) && ClosedOrder(adj, finished) && Succ(adj, node) <= Elements(finished)
      ensures Elements(stack) == Elements(stack + [node]) - {node}
      ensures Elements(finished + [node]) == Elements(finished) + {node}
      ensures Distinct(stack) && Distinct(finished + [node]) && Elements(stack) !! Elements(finished + [node])
      ensures stack != [] ==> Walk(adj, stack)
      ensures ClosedOrder(adj, finished + [node])
    {
      var s, f := stack + [node], finished + [node];
      assert Elements(s) == Elements(stack) + {node};
      assert s[|stack|] == node;
      assert forall i :: 0 <= i < |stack| ==> s[i] == stack[i];
      DistinctConcat(finished, [node]);
      assert stack != [] ==> Walk(adj, s[..|stack|]);
      ClosedOrderExtend(adj, finished, node);
    }

    /** What a call that found nothing leaves behind: the node is finished, the stack is as it was. */
    twostate predicate Completed(adj: Adjacency, all: set<string>, node: string)
      reads this
    {
      && Valid(adj)
      && stack == old(stack)
      && old(visited) <= visited <= all
      && Elements(old(finished)) + {node} <= Elements(finished)
    }

    /** Searches from node, with successors kept in a list (`dfs_wf`). */
    method DfsList(node: string, lists: map<string, seq<string>>, ghost adj: Adjacency, ghost all: set<string>)
      returns (cycle: bool)
      requires Valid(adj) && node !in visited && node in all && visited <= all
      requires adj.Keys == lists.Keys && forall u :: u in lists ==> adj[u] == Elements(lists[u])
      requires forall u :: Succ(adj, u) <= all
      requires stack != [] ==> node in Succ(adj, stack[|stack| - 1])
      modifies this
      ensures cycle ==> CircuitFrom(adj, {(old(stack) + [node])[0]})
      ensures !cycle ==> Completed(adj, all, node)
      decreases all - visited, 1
    {
      Enter(adj, node);
      ghost var entered := stack;
      if node in lists {
        var neighbors := lists[node];
        for k := 0 to |neighbors|
          invariant Valid(adj) && stack == entered
          invariant old(visited) + {node} <= visited <= all
          invariant Elements(old(finished)) + Elements(neighbors[..k]) <= Elements(finished)
        {
          var next := neighbors[k];
          assert next in Succ(adj, node);
          var found := FollowList(next, lists, adj, all);
          if found { return true; }
          assert neighbors[..k + 1] == neighbors[..k] + [next];
        }
        assert neighbors[..|neighbors|] == neighbors;
      }
      Leave(adj, node);
      return false;
    }

    /** Follows one edge from the top of the stack. */
    method FollowList(next: string, lists: map<string, seq<string>>, ghost adj: Adjacency, ghost all: set<string>)
      returns (cycle: bool)
      requires Valid(adj) && visited <= all
      requires adj.Keys == lists.Keys && forall u :: u in lists ==> adj[u] == Elements(lists[u])
      requires forall u :: Succ(adj, u) <= all
      requires stack != [] && next in Succ(adj, stack[|stack| - 1])
      modifies this
      ensures cycle ==> CircuitFrom(adj, {old(stack)[0]})
      ensures !cycle ==> Completed(adj, all, next)
      decreases all - visited, 2
    {
      if next !in visited {
        cycle := DfsList(next, lists, adj, all);
      } else if next in inStack {
        BackEdgeClosesCircuit(adj, stack, next);
        cycle := true;
      } else {
        cycle := false;
      }
    }

    /** Searches from node, with successors kept in a hash set, visited in any order (`dfs_cycle`). */
    method DfsSet(node: string, adj: Adjacency, ghost all: set<string>) returns (cycle: bool)
      requires Valid(adj) && node !in visited && node in all && visited <= all
      requires forall u :: Succ(adj, u) <= all
      requires stack != [] ==> node in Succ(adj, stack[|stack| - 1])
      modifies this
      ensures cycle ==> CircuitFrom(adj, {(old(stack) + [node])[0]})
      ensures !cycle ==> Completed(adj, all, node)
      decreases all - visited, 1
    {
      Enter(adj, node);
      if node in adj {
        var found := FollowAll(node, adj[node], adj, all);
        if found { return true; }
      }
      Leave(adj, node);
      return false;
    }

    /** Follows the edges from the top of the stack one after the other, in any order. */
    method FollowAll(node: string, neighbors: set<string>, adj: Adjacency, ghost all: set<string>) returns (cycle: bool)
      requires Valid(adj) && visited <= all && stack != [] && stack[|stack| - 1] == node
      requires neighbors == Succ(adj, node) && forall u :: Succ(adj, u) <= all
      modifies this
      ensures cycle ==> CircuitFrom(adj, {old(stack)[0]})
      ensures !cycle ==> Valid(adj) && stack == old(stack) && old(visited) <= visited <= all
      ensures !cycle ==> Elements(old(finished)) + neighbors <= Elements(finished)
      decreases all - visited, 3
    {
      var rest := neighbors;
      while rest != {}
        invariant rest <= neighbors
        invariant Valid(adj) && stack == old(stack)
        invariant old(visited) <= visited <= all
        invariant Elements(old(finished)) + (neighbors - rest) <= Elements(finished)
        decreases rest
      {
        var next :| next in rest;
        rest := rest - {next};
        var found := FollowSet(next, adj, all);
        if found { return true; }
      }
      return false;
    }

    method FollowSet(next: string, adj: Adjacency, ghost all: set<string>) returns (cycle: bool)
      requires Valid(adj) && visited <= all
      requires forall u :: Succ(adj, u) <= all
      requires stack != [] && next in Succ(adj, stack[|stack| - 1])
      modifies this
      ensures cycle ==> CircuitFrom(adj, {old(stack)[0]})
      ensures !cycle ==> Completed(adj, all, next)
      decreases all - visited, 2
    {
      if next !in visited {
        cycle := DfsSet(next, adj, all);
      } else if next in inStack {
        BackEdgeClosesCircuit(adj, stack, next);
        cycle := true;
      } else {
        cycle := false;
      }
    }
  }
}
