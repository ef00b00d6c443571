/** Walks and circuits in graphs given by successor sets. */
module Walks {
  import opened Seqs

  /** The successors of every node; a node without an entry has none. */
  type Adjacency = map<string, set<string>>

  function Succ(adj: Adjacency, u: string): set<string> {
    if u in adj then adj[u] else {}
  }

  ghost predicate Walk(adj: Adjacency, p: seq<string>) {
    |p| > 0 && forall k :: 0 < k < |p| ==> p[k] in Succ(adj, p[k - 1])
  }

  /** A closed walk of at least one edge. */
  ghost predicate Circuit(adj: Adjacency, p: seq<string>) {
    Walk(adj, p) && |p| > 1 && p[0] == p[|p| - 1]
  }

  /** A circuit that can be walked into from one of the roots. */
  ghost predicate CircuitFrom(adj: Adjacency, roots: set<string>) {
    exists w, p :: Walk(adj, w) && w[0] in roots && Circuit(adj, p) && p[0] == w[|w| - 1]
  }

  /** Every node that occurs in the graph. */
  ghost function AllNodes(adj: Adjacency): (all: set<string>)
    ensures adj.Keys <= all && forall u :: Succ(adj, u) <= all
  {
    adj.Keys + set u, v | u in adj && v in adj[u] :: v
  }

  lemma WidenRoots(adj: Adjacency, roots: set<string>, more: set<string>)
    requires CircuitFrom(adj, roots) && roots <= more
    ensures CircuitFrom(adj, more)
  {
    var w, p :| Walk(adj, w) && w[0] in roots && Circuit(adj, p) && p[0] == w[|w| - 1];
    assert w[0] in more;
  }

  /** More edges keep every walk. */
  lemma WalkGrows(adj: Adjacency, more: Adjacency, p: seq<string>)
    requires Walk(adj, p) && forall u :: Succ(adj, u) <= Succ(more, u)
    ensures Walk(more, p)
  {
    forall k | 0 < k < |p| ensures p[k] in Succ(more, p[k - 1]) { assert p[k] in Succ(adj, p[k - 1]); }
  }

  lemma CircuitFromGrows(adj: Adjacency, more: Adjacency, roots: set<string>)
    requires CircuitFrom(adj, roots) && forall u :: Succ(adj, u) <= Succ(more, u)
    ensures CircuitFrom(more, roots)
  {
    var w, p :| Walk(adj, w) && w[0] in roots && Circuit(adj, p) && p[0] == w[|w| - 1];
    WalkGrows(adj, more, w);
    WalkGrows(adj, more, p);
    assert Circuit(more, p);
  }

  // ----- cutting and joining walks -----

  lemma SubWalk(adj: Adjacency, p: seq<string>, i: nat, j: nat)
    requires Walk(adj, p) && i < j <= |p|
    ensures Walk(adj, p[i..j])
  {
    var q := p[i..j];
    forall k | 0 < k < |q| ensures q[k] in Succ(adj, q[k - 1]) {
      assert q[k] == p[i + k] && q[k - 1] == p[i + k - 1];
    }
  }

  /** Two walks joined by an edge. */
  lemma WalkJoin(adj: Adjacency, a: seq<string>, b: seq<string>)
    requires Walk(adj, a) && Walk(adj, b) && b[0] in Succ(adj, a[|a| - 1])
    ensures Walk(adj, a + b)
  {
    var q := a + b;
    forall k | 0 < k < |q| ensures q[k] in Succ(adj, q[k - 1]) {
      if k > |a| { assert q[k] == b[k - |a|] && q[k - 1] == b[k - |a| - 1]; }
    }
  }

  /** A walk and one that starts where it ends. */
  lemma WalkContinues(adj: Adjacency, a: seq<string>, b: seq<string>)
    requires Walk(adj, a) && Walk(adj, b) && a[|a| - 1] == b[0]
    ensures Walk(adj, a + b[1..]) && (a + b[1..])[|a + b[1..]| - 1] == b[|b| - 1]
  {
    if |b| > 1 {
      SubWalk(adj, b, 1, |b|);
      assert b[1..|b|] == b[1..];
      WalkJoin(adj, a, b[1..]);
    } else {
      assert a + b[1..] == a;
    }
  }

  /** A walk without repetition between the same ends. */
  lemma {:induction false} SimpleWalk(adj: Adjacency, p: seq<string>) returns (q: seq<string>)
    requires Walk(adj, p)
    ensures Walk(adj, q) && Distinct(q) && q[0] == p[0] && q[|q| - 1] == p[|p| - 1]
    decreases |p|
  {
    if Distinct(p) {
      q := p;
    } else {
      var i: nat, j: nat :| i < j < |p| && p[i] == p[j];
      SubWalk(adj, p, 0, i + 1);
      SubWalk(adj, p, j, |p|);
      var front, back := p[0..i + 1], p[j..|p|];
      WalkContinues(adj, front, back);
      q := SimpleWalk(adj, front + back[1..]);
    }
  }

  /** The walk up to its first node in S. */
  lemma {:induction false} WalkUpTo(adj: Adjacency, p: seq<string>, S: set<string>) returns (q: seq<string>)
    requires Walk(adj, p) && p[|p| - 1] in S
    ensures Walk(adj, q) && q <= p && q[|q| - 1] in S
    ensures forall k :: 0 <= k < |q| - 1 ==> q[k] !in S
    decreases |p|
  {
    if k: nat :| k < |p| - 1 && p[k] in S {
      SubWalk(adj, p, 0, k + 1);
      q := WalkUpTo(adj, p[0..k + 1], S);
    } else {
      q := p;
    }
  }

  // ----- reachable nodes -----

  ghost predicate ReachedFrom(adj: Adjacency, roots: set<string>, u: string) {
    exists w :: Walk(adj, w) && w[0] in roots && w[|w| - 1] == u
  }

  lemma RootIsReached(adj: Adjacency, roots: set<string>, u: string)
    requires u in roots
    ensures ReachedFrom(adj, roots, u)
  {
    assert Walk(adj, [u]) && [u][0] in roots && [u][|[u]| - 1] == u;
  }

  lemma CircuitIsReached(adj: Adjacency, roots: set<string>, p: seq<string>)
    requires Circuit(adj, p) && ReachedFrom(adj, roots, p[0])
    ensures CircuitFrom(adj, roots)
  {
    var w :| Walk(adj, w) && w[0] in roots && w[|w| - 1] == p[0];
  }

  lemma SuccessorIsReached(adj: Adjacency, roots: set<string>, u: string, v: string)
    requires ReachedFrom(adj, roots, u) && v in Succ(adj, u)
    ensures ReachedFrom(adj, roots, v)
  {
    var w :| Walk(adj, w) && w[0] in roots && w[|w| - 1] == u;
    WalkJoin(adj, w, [v]);
    var more := w + [v];
    assert Walk(adj, more) && more[0] in roots && more[|more| - 1] == v;
  }

  ghost function ReachedNodes(adj: Adjacency, roots: set<string>): (R: set<string>)
    ensures roots <= R && forall u :: u in R <==> ReachedFrom(adj, roots, u)
    ensures forall u :: u in R ==> Succ(adj, u) <= R
  {
    var R := set u | u in AllNodes(adj) + roots && ReachedFrom(adj, roots, u);
    forall u | ReachedFrom(adj, roots, u) ensures u in R { ReachedOccurs(adj, roots, u); }
    forall u | u in roots ensures u in R { RootIsReached(adj, roots, u); }
    forall u, v | u in R && v in Succ(adj, u) ensures v in R { SuccessorIsReached(adj, roots, u, v); }
    R
  }

  lemma ReachedOccurs(adj: Adjacency, roots: set<string>, u: string)
    requires ReachedFrom(adj, roots, u)
    ensures u in AllNodes(adj) + roots
  {
    var w :| Walk(adj, w) && w[0] in roots && w[|w| - 1] == u;
    if |w| > 1 { assert u in Succ(adj, w[|w| - 2]); }
  }

  // ----- finishing order -----

  /** Every finished node's successors finished before it. */
  ghost predicate ClosedOrder(adj: Adjacency, finished: seq<string>) {
    forall i :: 0 <= i < |finished| ==> Succ(adj, finished[i]) <= Elements(finished[..i])
  }

  lemma ClosedOrderExtend(adj: Adjacency, finished: seq<string>, node: string)
    requires ClosedOrder(adj, finished) && Succ(adj, node) <= Elements(finished)
    ensures ClosedOrder(adj, finished + [node])
  {
    var f := finished + [node];
    forall i | 0 <= i < |f| ensures Succ(adj, f[i]) <= Elements(f[..i]) {
      if i < |finished| {
        assert f[..i] == finished[..i];
      } else {
        assert f[..i] == finished;
      }
    }
  }

  lemma {:induction false} WalkWithin(adj: Adjacency, S: set<string>, u: string, len: nat) returns (p: seq<string>)
    requires u in S && len > 0 && forall v :: v in S ==> Succ(adj, v) * S != {}
    ensures Walk(adj, p) && |p| == len && p[0] == u && Elements(p) <= S
    decreases len
  {
    if len == 1 {
      p := [u];
    } else {
      var v :| v in Succ(adj, u) * S;
      var rest := WalkWithin(adj, S, v, len - 1);
      WalkJoin(adj, [u], rest);
      p := [u] + rest;
    }
  }

  /** A non-empty set in which every node has a successor of the set contains a circuit. */
  lemma StuckSetHasCircuit(adj: Adjacency, S: set<string>) returns (p: seq<string>)
    requires S != {} && forall v :: v in S ==> Succ(adj, v) * S != {}
    ensures Circuit(adj, p) && p[0] in S
  {
    var u :| u in S;
    var q := WalkWithin(adj, S, u, |S| + 1);
    if Distinct(q) {
      DistinctSize(q);
      SubsetSize(Elements(q), S);
      assert false;
    }
    var i: nat, j: nat :| i < j < |q| && q[i] == q[j];
    SubWalk(adj, q, i, j + 1);
    p := q[i..j + 1];
    assert q[i] in Elements(q);
  }

  /** A closed set of nodes without circuits can be listed with every node after its successors. */
  lemma {:induction false} ClosedOrderExists(adj: Adjacency, R: set<string>) returns (finished: seq<string>)
    requires forall u :: u in R ==> Succ(adj, u) <= R
    requires forall p :: Circuit(adj, p) ==> p[0] !in R
    ensures ClosedOrder(adj, finished) && Distinct(finished) && Elements(finished) == R
  {
    finished := [];
    var rest := R;
    while rest != {}
      invariant rest <= R && Elements(finished) == R - rest
      invariant ClosedOrder(adj, finished) && Distinct(finished)
      decreases rest
    {
      if forall v :: v in rest ==> Succ(adj, v) * rest != {} {
        var p := StuckSetHasCircuit(adj, rest);
        assert false;
      }
      var v :| v in rest && Succ(adj, v) * rest == {};
      forall x | x in Succ(adj, v) ensures x in Elements(finished) { assert x !in Succ(adj, v) * rest; }
      ClosedOrderExtend(adj, finished, v);
      DistinctConcat(finished, [v]);
      assert Elements(finished + [v]) == Elements(finished) + {v};
      finished, rest := finished + [v], rest - {v};
    }
  }
}
