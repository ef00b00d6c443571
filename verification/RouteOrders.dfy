/** What the route check reports over all key orders of the hash map
    (crates/vil_cli/src/checker.rs:143-205). */
module RouteOrders {
  import opened Seqs
  import opened Walks
  import opened CycleSearch
  import opened RouteCheck

  /** The edges without a reverse edge. */
  function OneWayEdges(adj: Adjacency): (oneWay: Adjacency)
    ensures oneWay.Keys == adj.Keys
    ensures forall u, v :: v in Succ(oneWay, u) <==> v in Succ(adj, u) && u !in Succ(adj, v)
  {
    map u | u in adj :: set v | v in adj[u] && u !in Succ(adj, v)
  }

  ghost predicate ReportedInEveryOrder(adj: Adjacency, declared: set<string>) {
    forall keys :: Enumerates(keys, adj) ==> Reports(adj, keys, declared)
  }

  ghost predicate ReportedInSomeOrder(adj: Adjacency, declared: set<string>) {
    exists keys :: Enumerates(keys, adj) && Reports(adj, keys, declared)
  }

  // ----- reported in every order -----

  lemma OneWayCircuitIsReported(adj: Adjacency, keys: seq<string>, declared: set<string>)
    requires Enumerates(keys, adj) && CircuitFrom(OneWayEdges(adj), declared)
    ensures Reports(adj, keys, declared)
  {
    CircuitFromGrows(OneWayEdges(adj), CleanedOf(adj, keys), declared);
  }

  /** Earlier keys were finished later. */
  ghost predicate Opposed(finished: seq<string>, keys: seq<string>) {
    forall a, b, i, j ::
      0 <= a < b < |keys| && 0 <= i < |finished| && 0 <= j < |finished| ==>
      finished[i] == keys[a] && finished[j] == keys[b] ==> j < i
  }

  /** The listed members of K, last one first. */
  lemma {:induction false} ReverseOf(finished: seq<string>, K: set<string>) returns (keys: seq<string>)
    requires Distinct(finished)
    ensures Distinct(keys) && Elements(keys) == Elements(finished) * K && Opposed(finished, keys)
    decreases |finished|
  {
    if finished == [] {
      keys := [];
    } else {
      var m := |finished| - 1;
      var front, last := finished[..m], finished[m];
      assert finished == front + [last] && Elements(finished) == Elements(front) + {last};
      var rest := ReverseOf(front, K);
      assert forall x :: x in rest ==> x in Elements(rest);
      if last in K {
        keys := [last] + rest;
        DistinctConcat([last], rest);
        assert Elements(keys) == {last} + Elements(rest);
        OpposedPrepend(front, rest, last);
      } else {
        keys := rest;
        OpposedSkip(front, rest, last);
      }
    }
  }

  lemma OpposedPrepend(front: seq<string>, rest: seq<string>, last: string)
    requires Opposed(front, rest) && Distinct(front + [last]) && Elements(rest) <= Elements(front)
    ensures Opposed(front + [last], [last] + rest)
  {
    var finished, keys := front + [last], [last] + rest;
    forall a, b, i, j | 0 <= a < b < |keys| && 0 <= i < |finished| && 0 <= j < |finished| &&
      finished[i] == keys[a] && finished[j] == keys[b] ensures j < i
    {
      PlaceInFront(front, rest, last, b - 1, j);
      if a == 0 {
        assert finished[|front|] == finished[i];
      } else {
        PlaceInFront(front, rest, last, a - 1, i);
      }
    }
  }

  lemma OpposedSkip(front: seq<string>, rest: seq<string>, last: string)
    requires Opposed(front, rest) && Distinct(front + [last]) && Elements(rest) <= Elements(front)
    ensures Opposed(front + [last], rest)
  {
    var finished := front + [last];
    forall a, b, i, j | 0 <= a < b < |rest| && 0 <= i < |finished| && 0 <= j < |finished| &&
      finished[i] == rest[a] && finished[j] == rest[b] ensures j < i
    {
      PlaceInFront(front, rest, last, a, i);
      PlaceInFront(front, rest, last, b, j);
    }
  }

  lemma PlaceInFront(front: seq<string>, rest: seq<string>, last: string, b: nat, j: nat)
    requires Distinct(front + [last]) && Elements(rest) <= Elements(front)
    requires b < |rest| && j <= |front| && (front + [last])[j] == rest[b]
    ensures j < |front| && front[j] == rest[b]
  {
    assert rest[b] in Elements(rest);
    var j': nat :| j' < |front| && front[j'] == rest[b];
    assert (front + [last])[j'] == front[j'];
  }

  /** The nodes outside first, then the finished nodes, last finished first. */
  lemma QuietOrder(adj: Adjacency, finished: seq<string>) returns (outside: seq<string>, inside: seq<string>)
    requires Distinct(finished)
    ensures Enumerates(outside + inside, adj)
    ensures Elements(outside) !! Elements(finished) && Elements(inside) <= Elements(finished) &&
      Opposed(finished, inside)
  {
    outside := ListOf(adj.Keys - Elements(finished));
    inside := ReverseOf(finished, adj.Keys);
    forall x | x in inside ensures x !in outside { assert x in Elements(inside) && x !in Elements(outside); }
    DistinctConcat(outside, inside);
    assert Elements(outside + inside) == Elements(outside) + Elements(inside);
  }

  lemma PlaceBehind(outside: seq<string>, inside: seq<string>, u: string)
    requires u in outside + inside && u !in Elements(outside)
    ensures IndexOf(outside + inside, u) >= |outside|
  {
    var a := IndexOf(outside + inside, u);
    assert (outside + inside)[a] == u;
  }

  /** In that order every surviving edge out of a finished node leads to one finished before it. */
  lemma QuietEdge(adj: Adjacency, finished: seq<string>, outside: seq<string>, inside: seq<string>, i: nat, v: string)
    requires ClosedOrder(OneWayEdges(adj), finished) && Distinct(finished) && i < |finished|
    requires Enumerates(outside + inside, adj)
    requires Elements(outside) !! Elements(finished) && Elements(inside) <= Elements(finished) &&
      Opposed(finished, inside)
    requires Keeps(adj, outside + inside, finished[i], v)
    ensures v in finished[..i]
  {
    var u, keys, n := finished[i], outside + inside, |outside|;
    if u !in Succ(adj, v) {
      assert v in Succ(OneWayEdges(adj), u);
    } else {
      var a, b := IndexOf(keys, u), IndexOf(keys, v);
      assert u in Elements(finished);
      PlaceBehind(outside, inside, u);
      assert inside[a - n] == u && inside[b - n] == v;
      assert v in Elements(inside) && v in finished;
      var j :| 0 <= j < |finished| && finished[j] == v;
      assert finished[..i][j] == v;
    }
  }

  /** Without a circuit of one-way edges, some key order passes. */
  lemma SomeOrderPasses(adj: Adjacency, declared: set<string>) returns (keys: seq<string>)
    requires !CircuitFrom(OneWayEdges(adj), declared)
    ensures Enumerates(keys, adj) && !Reports(adj, keys, declared)
  {
    var oneWay := OneWayEdges(adj);
    var R := ReachedNodes(oneWay, declared);
    forall p | Circuit(oneWay, p) ensures p[0] !in R {
      if p[0] in R { CircuitIsReached(oneWay, declared, p); }
    }
    var finished := ClosedOrderExists(oneWay, R);
    var outside, inside := QuietOrder(adj, finished);
    keys := outside + inside;
    var cleaned := CleanedOf(adj, keys);
    forall i | 0 <= i < |finished| ensures Succ(cleaned, finished[i]) <= Elements(finished[..i]) {
      forall v | v in Succ(cleaned, finished[i]) ensures v in Elements(finished[..i]) {
        QuietEdge(adj, finished, outside, inside, i, v);
      }
    }
    FinishedRootsReachNoCircuit(cleaned, finished, declared);
  }

  /** The check reports whatever the hash order exactly when the one-way edges alone lead from a declared node
      into a circuit. */
  lemma ReportedInEveryOrderExactly(adj: Adjacency, declared: set<string>)
    ensures ReportedInEveryOrder(adj, declared) <==> CircuitFrom(OneWayEdges(adj), declared)
  {
    if CircuitFrom(OneWayEdges(adj), declared) {
      forall keys | Enumerates(keys, adj) ensures Reports(adj, keys, declared) {
        OneWayCircuitIsReported(adj, keys, declared);
      }
    } else {
      var keys := SomeOrderPasses(adj, declared);
    }
  }

  /** With all hosts declared: exactly when some cycle of the routes uses no bidirectional pair. */
  lemma EveryOrderMeansOneWayCycle(adj: Adjacency, declared: set<string>)
    requires adj.Keys <= declared
    ensures ReportedInEveryOrder(adj, declared) <==> exists p :: Circuit(adj, p) && OneWay(adj, p)
  {
    ReportedInEveryOrderExactly(adj, declared);
    var oneWay := OneWayEdges(adj);
    if CircuitFrom(oneWay, declared) {
      var w, p :| Walk(oneWay, w) && w[0] in declared && Circuit(oneWay, p) && p[0] == w[|w| - 1];
      WalkGrows(oneWay, adj, p);
      assert Circuit(adj, p) && OneWay(adj, p);
    }
    if p :| Circuit(adj, p) && OneWay(adj, p) {
      assert p[1] in Succ(oneWay, p[0]);
      assert Circuit(oneWay, p) && Walk(oneWay, [p[0]]) && [p[0]][0] in declared && p[0] == [p[0]][|[p[0]]| - 1];
    }
  }

  // ----- reported in some order -----

  /** Some edge of p has no reverse edge. */
  ghost predicate UsesOneWay(adj: Adjacency, p: seq<string>) {
    exists k :: 0 < k < |p| && p[k - 1] !in Succ(adj, p[k])
  }

  /** A circuit with a one-way edge that can be walked into from a declared node. */
  ghost predicate MixedCircuitFrom(adj: Adjacency, declared: set<string>) {
    exists w, p :: Walk(adj, w) && w[0] in declared && Circuit(adj, p) && p[0] == w[|w| - 1] && UsesOneWay(adj, p)
  }

  /** A surviving walk without one-way edges climbs in the key order. */
  lemma {:induction false} BothWaysClimb(adj: Adjacency, keys: seq<string>, p: seq<string>, k: nat)
    requires Enumerates(keys, adj) && Walk(CleanedOf(adj, keys), p) && !UsesOneWay(adj, p) && 0 < k < |p|
    ensures p[0] in keys && p[k] in keys && Before(keys, p[0], p[k])
  {
    assert p[k] in Succ(CleanedOf(adj, keys), p[k - 1]);
    assert Keeps(adj, keys, p[k - 1], p[k]);
    assert p[k - 1] in Elements(keys) && p[k] in Elements(keys);
    if k > 1 { BothWaysClimb(adj, keys, p, k - 1); }
  }

  lemma ReportUsesOneWay(adj: Adjacency, keys: seq<string>, declared: set<string>)
    requires Enumerates(keys, adj) && Reports(adj, keys, declared)
    ensures MixedCircuitFrom(adj, declared)
  {
    var cleaned := CleanedOf(adj, keys);
    var w, p :| Walk(cleaned, w) && w[0] in declared && Circuit(cleaned, p) && p[0] == w[|w| - 1];
    if !UsesOneWay(adj, p) { BothWaysClimb(adj, keys, p, |p| - 1); }
    WalkGrows(cleaned, adj, w);
    WalkGrows(cleaned, adj, p);
    assert Circuit(adj, p);
  }

  /** An edge between two keys survives when it leads forward in their order. */
  lemma ForwardEdgeSurvives(adj: Adjacency, keys: seq<string>, a: nat, b: nat)
    requires Enumerates(keys, adj) && a < b < |keys| && keys[b] in Succ(adj, keys[a])
    ensures keys[b] in Succ(CleanedOf(adj, keys), keys[a])
  {
    IndexOfDistinct(keys, a);
    IndexOfDistinct(keys, b);
    assert Keeps(adj, keys, keys[a], keys[b]);
  }

  /** A walk along keys in their order survives. */
  lemma ForwardWalkSurvives(adj: Adjacency, keys: seq<string>, a: nat, b: nat)
    requires Enumerates(keys, adj) && a < b <= |keys| && Walk(adj, keys[a..b])
    ensures Walk(CleanedOf(adj, keys), keys[a..b])
  {
    var p := keys[a..b];
    forall k | 0 < k < |p| ensures p[k] in Succ(CleanedOf(adj, keys), p[k - 1]) {
      assert p[k] == keys[a + k] && p[k - 1] == keys[a + k - 1];
      ForwardEdgeSurvives(adj, keys, a + k - 1, a + k);
    }
  }

  /** A simple walk q closed by a one-way edge, and a walk t into it that meets it only at its end. */
  ghost predicate Lasso(adj: Adjacency, t: seq<string>, q: seq<string>, j: nat) {
    && Walk(adj, q) && Walk(adj, t)
    && q[0] in Succ(adj, q[|q| - 1]) && q[|q| - 1] !in Succ(adj, q[0])
    && j < |q| && t[|t| - 1] == q[j]
    && Distinct(t[..|t| - 1] + q)
  }

  /** Around the circuit of a lasso from position j. */
  function Around(q: seq<string>, j: nat): (c: seq<string>)
    requires j < |q|
    ensures |c| > 1 && c[0] == q[j] && c[|c| - 1] == q[j]
  {
    q[j..] + q[..j + 1]
  }

  /** The keys start with the nodes of a lasso, in its order. */
  ghost predicate LassoFirst(adj: Adjacency, t: seq<string>, q: seq<string>, keys: seq<string>) {
    && Enumerates(keys, adj)
    && |t| > 0 && |t| - 1 + |q| <= |keys|
    && keys[..|t| - 1] == t[..|t| - 1]
    && keys[|t| - 1..|t| - 1 + |q|] == q
  }

  /** The circuit of a lasso survives when its nodes are listed first. */
  lemma LassoCircuitSurvives(adj: Adjacency, t: seq<string>, q: seq<string>, j: nat, keys: seq<string>)
    requires Lasso(adj, t, q, j) && LassoFirst(adj, t, q, keys)
    ensures Circuit(CleanedOf(adj, keys), Around(q, j))
  {
    var cleaned, m := CleanedOf(adj, keys), |t| - 1;
    ForwardWalkSurvives(adj, keys, m, m + |q|);
    ClosingEdgeSurvives(adj, keys, q[|q| - 1], q[0]);
    SubWalk(cleaned, q, j, |q|);
    SubWalk(cleaned, q, 0, j + 1);
    assert q[j..|q|] == q[j..] && q[0..j + 1] == q[..j + 1];
    WalkJoin(cleaned, q[j..], q[..j + 1]);
  }

  lemma ClosingEdgeSurvives(adj: Adjacency, keys: seq<string>, x: string, y: string)
    requires Enumerates(keys, adj) && y in Succ(adj, x) && x !in Succ(adj, y)
    ensures y in Succ(CleanedOf(adj, keys), x)
  {
    assert Keeps(adj, keys, x, y);
  }

  /** So does the walk into it. */
  lemma LassoStemSurvives(adj: Adjacency, t: seq<string>, q: seq<string>, j: nat, keys: seq<string>)
    requires Lasso(adj, t, q, j) && LassoFirst(adj, t, q, keys)
    ensures Walk(CleanedOf(adj, keys), t)
  {
    var m := |t| - 1;
    assert keys[m..m + |q|][j] == keys[m + j];
    forall k | 0 < k < |t| ensures t[k] in Succ(CleanedOf(adj, keys), t[k - 1]) {
      assert keys[..m][k - 1] == t[k - 1];
      if k < m { assert keys[..m][k] == t[k]; }
      ForwardEdgeSurvives(adj, keys, k - 1, if k < m then k else m + j);
    }
  }

  /** Listing the nodes of a lasso first makes the check report. */
  lemma LassoSurvives(adj: Adjacency, t: seq<string>, q: seq<string>, j: nat, keys: seq<string>, declared: set<string>)
    requires Lasso(adj, t, q, j) && t[0] in declared && LassoFirst(adj, t, q, keys)
    ensures Reports(adj, keys, declared)
  {
    LassoCircuitSurvives(adj, t, q, j, keys);
    LassoStemSurvives(adj, t, q, j, keys);
  }

  /** A circuit with a one-way edge holds a simple walk that this edge closes, and a lasso leads into it. */
  lemma MixedCircuitHasLasso(adj: Adjacency, w: seq<string>, p: seq<string>)
    returns (t: seq<string>, q: seq<string>, j: nat)
    requires Walk(adj, w) && Circuit(adj, p) && p[0] == w[|w| - 1] && UsesOneWay(adj, p)
    ensures Lasso(adj, t, q, j) && t[0] == w[0]
  {
    var k: nat :| 0 < k < |p| && p[k - 1] !in Succ(adj, p[k]);
    assert p[k] in Succ(adj, p[k - 1]);
    SubWalk(adj, p, k, |p|);
    SubWalk(adj, p, 0, k);
    var back, front := p[k..|p|], p[0..k];
    WalkContinues(adj, back, front);
    q := SimpleWalk(adj, back + front[1..]);
    WalkContinues(adj, w, front);
    assert q[|q| - 1] in Elements(q);
    var stem := SimpleWalk(adj, w + front[1..]);
    t := WalkUpTo(adj, stem, Elements(q));
    j :| 0 <= j < |q| && q[j] == t[|t| - 1];
    DistinctConcat(t[..|t| - 1], q);
  }

  /** Some hash order reports exactly when a circuit with at least one one-way edge can be walked into from a
      declared node. */
  lemma ReportedInSomeOrderExactly(adj: Adjacency, declared: set<string>)
    ensures ReportedInSomeOrder(adj, declared) <==> MixedCircuitFrom(adj, declared)
  {
    if keys :| Enumerates(keys, adj) && Reports(adj, keys, declared) {
      ReportUsesOneWay(adj, keys, declared);
    }
    if MixedCircuitFrom(adj, declared) {
      var w, p :| Walk(adj, w) && w[0] in declared && Circuit(adj, p) && p[0] == w[|w| - 1] && UsesOneWay(adj, p);
      var t, q, j := MixedCircuitHasLasso(adj, w, p);
      var keys := LassoOrder(adj, t, q, j);
      LassoSurvives(adj, t, q, j, keys, declared);
    }
  }

  /** The nodes of a lasso first, then the other keys. */
  lemma LassoOrder(adj: Adjacency, t: seq<string>, q: seq<string>, j: nat) returns (keys: seq<string>)
    requires Lasso(adj, t, q, j)
    ensures LassoFirst(adj, t, q, keys)
  {
    var first := t[..|t| - 1] + q;
    forall x | x in first ensures x in adj {
      if i :| 0 <= i < |t| - 1 && t[i] == x {
        assert t[i + 1] in Succ(adj, x);
      } else {
        var i :| 0 <= i < |q| && q[i] == x;
        assert q[if i + 1 < |q| then i + 1 else 0] in Succ(adj, x);
      }
    }
    var rest := ListOf(adj.Keys - Elements(first));
    forall x | x in rest ensures x !in first { assert x in Elements(rest); }
    DistinctConcat(first, rest);
    keys := first + rest;
    assert Elements(keys) == Elements(first) + Elements(rest);
  }

  /** With all hosts declared: exactly when some cycle of the routes has an edge outside the bidirectional pairs. */
  lemma SomeOrderMeansMixedCycle(adj: Adjacency, declared: set<string>)
    requires adj.Keys <= declared
    ensures ReportedInSomeOrder(adj, declared) <==> exists p :: Circuit(adj, p) && UsesOneWay(adj, p)
  {
    ReportedInSomeOrderExactly(adj, declared);
    if p :| Circuit(adj, p) && UsesOneWay(adj, p) {
      assert p[1] in Succ(adj, p[0]);
      assert Walk(adj, [p[0]]) && [p[0]][0] in declared && p[0] == [p[0]][|[p[0]]| - 1];
    }
  }
}
