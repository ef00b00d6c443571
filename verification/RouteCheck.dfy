/** The route check: bidirectional pairs are reduced to one direction, then cycles are searched for
    (crates/vil_cli/src/checker.rs:143-216). */
module RouteCheck {
  import opened Seqs
  import opened Walks
  import opened CycleSearch

  datatype Route = Route(from: string, to: string)

  /** The part before the first dot. */
  function HostOf(endpoint: string): (host: string)
    ensures host <= endpoint && '.' !in host
    ensures host == endpoint || endpoint[|host|] == '.'
  {
    if endpoint == "" || endpoint[0] == '.' then "" else [endpoint[0]] + HostOf(endpoint[1..])
  }

  /** Some route leads from a port of a to a port of another node b. */
  ghost predicate RouteEdge(routes: seq<Route>, a: string, b: string) {
    a != b && exists k :: 0 <= k < |routes| && HostOf(routes[k].from) == a && HostOf(routes[k].to) == b
  }

  ghost predicate GraphOfRoutes(routes: seq<Route>, adj: Adjacency) {
    forall a, b :: b in Succ(adj, a) <==> RouteEdge(routes, a, b)
  }

  lemma RouteEdgeStep(routes: seq<Route>, k: nat)
    requires k < |routes|
    ensures forall a, b :: RouteEdge(routes[..k + 1], a, b) <==>
      RouteEdge(routes[..k], a, b) || (a != b && HostOf(routes[k].from) == a && HostOf(routes[k].to) == b)
  {
    forall a, b ensures RouteEdge(routes[..k + 1], a, b) <==>
      RouteEdge(routes[..k], a, b) || (a != b && HostOf(routes[k].from) == a && HostOf(routes[k].to) == b)
    {
      if RouteEdge(routes[..k], a, b) {
        var i :| 0 <= i < k && HostOf(routes[..k][i].from) == a && HostOf(routes[..k][i].to) == b;
        assert routes[..k + 1][i] == routes[..k][i];
      }
      if a != b && HostOf(routes[k].from) == a && HostOf(routes[k].to) == b {
        assert routes[..k + 1][k] == routes[k];
      }
      if RouteEdge(routes[..k + 1], a, b) {
        var i :| 0 <= i < k + 1 && HostOf(routes[..k + 1][i].from) == a && HostOf(routes[..k + 1][i].to) == b;
        if i < k { assert routes[..k][i] == routes[..k + 1][i]; }
      }
    }
  }

  method BuildGraph(routes: seq<Route>) returns (adj: Adjacency)
    ensures GraphOfRoutes(routes, adj)
  {
    adj := map[];
    for k := 0 to |routes|
      invariant GraphOfRoutes(routes[..k], adj)
    {
      RouteEdgeStep(routes, k);
      var from, to := HostOf(routes[k].from), HostOf(routes[k].to);
      if from != to {
        ghost var before := adj;
        adj := adj[from := Succ(adj, from) + {to}];
        assert forall u :: Succ(adj, u) == if u == from then Succ(before, from) + {to} else Succ(before, u);
      }
    }
    assert routes[..|routes|] == routes;
  }

  // ----- cleaning -----

  /** keys lists the nodes with outgoing routes, in the order the hash map yields them. */
  ghost predicate Enumerates(keys: seq<string>, adj: Adjacency) {
    Distinct(keys) && Elements(keys) == adj.Keys
  }

  predicate Before(keys: seq<string>, u: string, v: string)
    requires u in keys && v in keys
  {
    IndexOf(keys, u) < IndexOf(keys, v)
  }

  /** Edge u -> v survives unless v -> u exists too and v comes first in the key order. */
  ghost predicate Keeps(adj: Adjacency, keys: seq<string>, u: string, v: string)
    requires Elements(keys) == adj.Keys
  {
    v in Succ(adj, u) && (u in Succ(adj, v) ==> Before(keys, u, v))
  }

  /** The graph of the surviving edges. */
  ghost function CleanedOf(adj: Adjacency, keys: seq<string>): (cleaned: Adjacency)
    requires Elements(keys) == adj.Keys
    ensures forall u, v :: v in Succ(cleaned, u) <==> Keeps(adj, keys, u, v)
  {
    map u | u in adj :: set v | v in adj[u] && Keeps(adj, keys, u, v)
  }

  /** Part-way: the reverse edges of the first n keys have been removed. */
  ghost predicate CleanedUpTo(adj: Adjacency, keys: seq<string>, n: nat, current: Adjacency)
    requires Elements(keys) == adj.Keys
  {
    current.Keys == adj.Keys &&
    forall u, v :: v in Succ(current, u) <==> KeepsUpTo(adj, keys, n, u, v)
  }

  ghost predicate KeepsUpTo(adj: Adjacency, keys: seq<string>, n: nat, u: string, v: string)
    requires Elements(keys) == adj.Keys
  {
    v in Succ(adj, u) && (u in Succ(adj, v) ==> Before(keys, u, v) || IndexOf(keys, v) >= n || u == v)
  }

  /** What processing key a does to the edges. */
  function DropReverse(current: Adjacency, a: string, neighbors: set<string>): Adjacency {
    map u | u in current :: if u in neighbors then current[u] - {a} else current[u]
  }

  lemma CleanStep(adj: Adjacency, keys: seq<string>, n: nat, current: Adjacency)
    requires Enumerates(keys, adj) && n < |keys| && CleanedUpTo(adj, keys, n, current)
    requires forall u :: u !in Succ(adj, u)
    ensures CleanedUpTo(adj, keys, n + 1, DropReverse(current, keys[n], Succ(current, keys[n])))
  {
    var a := keys[n];
    var next := DropReverse(current, a, Succ(current, a));
    IndexOfDistinct(keys, n);
    forall u, v ensures v in Succ(next, u) <==> KeepsUpTo(adj, keys, n + 1, u, v) {
      assert v in Succ(next, u) <==> v in Succ(current, u) && !(v == a && u in Succ(current, a));
      if v in Succ(adj, u) && u in Succ(adj, v) {
        var i, j := IndexOf(keys, u), IndexOf(keys, v);
        assert keys[i] == u && keys[j] == v && i != j;
        assert v == a <==> j == n;
      }
    }
  }

  method Clean(adj: Adjacency, keys: seq<string>) returns (cleaned: Adjacency)
    requires Enumerates(keys, adj)
    requires forall u :: u !in Succ(adj, u)
    ensures cleaned == CleanedOf(adj, keys)
  {
    cleaned := adj;
    for n := 0 to |keys|
      invariant CleanedUpTo(adj, keys, n, cleaned)
    {
      var a := keys[n];
      CleanStep(adj, keys, n, cleaned);
      var neighbors := Succ(cleaned, a);
      cleaned := RemoveReverse(cleaned, a, neighbors);
    }
    forall u | u in adj ensures cleaned[u] == CleanedOf(adj, keys)[u] {
      forall v ensures v in Succ(cleaned, u) <==> v in Succ(CleanedOf(adj, keys), u) {
        assert Keeps(adj, keys, u, v) <==> KeepsUpTo(adj, keys, |keys|, u, v);
      }
      assert Succ(cleaned, u) == Succ(CleanedOf(adj, keys), u);
    }
    assert cleaned.Keys == CleanedOf(adj, keys).Keys;
  }

  /** Removes b -> a for every b that a leads to. */
  method RemoveReverse(current: Adjacency, a: string, neighbors: set<string>) returns (next: Adjacency)
    ensures next == DropReverse(current, a, neighbors)
  {
    next := current;
    var rest := neighbors;
    while rest != {}
      invariant rest <= neighbors
      invariant next == DropReverse(current, a, neighbors - rest)
      decreases rest
    {
      var b :| b in rest;
      rest := rest - {b};
      if b in next {
        next := next[b := next[b] - {a}];
      }
    }
    assert neighbors - {} == neighbors;
  }

  /** Cleaning keeps every one-way edge and exactly one direction of every bidirectional pair, in any key order. */
  lemma CleaningKeepsOneDirection(adj: Adjacency, keys: seq<string>, u: string, v: string)
    requires Enumerates(keys, adj) && u != v
    ensures v in Succ(CleanedOf(adj, keys), u) ==> v in Succ(adj, u)
    ensures v in Succ(adj, u) && u !in Succ(adj, v) ==> v in Succ(CleanedOf(adj, keys), u)
    ensures v in Succ(adj, u) && u in Succ(adj, v) ==>
      (v in Succ(CleanedOf(adj, keys), u) <==> u !in Succ(CleanedOf(adj, keys), v))
  {
    if v in Succ(adj, u) && u in Succ(adj, v) {
      assert u in Elements(keys) && v in Elements(keys);
      var i, j := IndexOf(keys, u), IndexOf(keys, v);
      assert keys[i] == u && keys[j] == v;
    }
  }

  // ----- the check -----

  /** Yields the keys in some order. */
  method AnyOrder(keySet: set<string>) returns (keys: seq<string>)
    ensures Distinct(keys) && Elements(keys) == keySet
  {
    keys := [];
    var rest := keySet;
    assert Elements(keys) == {};
    while rest != {}
      invariant rest <= keySet && Distinct(keys) && Elements(keys) == keySet - rest
      decreases rest
    {
      var a :| a in rest;
      rest := rest - {a};
      assert Elements(keys + [a]) == Elements(keys) + {a};
      keys := keys + [a];
    }
  }

  method SearchFrom(adj: Adjacency, declared: set<string>) returns (cycle: bool)
    ensures cycle <==> CircuitFrom(adj, declared)
  {
    ghost var all := AllNodes(adj) + declared;
    var search := new CycleFinder();
    var rest := declared;
    while rest != {}
      invariant rest <= declared
      invariant search.Valid(adj) && search.stack == [] && search.visited <= all
      invariant declared - rest <= Elements(search.finished)
      invariant fresh(search)
      decreases rest
    {
      var node :| node in rest;
      rest := rest - {node};
      if node !in search.visited {
        var found := search.DfsSet(node, adj, all);
        if found {
          WidenRoots(adj, {node}, declared);
          return true;
        }
      }
    }
    FinishedRootsReachNoCircuit(adj, search.finished, declared);
    return false;
  }

  /** The verdict for one key order: a circuit of the surviving edges can be reached from a declared node. */
  ghost predicate Reports(adj: Adjacency, keys: seq<string>, declared: set<string>)
    requires Enumerates(keys, adj)
  {
    CircuitFrom(CleanedOf(adj, keys), declared)
  }

  method CheckRoutes(routes: seq<Route>, declared: set<string>) returns (cycle: bool)
    ensures exists adj, keys ::
      GraphOfRoutes(routes, adj) && Enumerates(keys, adj) && (cycle <==> Reports(adj, keys, declared))
  {
    var adj := BuildGraph(routes);
    var keys := AnyOrder(adj.Keys);
    forall u ensures u !in Succ(adj, u) { assert !RouteEdge(routes, u, u); }
    var cleaned := Clean(adj, keys);
    cycle := SearchFrom(cleaned, declared);
    assert GraphOfRoutes(routes, adj) && Enumerates(keys, adj) && (cycle <==> Reports(adj, keys, declared));
  }

  // ----- what a verdict means for the routes -----

  /** A circuit without repeated nodes. */
  ghost predicate SimpleCircuit(adj: Adjacency, p: seq<string>) {
    Circuit(adj, p) && Distinct(p[..|p| - 1])
  }

  /** Every circuit contains one without repetition. */
  lemma {:induction false} CircuitContainsSimple(adj: Adjacency, p: seq<string>) returns (q: seq<string>)
    requires Circuit(adj, p)
    ensures SimpleCircuit(adj, q)
    decreases |p|
  {
    var m := |p| - 1;
    if Distinct(p[..m]) {
      q := p;
    } else {
      var i, j :| 0 <= i < j < m && p[..m][i] == p[..m][j];
      var inner := p[i..j + 1];
      forall k | 0 < k < |inner| ensures inner[k] in Succ(adj, inner[k - 1]) {
        assert inner[k] == p[i + k] && inner[k - 1] == p[i + k - 1];
      }
      q := CircuitContainsSimple(adj, inner);
    }
  }

  /** A reported cycle is real: the routes themselves contain a cycle through at least three different nodes. */
  lemma ReportedCycleIsReal(routes: seq<Route>, adj: Adjacency, keys: seq<string>, declared: set<string>)
    returns (q: seq<string>)
    requires GraphOfRoutes(routes, adj) && Enumerates(keys, adj) && Reports(adj, keys, declared)
    ensures SimpleCircuit(adj, q) && |q| - 1 >= 3
    ensures forall k :: 0 < k < |q| ==> RouteEdge(routes, q[k - 1], q[k])
  {
    var cleaned := CleanedOf(adj, keys);
    var w, p :| Walk(cleaned, w) && w[0] in declared && Circuit(cleaned, p) && p[0] == w[|w| - 1];
    q := CircuitContainsSimple(cleaned, p);
    forall k | 0 < k < |q| ensures q[k] in Succ(adj, q[k - 1]) && RouteEdge(routes, q[k - 1], q[k]) {
      assert Keeps(adj, keys, q[k - 1], q[k]);
    }
    assert q[1] in Succ(adj, q[0]) && RouteEdge(routes, q[0], q[1]);
    assert q[1] in Succ(cleaned, q[0]);
    CleaningKeepsOneDirection(adj, keys, q[0], q[1]);
  }

  /** No edge of p has a reverse edge. */
  ghost predicate OneWay(adj: Adjacency, p: seq<string>) {
    forall k :: 0 < k < |p| ==> p[k - 1] !in Succ(adj, p[k])
  }

  /** A cycle over one-way routes through a declared node is reported whatever the key order. */
  lemma OneWayCycleIsReported(adj: Adjacency, keys: seq<string>, declared: set<string>, p: seq<string>, k: nat)
    requires Enumerates(keys, adj)
    requires Circuit(adj, p) && OneWay(adj, p) && k < |p| && p[k] in declared
    ensures Reports(adj, keys, declared)
  {
    ForwardCycleIsReported(adj, keys, declared, p, k);
  }

  /** Every bidirectional edge of p leads forward in the key order. */
  ghost predicate Forward(adj: Adjacency, keys: seq<string>, p: seq<string>)
    requires Enumerates(keys, adj)
  {
    forall i :: 0 < i < |p| ==> Keeps(adj, keys, p[i - 1], p[i])
  }

  lemma ForwardCycleIsReported(adj: Adjacency, keys: seq<string>, declared: set<string>, p: seq<string>, k: nat)
    requires Enumerates(keys, adj)
    requires Circuit(adj, p) && Forward(adj, keys, p) && k < |p| && p[k] in declared
    ensures Reports(adj, keys, declared)
  {
    var cleaned := CleanedOf(adj, keys);
    forall i | 0 < i < |p| ensures p[i] in Succ(cleaned, p[i - 1]) {
      assert Keeps(adj, keys, p[i - 1], p[i]);
    }
    var w := p[k..];
    forall i | 0 < i < |w| ensures w[i] in Succ(cleaned, w[i - 1]) {
      assert w[i] == p[k + i] && w[i - 1] == p[k + i - 1];
    }
    assert Walk(cleaned, w) && w[0] in declared && Circuit(cleaned, p) && p[0] == w[|w| - 1];
  }

  // ----- the verdict can depend on the key order -----

  const EXAMPLE: Adjacency := map["a" := {"b"}, "b" := {"a", "c"}, "c" := {"a"}]

  const EXAMPLE_ROUTES := [Route("a", "b"), Route("b", "a"), Route("b", "c"), Route("c", "a")]

  lemma ExampleHosts()
    ensures HostOf("a") == "a" && HostOf("b") == "b" && HostOf("c") == "c"
  {
    forall x: char | x != '.' ensures HostOf([x]) == [x] {
      assert [x][1..] == "";
      assert HostOf([x]) == [x] + HostOf("");
    }
    assert HostOf(['a']) == ['a'] && HostOf(['b']) == ['b'] && HostOf(['c']) == ['c'];
  }

  lemma ExampleIsOfRoutes()
    ensures GraphOfRoutes(EXAMPLE_ROUTES, EXAMPLE)
  {
    ExampleHosts();
    var r := EXAMPLE_ROUTES;
    forall a, b ensures b in Succ(EXAMPLE, a) <==> RouteEdge(r, a, b) {
      if b in Succ(EXAMPLE, a) {
        var k := if a == "a" then 0 else if a == "c" then 3 else if b == "a" then 1 else 2;
        assert HostOf(r[k].from) == a && HostOf(r[k].to) == b;
      }
    }
  }

  /** The routes a <-> b -> c -> a are reported when a's are cleaned first and pass when b's are. */
  lemma VerdictDependsOnOrder()
    ensures GraphOfRoutes(EXAMPLE_ROUTES, EXAMPLE)
    ensures Enumerates(["a", "b", "c"], EXAMPLE) && Enumerates(["b", "a", "c"], EXAMPLE)
    ensures Reports(EXAMPLE, ["a", "b", "c"], {"a", "b", "c"})
    ensures !Reports(EXAMPLE, ["b", "a", "c"], {"a", "b", "c"})
  {
    ExampleIsOfRoutes();
    var keys, other := ["a", "b", "c"], ["b", "a", "c"];
    assert EXAMPLE.Keys == {"a", "b", "c"};
    assert Elements(keys) == {"a", "b", "c"} && Elements(other) == {"a", "b", "c"};
    ExampleReported(keys);
    ExamplePasses(other);
  }

  lemma ExampleReported(keys: seq<string>)
    requires keys == ["a", "b", "c"] && Enumerates(keys, EXAMPLE)
    ensures Reports(EXAMPLE, keys, {"a", "b", "c"})
  {
    var cleaned := CleanedOf(EXAMPLE, keys);
    assert Keeps(EXAMPLE, keys, "a", "b") && Keeps(EXAMPLE, keys, "b", "c") && Keeps(EXAMPLE, keys, "c", "a");
    assert Circuit(cleaned, ["a", "b", "c", "a"]);
    assert Walk(cleaned, ["a"]);
    assert CircuitFrom(cleaned, {"a", "b", "c"}) by {
      assert ["a"][0] in {"a", "b", "c"} && ["a", "b", "c", "a"][0] == ["a"][|["a"]| - 1];
    }
  }

  lemma ExamplePasses(keys: seq<string>)
    requires keys == ["b", "a", "c"] && Enumerates(keys, EXAMPLE)
    ensures !Reports(EXAMPLE, keys, {"a", "b", "c"})
  {
    var cleaned := CleanedOf(EXAMPLE, keys);
    forall v ensures v !in Succ(cleaned, "a") { assert v in Succ(cleaned, "a") ==> Keeps(EXAMPLE, keys, "a", v); }
    forall v | v in Succ(cleaned, "c") ensures v in {"a"} { assert Keeps(EXAMPLE, keys, "c", v); }
    forall v | v in Succ(cleaned, "b") ensures v in {"a", "c"} { assert Keeps(EXAMPLE, keys, "b", v); }
    ThreeInOrder(cleaned, "a", "c", "b");
    FinishedRootsReachNoCircuit(cleaned, ["a", "c", "b"], {"a", "b", "c"});
  }

  lemma ThreeInOrder(adj: Adjacency, x: string, y: string, z: string)
    requires Succ(adj, x) <= {} && Succ(adj, y) <= {x} && Succ(adj, z) <= {x, y}
    ensures ClosedOrder(adj, [x, y, z])
  {
    var finished := [x, y, z];
    assert finished[..1] == [x] && finished[..2] == [x, y];
    assert Elements([x]) == {x} && Elements([x, y]) == {x, y};
  }
}
