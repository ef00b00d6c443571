/** Finite directed graphs given by predecessor lists, and values computed along them. */
module Graphs {
  import opened Seqs

  /** g[v] lists the predecessors of node v in edge order; a double edge is listed twice. */
  type Graph = seq<seq<nat>>

  predicate InRange(g: Graph) {
    forall v :: 0 <= v < |g| ==> Below(g[v], |g|)
  }

  predicate Edge(g: Graph, u: nat, v: nat) {
    v < |g| && u in g[v]
  }

  /** A walk along edges, given by its nodes. */
  ghost predicate IsPath(g: Graph, p: seq<nat>) {
    && |p| > 0
    && Below(p, |g|)
    && forall k :: 0 < k < |p| ==> Edge(g, p[k - 1], p[k])
  }

  ghost predicate PathFromTo(g: Graph, p: seq<nat>, u: nat, v: nat) {
    IsPath(g, p) && p[0] == u && p[|p| - 1] == v
  }

  /** There is a path of at least one edge from u to v. */
  ghost predicate Reaches(g: Graph, u: nat, v: nat) {
    exists p :: PathFromTo(g, p, u, v) && |p| > 1
  }

  /** Some non-empty path returns to its start. */
  ghost predicate Cyclic(g: Graph) {
    exists v :: Reaches(g, v, v)
  }

  ghost predicate Dag(g: Graph) {
    InRange(g) && !Cyclic(g)
  }

  // ----- orders that list every node after its predecessors -----

  /** ord lists some nodes, each once and after all its predecessors. */
  predicate TopoPrefix(g: Graph, ord: seq<nat>) {
    && Distinct(ord)
    && Below(ord, |g|)
    && forall j :: 0 <= j < |ord| ==> PredsIn(g, ord[j], ord[..j])
  }

  predicate PredsIn(g: Graph, v: nat, s: seq<nat>)
    requires v < |g|
  {
    forall u :: u in g[v] ==> u in s
  }

  predicate TopoOrder(g: Graph, ord: seq<nat>) {
    TopoPrefix(g, ord) && |ord| == |g|
  }

  lemma TopoPrefixExtend(g: Graph, ord: seq<nat>, v: nat)
    requires TopoPrefix(g, ord) && v < |g| && v !in ord && PredsIn(g, v, ord)
    ensures TopoPrefix(g, ord + [v])
  {
    var ord' := ord + [v];
    forall j | 0 <= j < |ord'| ensures PredsIn(g, ord'[j], ord'[..j]) {
      if j < |ord| {
        assert PredsIn(g, ord[j], ord[..j]);
        assert ord'[..j] == ord[..j];
      } else {
        assert ord'[..j] == ord;
      }
    }
  }

  lemma {:induction false} PathIntoPrefixClimbs(g: Graph, ord: seq<nat>, p: seq<nat>, j: nat)
    requires TopoPrefix(g, ord) && IsPath(g, p)
    requires j < |ord| && ord[j] == p[|p| - 1]
    ensures exists i :: 0 <= i <= j && ord[i] == p[0] && (|p| > 1 ==> i < j)
    decreases |p|
  {
    if |p| > 1 {
      var m := |p| - 1;
      assert Edge(g, p[m - 1], p[m]);
      assert PredsIn(g, ord[j], ord[..j]);
      assert p[m - 1] in ord[..j];
      var j' :| 0 <= j' < j && ord[j'] == p[m - 1];
      PathIntoPrefixClimbs(g, ord, p[..m], j');
    }
  }

  /** A complete topological order rules every cycle out. */
  lemma {:induction false} TopoOrderAcyclic(g: Graph, ord: seq<nat>)
    requires TopoOrder(g, ord)
    ensures !Cyclic(g)
  {
    if Cyclic(g) {
      var v :| Reaches(g, v, v);
      var p :| PathFromTo(g, p, v, v) && |p| > 1;
      DistinctCoversRange(ord, |g|);
      assert v in ord;
      var j :| 0 <= j < |ord| && ord[j] == v;
      PathIntoPrefixClimbs(g, ord, p, j);
      assert false;
    }
  }

  /** Node v has a predecessor among S. */
  ghost predicate WaitsIn(g: Graph, S: set<nat>, v: nat) {
    exists u :: u in S && Edge(g, u, v)
  }

  /** Every node of S has a predecessor in S. */
  ghost predicate Stuck(g: Graph, S: set<nat>) {
    forall v {:trigger WaitsIn(g, S, v)} :: v in S ==> v < |g| && WaitsIn(g, S, v)
  }

  lemma {:induction false} BackwardWalk(g: Graph, S: set<nat>, v: nat, len: nat) returns (p: seq<nat>)
    requires v in S && len > 0 && Stuck(g, S)
    ensures IsPath(g, p) && |p| == len && p[len - 1] == v
    decreases len
  {
    if len == 1 {
      p := [v];
    } else {
      assert WaitsIn(g, S, v);
      var u :| u in S && Edge(g, u, v);
      var q := BackwardWalk(g, S, u, len - 1);
      p := q + [v];
    }
  }

  lemma SubpathIsPath(g: Graph, p: seq<nat>, i: nat, j: nat)
    requires IsPath(g, p) && i < j <= |p|
    ensures IsPath(g, p[i..j])
  {
    var q := p[i..j];
    forall k | 0 < k < |q| ensures Edge(g, q[k - 1], q[k]) {
      assert Edge(g, p[i + k - 1], p[i + k]);
    }
  }

  /** A non-empty set of nodes in which every node has a predecessor of the set contains a cycle. */
  lemma {:induction false} StuckSetHasCycle(g: Graph, S: set<nat>)
    requires S != {} && Stuck(g, S)
    ensures Cyclic(g)
  {
    var v :| v in S;
    var p := BackwardWalk(g, S, v, |g| + 1);
    var i, j := Pigeonhole(p, |g|);
    SubpathIsPath(g, p, i, j + 1);
    assert PathFromTo(g, p[i..j + 1], p[i], p[i]);
    assert Reaches(g, p[i], p[i]);
  }

  /** When every node outside a topological prefix still waits for one, the graph has a cycle. */
  lemma {:induction false} StuckPrefixHasCycle(g: Graph, ord: seq<nat>)
    requires TopoPrefix(g, ord) && |ord| < |g|
    requires Stuck(g, Range(|g|) - Elements(ord))
    ensures Cyclic(g)
  {
    var S := Range(|g|) - Elements(ord);
    DistinctSize(ord);
    LargerSetHasMore(Elements(ord), Range(|g|));
    StuckSetHasCycle(g, S);
  }

  // ----- ranks: what recursion along an acyclic graph descends on -----

  ghost predicate IsRanking(g: Graph, r: seq<nat>) {
    && |r| == |g|
    && Below(r, |g|)
    && forall u: nat, v: nat :: u < |g| && Edge(g, u, v) ==> r[u] < r[v]
  }

  lemma {:induction false} AcyclicHasTopoOrder(g: Graph) returns (ord: seq<nat>)
    requires Dag(g)
    ensures TopoOrder(g, ord)
  {
    ord := [];
    while |ord| < |g|
      invariant TopoPrefix(g, ord) && |ord| <= |g|
      decreases |g| - |ord|
    {
      if v: nat :| v < |g| && v !in ord && PredsIn(g, v, ord) {
        TopoPrefixExtend(g, ord, v);
        ord := ord + [v];
      } else {
        NobodyReadyIsStuck(g, ord);
        StuckPrefixHasCycle(g, ord);
        assert false;
      }
    }
  }

  lemma NobodyReadyIsStuck(g: Graph, ord: seq<nat>)
    requires InRange(g)
    requires forall v: nat :: v < |g| && v !in ord ==> !PredsIn(g, v, ord)
    ensures Stuck(g, Range(|g|) - Elements(ord))
  {
    var S := Range(|g|) - Elements(ord);
    forall v | v in S ensures v < |g| && WaitsIn(g, S, v) {
      NotReadyWaits(g, ord, v);
    }
  }

  lemma NotReadyWaits(g: Graph, ord: seq<nat>, v: nat)
    requires InRange(g) && v < |g| && !PredsIn(g, v, ord)
    ensures WaitsIn(g, Range(|g|) - Elements(ord), v)
  {
    var u :| u in g[v] && u !in ord;
    assert Below(g[v], |g|);
    assert u in Range(|g|) - Elements(ord) && Edge(g, u, v);
  }

  lemma {:induction false} AcyclicHasRanking(g: Graph)
    requires Dag(g)
    ensures exists r :: IsRanking(g, r)
  {
    var ord := AcyclicHasTopoOrder(g);
    DistinctCoversRange(ord, |g|);
    var r: seq<nat> := seq(|g|, v requires 0 <= v < |g| => IndexOf(ord, v));
    forall u: nat, v: nat | u < |g| && Edge(g, u, v) ensures r[u] < r[v] {
      assert PredsIn(g, ord[r[v]], ord[..r[v]]);
      assert u in ord[..r[v]];
      var i: nat :| i < r[v] && ord[i] == u;
      IndexOfDistinct(ord, i);
    }
    assert IsRanking(g, r);
  }

  ghost function Ranking(g: Graph): (r: seq<nat>)
    requires Dag(g)
    ensures IsRanking(g, r)
  {
    AcyclicHasRanking(g);
    var r :| IsRanking(g, r);
    r
  }

  ghost function Rank(g: Graph, v: nat): (r: nat)
    requires Dag(g) && v < |g|
    ensures r < |g|
  {
    Ranking(g)[v]
  }

  lemma EdgeRaisesRank(g: Graph, u: nat, v: nat)
    requires Dag(g) && Edge(g, u, v)
    ensures u < |g| && Rank(g, u) < Rank(g, v)
  {
    assert Below(g[v], |g|);
  }

  // ----- reachability -----

  lemma EdgeReaches(g: Graph, u: nat, v: nat)
    requires Edge(g, u, v) && u < |g|
    ensures Reaches(g, u, v)
  {
    var p := [u, v];
    assert PathFromTo(g, p, u, v);
  }

  lemma ReachesTransitive(g: Graph, u: nat, v: nat, w: nat)
    requires Reaches(g, u, v) && Reaches(g, v, w)
    ensures Reaches(g, u, w)
  {
    var p :| PathFromTo(g, p, u, v) && |p| > 1;
    var q :| PathFromTo(g, q, v, w) && |q| > 1;
    var r := p + q[1..];
    forall k | 0 < k < |r| ensures Edge(g, r[k - 1], r[k]) {
      if k >= |p| {
        assert Edge(g, q[k - |p|], q[k - |p| + 1]);
        assert r[k - 1] == q[k - |p|];
      }
    }
    assert PathFromTo(g, r, u, w);
  }

  /** The last edge of a path from u to v. */
  lemma ReachesLastEdge(g: Graph, u: nat, v: nat) returns (w: nat)
    requires Reaches(g, u, v)
    ensures v < |g| && w < |g| && Edge(g, w, v) && (w == u || Reaches(g, u, w))
  {
    var p :| PathFromTo(g, p, u, v) && |p| > 1;
    var m := |p| - 1;
    w := p[m - 1];
    assert Edge(g, p[m - 1], p[m]);
    SubpathIsPath(g, p, 0, m);
    if m > 1 { assert PathFromTo(g, p[0..m], u, w); }
  }

  // ----- values computed along an acyclic graph -----

  /** The value of node v: its operation applied to its label and to its predecessors' values, in order. */
  ghost function Eval<L, V>(g: Graph, labels: seq<L>, op: (L, seq<V>) -> V, v: nat): V
    requires Dag(g) && |labels| == |g| && v < |g|
    decreases Rank(g, v)
  {
    var inputs := seq(|g[v]|, k requires 0 <= k < |g[v]| =>
      (EdgeRaisesRank(g, g[v][k], v); Eval(g, labels, op, g[v][k])));
    op(labels[v], inputs)
  }

  lemma EvalUnfold<L, V>(g: Graph, labels: seq<L>, op: (L, seq<V>) -> V, v: nat, inputs: seq<V>)
    requires Dag(g) && |labels| == |g| && v < |g|
    requires |inputs| == |g[v]|
    requires forall k :: 0 <= k < |g[v]| ==> g[v][k] < |g| && inputs[k] == Eval(g, labels, op, g[v][k])
    ensures Eval(g, labels, op, v) == op(labels[v], inputs)
  {
    var inputs' := seq(|g[v]|, k requires 0 <= k < |g[v]| => Eval(g, labels, op, g[v][k]));
    assert inputs == inputs';
  }

  function MaxPlusOne(s: seq<nat>): (m: nat)
    ensures forall k :: 0 <= k < |s| ==> s[k] < m
    ensures if s == [] then m == 0 else m > 0 && m - 1 in s
  {
    if s == [] then 0 else
    var r := MaxPlusOne(s[..|s| - 1]);
    if s[|s| - 1] < r then r else s[|s| - 1] + 1
  }

  /** The entries of ds at the positions ps. */
  function Pick(ds: seq<nat>, ps: seq<nat>): (r: seq<nat>)
    requires Below(ps, |ds|)
    ensures |r| == |ps| && forall k :: 0 <= k < |ps| ==> r[k] == ds[ps[k]]
  {
    seq(|ps|, k requires 0 <= k < |ps| => ds[ps[k]])
  }

  /** Entry v is one more than the deepest predecessor's entry, or 0 for a source. */
  predicate DepthAt(g: Graph, ds: seq<nat>, v: nat)
    requires InRange(g) && |ds| == |g| && v < |g|
  {
    ds[v] == MaxPlusOne(Pick(ds, g[v]))
  }

  ghost predicate IsDepthTable(g: Graph, ds: seq<nat>)
    requires InRange(g)
  {
    |ds| == |g| && forall v: nat {:trigger DepthAt(g, ds, v)} :: v < |g| ==> DepthAt(g, ds, v)
  }

  function DepthOp(ps: seq<nat>, depths: seq<nat>): nat {
    MaxPlusOne(depths)
  }

  lemma DepthTableExists(g: Graph)
    requires Dag(g)
    ensures exists ds :: IsDepthTable(g, ds)
  {
    var ds: seq<nat> := seq(|g|, v requires 0 <= v < |g| => Eval(g, g, DepthOp, v));
    forall v: nat | v < |g| ensures DepthAt(g, ds, v) {
      assert Below(g[v], |g|);
      EvalUnfold(g, g, DepthOp, v, Pick(ds, g[v]));
    }
    assert IsDepthTable(g, ds);
  }

  ghost function DepthTable(g: Graph): (ds: seq<nat>)
    requires Dag(g)
    ensures IsDepthTable(g, ds)
  {
    DepthTableExists(g);
    var ds :| IsDepthTable(g, ds);
    ds
  }

  /** The number of edges on the longest path into v. */
  ghost function Depth(g: Graph, v: nat): nat
    requires Dag(g) && v < |g|
  {
    DepthTable(g)[v]
  }

  lemma DepthOfInputs(g: Graph, v: nat, depths: seq<nat>)
    requires Dag(g) && v < |g| && |depths| == |g[v]|
    requires forall k :: 0 <= k < |g[v]| ==> g[v][k] < |g| && depths[k] == Depth(g, g[v][k])
    ensures MaxPlusOne(depths) == Depth(g, v)
  {
    assert DepthAt(g, DepthTable(g), v);
    assert Pick(DepthTable(g), g[v]) == depths;
  }

  lemma DepthUnfold(g: Graph, v: nat)
    requires Dag(g) && v < |g|
    ensures forall u :: u in g[v] ==> u < |g| && Depth(g, u) < Depth(g, v)
    ensures Depth(g, v) > 0 ==> exists u :: u in g[v] && u < |g| && Depth(g, u) == Depth(g, v) - 1
  {
    assert Below(g[v], |g|);
    var inputs := Pick(DepthTable(g), g[v]);
    DepthOfInputs(g, v, inputs);
    forall u | u in g[v] ensures u < |g| && Depth(g, u) < Depth(g, v) {
      var k :| 0 <= k < |g[v]| && g[v][k] == u;
      assert inputs[k] == Depth(g, u);
    }
    if Depth(g, v) > 0 {
      var k :| 0 <= k < |inputs| && inputs[k] == Depth(g, v) - 1;
      assert g[v][k] in g[v];
    }
  }

  /** No path into v has more than Depth(g, v) edges. */
  lemma {:induction false} DepthBoundsPaths(g: Graph, p: seq<nat>)
    requires Dag(g) && IsPath(g, p)
    ensures |p| - 1 <= Depth(g, p[|p| - 1])
    decreases |p|
  {
    var m := |p| - 1;
    if m > 0 {
      assert Edge(g, p[m - 1], p[m]);
      DepthUnfold(g, p[m]);
      DepthBoundsPaths(g, p[..m]);
    }
  }

  /** Some path into v has exactly Depth(g, v) edges. */
  lemma {:induction false} DepthIsAttained(g: Graph, v: nat) returns (p: seq<nat>)
    requires Dag(g) && v < |g|
    ensures IsPath(g, p) && p[|p| - 1] == v && |p| - 1 == Depth(g, v)
    decreases Depth(g, v)
  {
    DepthUnfold(g, v);
    if Depth(g, v) == 0 {
      p := [v];
    } else {
      var u :| u in g[v] && u < |g| && Depth(g, u) == Depth(g, v) - 1;
      var q := DepthIsAttained(g, u);
      p := q + [v];
    }
  }

  lemma {:induction false} ReachesRaisesDepth(g: Graph, u: nat, v: nat)
    requires Dag(g) && Reaches(g, u, v)
    ensures u < |g| && v < |g| && Depth(g, u) < Depth(g, v)
    decreases if v < |g| then Rank(g, v) else 0
  {
    var p :| PathFromTo(g, p, u, v) && |p| > 1;
    var w := ReachesLastEdge(g, u, v);
    DepthUnfold(g, v);
    EdgeRaisesRank(g, w, v);
    if w != u { ReachesRaisesDepth(g, u, w); }
  }

  // ----- layers: what Kahn's algorithm peels off round by round -----

  /** The nodes whose predecessors are all settled one round earlier. */
  ghost function Settled(g: Graph, k: nat): (S: set<nat>)
    ensures S <= Range(|g|)
  {
    if k == 0 then {} else set v | v in Range(|g|) && forall u :: u in g[v] ==> u in Settled(g, k - 1)
  }

  lemma {:induction false} SettledGrows(g: Graph, k: nat)
    ensures Settled(g, k) <= Settled(g, k + 1)
  {
    if k > 0 { SettledGrows(g, k - 1); }
  }

  /** Round k, in increasing order. */
  ghost function Layer(g: Graph, k: nat): seq<nat> {
    Ascending(|g|, Settled(g, k + 1) - Settled(g, k))
  }

  lemma {:induction false} SettledByDepth(g: Graph, k: nat, v: nat)
    requires Dag(g) && v < |g|
    ensures v in Settled(g, k) <==> Depth(g, v) < k
    decreases k
  {
    if k > 0 {
      DepthUnfold(g, v);
      forall u | u in g[v] ensures u < |g| && (u in Settled(g, k - 1) <==> Depth(g, u) < k - 1) {
        SettledByDepth(g, k - 1, u);
      }
    }
  }

  /** On an acyclic graph round k is exactly the set of nodes of depth k. */
  lemma LayerMembers(g: Graph, k: nat, v: nat)
    requires Dag(g)
    ensures v in Layer(g, k) <==> v < |g| && Depth(g, v) == k
  {
    if v < |g| {
      SettledByDepth(g, k, v);
      SettledByDepth(g, k + 1, v);
    }
  }

  /** One more than the greatest depth; 0 for the empty graph. */
  ghost function Height(g: Graph): nat
    requires Dag(g)
  {
    MaxPlusOne(seq(|g|, v requires 0 <= v < |g| => Depth(g, v)))
  }

  lemma HeightBounds(g: Graph)
    requires Dag(g)
    ensures forall v: nat :: v < |g| ==> Depth(g, v) < Height(g)
    ensures |g| > 0 ==> exists v: nat :: v < |g| && Depth(g, v) == Height(g) - 1
  {
    var ds: seq<nat> := seq(|g|, v requires 0 <= v < |g| => Depth(g, v));
    forall v: nat | v < |g| ensures Depth(g, v) < Height(g) { assert ds[v] == Depth(g, v); }
    if |g| > 0 {
      var v: nat :| v < |ds| && ds[v] == Height(g) - 1;
    }
  }

  /** Every depth up to a node's own depth occurs. */
  lemma {:induction false} DepthsHaveNoGap(g: Graph, v: nat, k: nat)
    requires Dag(g) && v < |g| && k <= Depth(g, v)
    ensures exists u: nat :: u < |g| && Depth(g, u) == k
    decreases Depth(g, v)
  {
    if k < Depth(g, v) {
      DepthUnfold(g, v);
      var u :| u in g[v] && u < |g| && Depth(g, u) == Depth(g, v) - 1;
      DepthsHaveNoGap(g, u, k);
    }
  }

  ghost function Layers(g: Graph): seq<seq<nat>>
    requires Dag(g)
  {
    seq(Height(g), k requires 0 <= k < Height(g) => Layer(g, k))
  }

  /** Every layer below the height has a node, and each node is in the layer of its depth only. */
  lemma LayersPartition(g: Graph)
    requires Dag(g)
    ensures forall k :: 0 <= k < |Layers(g)| ==> Layers(g)[k] != []
    ensures forall k, v: nat :: 0 <= k < |Layers(g)| ==> (v in Layers(g)[k] <==> v < |g| && Depth(g, v) == k)
    ensures forall v: nat :: v < |g| ==> Depth(g, v) < |Layers(g)|
  {
    HeightBounds(g);
    forall k, v: nat | 0 <= k < |Layers(g)| ensures v in Layers(g)[k] <==> v < |g| && Depth(g, v) == k {
      LayerMembers(g, k, v);
    }
    forall k | 0 <= k < |Layers(g)| ensures Layers(g)[k] != [] {
      if |g| > 0 {
        var v: nat :| v < |g| && Depth(g, v) == Height(g) - 1;
        DepthsHaveNoGap(g, v, k);
        var u: nat :| u < |g| && Depth(g, u) == k;
        assert u in Layers(g)[k];
      }
    }
  }

  /** Kahn's order: the layers one after the other. */
  ghost function LayeredOrder(g: Graph): seq<nat>
    requires Dag(g)
  {
    Flatten(Layers(g))
  }

  lemma {:induction false} TopoPrefixExtendAll(g: Graph, ord: seq<nat>, s: seq<nat>)
    requires TopoPrefix(g, ord) && Distinct(s) && Below(s, |g|)
    requires forall k :: 0 <= k < |s| ==> s[k] !in ord && PredsIn(g, s[k], ord)
    ensures TopoPrefix(g, ord + s)
  {
    if s == [] {
      assert ord + s == ord;
    } else {
      var m := |s| - 1;
      TopoPrefixExtendAll(g, ord, s[..m]);
      assert s[m] !in ord + s[..m];
      assert PredsIn(g, s[m], ord + s[..m]) by { assert PredsIn(g, s[m], ord); }
      TopoPrefixExtend(g, ord + s[..m], s[m]);
      assert ord + s == (ord + s[..m]) + [s[m]];
    }
  }

  /** The members of s are the nodes of depth below k. */
  ghost predicate HoldsDepthsBelow(g: Graph, s: seq<nat>, k: nat)
    requires Dag(g)
  {
    forall v: nat :: v in s <==> v < |g| && Depth(g, v) < k
  }

  lemma LayerIsReady(g: Graph, before: seq<nat>, k: nat, v: nat)
    requires Dag(g) && HoldsDepthsBelow(g, before, k) && v in Layer(g, k)
    ensures v < |g| && v !in before && PredsIn(g, v, before)
  {
    LayerMembers(g, k, v);
    DepthUnfold(g, v);
  }

  lemma DepthsBelowExtend(g: Graph, before: seq<nat>, k: nat)
    requires Dag(g) && HoldsDepthsBelow(g, before, k)
    ensures HoldsDepthsBelow(g, before + Layer(g, k), k + 1)
  {
    forall v: nat ensures v in before + Layer(g, k) <==> v < |g| && Depth(g, v) < k + 1 {
      LayerMembers(g, k, v);
    }
  }

  lemma LayersTake(g: Graph, k: nat)
    requires Dag(g) && k < Height(g)
    ensures Flatten(Layers(g)[..k + 1]) == Flatten(Layers(g)[..k]) + Layer(g, k)
  {
    assert Layers(g)[..k + 1] == Layers(g)[..k] + [Layer(g, k)];
    FlattenAppend(Layers(g)[..k], Layer(g, k));
  }

  lemma TopoPrefixExtendLayer(g: Graph, before: seq<nat>, k: nat)
    requires Dag(g) && TopoPrefix(g, before) && HoldsDepthsBelow(g, before, k)
    ensures TopoPrefix(g, before + Layer(g, k))
  {
    var layer := Layer(g, k);
    forall i | 0 <= i < |layer| ensures layer[i] !in before && PredsIn(g, layer[i], before) {
      LayerIsReady(g, before, k, layer[i]);
    }
    TopoPrefixExtendAll(g, before, layer);
  }

  lemma {:induction false} LayersAreTopological(g: Graph, k: nat)
    requires Dag(g) && k <= Height(g)
    ensures TopoPrefix(g, Flatten(Layers(g)[..k]))
    ensures HoldsDepthsBelow(g, Flatten(Layers(g)[..k]), k)
  {
    if k > 0 {
      LayersAreTopological(g, k - 1);
      var before := Flatten(Layers(g)[..k - 1]);
      LayersTake(g, k - 1);
      TopoPrefixExtendLayer(g, before, k - 1);
      DepthsBelowExtend(g, before, k - 1);
    }
  }

  /** The layered order lists every node once, after all its predecessors. */
  lemma LayeredOrderIsTopological(g: Graph)
    requires Dag(g)
    ensures TopoOrder(g, LayeredOrder(g))
    ensures forall v: nat :: v in LayeredOrder(g) <==> v < |g|
  {
    LayersAreTopological(g, Height(g));
    HeightBounds(g);
    var ord := LayeredOrder(g);
    assert Layers(g)[..Height(g)] == Layers(g);
    DistinctBounded(ord, |g|);
    DistinctSize(ord);
    assert Range(|g|) <= Elements(ord);
    SubsetSize(Range(|g|), Elements(ord));
  }
}
