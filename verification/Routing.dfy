/** The order in which providers are tried (crates/vil_ai_gateway/src/gateway.rs:258-308). */
module Routing {
  import opened Arithmetic

  datatype RoutingPolicy = PrimaryWithFailover | CostOptimized | LatencyOptimized | RoundRobin

  const USIZE_LIMIT: nat := 0x1_0000_0000_0000_0000

  /** The snapshot of a provider's price or latency the sort compares. */
  type Key = string -> real

  // ----- stable sorting -----

  /** Inserts x after the entries whose key does not exceed its own. */
  function InsertByKey(s: seq<string>, x: string, key: Key): seq<string> {
    if s == [] then [x]
    else if key(s[|s| - 1]) <= key(x) then s + [x]
    else InsertByKey(s[..|s| - 1], x, key) + [s[|s| - 1]]
  }

  function StableSort(s: seq<string>, key: Key): seq<string> {
    if s == [] then [] else InsertByKey(StableSort(s[..|s| - 1], key), s[|s| - 1], key)
  }

  ghost predicate SortedByKey(s: seq<string>, key: Key) {
    forall i, j :: 0 <= i < j < |s| ==> key(s[i]) <= key(s[j])
  }

  /** The entries with key k, in order. */
  ghost function WithKey(s: seq<string>, key: Key, k: real): seq<string> {
    if s == [] then [] else
    WithKey(s[..|s| - 1], key, k) + if key(s[|s| - 1]) == k then [s[|s| - 1]] else []
  }

  lemma WithKeyAppend(s: seq<string>, x: string, key: Key, k: real)
    ensures WithKey(s + [x], key, k) == WithKey(s, key, k) + if key(x) == k then [x] else []
  {
    assert (s + [x])[..|s|] == s;
  }

  lemma {:induction false} InsertPermutes(s: seq<string>, x: string, key: Key)
    ensures multiset(InsertByKey(s, x, key)) == multiset(s) + multiset{x}
    decreases |s|
  {
    if s != [] && key(s[|s| - 1]) > key(x) {
      InsertPermutes(s[..|s| - 1], x, key);
      assert s == s[..|s| - 1] + [s[|s| - 1]];
    }
  }

  lemma {:induction false} InsertSorts(s: seq<string>, x: string, key: Key)
    requires SortedByKey(s, key)
    ensures SortedByKey(InsertByKey(s, x, key), key)
    decreases |s|
  {
    if s != [] && key(s[|s| - 1]) > key(x) {
      var m := |s| - 1;
      InsertSorts(s[..m], x, key);
      InsertPermutes(s[..m], x, key);
      var r := InsertByKey(s[..m], x, key);
      forall i | 0 <= i < |r| ensures key(r[i]) <= key(s[m]) {
        assert r[i] in multiset(r);
        if r[i] != x {
          assert r[i] in s[..m];
          var j :| 0 <= j < m && s[j] == r[i];
        }
      }
    }
  }

  /** x goes behind every entry with its own key. */
  lemma {:induction false} InsertKeepsGroup(s: seq<string>, x: string, key: Key, k: real)
    requires SortedByKey(s, key)
    ensures WithKey(InsertByKey(s, x, key), key, k) == WithKey(s, key, k) + if key(x) == k then [x] else []
    decreases |s|
  {
    if s == [] {
      WithKeyAppend([], x, key, k);
      assert [] + [x] == [x];
    } else if key(s[|s| - 1]) <= key(x) {
      WithKeyAppend(s, x, key, k);
    } else {
      var front, last := s[..|s| - 1], s[|s| - 1];
      assert s == front + [last];
      var placed := InsertByKey(front, x, key);
      InsertKeepsGroup(front, x, key, k);
      WithKeyAppend(placed, last, key, k);
      WithKeyAppend(front, last, key, k);
      assert InsertByKey(s, x, key) == placed + [last];
    }
  }

  /** Sorting by key orders the providers, loses none, and keeps providers with equal keys in their original order. */
  lemma {:induction false} StableSortIsStable(s: seq<string>, key: Key)
    ensures SortedByKey(StableSort(s, key), key)
    ensures forall k :: WithKey(StableSort(s, key), key, k) == WithKey(s, key, k)
    ensures multiset(StableSort(s, key)) == multiset(s)
    decreases |s|
  {
    if s != [] {
      var m := |s| - 1;
      assert s == s[..m] + [s[m]];
      StableSortIsStable(s[..m], key);
      var sorted := StableSort(s[..m], key);
      InsertSorts(sorted, s[m], key);
      InsertPermutes(sorted, s[m], key);
      forall k ensures WithKey(StableSort(s, key), key, k) == WithKey(s, key, k) {
        InsertKeepsGroup(sorted, s[m], key, k);
        WithKeyAppend(s[..m], s[m], key, k);
      }
    }
  }

  // ----- round robin -----

  /** The list starting at position k and wrapping around. */
  function Rotation(s: seq<string>, k: nat): seq<string>
    requires k < |s|
  {
    s[k..] + s[..k]
  }

  lemma RotationIsPermutation(s: seq<string>, k: nat)
    requires k < |s|
    ensures multiset(Rotation(s, k)) == multiset(s)
  {
    assert s == s[..k] + s[k..];
  }

  /** The position the counter points at. */
  function Lead(counter: nat, n: nat): (p: nat)
    requires n > 0
    ensures p < n
  {
    counter % n
  }

  lemma LeadWraps(counter: nat, n: nat)
    requires n > 0
    ensures counter < n ==> Lead(counter, n) == counter
    ensures Lead(counter + n, n) == Lead(counter, n)
  {
    assert counter + n == (counter / n + 1) * n + counter % n;
    QuotientUnique(counter + n, n, counter / n + 1);
  }

  /** e draws further on, the lead has moved e positions, wrapping once at most. */
  lemma {:induction false} LeadMoves(counter: nat, e: nat, n: nat)
    requires n > 0 && e < n
    ensures Lead(counter + e, n) == if Lead(counter, n) + e < n then Lead(counter, n) + e else Lead(counter, n) + e - n
    decreases counter
  {
    if counter < n {
      LeadWraps(counter, n);
      if counter + e < n { LeadWraps(counter + e, n); } else { LeadWraps(counter + e - n, n); }
    } else {
      LeadMoves(counter - n, e, n);
      LeadWraps(counter - n, n);
      LeadWraps(counter - n + e, n);
    }
  }

  /** Each place is filled from the counter's position onwards, counted around the list. */
  lemma RotationAt(providers: seq<string>, counter: nat, i: nat)
    requires i < |providers|
    ensures Rotation(providers, Lead(counter, |providers|))[i] == providers[(counter + i) % |providers|]
  {
    LeadMoves(counter, i, |providers|);
  }

  method RotateFrom(providers: seq<string>, start: nat) returns (ordered: seq<string>)
    requires start < |providers|
    ensures ordered == Rotation(providers, start)
  {
    var len := |providers|;
    ordered := [];
    for i := 0 to len
      invariant |ordered| == i
      invariant forall j :: 0 <= j < i ==> ordered[j] == Rotation(providers, start)[j]
    {
      LeadWraps(start, len);
      LeadMoves(start, i, len);
      var idx := (start + i) % len;
      assert idx == Lead(start + i, len);
      ordered := ordered + [providers[idx]];
    }
  }

  class Router {
    const providers: seq<string>
    const policy: RoutingPolicy
    var roundRobinIdx: nat

    constructor (providers: seq<string>, policy: RoutingPolicy)
      ensures this.providers == providers && this.policy == policy && roundRobinIdx == 0
    {
      this.providers, this.policy := providers, policy;
      roundRobinIdx := 0;
    }

    method RouteOrder(costs: Key, latencies: Key) returns (ordered: seq<string>)
      requires roundRobinIdx < USIZE_LIMIT
      modifies this`roundRobinIdx
      ensures roundRobinIdx < USIZE_LIMIT
      ensures multiset(ordered) == multiset(providers)
      ensures policy.PrimaryWithFailover? ==> ordered == providers
      ensures policy.CostOptimized? ==> ordered == StableSort(providers, costs)
      ensures policy.LatencyOptimized? ==> ordered == StableSort(providers, latencies)
      ensures policy.RoundRobin? && providers != [] ==>
        ordered == Rotation(providers, Lead(old(roundRobinIdx), |providers|)) &&
        roundRobinIdx == (old(roundRobinIdx) + 1) % USIZE_LIMIT
      ensures policy.RoundRobin? ==>
        |ordered| == |providers| &&
        forall i :: 0 <= i < |ordered| ==> ordered[i] == providers[(old(roundRobinIdx) + i) % |providers|]
      ensures !policy.RoundRobin? || providers == [] ==> roundRobinIdx == old(roundRobinIdx)
    {
      match policy
      case PrimaryWithFailover =>
        ordered := providers;
      case CostOptimized =>
        StableSortIsStable(providers, costs);
        ordered := StableSort(providers, costs);
      case LatencyOptimized =>
        StableSortIsStable(providers, latencies);
        ordered := StableSort(providers, latencies);
      case RoundRobin =>
        var len := |providers|;
        if len == 0 { return []; }
        var start := Lead(roundRobinIdx, len);
        roundRobinIdx := (roundRobinIdx + 1) % USIZE_LIMIT;
        ordered := RotateFrom(providers, start);
        RotationIsPermutation(providers, start);
        forall i | 0 <= i < len ensures ordered[i] == providers[(old(roundRobinIdx) + i) % len] {
          RotationAt(providers, old(roundRobinIdx), i);
        }
    }
  }

  // ----- consecutive draws -----

  /** The draw made e draws after the counter stood at `counter` puts this position first, short of the wrap. */
  predicate LeadsAt(counter: nat, e: nat, n: nat, position: nat)
    requires n > 0
  {
    Lead(counter + e, n) == position
  }

  /** Of n consecutive counter values exactly one leads with a given position. */
  lemma OneLead(counter: nat, n: nat, position: nat) returns (d: nat)
    requires position < n
    ensures d < n && LeadsAt(counter, d, n, position)
    ensures forall e: nat :: e < n && LeadsAt(counter, e, n, position) ==> e == d
  {
    var r := Lead(counter, n);
    d := if position >= r then position - r else position - r + n;
    LeadMoves(counter, d, n);
    forall e: nat | e < n && LeadsAt(counter, e, n, position) ensures e == d {
      LeadMoves(counter, e, n);
    }
  }

  /** Under round robin, of |providers| consecutive draws exactly one puts a given position first;
      the counter values are consecutive until it wraps. */
  lemma EachProviderLeadsOnce(providers: seq<string>, counter: nat, position: nat) returns (d: nat)
    requires position < |providers|
    ensures d < |providers| && LeadsAt(counter, d, |providers|, position)
    ensures Rotation(providers, Lead(counter + d, |providers|))[0] == providers[position]
    ensures forall e: nat :: e < |providers| && LeadsAt(counter, e, |providers|, position) ==> e == d
  {
    d := OneLead(counter, |providers|, position);
  }

  // ----- draws across the wrap of the counter -----

  /** The counter after e draws, as `Router.RouteOrder` moves it. */
  function CounterAfter(counter: nat, e: nat): (after: nat)
    requires counter < USIZE_LIMIT
    ensures after < USIZE_LIMIT
  {
    if e == 0 then counter else (CounterAfter(counter, e - 1) + 1) % USIZE_LIMIT
  }

  lemma {:induction false} CounterWrapsOnce(counter: nat, e: nat)
    requires counter < USIZE_LIMIT && e <= USIZE_LIMIT
    ensures CounterAfter(counter, e) == if counter + e < USIZE_LIMIT then counter + e else counter + e - USIZE_LIMIT
  {
    if e > 0 { CounterWrapsOnce(counter, e - 1); }
  }

  /** Draw e puts this position first. */
  predicate DrawLeads(counter: nat, e: nat, n: nat, position: nat)
    requires counter < USIZE_LIMIT && n > 0
  {
    Lead(CounterAfter(counter, e), n) == position
  }

  /** Exactly one of the n draws puts this position first. */
  ghost predicate LeadsOnce(counter: nat, n: nat, position: nat)
    requires counter < USIZE_LIMIT && n > 0
  {
    exists d: nat :: d < n && DrawLeads(counter, d, n, position) &&
      forall e: nat :: e < n && DrawLeads(counter, e, n, position) ==> e == d
  }

  ghost predicate EachLeadsOnce(counter: nat, n: nat)
    requires counter < USIZE_LIMIT && n > 0
  {
    forall position: nat :: position < n ==> LeadsOnce(counter, n, position)
  }

  lemma LeadShift(x: nat, m: nat, n: nat)
    requires n > 0
    ensures x + m * n >= 0 && Lead(x + m * n, n) == Lead(x, n)
  {
    assert m * n >= 0;
    assert x + m * n == (x / n + m) * n + x % n;
    QuotientUnique(x + m * n, n, x / n + m);
  }

  /** Without a wrap, or when n divides the counter's range, draws lead as if the counter went on. */
  lemma LeadsAsUnwrapped(counter: nat, e: nat, n: nat, position: nat)
    requires counter < USIZE_LIMIT && 0 < n && e < n && (counter + n <= USIZE_LIMIT || USIZE_LIMIT % n == 0)
    ensures DrawLeads(counter, e, n, position) <==> LeadsAt(counter, e, n, position)
  {
    DivisorIsSmaller(n);
    CounterWrapsOnce(counter, e);
    if counter + e >= USIZE_LIMIT { LeadPastRange(counter + e - USIZE_LIMIT, n); }
  }

  lemma LeadPastRange(x: nat, n: nat)
    requires n > 0 && USIZE_LIMIT % n == 0
    ensures Lead(x + USIZE_LIMIT, n) == Lead(x, n)
  {
    assert USIZE_LIMIT / n * n == USIZE_LIMIT;
    LeadShift(x, USIZE_LIMIT / n, n);
  }

  lemma DivisorIsSmaller(n: nat)
    requires n > 0
    ensures USIZE_LIMIT % n == 0 ==> n <= USIZE_LIMIT
  {
    if n > USIZE_LIMIT { QuotientUnique(USIZE_LIMIT, n, 0); }
  }

  /** Draws that cross the wrap, when n does not divide the counter's range, lead with some position twice. */
  lemma WrapRepeatsALead(counter: nat, n: nat) returns (d: nat, e: nat)
    requires counter < USIZE_LIMIT < counter + n && 0 < n <= USIZE_LIMIT && USIZE_LIMIT % n != 0
    ensures d < e < n && Lead(CounterAfter(counter, d), n) == Lead(CounterAfter(counter, e), n)
  {
    var r, k, q := USIZE_LIMIT % n, USIZE_LIMIT - counter, USIZE_LIMIT / n;
    assert USIZE_LIMIT == q * n + r;
    if k >= r {
      d, e := k - r, k;
      QuotientUnique(USIZE_LIMIT - r, n, q);
      QuotientUnique(0, n, 0);
    } else {
      d, e := 0, r;
      QuotientUnique(counter, n, q);
      QuotientUnique(r - k, n, 0);
    }
    CounterWrapsOnce(counter, d);
    CounterWrapsOnce(counter, e);
  }

  /** Each of n providers leads exactly once in n consecutive draws if and only if the draws do not cross the wrap of
      the counter, or n divides the counter's range. */
  lemma EachLeadsOnceExactly(counter: nat, n: nat)
    requires counter < USIZE_LIMIT && n > 0
    ensures EachLeadsOnce(counter, n) <==> counter + n <= USIZE_LIMIT || USIZE_LIMIT % n == 0
  {
    if counter + n <= USIZE_LIMIT || USIZE_LIMIT % n == 0 {
      forall position: nat | position < n ensures LeadsOnce(counter, n, position) {
        UnwrappedLeadsOnce(counter, n, position);
      }
    } else if n <= USIZE_LIMIT {
      var d, e := WrapRepeatsALead(counter, n);
      var position := Lead(CounterAfter(counter, d), n);
      assert DrawLeads(counter, d, n, position) && DrawLeads(counter, e, n, position);
      assert !LeadsOnce(counter, n, position);
    } else {
      BigPositionNeverLeads(counter, n);
    }
  }

  lemma UnwrappedLeadsOnce(counter: nat, n: nat, position: nat)
    requires counter < USIZE_LIMIT && position < n && (counter + n <= USIZE_LIMIT || USIZE_LIMIT % n == 0)
    ensures LeadsOnce(counter, n, position)
  {
    var d := OneLead(counter, n, position);
    LeadsAsUnwrapped(counter, d, n, position);
    forall e: nat | e < n && DrawLeads(counter, e, n, position) ensures e == d {
      LeadsAsUnwrapped(counter, e, n, position);
    }
  }

  /** With more providers than counter values, the position just past them never leads. */
  lemma BigPositionNeverLeads(counter: nat, n: nat)
    requires counter < USIZE_LIMIT < n
    ensures !LeadsOnce(counter, n, USIZE_LIMIT)
  {
    forall d: nat ensures !DrawLeads(counter, d, n, USIZE_LIMIT) { LeadWraps(CounterAfter(counter, d), n); }
  }
}
