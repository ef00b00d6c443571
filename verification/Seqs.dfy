/** Sequence vocabulary: duplicates, strict order, flattening, ascending enumeration. */
module Seqs {

  predicate Distinct<T(==)>(s: seq<T>) {
    forall i, j :: 0 <= i < j < |s| ==> s[i] != s[j]
  }

  predicate Below(s: seq<nat>, n: nat) {
    forall i :: 0 <= i < |s| ==> s[i] < n
  }

  predicate StrictlyAscending(s: seq<nat>) {
    forall i, j :: 0 <= i < j < |s| ==> s[i] < s[j]
  }

  ghost function Elements<T>(s: seq<T>): set<T> {
    set x | x in s
  }

  function Flatten<T>(ss: seq<seq<T>>): seq<T> {
    if ss == [] then [] else Flatten(ss[..|ss| - 1]) + ss[|ss| - 1]
  }

  lemma TakeOneMore<T>(s: seq<T>, k: nat)
    requires k < |s|
    ensures s[..k + 1] == s[..k] + [s[k]]
  {
  }

  lemma HeadIsMember<T>(s: seq<T>)
    ensures s == [] || s[0] in s
  {
  }

  /** The position of the first occurrence of x in s. */
  function IndexOf<T(==)>(s: seq<T>, x: T): (i: nat)
    requires x in s
    ensures i < |s| && s[i] == x && x !in s[..i]
  {
    if s[0] == x then 0 else 1 + IndexOf(s[1..], x)
  }

  lemma IndexOfFirst<T>(s: seq<T>, i: nat)
    requires i < |s|
    ensures s[i] in s && IndexOf(s, s[i]) <= i
  {
    if IndexOf(s, s[i]) > i { assert s[i] in s[..IndexOf(s, s[i])]; }
  }

  lemma IndexOfDistinct<T>(s: seq<T>, i: nat)
    requires Distinct(s) && i < |s|
    ensures IndexOf(s, s[i]) == i
  {
  }

  /** The members of S below n, in increasing order. */
  ghost function Ascending(n: nat, S: set<nat>): (r: seq<nat>)
    ensures StrictlyAscending(r) && Below(r, n)
    ensures forall x :: x in r <==> x in S && x < n
  {
    if n == 0 then [] else
    Ascending(n - 1, S) + if n - 1 in S then [n - 1] else []
  }

  /** An increasing sequence is determined by its members. */
  lemma {:induction false} AscendingUnique(a: seq<nat>, b: seq<nat>)
    requires StrictlyAscending(a) && StrictlyAscending(b)
    requires forall x :: x in a <==> x in b
    ensures a == b
    decreases |a|
  {
    if a == [] {
      assert forall k :: 0 <= k < |b| ==> b[k] in a;
    } else {
      assert a[|a| - 1] in b;
      var a', b' := a[..|a| - 1], b[..|b| - 1];
      SameGreatest(a, b, a', b');
      AscendingUnique(a', b');
      assert a == a' + [a[|a| - 1]] && b == b' + [b[|b| - 1]];
    }
  }

  /** Increasing sequences with the same members have the same greatest one, and the same others. */
  lemma SameGreatest(a: seq<nat>, b: seq<nat>, a': seq<nat>, b': seq<nat>)
    requires StrictlyAscending(a) && StrictlyAscending(b) && a != [] && b != []
    requires a' == a[..|a| - 1] && b' == b[..|b| - 1]
    requires forall x :: x in a <==> x in b
    ensures a[|a| - 1] == b[|b| - 1]
    ensures forall z :: z in a' <==> z in b'
  {
    GreatestIsLast(a, a');
    GreatestIsLast(b, b');
    var x, y := a[|a| - 1], b[|b| - 1];
    assert x in a && y in b;
    assert x in b && y in a;
  }

  lemma GreatestIsLast(a: seq<nat>, a': seq<nat>)
    requires StrictlyAscending(a) && a != [] && a' == a[..|a| - 1]
    ensures forall x :: x in a ==> x <= a[|a| - 1]
    ensures forall x :: x in a' <==> x in a && x != a[|a| - 1]
  {
  }

  lemma {:induction false} FlattenAppend<T>(ss: seq<seq<T>>, s: seq<T>)
    ensures Flatten(ss + [s]) == Flatten(ss) + s
  {
    assert (ss + [s])[..|ss|] == ss;
  }

  lemma FlattenTake<T>(ss: seq<seq<T>>, k: nat)
    requires k < |ss|
    ensures Flatten(ss[..k + 1]) == Flatten(ss[..k]) + ss[k]
  {
    assert ss[..k + 1] == ss[..k] + [ss[k]];
    FlattenAppend(ss[..k], ss[k]);
  }

  /** A sequence longer than the range of its values repeats one. */
  lemma {:induction false} Pigeonhole(s: seq<nat>, n: nat) returns (i: nat, j: nat)
    requires Below(s, n) && |s| > n
    ensures i < j < |s| && s[i] == s[j]
  {
    if !Distinct(s) {
      i, j :| 0 <= i < j < |s| && s[i] == s[j];
    } else {
      DistinctBounded(s, n);
      assert false;
    }
  }

  lemma DistinctConcat<T>(a: seq<T>, b: seq<T>)
    requires Distinct(a) && Distinct(b)
    requires forall x :: x in b ==> x !in a
    ensures Distinct(a + b)
  {
    forall i, j | 0 <= i < j < |a + b| ensures (a + b)[i] != (a + b)[j] {
      if i < |a| <= j { assert b[j - |a|] in b; }
    }
  }

  lemma {:induction false} DistinctSize<T>(s: seq<T>)
    requires Distinct(s)
    ensures |Elements(s)| == |s|
  {
    if s == [] {
      assert Elements(s) == {};
    } else {
      var m := |s| - 1;
      DistinctSize(s[..m]);
      assert Elements(s) == Elements(s[..m]) + {s[m]};
      assert s[m] !in Elements(s[..m]);
    }
  }

  /** Any finite set can be listed. */
  lemma {:induction false} ListOf<T>(S: set<T>) returns (s: seq<T>)
    ensures Distinct(s) && Elements(s) == S
    decreases |S|
  {
    s := [];
    if x :| x in S {
      var rest := ListOf(S - {x});
      s := rest + [x];
      assert Elements(s) == Elements(rest) + {x};
    }
  }

  /** The numbers below n. */
  ghost function Range(n: nat): (r: set<nat>)
    ensures |r| == n && forall x :: x in r <==> 0 <= x < n
  {
    if n == 0 then {} else Range(n - 1) + {n - 1}
  }

  lemma {:induction false} SubsetSize<T>(a: set<T>, b: set<T>)
    requires a <= b
    ensures |a| <= |b|
    ensures |a| == |b| ==> a == b
  {
    assert b == a + (b - a);
    assert |b| == |a| + |b - a|;
    if |b - a| == 0 { assert b - a == {}; }
  }

  lemma LargerSetHasMore<T>(a: set<T>, b: set<T>)
    requires |a| < |b|
    ensures b - a != {}
  {
    if b - a == {} {
      forall x | x in b ensures x in a { assert x !in b - a; }
      SubsetSize(b, a);
    }
  }

  /** A duplicate-free sequence of n numbers below n holds every one of them. */
  lemma {:induction false} DistinctCoversRange(s: seq<nat>, n: nat)
    requires Distinct(s) && Below(s, n) && |s| == n
    ensures forall x :: 0 <= x < n ==> x in s
  {
    DistinctSize(s);
    SubsetSize(Elements(s), Range(n));
    forall x | 0 <= x < n ensures x in s { assert x in Range(n); }
  }

  lemma {:induction false} DistinctBounded(s: seq<nat>, n: nat)
    requires Distinct(s) && Below(s, n)
    ensures |s| <= n
  {
    DistinctSize(s);
    SubsetSize(Elements(s), Range(n));
  }

  // ----- sorting numbers -----

  function InsertInOrder(s: seq<nat>, x: nat): (r: seq<nat>)
    ensures multiset(r) == multiset(s) + multiset{x}
  {
    if s == [] then [x]
    else if s[|s| - 1] <= x then s + [x]
    else
      assert s == s[..|s| - 1] + [s[|s| - 1]];
      InsertInOrder(s[..|s| - 1], x) + [s[|s| - 1]]
  }

  function Sort(s: seq<nat>): (r: seq<nat>)
    ensures multiset(r) == multiset(s)
  {
    if s == [] then [] else
    assert s == s[..|s| - 1] + [s[|s| - 1]];
    InsertInOrder(Sort(s[..|s| - 1]), s[|s| - 1])
  }

  predicate Ascends(s: seq<nat>) {
    forall i, j :: 0 <= i < j < |s| ==> s[i] <= s[j]
  }

  lemma InsertInOrderMembers(s: seq<nat>, x: nat)
    ensures forall y :: y in InsertInOrder(s, x) ==> y in s || y == x
  {
    forall y | y in InsertInOrder(s, x) ensures y in s || y == x {
      assert y in multiset(InsertInOrder(s, x));
    }
  }

  lemma {:induction false} InsertInOrderAscends(s: seq<nat>, x: nat)
    requires Ascends(s)
    ensures Ascends(InsertInOrder(s, x))
  {
    if s != [] && s[|s| - 1] > x {
      var m := |s| - 1;
      InsertInOrderAscends(s[..m], x);
      var r := InsertInOrder(s[..m], x);
      InsertInOrderMembers(s[..m], x);
      forall i | 0 <= i < |r| ensures r[i] <= s[m] {
        assert r[i] in r;
        if r[i] != x {
          var j :| 0 <= j < m && s[..m][j] == r[i];
        }
      }
      assert InsertInOrder(s, x) == r + [s[m]];
    }
  }

  lemma {:induction false} SortAscends(s: seq<nat>)
    ensures Ascends(Sort(s))
  {
    if s != [] {
      SortAscends(s[..|s| - 1]);
      InsertInOrderAscends(Sort(s[..|s| - 1]), s[|s| - 1]);
    }
  }

  lemma {:induction false} DistinctByCount<T>(s: seq<T>)
    ensures Distinct(s) <==> forall x :: x in s ==> multiset(s)[x] == 1
  {
    if s != [] {
      var m := |s| - 1;
      var t, y := s[..m], s[m];
      assert s == t + [y];
      DistinctByCount(t);
      if Distinct(s) {
        forall x | x in s ensures multiset(s)[x] == 1 {
          if x in t { assert multiset(t)[x] == 1; }
        }
      }
      if forall x :: x in s ==> multiset(s)[x] == 1 {
        assert y in s;
        forall x | x in t ensures multiset(t)[x] == 1 {
          assert x in s;
          assert multiset(t)[x] <= multiset(s)[x];
          assert x in multiset(t);
        }
        assert y !in multiset(t);
      }
    }
  }

  /** Sorting a duplicate-free sequence lists its members in increasing order. */
  lemma SortDistinct(s: seq<nat>)
    requires Distinct(s)
    ensures StrictlyAscending(Sort(s))
    ensures forall x :: x in Sort(s) <==> x in s
    ensures |Sort(s)| == |s|
  {
    SortAscends(s);
    DistinctByCount(s);
    var r := Sort(s);
    forall x ensures x in r <==> x in s {
      assert x in r <==> x in multiset(r);
      assert x in s <==> x in multiset(s);
    }
    DistinctByCount(r);
    assert |multiset(r)| == |r| && |multiset(s)| == |s|;
  }
}
