/** The one fact about multiples that the counters and window counts need. */
module Arithmetic {

  lemma MultiplesApart(a: int, b: int, n: int)
    requires n > 0
    ensures a < b ==> a * n + n <= b * n
  {
    if a < b {
      var d := b - a - 1;
      assert d * n >= 0;
      assert (a + 1 + d) * n == a * n + n + d * n;
    }
  }

  /** q is the quotient of any number in q's stretch of n. */
  lemma QuotientUnique(z: int, n: int, q: int)
    requires n > 0 && q * n <= z < q * n + n
    ensures z / n == q && z % n == z - q * n
  {
    var d := z / n;
    assert d * n <= z < d * n + n;
    MultiplesApart(q, d, n);
    MultiplesApart(d, q, n);
  }
}
