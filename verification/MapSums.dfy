/** 64-bit unsigned sums, and the sum of all values of a map. */
module MapSums {

  const TWO_64 := 0x1_0000_0000_0000_0000

  type U64 = n: int | 0 <= n < TWO_64

  /** Go's addition of two uint64 values. */
  function Add64(a: U64, b: U64): U64 {
    (a + b) % TWO_64
  }

  /** Sixty-four bits: the sum, or what is left of it without the carry. */
  lemma AddCarries(a: U64, b: U64)
    ensures TWO_64 == 0x1_0000_0000 * 0x1_0000_0000
    ensures Add64(a, b) == if a + b < 18446744073709551616 then a + b else a + b - 18446744073709551616
  {
  }

  lemma AddWraps(a: int, b: int)
    ensures (a % TWO_64 + b) % TWO_64 == (a + b) % TWO_64
  {
  }

  /** Equal modulo 2^64. */
  predicate Same64(a: int, b: int) {
    (a - b) % TWO_64 == 0
  }

  ghost function Sum<K(!new)>(m: map<K, U64>): nat
    decreases |m|
  {
    if m == map[] then 0
    else
      var k :| k in m;
      m[k] + Sum(m - {k})
  }

  lemma {:induction false} SumWithout<K(!new)>(m: map<K, U64>, k: K)
    requires k in m
    ensures Sum(m) == m[k] + Sum(m - {k})
    decreases |m|
  {
    var j :| j in m && Sum(m) == m[j] + Sum(m - {j});
    if j != k {
      SumWithout(m - {j}, k);
      SumWithout(m - {k}, j);
      assert m - {j} - {k} == m - {k} - {j};
    }
  }

  lemma SumUpdate<K(!new)>(m: map<K, U64>, k: K, v: U64)
    ensures Sum(m[k := v]) == v + Sum(m - {k})
    ensures Sum(m[k := v]) == v + Sum(m) - if k in m then m[k] else 0
  {
    SumWithout(m[k := v], k);
    assert m[k := v] - {k} == m - {k};
    if k in m {
      SumWithout(m, k);
    } else {
      assert m - {k} == m;
    }
  }
}
