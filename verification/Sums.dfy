/** Sums over the values of a map. */
module Sums {
  ghost function SumOf<K>(m: map<K, nat>): nat
    decreases |m|
  {
    if m == map[] then 0
    else
      var k :| k in m;
      m[k] + SumOf(m - {k})
  }

  /** Any entry can be taken out first. */
  lemma {:induction false} SumWithout<K>(m: map<K, nat>, k: K)
    requires k in m
    ensures SumOf(m) == m[k] + SumOf(m - {k})
    decreases |m|
  {
    var first :| first in m && SumOf(m) == m[first] + SumOf(m - {first});
    if first != k {
      SumWithout(m - {first}, k);
      SumWithout(m - {k}, first);
      assert m - {first} - {k} == m - {k} - {first};
    }
  }

  lemma SumWith<K>(m: map<K, nat>, k: K, n: nat)
    requires k !in m
    ensures SumOf(m[k := n]) == SumOf(m) + n
  {
    SumWithout(m[k := n], k);
    assert m[k := n] - {k} == m;
  }

  lemma SumChanged<K>(m: map<K, nat>, k: K, n: nat)
    requires k in m
    ensures SumOf(m[k := n]) + m[k] == SumOf(m) + n
  {
    SumWithout(m, k);
    SumWithout(m[k := n], k);
    assert m[k := n] - {k} == m - {k};
  }
}
