/** Sums of the values of a finite map: a tally of letter counts or of group
    sizes, whatever the order in which the map is visited. */
module Tallies {

  /** The value at `k`, or 0 when `k` is absent (HashMap.getOrDefault(k, 0)). */
  function Get<K>(m: map<K, nat>, k: K): nat
  {
    if k in m then m[k] else 0
  }

  /** The sum of all values of `m`. */
  ghost function Total<K>(m: map<K, nat>): nat
    decreases m.Keys
  {
    if m.Keys == {} then 0
    else
      var k :| k in m.Keys;
      m[k] + Total(m - {k})
  }

  /** Total may start from any key. */
  lemma {:induction false} TotalRemove<K>(m: map<K, nat>, k: K)
    requires k in m
    ensures Total(m) == m[k] + Total(m - {k})
    decreases m.Keys
  {
    var d :| d in m.Keys && Total(m) == m[d] + Total(m - {d});
    if d != k {
      var md, mk := m - {d}, m - {k};
      TotalRemove(md, k);
      TotalRemove(mk, d);
      assert md - {k} == mk - {d};
    }
  }

  /** Raising one value by one raises the total by one, whether or not the key was present. */
  lemma TotalBump<K>(m: map<K, nat>, k: K)
    ensures Total(m[k := Get(m, k) + 1]) == Total(m) + 1
  {
    var m' := m[k := Get(m, k) + 1];
    TotalRemove(m', k);
    assert m' - {k} == m - {k};
    if k in m {
      TotalRemove(m, k);
    } else {
      assert m - {k} == m;
    }
  }
}
