/** Sums over the values of a map, for measuring the work many parties have left. */
module MapSums {
  ghost function Total(m: map<nat, nat>): nat
    decreases m.Keys
  {
    if m == map[] then 0
    else
      var k :| k in m;
      m[k] + Total(m - {k})
  }

  /** Any key can be taken out first. */
  lemma {:induction false} TotalPull(m: map<nat, nat>, k: nat)
    requires k in m
    ensures Total(m) == m[k] + Total(m - {k})
    decreases m.Keys
  {
    var j :| j in m && Total(m) == m[j] + Total(m - {j});
    if j != k {
      TotalPull(m - {j}, k);
      TotalPull(m - {k}, j);
      assert m - {j} - {k} == m - {k} - {j};
    }
  }

  lemma TotalUpdate(m: map<nat, nat>, k: nat, v: nat)
    requires k in m
    ensures Total(m[k := v]) == Total(m) - m[k] + v
  {
    TotalPull(m, k);
    TotalPull(m[k := v], k);
    assert m[k := v] - {k} == m - {k};
  }

  /** If no value rises by more than one, the sum rises by at most the number of values. */
  lemma {:induction false} TotalRise(m: map<nat, nat>, m': map<nat, nat>)
    requires m.Keys == m'.Keys && forall k :: k in m ==> m'[k] <= m[k] + 1
    ensures Total(m') <= Total(m) + |m|
    decreases m.Keys
  {
    if m == map[] {
      assert m' == map[];
    } else {
      var k :| k in m;
      TotalPull(m, k);
      TotalPull(m', k);
      assert (m - {k}).Keys == m.Keys - {k} == (m' - {k}).Keys;
      TotalRise(m - {k}, m' - {k});
    }
  }
}
