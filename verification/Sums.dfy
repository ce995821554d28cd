/** Sums over finite maps. */
module Sums {
  ghost function Sum<K(!new)>(m: map<K, int>): int {
    if m == map[] then 0
    else var k :| k in m; m[k] + Sum(m - {k})
  }

  lemma {:induction false} SumTakesOut<K(!new)>(m: map<K, int>, k: K)
    requires k in m
    ensures Sum(m) == m[k] + Sum(m - {k})
    decreases |m|
  {
    var j :| j in m && Sum(m) == m[j] + Sum(m - {j});
    if j != k {
      assert |m - {j}| < |m| && |m - {k}| < |m| by {
        assert (m - {j}).Keys == m.Keys - {j} && (m - {k}).Keys == m.Keys - {k};
      }
      SumTakesOut(m - {j}, k);
      SumTakesOut(m - {k}, j);
      assert m - {j} - {k} == m - {k} - {j};
    }
  }

  lemma SumAdds<K(!new)>(m: map<K, int>, k: K, v: int)
    ensures Sum(m[k := v]) == Sum(m - {k}) + v
    ensures k in m ==> Sum(m[k := v]) == Sum(m) - m[k] + v
    ensures k !in m ==> Sum(m[k := v]) == Sum(m) + v
  {
    SumTakesOut(m[k := v], k);
    assert m[k := v] - {k} == m - {k};
    if k in m {
      SumTakesOut(m, k);
    } else {
      assert m - {k} == m;
    }
  }

  ghost function Inside<K(!new)>(m: map<K, int>, keys: set<K>): map<K, int> { map k | k in m && k in keys :: m[k] }

  lemma {:induction false} SumSplits<K(!new)>(m: map<K, int>, keys: set<K>)
    ensures Sum(m) == Sum(m - keys) + Sum(Inside(m, keys))
    decreases m.Keys
  {
    if k :| k in m && k in keys {
      var m' := m - {k};
      SumSplits(m', keys);
      SumTakesOut(m, k);
      SumTakesOut(Inside(m, keys), k);
      assert Inside(m', keys) == Inside(m, keys) - {k};
      assert m' - keys == m - keys;
    } else {
      assert m - keys == m && Inside(m, keys) == map[];
    }
  }

  lemma {:induction false} SumAtLeast<K(!new)>(m: map<K, int>, k: K)
    requires k in m && forall j | j in m :: m[j] >= 0
    ensures Sum(m) >= m[k] && Sum(m - {k}) >= 0
  {
    SumTakesOut(m, k);
    SumNonNegative(m - {k});
  }

  lemma {:induction false} SumNonNegative<K(!new)>(m: map<K, int>)
    requires forall j | j in m :: m[j] >= 0
    ensures Sum(m) >= 0
    decreases |m|
  {
    if k :| k in m {
      assert (m - {k}).Keys == m.Keys - {k};
      SumTakesOut(m, k);
      SumNonNegative(m - {k});
    }
  }

  lemma SumUnion<K(!new)>(m: map<K, int>, n: map<K, int>)
    requires m.Keys !! n.Keys
    ensures Sum(m + n) == Sum(m) + Sum(n)
  {
    SumSplits(m + n, n.Keys);
    assert m + n - n.Keys == m;
    assert (map k | k in m + n && k in n.Keys :: (m + n)[k]) == n;
  }
}
