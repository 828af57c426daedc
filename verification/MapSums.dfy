/** Sums of the values of a map. */
module MapSums {

  ghost function Sum<K(!new)>(m: map<K, int>): int {
    if m == map[] then 0
    else
      var k :| k in m;
      m[k] + Sum(m - {k})
  }

  lemma Member<K(!new)>(s: set<K>) returns (k: K)
    requires s != {}
    ensures k in s
  {
    k :| k in s;
  }

  /** A sum does not depend on the order of its terms. */
  lemma {:induction false} SumRemove<K(!new)>(m: map<K, int>, k: K)
    requires k in m
    ensures Sum(m) == m[k] + Sum(m - {k})
    decreases |m|
  {
    var j :| j in m && Sum(m) == m[j] + Sum(m - {j});
    if j != k {
      SumRemove(m - {j}, k);
      SumRemove(m - {k}, j);
      assert m - {j} - {k} == m - {k} - {j};
    }
  }

  lemma SumAdd<K(!new)>(m: map<K, int>, k: K, v: int)
    requires k !in m
    ensures Sum(m[k := v]) == Sum(m) + v
  {
    SumRemove(m[k := v], k);
    assert m[k := v] - {k} == m;
  }

  lemma {:induction false} SumNotNegative<K(!new)>(m: map<K, int>)
    requires forall k :: k in m ==> 0 <= m[k]
    ensures 0 <= Sum(m)
    decreases |m|
  {
    if m != map[] {
      var k :| k in m && Sum(m) == m[k] + Sum(m - {k});
      SumNotNegative(m - {k});
    }
  }

  /** Disjoint extents within a range add up to no more than the range. */
  lemma {:induction false} SumOfDisjoint(m: map<int, int>, lo: int, hi: int)
    requires lo <= hi
    requires forall p :: p in m ==> lo <= p && 0 <= m[p] && p + m[p] <= hi
    requires forall p, q :: p in m && q in m && p < q ==> p + m[p] <= q
    ensures Sum(m) <= hi - lo
    decreases |m|
  {
    var keys := m.Keys;
    if keys != {} {
      var k := Member(keys);
      var p := Highest(m, k);
      SumRemove(m, p);
      SumOfDisjoint(m - {p}, lo, p);
    }
  }

  lemma {:induction false} Highest(m: map<int, int>, k: int) returns (p: int)
    requires k in m
    ensures p in m && forall q :: q in m ==> q <= p
    decreases |m|
  {
    var others := m.Keys - {k};
    if others == {} {
      forall q | q in m
        ensures q <= k
      {
        assert q == k || q in others;
      }
      p := k;
      return;
    }
    var j := Member(others);
    var top := Highest(m - {k}, j);
    p := if top < k then k else top;
    forall q | q in m
      ensures q <= p
    {
      assert q == k || q in m - {k};
    }
  }
}
