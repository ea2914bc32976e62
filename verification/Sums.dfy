// Sums over finite maps, and over parts of their domain.
module Sums {
  ghost function Sum<K>(m: map<K, int>): int
    decreases |m|
  {
    if m == map[] then 0
    else
      var k :| k in m;
      m[k] + Sum(m - {k})
  }

  // The order in which a sum is taken does not matter.
  lemma {:induction false} SumRemove<K>(m: map<K, int>, k: K)
    requires k in m
    ensures Sum(m) == m[k] + Sum(m - {k})
    decreases |m|
  {
    var c :| c in m && Sum(m) == m[c] + Sum(m - {c});
    if c != k {
      SumRemove(m - {c}, k);
      SumRemove(m - {k}, c);
      assert m - {c} - {k} == m - {k} - {c};
    }
  }

  lemma SumSet<K>(m: map<K, int>, k: K, x: int)
    ensures Sum(m[k := x]) == Sum(m) - (if k in m then m[k] else 0) + x
  {
    SumRemove(m[k := x], k);
    assert m[k := x] - {k} == m - {k};
    if k in m {
      SumRemove(m, k);
    } else {
      assert m - {k} == m;
    }
  }

  lemma {:induction false} SumSplit<K>(m: map<K, int>, out: set<K>)
    ensures Sum(m) == Sum(m - out) + Sum(map k | k in m && k in out :: m[k])
    decreases |m|
  {
    var part := map k | k in m && k in out :: m[k];
    if part == map[] {
      assert forall k :: k in m && k in out ==> k in part;
      assert m - out == m;
    } else {
      var k :| k in part;
      SumRemove(m, k);
      SumRemove(part, k);
      SumSplit(m - {k}, out);
      assert m - {k} - out == m - out;
      assert (map j | j in m - {k} && j in out :: (m - {k})[j]) == part - {k};
    }
  }

  lemma {:induction false} SumNonNegative<K>(m: map<K, int>)
    requires forall k :: k in m ==> m[k] >= 0
    ensures Sum(m) >= 0
    ensures forall k :: k in m ==> m[k] <= Sum(m)
    decreases |m|
  {
    forall k | k in m
      ensures 0 <= m[k] <= Sum(m)
    {
      SumRemove(m, k);
      SumNonNegative(m - {k});
    }
    if m != map[] {
      var k :| k in m;
      assert 0 <= m[k] <= Sum(m);
    }
  }

  lemma {:induction false} SumMonotone<K>(a: map<K, int>, b: map<K, int>)
    requires a.Keys == b.Keys
    requires forall k :: k in a ==> a[k] <= b[k]
    ensures Sum(a) <= Sum(b)
    decreases |a|
  {
    if a == map[] {
      assert b.Keys == {};
      assert b == map[];
    } else {
      var k :| k in a;
      SumRemove(a, k);
      SumRemove(b, k);
      SumMonotone(a - {k}, b - {k});
    }
  }

  lemma SumStrict<K>(a: map<K, int>, b: map<K, int>, k: K)
    requires a.Keys == b.Keys && k in a && a[k] < b[k]
    requires forall j :: j in a ==> a[j] <= b[j]
    ensures Sum(a) < Sum(b)
  {
    SumRemove(a, k);
    SumRemove(b, k);
    assert (a - {k}).Keys == (b - {k}).Keys;
    SumMonotone(a - {k}, b - {k});
  }
}
