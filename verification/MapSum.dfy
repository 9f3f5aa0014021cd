// Sums of the values of a finite map, independent of any iteration order.

module MapSum {

  ghost function Sum<K>(m: map<K, int>): int {
    if m == map[] then 0
    else var k :| k in m; m[k] + Sum(m - {k})
  }

  lemma {:induction false} SumRemove<K>(m: map<K, int>, k: K)
    requires k in m
    ensures Sum(m) == m[k] + Sum(m - {k})
    decreases m
  {
    var first :| first in m && Sum(m) == m[first] + Sum(m - {first});
    if first != k {
      SumRemove(m - {first}, k);
      SumRemove(m - {k}, first);
      assert m - {first} - {k} == m - {k} - {first};
    }
  }

  lemma SumPut<K>(m: map<K, int>, k: K, v: int)
    ensures Sum(m[k := v]) == Sum(m) + v - (if k in m then m[k] else 0)
  {
    SumRemove(m[k := v], k);
    assert m[k := v] - {k} == m - {k};
    if k in m {
      SumRemove(m, k);
    } else {
      assert m - {k} == m;
    }
  }

  lemma {:induction false} SumUnion<K>(a: map<K, int>, b: map<K, int>)
    requires a.Keys !! b.Keys
    ensures Sum(a + b) == Sum(a) + Sum(b)
    decreases b
  {
    if b == map[] {
      assert a + b == a;
    } else {
      var k :| k in b;
      SumRemove(b, k);
      SumUnion(a, b - {k});
      SumPut(a + (b - {k}), k, b[k]);
      assert (a + (b - {k}))[k := b[k]] == a + b;
    }
  }

  lemma {:induction false} SumMono<K>(a: map<K, int>, b: map<K, int>)
    requires a.Keys <= b.Keys
    requires forall k <- b.Keys :: (if k in a then a[k] else 0) <= b[k]
    ensures Sum(a) <= Sum(b)
    decreases b
  {
    if b == map[] {
      assert a == map[];
    } else {
      var k :| k in b;
      SumRemove(b, k);
      if k in a {
        SumRemove(a, k);
      } else {
        assert a - {k} == a;
      }
      SumMono(a - {k}, b - {k});
    }
  }

  function At<K>(m: map<K, int>, k: K): int {
    if k in m then m[k] else 0
  }

  lemma SumWithout<K>(m: map<K, int>, k: K)
    ensures Sum(m) == At(m, k) + Sum(m - {k})
  {
    if k in m {
      SumRemove(m, k);
    } else {
      assert m - {k} == m;
    }
  }

  /** If one map gains at least as much as another at every key, so do the sums. */
  lemma {:induction false} SumGains<K>(a: map<K, int>, a': map<K, int>, b: map<K, int>, b': map<K, int>, keys: set<K>)
    requires a.Keys <= keys && a'.Keys <= keys && b.Keys <= keys && b'.Keys <= keys
    requires forall k <- keys :: At(a', k) - At(a, k) >= At(b', k) - At(b, k)
    ensures Sum(a') - Sum(a) >= Sum(b') - Sum(b)
    decreases keys
  {
    if keys == {} {
      assert a == map[] && a' == map[] && b == map[] && b' == map[];
    } else {
      var k :| k in keys;
      SumWithout(a, k);
      SumWithout(a', k);
      SumWithout(b, k);
      SumWithout(b', k);
      forall j <- keys - {k} ensures At(a' - {k}, j) - At(a - {k}, j) >= At(b' - {k}, j) - At(b - {k}, j) {
        assert At(a', j) - At(a, j) >= At(b', j) - At(b, j);
      }
      SumGains(a - {k}, a' - {k}, b - {k}, b' - {k}, keys - {k});
    }
  }

  /** Entries of value 0 do not matter. */
  lemma SumSame<K>(a: map<K, int>, b: map<K, int>, keys: set<K>)
    requires a.Keys <= keys && b.Keys <= keys && forall k <- keys :: At(a, k) == At(b, k)
    ensures Sum(a) == Sum(b)
  {
    SumGains(a, b, map[], map[], keys);
    SumGains(b, a, map[], map[], keys);
  }

  lemma {:induction false} SumOnes<K>(m: map<K, int>)
    requires forall k <- m :: m[k] == 1
    ensures Sum(m) == |m.Keys|
    decreases m
  {
    if m != map[] {
      var k :| k in m && Sum(m) == m[k] + Sum(m - {k});
      SumOnes(m - {k});
      assert (m - {k}).Keys == m.Keys - {k};
    }
  }

  lemma SumNonNegative<K>(m: map<K, int>)
    requires forall k <- m :: m[k] >= 0
    ensures Sum(m) >= 0
  {
    SumMono(map[], m);
  }

  lemma {:induction false} SumZeros<K>(m: map<K, int>)
    requires forall k <- m :: m[k] == 0
    ensures Sum(m) == 0
    decreases m
  {
    if m != map[] {
      var k :| k in m && Sum(m) == m[k] + Sum(m - {k});
      SumZeros(m - {k});
    }
  }

  lemma SumZeroExactly<K>(m: map<K, int>)
    requires forall k <- m :: m[k] >= 0
    ensures Sum(m) == 0 <==> forall k <- m :: m[k] == 0
  {
    if forall k <- m :: m[k] == 0 {
      SumZeros(m);
    } else {
      var k :| k in m && m[k] != 0;
      SumRemove(m, k);
      SumNonNegative(m - {k});
    }
  }

  /** A part of a non-negative map sums to the whole exactly when what it leaves out
      is all zero. */
  lemma SumOfPartExactly<K>(m: map<K, int>, part: map<K, int>)
    requires forall k <- m :: m[k] >= 0
    requires part.Keys <= m.Keys && forall k <- part :: part[k] == m[k]
    ensures Sum(part) == Sum(m) <==> forall k <- m.Keys - part.Keys :: m[k] == 0
  {
    hide Sum;
    var rest := m - part.Keys;
    assert part + rest == m;
    SumUnion(part, rest);
    SumZeroExactly(rest);
    assert rest.Keys == m.Keys - part.Keys;
  }

  /** `sum(m.values())`. */
  method SumValues<K(==)>(m: map<K, int>) returns (s: int)
    ensures s == Sum(m)
  {
    s := 0;
    var rest := m;
    while rest != map[]
      invariant rest.Keys <= m.Keys && s + Sum(rest) == Sum(m)
      decreases |rest|
    {
      var k :| k in rest;
      SumRemove(rest, k);
      s := s + rest[k];
      assert rest.Keys == (rest - {k}).Keys + {k};
      assert |rest| == |rest.Keys| && |rest - {k}| == |(rest - {k}).Keys|;
      rest := rest - {k};
    }
  }
}
