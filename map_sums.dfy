/** Sums over the values of a map, the way Kotlin's `values.sum()` and the
    `normalize()` extension add them up: in some iteration order, which does not
    matter because addition of reals is commutative. */
module MapSums {
  import opened Numeric

  /** The sum of the values of `m`. */
  ghost function SumOfValues<K>(m: map<K, real>): real
  {
    SumOver(m.Keys, m)
  }

  /** The sum of the values of `m` at the keys in `keys`. */
  ghost function SumOver<K>(keys: set<K>, m: map<K, real>): real
    requires keys <= m.Keys
    decreases keys
  {
    if keys == {} then 0.0 else var k :| k in keys; m[k] + SumOver(keys - {k}, m)
  }

  /** The sum does not depend on which key is taken out first. */
  lemma {:induction false} SumOverRemove<K>(keys: set<K>, m: map<K, real>, k: K)
    requires keys <= m.Keys && k in keys
    ensures SumOver(keys, m) == m[k] + SumOver(keys - {k}, m)
    decreases keys
  {
    var j :| j in keys && SumOver(keys, m) == m[j] + SumOver(keys - {j}, m);
    if j != k {
      SumOverRemove(keys - {j}, m, k);
      SumOverRemove(keys - {k}, m, j);
      assert keys - {j} - {k} == keys - {k} - {j};
    }
  }

  /** Two maps that agree on `keys` have the same sum over `keys`. */
  lemma {:induction false} SumOverAgree<K>(keys: set<K>, m: map<K, real>, m': map<K, real>)
    requires keys <= m.Keys && keys <= m'.Keys
    requires forall k | k in keys :: m[k] == m'[k]
    ensures SumOver(keys, m) == SumOver(keys, m')
    decreases keys
  {
    if keys != {} {
      var k :| k in keys;
      SumOverRemove(keys, m, k);
      SumOverRemove(keys, m', k);
      SumOverAgree(keys - {k}, m, m');
    }
  }

  lemma SumOfValuesRemove<K>(m: map<K, real>, k: K)
    requires k in m
    ensures SumOfValues(m) == m[k] + SumOfValues(m - {k})
  {
    SumOverRemove(m.Keys, m, k);
    assert (m - {k}).Keys == m.Keys - {k};
    SumOverAgree(m.Keys - {k}, m, m - {k});
  }

  /** Overwriting (or adding) one entry changes the sum by the new value only. */
  lemma SumOfValuesUpdate<K>(m: map<K, real>, k: K, v: real)
    ensures SumOfValues(m[k := v]) == SumOfValues(m - {k}) + v
  {
    SumOfValuesRemove(m[k := v], k);
    assert m[k := v] - {k} == m - {k};
  }

  /** Dividing every value by `c` divides the sum by `c`. */
  lemma {:induction false} SumOverScale<K>(keys: set<K>, m: map<K, real>, m': map<K, real>, c: real)
    requires c != 0.0 && keys <= m.Keys && keys <= m'.Keys
    requires forall k | k in keys :: m'[k] == m[k] / c
    ensures SumOver(keys, m') == SumOver(keys, m) / c
    decreases keys
  {
    if keys != {} {
      var k :| k in keys;
      SumOverRemove(keys, m, k);
      SumOverRemove(keys, m', k);
      SumOverScale(keys - {k}, m, m', c);
      DivideSum(m[k], SumOver(keys - {k}, m), c);
    }
  }

  lemma DivideSum(a: real, b: real, c: real)
    requires c != 0.0
    ensures a / c + b / c == (a + b) / c
  {
  }

  lemma SumOfValuesScale<K>(m: map<K, real>, c: real)
    requires c != 0.0
    ensures SumOfValues(map k | k in m :: m[k] / c) == SumOfValues(m) / c
  {
    var scaled := map k | k in m :: m[k] / c;
    assert scaled.Keys == m.Keys;
    SumOverScale(m.Keys, m, scaled, c);
  }

  /** With no negative value, every value lies between 0 and the sum. */
  lemma {:induction false} SumOfValuesBounds<K>(m: map<K, real>, k: K)
    requires forall j | j in m :: m[j] >= 0.0
    requires k in m
    ensures 0.0 <= m[k] <= SumOfValues(m)
  {
    SumOfValuesRemove(m, k);
    SumOfValuesNonNegative(m - {k});
  }

  lemma {:induction false} SumOverNonNegative<K>(keys: set<K>, m: map<K, real>)
    requires keys <= m.Keys
    requires forall j | j in keys :: m[j] >= 0.0
    ensures SumOver(keys, m) >= 0.0
    decreases keys
  {
    if keys != {} {
      var k :| k in keys;
      SumOverRemove(keys, m, k);
      SumOverNonNegative(keys - {k}, m);
    }
  }

  lemma SumOfValuesNonNegative<K>(m: map<K, real>)
    requires forall j | j in m :: m[j] >= 0.0
    ensures SumOfValues(m) >= 0.0
  {
    SumOverNonNegative(m.Keys, m);
  }

  /** An `Int`-valued map seen as doubles (`toDouble()`). */
  function AsReals<K>(m: map<K, int>): (r: map<K, real>)
  {
    map k | k in m :: m[k] as real
  }

  /** The finite parts of a `Double`-valued map, non-finite values read as 0.0. */
  function FiniteParts<K>(m: map<K, Double>): (r: map<K, real>)
  {
    map k | k in m :: DefaultWhenNotFinite(m[k], 0.0)
  }

  /** `normalize()` on a `Map<K, Double>`: every value divided by the sum of all
      values (IEEE division, so a zero sum gives non-finite values). When the sum is
      not zero, the result has the same keys, finite values, and they sum to 1. */
  ghost function Normalize<K>(m: map<K, real>): (r: map<K, Double>)
    ensures r.Keys == m.Keys
    ensures SumOfValues(m) != 0.0 ==> forall k | k in r :: r[k] == Finite(m[k] / SumOfValues(m))
    ensures SumOfValues(m) != 0.0 ==> SumOfValues(FiniteParts(r)) == 1.0
  {
    var total := SumOfValues(m);
    var r := map k | k in m :: Divide(m[k], total);
    assert total != 0.0 ==> SumOfValues(FiniteParts(r)) == 1.0 by {
      if total != 0.0 {
        SumOfValuesScale(m, total);
        assert FiniteParts(r) == map k | k in m :: m[k] / total;
      }
    }
    r
  }
}
