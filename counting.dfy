/** Kotlin's counting idiom `groupingBy { it }.eachCount()`, its normalisation into
    relative frequencies, and `List<Pair>.toMap()`. */
module Counting {
  import opened Numeric
  import opened MapSums

  /** `xs.groupingBy(::identity).eachCount()`: every element of `xs` mapped to the
      number of its occurrences. Built the way `eachCount` folds the list. */
  function CountMap<K>(xs: seq<K>): (m: map<K, int>)
    ensures m.Keys == set x | x in xs
    ensures forall k | k in m :: m[k] == multiset(xs)[k] >= 1
  {
    if xs == [] then map[]
    else
      var init := xs[..|xs| - 1];
      var x := xs[|xs| - 1];
      assert xs == init + [x];
      var rest := CountMap(init);
      rest[x := if x in rest then rest[x] + 1 else 1]
  }

  /** The counts add up to the length of the list. */
  lemma {:induction false} CountMapTotal<K>(xs: seq<K>)
    ensures SumOfValues(AsReals(CountMap(xs))) == |xs| as real
    decreases |xs|
  {
    if xs == [] {
      var empty: map<K, real> := map[];
      assert AsReals(CountMap(xs)) == empty;
      assert SumOfValues(empty) == 0.0;
    } else {
      var init := xs[..|xs| - 1];
      var x := xs[|xs| - 1];
      var rest := CountMap(init);
      var v := if x in rest then rest[x] + 1 else 1;
      assert CountMap(xs) == rest[x := v];
      CountMapTotal(init);
      var r := AsReals(rest);
      AsRealsUpdate(rest, x, v);
      SumOfValuesUpdate(r, x, v as real);
      if x in rest {
        SumOfValuesRemove(r, x);
      } else {
        assert r - {x} == r;
      }
    }
  }

  lemma AsRealsUpdate<K>(m: map<K, int>, k: K, v: int)
    ensures AsReals(m[k := v]) == AsReals(m)[k := v as real]
  {
  }

  /** `eachCount().normalize()`: relative frequencies. The keys are the elements of
      `xs`; each value is the element's share of the list. */
  ghost function Frequencies<K>(xs: seq<K>): (f: map<K, Double>)
    ensures f.Keys == set x | x in xs
    ensures forall k | k in f :: f[k] == Finite(multiset(xs)[k] as real / |xs| as real)
  {
    CountMapTotal(xs);
    Normalize(AsReals(CountMap(xs)))
  }

  /** Whenever there is something to count, the frequencies sum to 1. */
  lemma FrequenciesSumToOne<K>(xs: seq<K>)
    requires |xs| > 0
    ensures SumOfValues(FiniteParts(Frequencies(xs))) == 1.0
  {
    CountMapTotal(xs);
  }

  /** The keys of a list of pairs. */
  function Keys<K, V>(ps: seq<(K, V)>): (ks: set<K>)
    ensures forall i | 0 <= i < |ps| :: ps[i].0 in ks
    ensures forall k | k in ks :: exists i :: 0 <= i < |ps| && ps[i].0 == k
  {
    if ps == [] then {} else Keys(ps[..|ps| - 1]) + {ps[|ps| - 1].0}
  }

  /** `toMap()` on a list of pairs: a later pair overwrites an earlier one with the
      same key. */
  function ToMap<K, V>(ps: seq<(K, V)>): (m: map<K, V>)
    ensures m.Keys == Keys(ps)
  {
    if ps == [] then map[] else ToMap(ps[..|ps| - 1])[ps[|ps| - 1].0 := ps[|ps| - 1].1]
  }

  /** No later pair has the same key as pair `i`. */
  predicate IsLast<K(==), V>(ps: seq<(K, V)>, i: nat)
    requires i < |ps|
  {
    forall j | i < j < |ps| :: ps[j].0 != ps[i].0
  }

  /** Every key of `toMap()` maps to the value of its last pair. */
  lemma {:induction false} ToMapLast<K, V>(ps: seq<(K, V)>, i: nat)
    requires i < |ps| && IsLast(ps, i)
    ensures ToMap(ps)[ps[i].0] == ps[i].1
    decreases |ps|
  {
    if i < |ps| - 1 {
      var init := ps[..|ps| - 1];
      assert IsLast(init, i);
      ToMapLast(init, i);
    }
  }
}
