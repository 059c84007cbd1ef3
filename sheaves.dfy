/** The Sheaf topic tree as it is stored after training, and the inference-time
    recursions over it: `measurePartitions`, `transferDown`, `retrieveLayer`,
    `ascend` and `transferMeasure`, plus the shape of the `perturb` sampler.

    A node's `measure` (a `HashMap` from child name to child and weight) is an
    association list whose order stands for the map's iteration order. The `cover`
    back-pointer is replaced by the list of ancestors handed to `Ascend`. */
module Sheaves {
  import opened Wrappers
  import opened Numeric

  datatype Sheaf = Sheaf(name: string, partitions: seq<string>, kld: real, measure: seq<Entry>)
  datatype Entry = Entry(key: string, child: Sheaf, weight: real)

  /** A similarity function over partition texts; it may throw, as `productMaxMax` does. */
  type Sim = string -> Outcome<Double>

  /** Multiplication, kept behind a name so that the solver only unfolds it where a
      proof needs its algebra. */
  function Times(a: real, b: real): real
  {
    a * b
  }

  lemma TimesNonNegative(a: real, b: real)
    requires a >= 0.0 && b >= 0.0
    ensures Times(a, b) >= 0.0
  {
  }

  // ---------------------------------------------------------------------------
  // The measure map

  /** `measure[key]`. */
  function Lookup(es: seq<Entry>, key: string): (r: Option<Entry>)
    ensures r.None? ==> forall i | 0 <= i < |es| :: es[i].key != key
    ensures r.Some? ==> r.value in es && r.value.key == key
  {
    if es == [] then None
    else if es[0].key == key then Some(es[0])
    else Lookup(es[1..], key)
  }

  predicate DistinctKeys(es: seq<Entry>)
  {
    forall i, j | 0 <= i < j < |es| :: es[i].key != es[j].key
  }

  /** The position of the first occurrence of `key` in `keys`. */
  function IndexOf(keys: seq<string>, key: string): (r: Option<nat>)
    ensures r.Some? ==> r.value < |keys| && keys[r.value] == key
    ensures r.Some? ==> forall j | 0 <= j < r.value :: keys[j] != key
    ensures r.None? ==> forall j | 0 <= j < |keys| :: keys[j] != key
  {
    if keys == [] then None
    else if keys[0] == key then Some(0)
    else
      var rest := IndexOf(keys[1..], key);
      if rest.Some? then Some(rest.value + 1) else None
  }

  function KeysOf(es: seq<Entry>): (keys: seq<string>)
    ensures |keys| == |es| && forall i | 0 <= i < |es| :: keys[i] == es[i].key
  {
    seq(|es|, i requires 0 <= i < |es| => es[i].key)
  }

  /** `measure[key] = child to weight`: the entry of an existing key is replaced in
      place; a new key is added at the end. */
  function Put(es: seq<Entry>, key: string, child: Sheaf, weight: real): (r: seq<Entry>)
    ensures Lookup(r, key) == Some(Entry(key, child, weight))
    ensures forall k | k != key :: Lookup(r, k) == Lookup(es, k)
    ensures forall i | 0 <= i < |r| :: r[i] == Entry(key, child, weight) || r[i] in es
    ensures DistinctKeys(es) ==> DistinctKeys(r)
  {
    var e := Entry(key, child, weight);
    match IndexOf(KeysOf(es), key)
    case Some(p) =>
      var r := es[p := e];
      PutLookup(es, p, e);
      r
    case None =>
      var r := es + [e];
      AppendLookup(es, e);
      r
  }

  lemma {:induction false} PutLookup(es: seq<Entry>, p: nat, e: Entry)
    requires p < |es| && es[p].key == e.key
    requires forall j | 0 <= j < p :: es[j].key != e.key
    ensures Lookup(es[p := e], e.key) == Some(e)
    ensures forall k | k != e.key :: Lookup(es[p := e], k) == Lookup(es, k)
    decreases p
  {
    if p > 0 {
      PutLookup(es[1..], p - 1, e);
      assert es[p := e][1..] == es[1..][p - 1 := e];
    }
  }

  lemma {:induction false} AppendLookup(es: seq<Entry>, e: Entry)
    requires forall j | 0 <= j < |es| :: es[j].key != e.key
    ensures Lookup(es + [e], e.key) == Some(e)
    ensures forall k | k != e.key :: Lookup(es + [e], k) == Lookup(es, k)
    decreases |es|
  {
    if es != [] {
      AppendLookup(es[1..], e);
      assert (es + [e])[1..] == es[1..] + [e];
    }
  }

  // ---------------------------------------------------------------------------
  // measurePartitions and transferDown

  /** The value a similarity function gives, read as 0.0 when it is not a finite
      double or when it throws. */
  function SimValue(sim: Sim, x: string): real
  {
    if sim(x).Ok? then DefaultWhenNotFinite(sim(x).value, 0.0) else 0.0
  }

  function SimValues(ps: seq<string>, sim: Sim): (r: seq<real>)
    ensures |r| == |ps| && forall i | 0 <= i < |ps| :: r[i] == SimValue(sim, ps[i])
  {
    seq(|ps|, i requires 0 <= i < |ps| => SimValue(sim, ps[i]))
  }

  /** `partitions.map(simFun)`: the first exception aborts the whole list. */
  function SimAll(ps: seq<string>, sim: Sim): (r: Outcome<seq<Double>>)
    ensures r.Fail? <==> exists i :: 0 <= i < |ps| && sim(ps[i]).Fail?
    ensures r.Ok? ==> |r.value| == |ps| && forall i | 0 <= i < |ps| :: r.value[i] == sim(ps[i]).value
  {
    if ps == [] then Ok([])
    else if sim(ps[0]).Fail? then Fail(sim(ps[0]).failure)
    else
      var rest := SimAll(ps[1..], sim);
      assert forall i | 1 <= i < |ps| :: ps[1..][i - 1] == ps[i];
      if rest.Fail? then Fail(rest.failure) else Ok([sim(ps[0]).value] + rest.value)
  }

  predicate AllSimsFinite(ps: seq<string>, sim: Sim)
  {
    forall i | 0 <= i < |ps| :: sim(ps[i]).Ok? && sim(ps[i]).value.Finite?
  }

  /** `measurePartitions`: the average similarity of the node's partitions, with the
      NaN of an empty list (or any non-finite similarity) defaulted to 0.0. */
  function MeasurePartitions(s: Sheaf, sim: Sim): (r: Outcome<real>)
    ensures r.Fail? <==> exists i :: 0 <= i < |s.partitions| && sim(s.partitions[i]).Fail?
    ensures r.Ok? && (s.partitions == [] || !AllSimsFinite(s.partitions, sim)) ==> r.value == 0.0
    ensures r.Ok? && s.partitions != [] && AllSimsFinite(s.partitions, sim) ==>
      r.value == RealSum(SimValues(s.partitions, sim)) / |s.partitions| as real
  {
    var sims := SimAll(s.partitions, sim);
    if sims.Fail? then Fail(sims.failure)
    else
      var ds := sims.value;
      assert Reals(ds) == SimValues(s.partitions, sim);
      assert AllFinite(ds) <==> AllSimsFinite(s.partitions, sim);
      Ok(DefaultWhenNotFinite(Average(ds), 0.0))
  }

  /** The sparsity threshold of `transferDown`: `1 / max(1, partitions.size)`. */
  function Threshold(s: Sheaf): (r: real)
    ensures 0.0 < r <= 1.0
  {
    1.0 / (if |s.partitions| > 1 then |s.partitions| else 1) as real
  }

  /** `transferDown(depthToGo, simFun)`: at depth 0 the node's own partition
      measure; otherwise the weighted sum of the children's values one level down,
      cut to 0.0 when it falls below the threshold. */
  function TransferDown(s: Sheaf, depth: int, sim: Sim): (r: Outcome<real>)
    ensures depth == 0 ==> r == MeasurePartitions(s, sim)
    ensures r.Ok? && depth != 0 ==> r.value == 0.0 || r.value >= Threshold(s)
    decreases s, 1
  {
    if depth == 0 then MeasurePartitions(s, sim)
    else
      var total := ChildSum(s.measure, depth - 1, sim);
      if total.Fail? then Fail(total.failure)
      else if total.value < Threshold(s) then Ok(0.0)
      else Ok(total.value)
  }

  /** `measure.values.sumByDouble { (sheaf, freq) -> sheaf.transferDown(depth, simFun) * freq }`. */
  function ChildSum(es: seq<Entry>, depth: int, sim: Sim): Outcome<real>
    decreases es, 0
  {
    if es == [] then Ok(0.0)
    else
      var first := TransferDown(es[0].child, depth, sim);
      if first.Fail? then Fail(first.failure)
      else
        var rest := ChildSum(es[1..], depth, sim);
        if rest.Fail? then Fail(rest.failure)
        else Ok(Times(first.value, es[0].weight) + rest.value)
  }

  /** A node with no children measures 0.0 at every nonzero depth. */
  lemma TransferDownChildless(s: Sheaf, depth: int, sim: Sim)
    requires s.measure == [] && depth != 0
    ensures TransferDown(s, depth, sim) == Ok(0.0)
  {
  }

  /** Below a negative depth the recursion never reaches depth 0: no similarity is
      evaluated and every node measures 0.0. */
  lemma {:induction false} TransferDownNegative(s: Sheaf, depth: int, sim: Sim)
    requires depth < 0
    ensures TransferDown(s, depth, sim) == Ok(0.0)
    decreases s, 1
  {
    ChildSumNegative(s.measure, depth - 1, sim);
  }

  lemma {:induction false} ChildSumNegative(es: seq<Entry>, depth: int, sim: Sim)
    requires depth < 0
    ensures ChildSum(es, depth, sim) == Ok(0.0)
    decreases es, 0
  {
    if es != [] {
      TransferDownNegative(es[0].child, depth, sim);
      ChildSumNegative(es[1..], depth, sim);
    }
  }

  /** Every stored weight in the tree is non-negative. */
  ghost predicate NonNegativeWeights(s: Sheaf)
    decreases s
  {
    forall i | 0 <= i < |s.measure| :: s.measure[i].weight >= 0.0 && NonNegativeWeights(s.measure[i].child)
  }

  ghost predicate NonNegativeSim(sim: Sim)
  {
    forall x :: sim(x).Ok? && sim(x).value.Finite? ==> sim(x).value.value >= 0.0
  }

  lemma NonNegativeQuotient(a: real, n: real)
    requires a >= 0.0 && n > 0.0
    ensures a / n >= 0.0
  {
  }

  /** With non-negative weights and similarities, `transferDown` is non-negative. */
  lemma {:induction false} TransferDownNonNegative(s: Sheaf, depth: int, sim: Sim)
    requires NonNegativeWeights(s) && NonNegativeSim(sim)
    ensures TransferDown(s, depth, sim).Ok? ==> TransferDown(s, depth, sim).value >= 0.0
    decreases s, 1
  {
    if depth == 0 {
      var ps := s.partitions;
      var vs := SimValues(ps, sim);
      assert forall i | 0 <= i < |vs| :: vs[i] >= 0.0;
      RealSumNonNegative(vs);
      if ps != [] {
        NonNegativeQuotient(RealSum(vs), |ps| as real);
      }
    } else {
      ChildSumNonNegative(s.measure, depth - 1, sim);
    }
  }

  lemma {:induction false} ChildSumNonNegative(es: seq<Entry>, depth: int, sim: Sim)
    requires forall i | 0 <= i < |es| :: es[i].weight >= 0.0 && NonNegativeWeights(es[i].child)
    requires NonNegativeSim(sim)
    ensures ChildSum(es, depth, sim).Ok? ==> ChildSum(es, depth, sim).value >= 0.0
    decreases es, 0
  {
    if es != [] {
      TransferDownNonNegative(es[0].child, depth, sim);
      ChildSumNonNegative(es[1..], depth, sim);
      var first := TransferDown(es[0].child, depth, sim);
      if first.Ok? {
        TimesNonNegative(first.value, es[0].weight);
      }
    }
  }

  // ---------------------------------------------------------------------------
  // retrieveLayer

  /** `retrieveLayer(depth)`: the nodes `depth` levels below, in iteration order. */
  function RetrieveLayer(s: Sheaf, depth: int): (r: seq<Sheaf>)
    ensures depth == 0 ==> r == [s]
    ensures s.measure == [] && depth != 0 ==> r == []
    decreases s, 1
  {
    if depth == 0 then [s] else LayerOf(s.measure, depth - 1)
  }

  /** `measure.values.flatMap { (sheaf, _) -> sheaf.retrieveLayer(depth) }`. */
  function LayerOf(es: seq<Entry>, depth: int): seq<Sheaf>
    decreases es, 0
  {
    if es == [] then [] else RetrieveLayer(es[0].child, depth) + LayerOf(es[1..], depth)
  }

  /** `t` hangs exactly `depth` levels below `s`. */
  ghost predicate AtDepth(s: Sheaf, depth: int, t: Sheaf)
    decreases s
  {
    (depth == 0 && t == s) ||
    (depth > 0 && exists i :: 0 <= i < |s.measure| && AtDepth(s.measure[i].child, depth - 1, t))
  }

  /** The layer holds exactly the nodes at that depth; a negative depth holds none. */
  lemma {:induction false} RetrieveLayerAtDepth(s: Sheaf, depth: int, t: Sheaf)
    ensures t in RetrieveLayer(s, depth) <==> AtDepth(s, depth, t)
    decreases s, 1
  {
    if depth != 0 {
      LayerOfAtDepth(s.measure, depth - 1, t);
    }
  }

  lemma {:induction false} LayerOfAtDepth(es: seq<Entry>, depth: int, t: Sheaf)
    ensures t in LayerOf(es, depth) <==>
      depth >= 0 && exists i :: 0 <= i < |es| && AtDepth(es[i].child, depth, t)
    decreases es, 0
  {
    if es != [] {
      RetrieveLayerAtDepth(es[0].child, depth, t);
      LayerOfAtDepth(es[1..], depth, t);
      assert forall i | 1 <= i < |es| :: es[1..][i - 1] == es[i];
      if depth < 0 {
        assert !AtDepth(es[0].child, depth, t);
      }
    }
  }

  // ---------------------------------------------------------------------------
  // ascend and transferMeasure

  /** The name of the child through which the path leaves ancestor `i`: the first
      ancestor is left through `node`, every later one through the one before it. */
  function Below(node: Sheaf, covers: seq<Sheaf>, i: nat): string
    requires i < |covers|
  {
    if i == 0 then node.name else covers[i - 1].name
  }

  /** Every ancestor stores the child the path comes up through. */
  predicate StepsStored(node: Sheaf, covers: seq<Sheaf>)
  {
    forall i | 0 <= i < |covers| :: Lookup(covers[i].measure, Below(node, covers, i)).Some?
  }

  /** Every step of the path up from `node` (entered through `datumName`) to the
      last of `covers` follows a stored measure entry. */
  predicate Linked(node: Sheaf, covers: seq<Sheaf>, datumName: string)
  {
    Lookup(node.measure, datumName).Some? && StepsStored(node, covers)
  }

  /** The stored weights met on the way up from `node`. */
  function UpWeights(node: Sheaf, covers: seq<Sheaf>): (ws: seq<real>)
    requires StepsStored(node, covers)
    ensures |ws| == |covers|
    decreases |covers|
  {
    if covers == [] then []
    else
      StepsStoredStep(node, covers);
      [Lookup(covers[0].measure, node.name).value.weight] + UpWeights(covers[0], covers[1..])
  }

  function Product(xs: seq<real>): real
  {
    if xs == [] then 1.0 else Times(xs[0], Product(xs[1..]))
  }

  /** The product of the stored weights along a linked path. */
  function PathProduct(node: Sheaf, covers: seq<Sheaf>, datumName: string): real
    requires Linked(node, covers, datumName)
  {
    Times(Lookup(node.measure, datumName).value.weight, Product(UpWeights(node, covers)))
  }

  lemma StepsStoredStep(node: Sheaf, covers: seq<Sheaf>)
    requires covers != []
    ensures StepsStored(node, covers) <==>
      Lookup(covers[0].measure, node.name).Some? && StepsStored(covers[0], covers[1..])
  {
    assert forall i | 0 <= i < |covers| - 1 :: Below(covers[0], covers[1..], i) == Below(node, covers, i + 1);
    if Lookup(covers[0].measure, node.name).Some? && StepsStored(covers[0], covers[1..]) {
      forall i | 0 <= i < |covers| ensures Lookup(covers[i].measure, Below(node, covers, i)).Some? {
        if i > 0 {
          assert covers[i] == covers[1..][i - 1];
        }
      }
    }
  }

  lemma UpWeightsStep(node: Sheaf, covers: seq<Sheaf>)
    requires covers != [] && StepsStored(node, covers)
    ensures StepsStored(covers[0], covers[1..])
    ensures UpWeights(node, covers) ==
      [Lookup(covers[0].measure, node.name).value.weight] + UpWeights(covers[0], covers[1..])
  {
    StepsStoredStep(node, covers);
  }

  /** The root the path ends at. */
  function Top(node: Sheaf, covers: seq<Sheaf>): Sheaf
  {
    if covers == [] then node else covers[|covers| - 1]
  }

  /** `ascend(datumName, simMeasure)` on `node`, whose ancestors are `covers`
      (nearest first): it scales the measure by the weight of every entry on the way
      up and reports it under the root's name; `measure[datumName]!!` throws when a
      step is missing. */
  function Ascend(node: Sheaf, covers: seq<Sheaf>, datumName: string, x: real): (r: Outcome<(string, real)>)
    ensures r.Fail? ==> r.failure == NullPointer
    ensures r.Ok? ==> r.value.0 == Top(node, covers).name
    decreases |covers|
  {
    var e := Lookup(node.measure, datumName);
    if e.None? then Fail(NullPointer)
    else
      var adjusted := Times(e.value.weight, x);
      if covers == [] then Ok((node.name, adjusted))
      else Ascend(covers[0], covers[1..], node.name, adjusted)
  }

  /** `ascend` succeeds exactly when every step up to the root is stored. */
  lemma {:induction false} AscendSucceeds(node: Sheaf, covers: seq<Sheaf>, datumName: string, x: real)
    ensures Ascend(node, covers, datumName, x).Ok? <==> Linked(node, covers, datumName)
    decreases |covers|
  {
    if covers != [] && Lookup(node.measure, datumName).Some? {
      LinkedStep(node, covers, datumName);
      AscendSucceeds(covers[0], covers[1..], node.name, Times(Lookup(node.measure, datumName).value.weight, x));
    }
  }

  lemma LinkedStep(node: Sheaf, covers: seq<Sheaf>, datumName: string)
    requires covers != []
    ensures Linked(node, covers, datumName) <==>
      Lookup(node.measure, datumName).Some? && Linked(covers[0], covers[1..], node.name)
  {
    StepsStoredStep(node, covers);
  }

  lemma PathProductStep(node: Sheaf, covers: seq<Sheaf>, datumName: string)
    requires covers != [] && Linked(node, covers, datumName)
    ensures Linked(covers[0], covers[1..], node.name)
    ensures PathProduct(node, covers, datumName) ==
      Times(Lookup(node.measure, datumName).value.weight, PathProduct(covers[0], covers[1..], node.name))
  {
    LinkedStep(node, covers, datumName);
    UpWeightsStep(node, covers);
    var ws := UpWeights(node, covers);
    assert ws[1..] == UpWeights(covers[0], covers[1..]);
  }

  /** The value `ascend` reports is the measure times the product of the stored
      weights along the path up to the root. */
  lemma {:induction false} AscendScales(node: Sheaf, covers: seq<Sheaf>, datumName: string, x: real)
    requires Linked(node, covers, datumName)
    ensures Ascend(node, covers, datumName, x).Ok?
    ensures Ascend(node, covers, datumName, x).value.1 == Times(x, PathProduct(node, covers, datumName))
    decreases |covers|
  {
    var w := Lookup(node.measure, datumName).value.weight;
    if covers != [] {
      PathProductStep(node, covers, datumName);
      AscendScales(covers[0], covers[1..], node.name, Times(w, x));
      Reassociate(w, x, PathProduct(covers[0], covers[1..], node.name));
    }
  }

  lemma Reassociate(w: real, x: real, p: real)
    ensures Times(Times(w, x), p) == Times(x, Times(w, p))
  {
  }

  /** `transferMeasure(simFun)`: the node's partition measure carried up to the
      root; `cover!!` throws at the root itself. */
  function TransferMeasure(node: Sheaf, covers: seq<Sheaf>, sim: Sim): (r: Outcome<(string, real)>)
    ensures MeasurePartitions(node, sim).Fail? ==> r == Fail(MeasurePartitions(node, sim).failure)
    ensures MeasurePartitions(node, sim).Ok? && covers == [] ==> r == Fail(NullPointer)
    ensures r.Ok? ==> covers != [] && Linked(covers[0], covers[1..], node.name)
    ensures r.Ok? ==> r.value.0 == Top(node, covers).name
    ensures r.Ok? ==> r.value.1 == Times(MeasurePartitions(node, sim).value, PathProduct(covers[0], covers[1..], node.name))
  {
    var m := MeasurePartitions(node, sim);
    if m.Fail? then Fail(m.failure)
    else if covers == [] then Fail(NullPointer)
    else
      var r := Ascend(covers[0], covers[1..], node.name, m.value);
      if r.Ok? then
        AscendSucceeds(covers[0], covers[1..], node.name, m.value);
        AscendScales(covers[0], covers[1..], node.name, m.value);
        assert Top(covers[0], covers[1..]) == Top(node, covers);
        r
      else r
  }

  // ---------------------------------------------------------------------------
  // perturb

  function MaxZero(n: int): nat
  {
    if n > 0 then n else 0
  }

  /** `perturb(nSamples, sims)`: the names of the distribution, and `nSamples`
      samples, each the distribution's weights plus one Gaussian draw per name,
      normalized by their sum. `gaussian(k, i)` is the i-th draw of sample k.
      Asking the sampler for zero draws (`sample(0)`, an empty distribution) throws
      an `IllegalArgumentException`, which happens as soon as one sample is taken. */
  function Perturb(nSamples: int, sims: seq<(string, real)>, gaussian: (nat, nat) -> real): (r: Outcome<(seq<string>, seq<seq<Double>>)>)
    ensures r.Fail? <==> sims == [] && nSamples > 0
    ensures r.Fail? ==> r.failure == IllegalArgument
    ensures r.Ok? ==> |r.value.0| == |sims| && forall i | 0 <= i < |sims| :: r.value.0[i] == sims[i].0
    ensures r.Ok? ==> |r.value.1| == MaxZero(nSamples)
    ensures r.Ok? ==> forall k | 0 <= k < |r.value.1| :: |r.value.1[k]| == |sims|
    ensures r.Ok? ==> forall k | 0 <= k < |r.value.1| :: var noisy := Noisy(k, sims, gaussian);
      RealSum(noisy) != 0.0 ==> AllFinite(r.value.1[k]) && RealSum(Reals(r.value.1[k])) == 1.0
  {
    if sims == [] && nSamples > 0 then Fail(IllegalArgument)
    else
      var names := seq(|sims|, i requires 0 <= i < |sims| => sims[i].0);
      var samples := seq(MaxZero(nSamples), k requires 0 <= k < MaxZero(nSamples) => NormalizeList(Noisy(k, sims, gaussian)));
      assert forall k | 0 <= k < |samples| :: var noisy := Noisy(k, sims, gaussian);
        RealSum(noisy) != 0.0 ==> AllFinite(samples[k]) && RealSum(Reals(samples[k])) == 1.0 by {
        forall k | 0 <= k < |samples| ensures var noisy := Noisy(k, sims, gaussian);
          RealSum(noisy) != 0.0 ==> AllFinite(samples[k]) && RealSum(Reals(samples[k])) == 1.0 {
          if RealSum(Noisy(k, sims, gaussian)) != 0.0 {
            NormalizeListSumsToOne(Noisy(k, sims, gaussian));
          }
        }
      }
      Ok((names, samples))
  }

  /** The k-th perturbed weight vector, before normalization. */
  function Noisy(k: nat, sims: seq<(string, real)>, gaussian: (nat, nat) -> real): (r: seq<real>)
    ensures |r| == |sims|
  {
    seq(|sims|, i requires 0 <= i < |sims| => gaussian(k, i) + sims[i].1)
  }

  /** `List<Double>.normalize()`: every entry divided by the sum. */
  function NormalizeList(xs: seq<real>): (r: seq<Double>)
    ensures |r| == |xs|
  {
    var total := RealSum(xs);
    seq(|xs|, i requires 0 <= i < |xs| => Divide(xs[i], total))
  }

  /** A vector with a nonzero sum normalizes to finite entries summing to 1. */
  lemma NormalizeListSumsToOne(xs: seq<real>)
    requires RealSum(xs) != 0.0
    ensures AllFinite(NormalizeList(xs)) && RealSum(Reals(NormalizeList(xs))) == 1.0
  {
    var total := RealSum(xs);
    var r := NormalizeList(xs);
    var ys := Reals(r);
    forall i | 0 <= i < |xs|
      ensures r[i] == Finite(xs[i] / total) && ys[i] == xs[i] / total
    {
      assert r[i] == Divide(xs[i], total);
    }
    RealSumScale(xs, ys, total);
    assert total / total == 1.0;
  }
}
