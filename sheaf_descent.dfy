/** Training of a Sheaf tree (`Sheaf.descend`), stated on tree values. Each level of
    the descent scores the node's partitions with a similarity kernel, lets the
    weight fitter choose a weight per partition (three runs averaged), keeps the
    partitions with a positive weight as children, and descends into every child with
    the rest of the descent list.

    The fitter (`doPerturb`: Gaussian perturbation, stochastic integration and
    gradient descent) is the oracle `fit`: `fit(run, name, partitionSims)` is the
    (name, weight) list that run `run` of `doPerturb(coveringSim, partitionSims)`
    returns, where `coveringSim` is `CoveringSim(partitionSims)`. */
module SheafDescent {
  import opened Wrappers
  import opened Numeric
  import opened MapSums
  import opened Counting
  import opened Sheaves

  /** A similarity kernel and, optionally, the splitter for the next level. */
  datatype DescentData = DescentData(simFun: string -> map<string, real>,
                                     partitionFun: Option<string -> seq<string>>)

  type Fit = (nat, string, seq<(string, map<string, real>)>) -> seq<(string, real)>

  // ---------------------------------------------------------------------------
  // Partition names

  function Digit(d: nat): char
    requires d < 10
  {
    (48 + d) as char
  }

  /** The decimal representation of a natural number, as string templates print it. */
  function NatToString(n: nat): (s: string)
    ensures |s| >= 1
    ensures n >= 10 ==> |s| >= 2
  {
    if n < 10 then [Digit(n)] else NatToString(n / 10) + [Digit(n % 10)]
  }

  lemma {:induction false} NatToStringInjective(a: nat, b: nat)
    ensures NatToString(a) == NatToString(b) ==> a == b
    decreases a
  {
    var s, t := NatToString(a), NatToString(b);
    if a >= 10 && b >= 10 && s == t {
      assert s[..|s| - 1] == NatToString(a / 10);
      assert t[..|t| - 1] == NatToString(b / 10);
      NatToStringInjective(a / 10, b / 10);
      assert s[|s| - 1] == Digit(a % 10) && t[|t| - 1] == Digit(b % 10);
    }
  }

  /** `"${name}_$index"`. */
  function PartitionName(name: string, i: nat): string
  {
    name + "_" + NatToString(i)
  }

  /** Distinct partitions of one node get distinct names. */
  lemma PartitionNameInjective(name: string, i: nat, j: nat)
    ensures PartitionName(name, i) == PartitionName(name, j) ==> i == j
  {
    var s, t := PartitionName(name, i), PartitionName(name, j);
    if s == t {
      assert s[|name| + 1..] == NatToString(i);
      assert t[|name| + 1..] == NatToString(j);
      NatToStringInjective(i, j);
    }
  }

  // ---------------------------------------------------------------------------
  // Scoring the partitions

  /** `partitions.mapIndexed { index, text -> "${name}_$index" to simFun(text) }`. */
  function PartitionSims(t: Sheaf, simFun: string -> map<string, real>): (r: seq<(string, map<string, real>)>)
    ensures |r| == |t.partitions|
    ensures forall i | 0 <= i < |r| :: r[i] == (PartitionName(t.name, i), simFun(t.partitions[i]))
  {
    seq(|t.partitions|, i requires 0 <= i < |t.partitions| => (PartitionName(t.name, i), simFun(t.partitions[i])))
  }

  /** `partitions.mapIndexed { index, text -> "${name}_$index" to text }`. */
  function PartitionTexts(t: Sheaf): (r: seq<(string, string)>)
    ensures |r| == |t.partitions|
    ensures forall i | 0 <= i < |r| :: r[i] == (PartitionName(t.name, i), t.partitions[i])
  {
    seq(|t.partitions|, i requires 0 <= i < |t.partitions| => (PartitionName(t.name, i), t.partitions[i]))
  }

  /** `partitionTextMap[sheafName]!!` for partition `i`: because the partition names
      are distinct, the lookup by name finds the partition's own text. */
  function PartitionText(t: Sheaf, i: nat): (text: string)
    requires i < |t.partitions|
    ensures text == t.partitions[i]
  {
    var texts := PartitionTexts(t);
    forall j | i < j < |texts| ensures texts[j].0 != texts[i].0 {
      PartitionNameInjective(t.name, i, j);
    }
    ToMapLast(texts, i);
    ToMap(texts)[PartitionName(t.name, i)]
  }

  /** The mass of key `k` summed over the partitions' similarity maps. */
  function KeyTotal(sims: seq<(string, map<string, real>)>, k: string): real
  {
    if sims == [] then 0.0
    else KeyTotal(sims[..|sims| - 1], k) + (if k in sims[|sims| - 1].1 then sims[|sims| - 1].1[k] else 0.0)
  }

  /** `partitionSims.flatMap { it.second.entries }.groupingBy { it.key }.fold(0.0) { .. }`:
      every key of any partition with its summed value. */
  function MergedSims(sims: seq<(string, map<string, real>)>): (m: map<string, real>)
    ensures forall k :: k in m <==> exists i :: 0 <= i < |sims| && k in sims[i].1
    ensures forall k | k in m :: m[k] == KeyTotal(sims, k)
  {
    var keys := set i, k | 0 <= i < |sims| && k in sims[i].1 :: k;
    map k | k in keys :: KeyTotal(sims, k)
  }

  /** `coveringSim`: the merged similarity maps, normalized. Whenever their total is
      nonzero it is a distribution: its values sum to 1. */
  ghost function CoveringSim(sims: seq<(string, map<string, real>)>): (c: map<string, Double>)
    ensures forall k :: k in c <==> exists i :: 0 <= i < |sims| && k in sims[i].1
    ensures SumOfValues(MergedSims(sims)) != 0.0 ==> SumOfValues(FiniteParts(c)) == 1.0
  {
    Normalize(MergedSims(sims))
  }

  // ---------------------------------------------------------------------------
  // Averaging three fits

  /** `acc.zip(list).map { (f1, f2) -> f1.first to f2.second + f1.second }`. */
  function AddRun(acc: seq<(string, real)>, run: seq<(string, real)>): (r: seq<(string, real)>)
    ensures |r| == Min(|acc|, |run|)
    ensures forall i | 0 <= i < |r| :: r[i] == (acc[i].0, run[i].1 + acc[i].1)
  {
    seq(Min(|acc|, |run|), i requires 0 <= i < Min(|acc|, |run|) => (acc[i].0, run[i].1 + acc[i].1))
  }

  /** The three runs reduced with `AddRun` and divided by 3: the runs are matched by
      position, cut to the shortest, and the names come from the first run. */
  function AverageFits(r0: seq<(string, real)>, r1: seq<(string, real)>, r2: seq<(string, real)>): (r: seq<(string, real)>)
    ensures |r| == Min(|r0|, Min(|r1|, |r2|))
    ensures forall i | 0 <= i < |r| :: r[i].0 == r0[i].0 && r[i].1 == (r0[i].1 + r1[i].1 + r2[i].1) / 3.0
  {
    var total := AddRun(AddRun(r0, r1), r2);
    seq(|total|, i requires 0 <= i < |total| => (total[i].0, total[i].1 / 3.0))
  }

  /** `results`: the averaged weight of every partition name, by `toMap()`. */
  function FitResults(t: Sheaf, dd: DescentData, fit: Fit): map<string, real>
  {
    var sims := PartitionSims(t, dd.simFun);
    ToMap(AverageFits(fit(0, t.name, sims), fit(1, t.name, sims), fit(2, t.name, sims)))
  }

  // ---------------------------------------------------------------------------
  // Growing the tree

  /** `partitionFun?.invoke(text) ?: emptyList()`. */
  function NewPartitions(dd: DescentData, text: string): seq<string>
  {
    match dd.partitionFun
    case None => []
    case Some(f) => f(text)
  }

  /** The child created for partition `i`: named after the partition, with the next
      level's partitions, this node's `kld`, and no children yet. */
  function NewChild(t: Sheaf, dd: DescentData, i: nat): (c: Sheaf)
    requires i < |t.partitions|
    ensures c.name == PartitionName(t.name, i) && c.kld == t.kld && c.measure == []
    ensures c.partitions == NewPartitions(dd, t.partitions[i])
  {
    Sheaf(PartitionName(t.name, i), NewPartitions(dd, PartitionText(t, i)), t.kld, [])
  }

  /** Partition `i` is kept: its averaged weight is present and positive. */
  predicate Selected(t: Sheaf, results: map<string, real>, i: nat)
  {
    PartitionName(t.name, i) in results && results[PartitionName(t.name, i)] > 0.0
  }

  /** The entry stored for a kept partition `i`. */
  function ChildEntry(t: Sheaf, dd: DescentData, results: map<string, real>, i: nat): Entry
    requires i < |t.partitions| && Selected(t, results, i)
  {
    Entry(PartitionName(t.name, i), NewChild(t, dd, i), results[PartitionName(t.name, i)])
  }

  /** The loop over the partitions from `i` on that stores a child for every kept
      partition into `es`. */
  function AddChildren(t: Sheaf, dd: DescentData, results: map<string, real>, i: nat, es: seq<Entry>): seq<Entry>
    requires i <= |t.partitions|
    decreases |t.partitions| - i
  {
    if i == |t.partitions| then es
    else
      var es' := if Selected(t, results, i) then Put(es, PartitionName(t.name, i), NewChild(t, dd, i), results[PartitionName(t.name, i)]) else es;
      AddChildren(t, dd, results, i + 1, es')
  }

  /** Every entry after the loop is an old one or the entry of a kept partition. */
  lemma {:induction false} AddChildrenEntries(t: Sheaf, dd: DescentData, results: map<string, real>, i: nat, es: seq<Entry>)
    requires i <= |t.partitions|
    ensures forall e | e in AddChildren(t, dd, results, i, es) ::
              e in es ||
              exists j :: i <= j < |t.partitions| && Selected(t, results, j) && e == ChildEntry(t, dd, results, j)
    decreases |t.partitions| - i
  {
    if i < |t.partitions| {
      var es' := if Selected(t, results, i) then Put(es, PartitionName(t.name, i), NewChild(t, dd, i), results[PartitionName(t.name, i)]) else es;
      assert AddChildren(t, dd, results, i, es) == AddChildren(t, dd, results, i + 1, es');
      AddChildrenEntries(t, dd, results, i + 1, es');
      forall e | e in es'
        ensures e in es || (Selected(t, results, i) && e == ChildEntry(t, dd, results, i))
      {
      }
    }
  }

  /** After the loop every kept partition from `i` on has its entry. */
  lemma {:induction false} AddChildrenStores(t: Sheaf, dd: DescentData, results: map<string, real>, i: nat, es: seq<Entry>, j: nat)
    requires i <= j < |t.partitions| && Selected(t, results, j)
    ensures Lookup(AddChildren(t, dd, results, i, es), PartitionName(t.name, j)) == Some(ChildEntry(t, dd, results, j))
    decreases |t.partitions| - i
  {
    if i < j {
      var es' := if Selected(t, results, i) then Put(es, PartitionName(t.name, i), NewChild(t, dd, i), results[PartitionName(t.name, i)]) else es;
      AddChildrenStores(t, dd, results, i + 1, es', j);
    } else {
      AddChildrenStoresHere(t, dd, results, i, es);
    }
  }

  /** The kept partition `i` itself: its entry is put, and no later partition has
      its name. */
  lemma AddChildrenStoresHere(t: Sheaf, dd: DescentData, results: map<string, real>, i: nat, es: seq<Entry>)
    requires i < |t.partitions| && Selected(t, results, i)
    ensures Lookup(AddChildren(t, dd, results, i, es), PartitionName(t.name, i)) == Some(ChildEntry(t, dd, results, i))
  {
    var name := PartitionName(t.name, i);
    var es' := Put(es, name, NewChild(t, dd, i), results[name]);
    assert AddChildren(t, dd, results, i, es) == AddChildren(t, dd, results, i + 1, es');
    assert Lookup(es', name) == Some(ChildEntry(t, dd, results, i));
    assert forall j' | i + 1 <= j' < |t.partitions| && Selected(t, results, j') :: PartitionName(t.name, j') != name by {
      forall j' | i < j' < |t.partitions| ensures PartitionName(t.name, j') != name {
        PartitionNameInjective(t.name, i, j');
      }
    }
    AddChildrenKeeps(t, dd, results, i + 1, es', name);
  }

  /** A key that is not the name of a kept partition from `i` on keeps its entry. */
  lemma {:induction false} AddChildrenKeeps(t: Sheaf, dd: DescentData, results: map<string, real>, i: nat, es: seq<Entry>, k: string)
    requires i <= |t.partitions|
    requires forall j | i <= j < |t.partitions| && Selected(t, results, j) :: PartitionName(t.name, j) != k
    ensures Lookup(AddChildren(t, dd, results, i, es), k) == Lookup(es, k)
    decreases |t.partitions| - i
  {
    if i < |t.partitions| {
      var es' := if Selected(t, results, i) then Put(es, PartitionName(t.name, i), NewChild(t, dd, i), results[PartitionName(t.name, i)]) else es;
      assert AddChildren(t, dd, results, i, es) == AddChildren(t, dd, results, i + 1, es');
      assert Lookup(es', k) == Lookup(es, k);
      AddChildrenKeeps(t, dd, results, i + 1, es', k);
    }
  }

  lemma {:induction false} AddChildrenDistinct(t: Sheaf, dd: DescentData, results: map<string, real>, i: nat, es: seq<Entry>)
    requires i <= |t.partitions| && DistinctKeys(es)
    ensures DistinctKeys(AddChildren(t, dd, results, i, es))
    decreases |t.partitions| - i
  {
    if i < |t.partitions| {
      var es' := if Selected(t, results, i) then Put(es, PartitionName(t.name, i), NewChild(t, dd, i), results[PartitionName(t.name, i)]) else es;
      AddChildrenDistinct(t, dd, results, i + 1, es');
    }
  }

  /** The node's entries after one level of descent, before the children descend. */
  function Level(t: Sheaf, dd: DescentData, fit: Fit): seq<Entry>
  {
    AddChildren(t, dd, FitResults(t, dd, fit), 0, t.measure)
  }

  /** Every child descends with the rest of the list; names, partitions and `kld`
      never change. */
  function Grow(t: Sheaf, data: seq<DescentData>, fit: Fit): (r: Sheaf)
    ensures r.name == t.name && r.partitions == t.partitions && r.kld == t.kld
    ensures data == [] || t.partitions == [] ==> r == t
    decreases |data|, 1
  {
    if data == [] || t.partitions == [] then t
    else t.(measure := GrowEntries(Level(t, data[0], fit), data[1..], fit))
  }

  /** Every child of a list of entries descends with `leftovers`; keys and weights
      stay. */
  function GrowEntries(es: seq<Entry>, leftovers: seq<DescentData>, fit: Fit): (r: seq<Entry>)
    ensures |r| == |es|
    ensures forall i | 0 <= i < |es| :: r[i] == es[i].(child := Grow(es[i].child, leftovers, fit))
    decreases |leftovers| + 1, 0
  {
    seq(|es|, i requires 0 <= i < |es| => es[i].(child := Grow(es[i].child, leftovers, fit)))
  }

  /** `descend(descentData)`. An empty descent list leaves the node as it is; so do
      empty partitions, except at a root, where the diagnostic `cover!!` throws. */
  function Descend(t: Sheaf, isRoot: bool, data: seq<DescentData>, fit: Fit): (r: Outcome<Sheaf>)
    ensures data == [] ==> r == Ok(t)
    ensures r.Fail? <==> isRoot && data != [] && t.partitions == []
    ensures r.Fail? ==> r.failure == NullPointer
    ensures r.Ok? && t.partitions == [] ==> r.value == t
    ensures r.Ok? ==> r.value.name == t.name && r.value.partitions == t.partitions && r.value.kld == t.kld
  {
    if data != [] && t.partitions == [] && isRoot then Fail(NullPointer)
    else Ok(Grow(t, data, fit))
  }

  // ---------------------------------------------------------------------------
  // What descent guarantees

  /** The children one level of descent leaves: every entry is either an old entry
      (its child descended further) or the entry of a kept partition i, whose key and
      child name are `"<name>_<i>"`, whose weight is the positive averaged weight,
      whose `kld` is the node's, and whose partitions are `partitionFun(partitions[i])`. */
  lemma DescendChildren(t: Sheaf, data: seq<DescentData>, fit: Fit)
    requires data != [] && t.partitions != []
    ensures var r := Grow(t, data, fit);
      var results := FitResults(t, data[0], fit);
      forall e | e in r.measure ::
        (exists o :: o in t.measure && e == o.(child := Grow(o.child, data[1..], fit))) ||
        (exists i :: 0 <= i < |t.partitions| && Selected(t, results, i) &&
           e.key == PartitionName(t.name, i) && e.child.name == e.key &&
           e.weight == results[e.key] > 0.0 && e.child.kld == t.kld &&
           e.child.partitions == NewPartitions(data[0], t.partitions[i]))
  {
    var es := Level(t, data[0], fit);
    var results := FitResults(t, data[0], fit);
    var r := Grow(t, data, fit);
    assert r.measure == GrowEntries(es, data[1..], fit);
    forall e | e in r.measure
      ensures (exists o :: o in t.measure && e == o.(child := Grow(o.child, data[1..], fit))) ||
        (exists i :: 0 <= i < |t.partitions| && Selected(t, results, i) &&
           e.key == PartitionName(t.name, i) && e.child.name == e.key &&
           e.weight == results[e.key] > 0.0 && e.child.kld == t.kld &&
           e.child.partitions == NewPartitions(data[0], t.partitions[i]))
    {
      var k :| 0 <= k < |es| && r.measure[k] == e;
      assert e == es[k].(child := Grow(es[k].child, data[1..], fit));
      LevelEntry(t, data[0], fit, es[k]);
      if es[k] !in t.measure {
        var i :| 0 <= i < |t.partitions| && Selected(t, results, i) && es[k] == ChildEntry(t, data[0], results, i);
      }
    }
  }

  /** An entry after one level is an old entry or the entry of a kept partition. */
  lemma LevelEntry(t: Sheaf, dd: DescentData, fit: Fit, o: Entry)
    requires o in Level(t, dd, fit)
    ensures o in t.measure ||
      exists i :: 0 <= i < |t.partitions| && Selected(t, FitResults(t, dd, fit), i) && o == ChildEntry(t, dd, FitResults(t, dd, fit), i)
  {
    AddChildrenEntries(t, dd, FitResults(t, dd, fit), 0, t.measure);
  }

  /** Every kept partition becomes a child. */
  lemma DescendKeeps(t: Sheaf, data: seq<DescentData>, fit: Fit, i: nat)
    requires data != [] && i < |t.partitions| && Selected(t, FitResults(t, data[0], fit), i)
    ensures exists e :: e in Grow(t, data, fit).measure &&
              e.key == PartitionName(t.name, i) && e.weight == FitResults(t, data[0], fit)[e.key]
  {
    var es := Level(t, data[0], fit);
    var entry := LevelStores(t, data[0], fit, i);
    GrowEntriesKeep(es, data[1..], fit, entry);
  }

  /** The entry one level of descent stores for a kept partition. */
  lemma LevelStores(t: Sheaf, dd: DescentData, fit: Fit, i: nat) returns (entry: Entry)
    requires i < |t.partitions| && Selected(t, FitResults(t, dd, fit), i)
    ensures entry in Level(t, dd, fit)
    ensures entry.key == PartitionName(t.name, i) && entry.weight == FitResults(t, dd, fit)[entry.key]
  {
    AddChildrenStores(t, dd, FitResults(t, dd, fit), 0, t.measure, i);
    entry := Lookup(Level(t, dd, fit), PartitionName(t.name, i)).value;
  }

  /** An entry of `es` survives a further descent with its key and weight. */
  lemma GrowEntriesKeep(es: seq<Entry>, leftovers: seq<DescentData>, fit: Fit, entry: Entry)
    requires entry in es
    ensures exists e :: e in GrowEntries(es, leftovers, fit) && e.key == entry.key && e.weight == entry.weight
  {
    var k :| 0 <= k < |es| && es[k] == entry;
    var r := GrowEntries(es, leftovers, fit);
    assert r[k] in r && r[k].key == entry.key && r[k].weight == entry.weight;
  }

  /** A well-formed tree: keys are distinct, every key is its child's name, every
      weight is positive, all the way down. */
  ghost predicate WellFormed(s: Sheaf)
    decreases s
  {
    DistinctKeys(s.measure) &&
    forall i | 0 <= i < |s.measure| ::
      s.measure[i].key == s.measure[i].child.name && s.measure[i].weight > 0.0 && WellFormed(s.measure[i].child)
  }

  /** Every entry a well-formed entry list becomes after one level is well-formed. */
  ghost predicate EntriesWellFormed(es: seq<Entry>)
  {
    DistinctKeys(es) &&
    forall k | 0 <= k < |es| :: es[k].key == es[k].child.name && es[k].weight > 0.0 && WellFormed(es[k].child)
  }

  lemma LevelWellFormed(t: Sheaf, dd: DescentData, fit: Fit)
    requires WellFormed(t)
    ensures EntriesWellFormed(Level(t, dd, fit))
  {
    var results := FitResults(t, dd, fit);
    var es := Level(t, dd, fit);
    AddChildrenEntries(t, dd, results, 0, t.measure);
    AddChildrenDistinct(t, dd, results, 0, t.measure);
    forall k | 0 <= k < |es|
      ensures es[k].key == es[k].child.name && es[k].weight > 0.0 && WellFormed(es[k].child)
    {
      if es[k] !in t.measure {
        var i :| 0 <= i < |t.partitions| && Selected(t, results, i) && es[k] == ChildEntry(t, dd, results, i);
      }
    }
  }

  /** Descent keeps a tree well-formed. */
  lemma {:induction false} GrowWellFormed(t: Sheaf, data: seq<DescentData>, fit: Fit)
    requires WellFormed(t)
    ensures WellFormed(Grow(t, data, fit))
    decreases |data|
  {
    if data != [] && t.partitions != [] {
      var es := Level(t, data[0], fit);
      LevelWellFormed(t, data[0], fit);
      var r := Grow(t, data, fit);
      forall k | 0 <= k < |es| ensures WellFormed(r.measure[k].child) {
        GrowWellFormed(es[k].child, data[1..], fit);
      }
      assert forall k | 0 <= k < |es| :: r.measure[k].key == es[k].key && r.measure[k].weight == es[k].weight;
    }
  }
}
