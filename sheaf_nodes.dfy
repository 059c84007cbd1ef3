/** The `Sheaf` class as the heap object the training code builds: `descend` stores
    new children into the node's own `measure` table in place and then lets every
    child descend in turn. `Tree()` reads the object graph back as the value tree of
    module `Sheaves`, and `Descend` is proved to grow it exactly as
    `SheafDescent.Grow` does. */
module SheafNodes {
  import opened Wrappers
  import opened Sheaves
  import SheafDescent

  /** One row of the `measure` table: key, child node, weight. */
  type Row = (string, SheafNode, real)

  function NodeKeys(ms: seq<Row>): (keys: seq<string>)
    ensures |keys| == |ms| && forall i | 0 <= i < |ms| :: keys[i] == ms[i].0
  {
    seq(|ms|, i requires 0 <= i < |ms| => ms[i].0)
  }

  /** Where `measure[key] = ...` writes: the position of the key, or the end. */
  function PutPosition(keys: seq<string>, key: string): (p: nat)
    ensures p <= |keys|
  {
    match IndexOf(keys, key)
    case Some(p) => p
    case None => |keys|
  }

  /** `measure[key] = node to weight` on the table of rows: the row of an existing
      key is replaced in place, a new key is added at the end. */
  function PutRow(ms: seq<Row>, key: string, node: SheafNode, weight: real): (r: seq<Row>)
    ensures var p := PutPosition(NodeKeys(ms), key);
      |r| == (if p < |ms| then |ms| else |ms| + 1) && r[p] == (key, node, weight) &&
      forall i | 0 <= i < |r| && i != p :: i < |ms| && r[i] == ms[i]
  {
    var p := PutPosition(NodeKeys(ms), key);
    if p < |ms| then ms[p := (key, node, weight)] else ms + [(key, node, weight)]
  }

  class SheafNode {
    const name: string
    const partitions: seq<string>
    const kld: real
    const cover: SheafNode?
    var measure: seq<Row>
    ghost var Repr: set<object>

    /** Every child hangs below this node (`cover == this`), owns a part of the
        footprint of its own, and is itself well built. */
    ghost predicate Valid()
      reads this, Repr
      decreases Repr
    {
      this in Repr &&
      (forall i | 0 <= i < |measure| ::
         measure[i].1 in Repr && measure[i].1.Repr <= Repr && this !in measure[i].1.Repr &&
         measure[i].1.cover == this && measure[i].1.Valid()) &&
      (forall i, j | 0 <= i < j < |measure| :: measure[i].1.Repr !! measure[j].1.Repr)
    }

    /** The value tree the object graph below this node stands for. */
    ghost function Tree(): (t: Sheaf)
      reads this, Repr
      requires Valid()
      ensures t.name == name && t.partitions == partitions && t.kld == kld
      ensures |t.measure| == |measure|
      decreases Repr, 1
    {
      Sheaf(name, partitions, kld, EntriesFrom(0))
    }

    ghost function EntriesFrom(k: nat): (es: seq<Entry>)
      reads this, Repr
      requires Valid() && k <= |measure|
      ensures |es| == |measure| - k
      decreases Repr, 0, |measure| - k
    {
      if k == |measure| then []
      else [Entry(measure[k].0, measure[k].1.Tree(), measure[k].2)] + EntriesFrom(k + 1)
    }

    /** Row `i` of the table reads back as entry `i` of the tree. */
    lemma TreeAt(i: nat)
      requires Valid() && i < |measure|
      ensures Tree().measure[i] == Entry(measure[i].0, measure[i].1.Tree(), measure[i].2)
    {
      EntriesFromAt(0, i);
    }

    /** Every row of the table reads back as its entry of the tree. */
    lemma TreeRows()
      requires Valid()
      ensures forall k | 0 <= k < |measure| :: Tree().measure[k] == Entry(measure[k].0, measure[k].1.Tree(), measure[k].2)
    {
      forall k | 0 <= k < |measure|
        ensures Tree().measure[k] == Entry(measure[k].0, measure[k].1.Tree(), measure[k].2)
      {
        TreeAt(k);
      }
    }

    lemma {:induction false} EntriesFromAt(k: nat, i: nat)
      requires Valid() && k <= i < |measure|
      ensures EntriesFrom(k)[i - k] == Entry(measure[i].0, measure[i].1.Tree(), measure[i].2)
      decreases i - k
    {
      if k < i {
        EntriesFromAt(k + 1, i);
      }
    }

    /** `Sheaf(name, partitions, kld, cover)` with an empty `measure`. */
    constructor (name: string, partitions: seq<string>, kld: real, cover: SheafNode?)
      ensures this.name == name && this.partitions == partitions && this.kld == kld
      ensures this.cover == cover
      ensures Valid() && fresh(Repr) && Repr == {this}
      ensures Tree() == Sheaf(name, partitions, kld, [])
    {
      this.name := name;
      this.partitions := partitions;
      this.kld := kld;
      this.cover := cover;
      measure := [];
      Repr := {this};
    }

    /** `descend(descentData)`. The tree afterwards is the old one grown by
        `SheafDescent.Grow`, and the call fails exactly where the value model's
        `Descend` does: at a root (`cover == null`) whose partitions are empty. */
    method Descend(data: seq<SheafDescent.DescentData>, fit: SheafDescent.Fit) returns (failure: Option<Failure>)
      requires Valid()
      modifies Repr
      ensures Valid() && fresh(Repr - old(Repr))
      ensures Tree() == SheafDescent.Grow(old(Tree()), data, fit)
      ensures failure.Some? <==> cover == null && data != [] && partitions == []
      ensures SheafDescent.Descend(old(Tree()), cover == null, data, fit) ==
              if failure.Some? then Fail(failure.value) else Ok(Tree())
      decreases |data|, 2
    {
      if data == [] {
        return None;
      }
      if partitions == [] {
        if cover == null {
          return Some(NullPointer);
        }
        return None;
      }
      StoreChildren(data[0], fit);
      DescendAll(data[1..], fit);
      return None;
    }

    /** The first loop of `descend`: a new child for every partition whose averaged
        weight is positive, stored in `measure` under `"<name>_<i>"`. */
    method StoreChildren(dd: SheafDescent.DescentData, fit: SheafDescent.Fit)
      requires Valid()
      modifies this
      ensures Valid() && fresh(Repr - old(Repr))
      ensures Tree().measure == SheafDescent.Level(old(Tree()), dd, fit)
    {
      ghost var t0 := Tree();
      var shell := Sheaf(name, partitions, kld, []);
      var results := SheafDescent.FitResults(shell, dd, fit);
      assert results == SheafDescent.FitResults(t0, dd, fit);
      var i := 0;
      while i < |partitions|
        invariant 0 <= i <= |partitions|
        invariant Valid() && fresh(Repr - old(Repr))
        invariant SheafDescent.AddChildren(t0, dd, results, i, Tree().measure) == SheafDescent.Level(t0, dd, fit)
      {
        ghost var before := Tree();
        assert SheafDescent.NewChild(before, dd, i) == SheafDescent.NewChild(t0, dd, i);
        StoreChild(dd, results, i);
        i := i + 1;
      }
    }

    /** One step of the first loop: partition `i` gets a new child when its averaged
        weight is positive. */
    method StoreChild(dd: SheafDescent.DescentData, results: map<string, real>, i: nat)
      requires Valid() && i < |partitions|
      modifies this
      ensures Valid() && fresh(Repr - old(Repr))
      ensures Tree().measure ==
              if SheafDescent.Selected(old(Tree()), results, i)
              then Put(old(Tree().measure), SheafDescent.PartitionName(name, i), SheafDescent.NewChild(old(Tree()), dd, i), results[SheafDescent.PartitionName(name, i)])
              else old(Tree().measure)
    {
      ghost var t := Tree();
      var shell := Sheaf(name, partitions, kld, []);
      assert SheafDescent.Selected(shell, results, i) == SheafDescent.Selected(t, results, i);
      if SheafDescent.Selected(shell, results, i) {
        var pname := SheafDescent.PartitionName(name, i);
        var child := new SheafNode(pname, SheafDescent.NewPartitions(dd, SheafDescent.PartitionText(shell, i)), kld, this);
        assert Tree() == t;
        ghost var c := child.Tree();
        assert c == SheafDescent.NewChild(t, dd, i);
        AddRow(pname, child, results[pname]);
        assert Tree().measure == Put(t.measure, pname, c, results[pname]);
      }
    }

    /** The second loop of `descend`: every child descends with the rest of the list. */
    method DescendAll(leftovers: seq<SheafDescent.DescentData>, fit: SheafDescent.Fit)
      requires Valid()
      modifies Repr
      ensures Valid() && fresh(Repr - old(Repr))
      ensures Tree() == old(Tree()).(measure := SheafDescent.GrowEntries(old(Tree()).measure, leftovers, fit))
      decreases |leftovers| + 1, 1
    {
      ghost var level := Tree().measure;
      ghost var ms := measure;
      forall k | 0 <= k < |ms|
        ensures level[k] == Entry(ms[k].0, ms[k].1.Tree(), ms[k].2)
      {
        TreeAt(k);
      }
      var j := 0;
      while j < |measure|
        invariant 0 <= j <= |measure| && measure == ms
        invariant Valid() && fresh(Repr - old(Repr))
        invariant forall k | 0 <= k < |ms| ::
                    ms[k].1.Tree() == if k < j then SheafDescent.Grow(level[k].child, leftovers, fit) else level[k].child
      {
        DescendChild(j, leftovers, fit);
        j := j + 1;
      }
      forall k | 0 <= k < |ms|
        ensures Tree().measure[k] == level[k].(child := SheafDescent.Grow(level[k].child, leftovers, fit))
      {
        TreeAt(k);
      }
    }

    /** `measure[key] = child to weight` for a fresh, childless `child` below this node. */
    method AddRow(key: string, child: SheafNode, weight: real)
      requires Valid() && child.Valid() && child.cover == this
      requires child !in Repr && child.Repr == {child}
      modifies this
      ensures Valid() && Repr == old(Repr) + {child}
      ensures Tree().measure == Put(old(Tree().measure), key, child.Tree(), weight)
    {
      ghost var before := Tree().measure;
      ghost var rows := measure;
      ghost var oldRepr := Repr;
      TreeRows();
      assert forall k | 0 <= k < |rows| :: this != rows[k].1 && this !in rows[k].1.Repr;
      measure := PutRow(measure, key, child, weight);
      Repr := Repr + {child};
      assert forall k | 0 <= k < |rows| ::
        rows[k].1.Valid() && before[k] == Entry(rows[k].0, rows[k].1.Tree(), rows[k].2) by {
        forall k | 0 <= k < |rows|
          ensures rows[k].1.Valid() && before[k] == Entry(rows[k].0, rows[k].1.Tree(), rows[k].2)
        {
          assert rows[k].1.Tree() == old(rows[k].1.Tree());
        }
      }
      PutRowValid(rows, oldRepr, key, child, weight);
      TreeOfPut(before, rows, key, child, weight);
    }

    /** The table stays well built when a fresh child is put into it. */
    lemma PutRowValid(rows: seq<Row>, oldRepr: set<object>, key: string, child: SheafNode, weight: real)
      requires this in oldRepr && child !in oldRepr && child.Repr == {child} && child.cover == this && child.Valid()
      requires measure == PutRow(rows, key, child, weight) && Repr == oldRepr + {child}
      requires forall i | 0 <= i < |rows| ::
        rows[i].1 in oldRepr && rows[i].1.Repr <= oldRepr && this !in rows[i].1.Repr &&
        rows[i].1.cover == this && rows[i].1.Valid()
      requires forall i, j | 0 <= i < j < |rows| :: rows[i].1.Repr !! rows[j].1.Repr
      ensures Valid()
    {
      var p := PutPosition(NodeKeys(rows), key);
      forall i | 0 <= i < |measure|
        ensures measure[i].1 in Repr && measure[i].1.Repr <= Repr && this !in measure[i].1.Repr
        ensures measure[i].1.cover == this && measure[i].1.Valid()
      {
        if i != p {
          assert measure[i] == rows[i];
        }
      }
      forall i, j | 0 <= i < j < |measure|
        ensures measure[i].1.Repr !! measure[j].1.Repr
      {
        if i == p {
          assert measure[j] == rows[j] && rows[j].1.Repr <= oldRepr;
        } else if j == p {
          assert measure[i] == rows[i] && rows[i].1.Repr <= oldRepr;
        } else {
          assert measure[i] == rows[i] && measure[j] == rows[j];
        }
      }
    }

    /** After `measure[key] = child to weight` on rows that read back as `before`,
        the table reads back as `Put(before, key, child, weight)`. */
    lemma TreeOfPut(before: seq<Entry>, rows: seq<Row>, key: string, child: SheafNode, weight: real)
      requires Valid() && measure == PutRow(rows, key, child, weight)
      requires child.Valid()
      requires |before| == |rows| && forall k | 0 <= k < |rows| :: rows[k].1.Valid()
      requires forall k | 0 <= k < |rows| :: before[k] == Entry(rows[k].0, rows[k].1.Tree(), rows[k].2)
      ensures Tree().measure == Put(before, key, child.Tree(), weight)
    {
      assert NodeKeys(rows) == KeysOf(before);
      var p := PutPosition(NodeKeys(rows), key);
      var e := Entry(key, child.Tree(), weight);
      var after := Put(before, key, child.Tree(), weight);
      assert after == if p < |before| then before[p := e] else before + [e];
      TreeRows();
      forall k | 0 <= k < |measure|
        ensures Tree().measure[k] == after[k]
      {
        if k != p {
          assert measure[k] == rows[k];
        }
      }
    }

    /** The `j`-th child descends; nothing else below this node changes. */
    method DescendChild(j: nat, leftovers: seq<SheafDescent.DescentData>, fit: SheafDescent.Fit)
      requires Valid() && j < |measure|
      modifies Repr
      ensures Valid() && fresh(Repr - old(Repr)) && measure == old(measure)
      ensures measure[j].1.Tree() == SheafDescent.Grow(old(measure[j].1.Tree()), leftovers, fit)
      ensures forall k | 0 <= k < |measure| && k != j :: measure[k].1.Tree() == old(measure[k].1.Tree())
      decreases |leftovers| + 1, 0
    {
      var c := measure[j].1;
      ghost var rows := measure;
      var _ := c.Descend(leftovers, fit);
      Repr := Repr + c.Repr;
      assert Valid() by {
        forall i | 0 <= i < |measure| && i != j
          ensures measure[i].1.Repr == old(measure[i].1.Repr) && measure[i].1.Valid()
        {
          assert old(measure[i].1.Repr !! c.Repr);
        }
        forall i, k | 0 <= i < k < |measure|
          ensures measure[i].1.Repr !! measure[k].1.Repr
        {
          assert old(measure[i].1.Repr !! measure[k].1.Repr);
        }
      }
      forall k | 0 <= k < |measure| && k != j
        ensures measure[k].1.Tree() == old(measure[k].1.Tree())
      {
        assert old(measure[k].1.Repr !! c.Repr);
      }
    }
  }
}
