/** `HyperlinkIndexer`: a table counting how often an anchor text links to an
    entity, the set of anchor texts seen, and the queries that turn those counts
    into the most popular entity of an anchor and the likelihood of an entity given
    an anchor. The on-disk tree map becomes a `map` keyed by (anchor, entity); the
    string distance used to find a close mention is a parameter. */
module Hyperlinks {
  import opened Wrappers
  import opened Numeric
  import opened MapSums
  import TextKernels

  // ---------------------------------------------------------------------------
  // clean

  /** `clean(text)`: lower case, every space replaced by `'_'`. The result has the
      same length, no space and no capital; every other character is kept. */
  function Clean(text: string): (r: string)
    ensures |r| == |text|
    ensures forall i | 0 <= i < |r| :: r[i] != ' ' && !('A' <= r[i] <= 'Z')
    ensures forall i | 0 <= i < |r| :: text[i] == ' ' ==> r[i] == '_'
    ensures forall i | 0 <= i < |r| :: 'A' <= text[i] <= 'Z' ==> r[i] == TextKernels.LowerChar(text[i])
    ensures forall i | 0 <= i < |r| :: text[i] != ' ' && !('A' <= text[i] <= 'Z') ==> r[i] == text[i]
  {
    var lower := TextKernels.LowerCase(text);
    seq(|lower|, i requires 0 <= i < |lower| => if lower[i] == ' ' then '_' else lower[i])
  }

  /** Cleaning a cleaned text changes nothing. */
  lemma CleanIdempotent(text: string)
    ensures Clean(Clean(text)) == Clean(text)
  {
    var c := Clean(text);
    forall i | 0 <= i < |c|
      ensures Clean(c)[i] == c[i]
    {
    }
  }

  // ---------------------------------------------------------------------------
  // The link counts

  /** A key of the table: (anchor text, linked entity). */
  type Link = (string, string)

  /** Every stored count is at least 1: a key is only created by a first `addLink`. */
  predicate Positive(links: map<Link, int>)
  {
    forall k | k in links :: links[k] >= 1
  }

  /** `getLink(anchorText, entity)`: the stored count, 0 for a pair never added. */
  function LinkCount(links: map<Link, int>, anchorText: string, entity: string): (n: int)
    ensures (anchorText, entity) !in links ==> n == 0
    ensures Positive(links) ==> (n >= 1 <==> (anchorText, entity) in links)
  {
    if (anchorText, entity) in links then links[(anchorText, entity)] else 0
  }

  /** The table after `addLink(anchorText, entity)`: that pair's count goes up by
      one (from 0 when absent), every other count stays. */
  function Bump(links: map<Link, int>, anchorText: string, entity: string): (r: map<Link, int>)
    ensures r.Keys == links.Keys + {(anchorText, entity)}
    ensures LinkCount(r, anchorText, entity) == LinkCount(links, anchorText, entity) + 1
    ensures forall k | k in links && k != (anchorText, entity) :: r[k] == links[k]
    ensures Positive(links) ==> Positive(r)
  {
    links[(anchorText, entity) := LinkCount(links, anchorText, entity) + 1]
  }

  /** The table after `addLinks(pairs)`: one `Bump` per pair, in order. The keys
      are the old keys and the pairs of the list. */
  function BumpAll(links: map<Link, int>, pairs: seq<Link>): (r: map<Link, int>)
    ensures r.Keys == links.Keys + set p | p in pairs
  {
    if pairs == [] then links
    else
      var last := pairs[|pairs| - 1];
      Bump(BumpAll(links, pairs[..|pairs| - 1]), last.0, last.1)
  }

  /** After `addLinks(pairs)` a pair's count has grown by the number of times it
      occurs in `pairs`; from an empty table, `getLink` is that number. */
  lemma {:induction false} BumpAllCounts(links: map<Link, int>, pairs: seq<Link>, anchorText: string, entity: string)
    ensures LinkCount(BumpAll(links, pairs), anchorText, entity) ==
            LinkCount(links, anchorText, entity) + multiset(pairs)[(anchorText, entity)]
  {
    if pairs != [] {
      var init := pairs[..|pairs| - 1];
      var last := pairs[|pairs| - 1];
      assert pairs == init + [last];
      BumpAllCounts(links, init, anchorText, entity);
    }
  }

  /** `addLinks` keeps every count positive. */
  lemma {:induction false} BumpAllPositive(links: map<Link, int>, pairs: seq<Link>)
    requires Positive(links)
    ensures Positive(BumpAll(links, pairs))
  {
    if pairs != [] {
      BumpAllPositive(links, pairs[..|pairs| - 1]);
    }
  }

  /** The anchor texts of a list of pairs. */
  function Anchors(pairs: seq<Link>): set<string>
  {
    set p | p in pairs :: p.0
  }

  /** One more pair of the list: one more `Bump`, one more anchor. */
  lemma PrefixStep(links: map<Link, int>, pairs: seq<Link>, i: nat)
    requires i < |pairs|
    ensures BumpAll(links, pairs[..i + 1]) == Bump(BumpAll(links, pairs[..i]), pairs[i].0, pairs[i].1)
    ensures Anchors(pairs[..i + 1]) == Anchors(pairs[..i]) + {pairs[i].0}
  {
    assert pairs[..i + 1][..i] == pairs[..i];
    assert pairs[..i + 1] == pairs[..i] + [pairs[i]];
  }

  /** `prefixSubMap(arrayOf(anchor))`: the entities linked from `anchor`, with their
      counts. */
  function Under(links: map<Link, int>, anchor: string): (r: map<string, int>)
    ensures forall e :: e in r <==> (anchor, e) in links
    ensures forall e | e in r :: r[e] == links[(anchor, e)]
  {
    map k | k in links && k.0 == anchor :: k.1 := links[k]
  }

  /** `values.sum()` of a map of counts. */
  ghost function Total(counts: map<string, int>): real
  {
    SumOfValues(AsReals(counts))
  }

  /** With positive counts, each count lies between 1 and the total. */
  lemma CountBelowTotal(counts: map<string, int>, e: string)
    requires forall x | x in counts :: counts[x] >= 1
    requires e in counts
    ensures 1.0 <= counts[e] as real <= Total(counts)
  {
    SumOfValuesBounds(AsReals(counts), e);
  }

  /** A quotient `n / total` with `0 <= n <= total` and `total > 0` lies in [0, 1],
      and in (0, 1] when `n > 0`. */
  lemma RatioBounds(n: real, total: real)
    requires 0.0 <= n <= total && total > 0.0
    ensures Divide(n, total).Finite?
    ensures 0.0 <= Divide(n, total).value <= 1.0
    ensures n > 0.0 ==> Divide(n, total).value > 0.0
  {
  }

  // ---------------------------------------------------------------------------
  // The order of the tree map's keys, and the most popular entity

  /** `a.compareTo(b) <= 0` for strings: the first differing character decides,
      else the shorter string comes first. */
  predicate StrLe(a: string, b: string)
  {
    if a == [] then true
    else if b == [] then false
    else if a[0] != b[0] then a[0] < b[0]
    else StrLe(a[1..], b[1..])
  }

  lemma StrLeTotal(a: string, b: string)
    ensures StrLe(a, b) || StrLe(b, a)
  {
  }

  lemma StrLeTrans(a: string, b: string, c: string)
    requires StrLe(a, b) && StrLe(b, c)
    ensures StrLe(a, c)
  {
  }

  lemma StrLeRefl(a: string)
    ensures StrLe(a, a)
  {
  }

  /** A finite non-empty set of strings has a least element. */
  lemma {:induction false} LeastExists(s: set<string>)
    requires s != {}
    ensures exists m :: m in s && forall x | x in s :: StrLe(m, x)
    decreases s
  {
    var x :| x in s;
    if s == {x} {
      StrLeRefl(x);
      assert forall y | y in s :: y == x;
    } else {
      LeastExists(s - {x});
      var m :| m in s - {x} && forall y | y in s - {x} :: StrLe(m, y);
      StrLeTotal(m, x);
      if StrLe(m, x) {
        assert forall y | y in s :: StrLe(m, y);
      } else {
        forall y | y in s
          ensures StrLe(x, y)
        {
          if y == x {
            StrLeRefl(x);
          } else {
            StrLeTrans(x, m, y);
          }
        }
      }
    }
  }

  /** A finite non-empty set has an element where `f` is largest. */
  lemma {:induction false} MaxExists(s: set<string>, f: string -> real)
    requires s != {}
    ensures exists m :: m in s && forall x | x in s :: f(x) <= f(m)
    decreases s
  {
    var x :| x in s;
    if s == {x} {
      assert x in s && forall y | y in s :: f(y) <= f(x) by {
        forall y | y in s
          ensures f(y) <= f(x)
        {
          assert y == x;
        }
      }
    } else {
      var rest := s - {x};
      MaxExists(rest, f);
      var m :| m in rest && forall y | y in rest :: f(y) <= f(m);
      var best := if f(x) <= f(m) then m else x;
      assert best in s && forall y | y in s :: f(y) <= f(best) by {
        forall y | y in s
          ensures f(y) <= f(best)
        {
          if y != x {
            assert y in rest;
          }
        }
      }
    }
  }

  /** `sortedByDescending { it.value }.first()` over the tree map's entries: the
      largest count, and among equal counts the entity that comes first in key
      order (the sort is stable). */
  ghost function MostPopular(counts: map<string, int>): (e: string)
    requires counts != map[]
    ensures e in counts
    ensures forall x | x in counts :: counts[x] <= counts[e]
    ensures forall x | x in counts && counts[x] == counts[e] :: StrLe(e, x)
  {
    var f := (x: string) => if x in counts then counts[x] as real else 0.0;
    MaxExists(counts.Keys, f);
    var top :| top in counts && forall x | x in counts :: f(x) <= f(top);
    var best := set x | x in counts && counts[x] == counts[top];
    assert top in best;
    LeastExists(best);
    var e :| e in best && forall x | x in best :: StrLe(e, x);
    assert forall x | x in counts :: counts[x] <= counts[e] by {
      forall x | x in counts
        ensures counts[x] <= counts[e]
      {
        assert f(x) <= f(top);
      }
    }
    e
  }

  // ---------------------------------------------------------------------------
  // findClosestMention

  /** A string distance (`Jaccard().distance`), given as a parameter. */
  type Distance = (string, string) -> real

  /** `findClosestMention(anchorText)` as written: a known mention is returned as
      it is; otherwise the mention at the LARGEST distance (`maxBy`) is taken and
      kept only when that distance exceeds 0.9. An empty mention set throws
      (`maxBy` gives null and `!!` fails). */
  ghost function ClosestAsWritten(mentions: set<string>, anchorText: string, dist: Distance): (r: Outcome<Option<string>>)
    ensures anchorText in mentions ==> r == Ok(Some(anchorText))
    ensures r.Fail? <==> anchorText !in mentions && mentions == {}
    ensures r.Fail? ==> r.failure == NullPointer
    ensures r == Ok(None) <==>
              anchorText !in mentions && mentions != {} &&
              forall m | m in mentions :: dist(anchorText, m) <= 0.9
    ensures anchorText !in mentions && r.Ok? && r.value.Some? ==>
              r.value.value in mentions && dist(anchorText, r.value.value) > 0.9 &&
              forall m | m in mentions :: dist(anchorText, m) <= dist(anchorText, r.value.value)
  {
    if anchorText in mentions then Ok(Some(anchorText))
    else if mentions == {} then Fail(NullPointer)
    else
      var f := (m: string) => dist(anchorText, m);
      MaxExists(mentions, f);
      var far :| far in mentions && forall x | x in mentions :: f(x) <= f(far);
      if dist(anchorText, far) <= 0.9 then Ok(None) else Ok(Some(far))
  }

  /** `findClosestMention(anchorText)` as intended: the mention at the SMALLEST
      distance, kept only when its similarity `1 - distance` exceeds 0.9. */
  ghost function Closest(mentions: set<string>, anchorText: string, dist: Distance): (r: Outcome<Option<string>>)
    ensures anchorText in mentions ==> r == Ok(Some(anchorText))
    ensures r.Fail? <==> anchorText !in mentions && mentions == {}
    ensures r.Fail? ==> r.failure == NullPointer
    ensures r == Ok(None) <==>
              anchorText !in mentions && mentions != {} &&
              forall m | m in mentions :: 1.0 - dist(anchorText, m) <= 0.9
    ensures anchorText !in mentions && r.Ok? && r.value.Some? ==>
              r.value.value in mentions && 1.0 - dist(anchorText, r.value.value) > 0.9 &&
              forall m | m in mentions :: dist(anchorText, r.value.value) <= dist(anchorText, m)
  {
    if anchorText in mentions then Ok(Some(anchorText))
    else if mentions == {} then Fail(NullPointer)
    else
      var f := (m: string) => -dist(anchorText, m);
      MaxExists(mentions, f);
      var near :| near in mentions && forall x | x in mentions :: f(x) <= f(near);
      if 1.0 - dist(anchorText, near) <= 0.9 then Ok(None) else Ok(Some(near))
  }

  /** With one mention at distance 0.05 and another at 0.95, the code as written
      picks the far one; the intended version picks the near one. */
  lemma ClosestAsWrittenPicksFarthest()
    ensures var dist := (a: string, m: string) => if m == "barack_obama" then 0.05 else 0.95;
      ClosestAsWritten({"barack_obama", "zebra"}, "barack obama", dist) == Ok(Some("zebra")) &&
      Closest({"barack_obama", "zebra"}, "barack obama", dist) == Ok(Some("barack_obama"))
  {
    var dist := (a: string, m: string) => if m == "barack_obama" then 0.05 else 0.95;
    var mentions := {"barack_obama", "zebra"};
    assert "barack obama" != "barack_obama" by {
      assert "barack obama"[6] != "barack_obama"[6];
    }
    assert "zebra" != "barack_obama";
    var w := ClosestAsWritten(mentions, "barack obama", dist);
    assert w.Ok? && w.value.Some? && w.value.value in mentions;
    assert dist("barack obama", w.value.value) > 0.9;
    var c := Closest(mentions, "barack obama", dist);
    assert c.Ok? && c.value.Some? && c.value.value in mentions;
    assert dist("barack obama", c.value.value) < 0.1;
  }

  /** The links from `anchor` to `entity` divided by all links from `anchor`
      (`Int / Double`, so 0/0 is NaN). With positive counts it is a probability, and
      NaN exactly when `anchor` links nowhere. */
  ghost function Likelihood(links: map<Link, int>, anchor: string, entity: string): (r: Double)
    ensures Total(Under(links, anchor)) != 0.0 ==>
              r.Finite? && r.value * Total(Under(links, anchor)) == LinkCount(links, anchor, entity) as real
    ensures Positive(links) ==> (r == NaN <==> Under(links, anchor) == map[])
    ensures Positive(links) && r.Finite? ==> 0.0 <= r.value <= 1.0
  {
    var under := Under(links, anchor);
    var n := LinkCount(links, anchor, entity);
    var share := Divide(n as real, Total(under));
    assert Positive(links) ==> (share == NaN <==> under == map[]) && (share.Finite? ==> 0.0 <= share.value <= 1.0) by {
      if Positive(links) {
        if under == map[] {
          assert AsReals(under) == map[];
          assert Total(under) == 0.0;
        } else {
          var e :| e in under;
          CountBelowTotal(under, e);
        }
        if entity in under {
          CountBelowTotal(under, entity);
        }
        if Total(under) != 0.0 {
          SumOfValuesNonNegative(AsReals(under));
          RatioBounds(n as real, Total(under));
        }
      }
    }
    share
  }

  // ---------------------------------------------------------------------------
  // The indexer

  class HyperlinkIndexer {
    /** `map`: (anchor text, linked entity) to the number of links seen. */
    var links: map<Link, int>
    /** `mentionSet`: every anchor text passed to `addLink`. */
    var mentionSet: set<string>

    /** Every count is positive, and every anchor text of the table is a mention. */
    predicate Valid()
      reads this
    {
      Positive(links) && forall k | k in links :: k.0 in mentionSet
    }

    constructor ()
      ensures Valid() && links == map[] && mentionSet == {}
    {
      links := map[];
      mentionSet := {};
    }

    /** `hasEntityMention(mention)`: every anchor text that links to some entity is
        a known mention. */
    predicate HasEntityMention(mention: string): (known: bool)
      reads this
      ensures Valid() && (exists e :: (mention, e) in links) ==> known
    {
      mention in mentionSet
    }

    /** `getLink(anchorText, entity)`. */
    function GetLink(anchorText: string, entity: string): (n: int)
      reads this
      ensures Valid() ==> n >= 0
      ensures n == LinkCount(links, anchorText, entity)
    {
      LinkCount(links, anchorText, entity)
    }

    /** `addLink(anchorText, entity)`: the pair's count goes up by one and the
        anchor text becomes a known mention. */
    method AddLink(anchorText: string, entity: string)
      requires Valid()
      modifies this
      ensures Valid()
      ensures links == Bump(old(links), anchorText, entity)
      ensures mentionSet == old(mentionSet) + {anchorText}
      ensures HasEntityMention(anchorText)
    {
      links := links[(anchorText, entity) := LinkCount(links, anchorText, entity) + 1];
      mentionSet := mentionSet + {anchorText};
    }

    /** `addLinks(links)`: `addLink` for each pair in order. Every count grows by
        the number of occurrences of its pair. */
    method AddLinks(pairs: seq<Link>)
      requires Valid()
      modifies this
      ensures Valid()
      ensures links == BumpAll(old(links), pairs)
      ensures mentionSet == old(mentionSet) + Anchors(pairs)
      ensures forall a, e :: GetLink(a, e) == old(GetLink(a, e)) + multiset(pairs)[(a, e)]
    {
      var i := 0;
      while i < |pairs|
        invariant 0 <= i <= |pairs|
        invariant Valid()
        invariant links == BumpAll(old(links), pairs[..i])
        invariant mentionSet == old(mentionSet) + Anchors(pairs[..i])
      {
        PrefixStep(old(links), pairs, i);
        AddLink(pairs[i].0, pairs[i].1);
        i := i + 1;
      }
      assert pairs[..i] == pairs;
      forall a, e
        ensures GetLink(a, e) == old(GetLink(a, e)) + multiset(pairs)[(a, e)]
      {
        BumpAllCounts(old(links), pairs, a, e);
      }
    }

    /** `getPopular(anchorText)`: among the entities linked from `clean(anchorText)`,
        the most linked one (the first in key order on a tie) with its share of all
        those links. No such entity: `first()` throws. */
    ghost function GetPopular(anchorText: string): (r: Outcome<(string, Double)>)
      reads this
      ensures r.Fail? <==> Under(links, Clean(anchorText)) == map[]
      ensures r.Fail? ==> r.failure == NoSuchElement
      ensures r.Ok? ==>
                var under := Under(links, Clean(anchorText));
                r.value.0 in under &&
                (forall e | e in under :: under[e] <= under[r.value.0]) &&
                (forall e | e in under && under[e] == under[r.value.0] :: StrLe(r.value.0, e))
      ensures r.Ok? ==>
                r.value.1 == Divide(LinkCount(links, Clean(anchorText), r.value.0) as real,
                                    Total(Under(links, Clean(anchorText))))
      ensures r.Ok? && Valid() ==> r.value.1.Finite? && 0.0 < r.value.1.value <= 1.0
    {
      var under := Under(links, Clean(anchorText));
      if under == map[] then Fail(NoSuchElement)
      else
        var e := MostPopular(under);
        var share := Divide(under[e] as real, Total(under));
        assert Valid() ==> share.Finite? && 0.0 < share.value <= 1.0 by {
          if Valid() {
            CountBelowTotal(under, e);
            RatioBounds(under[e] as real, Total(under));
          }
        }
        Ok((e, share))
    }

    /** `getMentionLikelihood(aText, linkedEntity)` as written: the mention is the
        one `findClosestMention` picks as written (the text itself when known,
        otherwise the mention FARTHEST from it, kept only beyond distance 0.9); 0
        when none is kept, else the `Likelihood` of the cleaned entity given the
        cleaned mention. */
    ghost function GetMentionLikelihood(aText: string, linkedEntity: string, dist: Distance): (r: Outcome<Double>)
      reads this
      ensures r.Fail? <==> aText !in mentionSet && mentionSet == {}
      ensures r.Fail? ==> r.failure == NullPointer
      ensures aText in mentionSet ==> r == Ok(Likelihood(links, Clean(aText), Clean(linkedEntity)))
      ensures aText !in mentionSet && mentionSet != {} && (forall m | m in mentionSet :: dist(aText, m) <= 0.9) ==>
                r == Ok(Finite(0.0))
      ensures aText !in mentionSet && (exists m | m in mentionSet :: dist(aText, m) > 0.9) ==>
                exists m | m in mentionSet ::
                  dist(aText, m) > 0.9 && (forall x | x in mentionSet :: dist(aText, x) <= dist(aText, m)) &&
                  r == Ok(Likelihood(links, Clean(m), Clean(linkedEntity)))
      ensures Valid() && r.Ok? && r.value.Finite? ==> 0.0 <= r.value.value <= 1.0
    {
      match ClosestAsWritten(mentionSet, aText, dist)
      case Fail(f) => Fail(f)
      case Ok(None) => Ok(Finite(0.0))
      case Ok(Some(mention)) => Ok(Likelihood(links, Clean(mention), Clean(linkedEntity)))
    }

    /** `getMentionLikelihood` over the corrected `findClosestMention`: the mention
        NEAREST to the text, kept only when its similarity `1 - distance` exceeds
        0.9. */
    ghost function GetMentionLikelihoodIntended(aText: string, linkedEntity: string, dist: Distance): (r: Outcome<Double>)
      reads this
      ensures r.Fail? <==> aText !in mentionSet && mentionSet == {}
      ensures r.Fail? ==> r.failure == NullPointer
      ensures aText in mentionSet ==> r == Ok(Likelihood(links, Clean(aText), Clean(linkedEntity)))
      ensures aText !in mentionSet && mentionSet != {} && (forall m | m in mentionSet :: 1.0 - dist(aText, m) <= 0.9) ==>
                r == Ok(Finite(0.0))
      ensures aText !in mentionSet && (exists m | m in mentionSet :: 1.0 - dist(aText, m) > 0.9) ==>
                exists m | m in mentionSet ::
                  1.0 - dist(aText, m) > 0.9 && (forall x | x in mentionSet :: dist(aText, m) <= dist(aText, x)) &&
                  r == Ok(Likelihood(links, Clean(m), Clean(linkedEntity)))
      ensures Valid() && r.Ok? && r.value.Finite? ==> 0.0 <= r.value.value <= 1.0
    {
      match Closest(mentionSet, aText, dist)
      case Fail(f) => Fail(f)
      case Ok(None) => Ok(Finite(0.0))
      case Ok(Some(mention)) => Ok(Likelihood(links, Clean(mention), Clean(linkedEntity)))
    }
  }
}
