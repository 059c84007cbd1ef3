/** The word-list similarity measures of the meta-kernel analyzer: a word pair is
    similar when one minus their string distance reaches 0.8, and three reductions
    turn the pairwise verdicts over two word lists into one score. The string
    distance (normalized Levenshtein) and the Lucene tokenizer are parameters. */
module Similarity {
  import opened Wrappers
  import opened Numeric
  import opened TextKernels

  datatype ReductionMethod = ReductionMaxMax | ReductionAverage | ReductionMaxAverage

  /** The threshold of `averageSim`. */
  const SimilarityThreshold: real := 0.8

  predicate Similar(dist: (string, string) -> real, a: string, b: string)
  {
    1.0 - dist(a, b) >= SimilarityThreshold
  }

  /** `averageSim`: 1 for a similar pair, 0 otherwise. */
  function AverageSim(dist: (string, string) -> real, a: string, b: string): (r: real)
    ensures r == 1.0 <==> Similar(dist, a, b)
    ensures r == 0.0 <==> !Similar(dist, a, b)
  {
    if 1.0 - dist(a, b) < SimilarityThreshold then 0.0 else 1.0
  }

  /** `w2.map { word2 -> averageSim(word1, word2) }`. */
  function Row(dist: (string, string) -> real, a: string, w2: seq<string>): (r: seq<real>)
    ensures |r| == |w2|
    ensures forall j | 0 <= j < |w2| :: r[j] == AverageSim(dist, a, w2[j])
  {
    seq(|w2|, j requires 0 <= j < |w2| => AverageSim(dist, a, w2[j]))
  }

  /** `w1.flatMap { word1 -> w2.map { word2 -> averageSim(word1, word2) } }`: one
      verdict, 0 or 1, per pair of words, and a 1 exactly when some pair is similar. */
  function PairSims(dist: (string, string) -> real, w1: seq<string>, w2: seq<string>): (r: seq<real>)
    ensures |r| == |w1| * |w2|
    ensures forall k | 0 <= k < |r| :: r[k] == 0.0 || r[k] == 1.0
    ensures (exists k :: 0 <= k < |r| && r[k] == 1.0) <==>
            (exists i, j :: 0 <= i < |w1| && 0 <= j < |w2| && Similar(dist, w1[i], w2[j]))
  {
    if w1 == [] then []
    else
      var rest := PairSims(dist, w1[1..], w2);
      PairSimsStep(dist, w1, w2, rest);
      assert |w1| * |w2| == |w2| + (|w1| - 1) * |w2|;
      Row(dist, w1[0], w2) + rest
  }

  /** The verdicts of the first word, followed by those of the others, hold a 1
      exactly when some pair is similar. */
  lemma PairSimsStep(dist: (string, string) -> real, w1: seq<string>, w2: seq<string>, rest: seq<real>)
    requires w1 != []
    requires (exists k :: 0 <= k < |rest| && rest[k] == 1.0) <==>
             (exists i, j :: 0 <= i < |w1| - 1 && 0 <= j < |w2| && Similar(dist, w1[1..][i], w2[j]))
    ensures var r := Row(dist, w1[0], w2) + rest;
            (exists k :: 0 <= k < |r| && r[k] == 1.0) <==>
            (exists i, j :: 0 <= i < |w1| && 0 <= j < |w2| && Similar(dist, w1[i], w2[j]))
  {
    var row := Row(dist, w1[0], w2);
    var r := row + rest;
    if i, j :| 0 <= i < |w1| && 0 <= j < |w2| && Similar(dist, w1[i], w2[j]) {
      if i == 0 {
        assert r[j] == 1.0;
      } else {
        assert w1[1..][i - 1] == w1[i];
        var k :| 0 <= k < |rest| && rest[k] == 1.0;
        assert r[|row| + k] == 1.0;
      }
    }
    if k :| 0 <= k < |r| && r[k] == 1.0 {
      if k < |row| {
        assert Similar(dist, w1[0], w2[k]);
      } else {
        assert rest[k - |row|] == 1.0;
        var i, j :| 0 <= i < |w1| - 1 && 0 <= j < |w2| && Similar(dist, w1[1..][i], w2[j]);
        assert Similar(dist, w1[i + 1], w2[j]);
      }
    }
  }

  /** The sum of verdicts that are each 0 or 1 counts the 1s: it lies between 0 and
      the number of verdicts, and it is 0 exactly when there is no 1. */
  lemma {:induction false} VerdictSum(xs: seq<real>)
    requires forall k | 0 <= k < |xs| :: xs[k] == 0.0 || xs[k] == 1.0
    ensures 0.0 <= RealSum(xs) <= |xs| as real
    ensures RealSum(xs) == RealSum(xs).Floor as real
    ensures RealSum(xs) == 0.0 <==> forall k | 0 <= k < |xs| :: xs[k] == 0.0
    decreases |xs|
  {
    if xs != [] {
      var init := xs[..|xs| - 1];
      VerdictSum(init);
      assert forall k | 0 <= k < |init| :: init[k] == xs[k];
    }
  }

  /** The largest element of a nonempty list (`max()!!`). */
  function MaxOf(xs: seq<real>): (m: real)
    requires |xs| > 0
    ensures m in xs
    ensures forall k | 0 <= k < |xs| :: xs[k] <= m
  {
    if |xs| == 1 then xs[0]
    else
      var rest := MaxOf(xs[1..]);
      if xs[0] >= rest then xs[0] else rest
  }

  /** Over verdicts that are each 0 or 1, the largest is 1 exactly when some
      verdict is 1. */
  lemma MaxOfVerdicts(xs: seq<real>)
    requires |xs| > 0
    requires forall k | 0 <= k < |xs| :: xs[k] == 0.0 || xs[k] == 1.0
    ensures MaxOf(xs) == 0.0 || MaxOf(xs) == 1.0
    ensures MaxOf(xs) == 1.0 <==> exists k :: 0 <= k < |xs| && xs[k] == 1.0
  {
  }

  /** `w2.map { word2 -> averageSim(word1, word2) }.max()!!`. */
  function RowMax(dist: (string, string) -> real, a: string, w2: seq<string>): (m: real)
    requires |w2| > 0
    ensures m == 0.0 || m == 1.0
    ensures m == 1.0 <==> exists j :: 0 <= j < |w2| && Similar(dist, a, w2[j])
  {
    var row := Row(dist, a, w2);
    MaxOfVerdicts(row);
    assert (exists k :: 0 <= k < |row| && row[k] == 1.0) <==> exists j :: 0 <= j < |w2| && Similar(dist, a, w2[j]);
    MaxOf(row)
  }

  /** `productMaxMax`: 1 when some pair of words is similar, 0 when none is; `max()!!`
      on an empty list throws. */
  function ProductMaxMax(dist: (string, string) -> real, w1: seq<string>, w2: seq<string>): (r: Outcome<real>)
    ensures r.Fail? <==> w1 == [] || w2 == []
    ensures r.Fail? ==> r.failure == NullPointer
    ensures r.Ok? ==> r.value == 0.0 || r.value == 1.0
    ensures r.Ok? ==> (r.value == 1.0 <==> exists i, j :: 0 <= i < |w1| && 0 <= j < |w2| && Similar(dist, w1[i], w2[j]))
  {
    if w2 == [] || w1 == [] then Fail(NullPointer)
    else
      var rowMaxima := seq(|w1|, i requires 0 <= i < |w1| => RowMax(dist, w1[i], w2));
      MaxOfVerdicts(rowMaxima);
      assert (exists k :: 0 <= k < |rowMaxima| && rowMaxima[k] == 1.0) <==>
             exists i, j :: 0 <= i < |w1| && 0 <= j < |w2| && Similar(dist, w1[i], w2[j]) by {
        assert forall i | 0 <= i < |w1| :: rowMaxima[i] == 1.0 <==> exists j :: 0 <= j < |w2| && Similar(dist, w1[i], w2[j]);
      }
      Ok(MaxOf(rowMaxima))
  }

  /** The number of pairs is zero exactly when one of the lists is empty. */
  lemma PairCount(a: nat, b: nat)
    ensures a * b == 0 <==> a == 0 || b == 0
    ensures (a * b) as real == a as real * b as real
  {
  }

  /** The positions `(i, j)` of the similar pairs of words `w1[i]`, `w2[j]`. */
  ghost function SimilarPairs(dist: (string, string) -> real, w1: seq<string>, w2: seq<string>): set<(int, int)>
  {
    set i, j | 0 <= i < |w1| && 0 <= j < |w2| && Similar(dist, w1[i], w2[j]) :: (i, j)
  }

  /** The positions of the words of `w2` similar to `a`. */
  ghost function SimilarTo(dist: (string, string) -> real, a: string, w2: seq<string>): set<int>
  {
    set j | 0 <= j < |w2| && Similar(dist, a, w2[j])
  }

  /** A set `t` that a one-to-one `f` maps `s` onto is as large as `s`. */
  lemma {:induction false} InjectiveImage<A, B>(s: set<A>, t: set<B>, f: A -> B)
    requires forall x | x in s :: f(x) in t
    requires forall y | y in t :: exists x :: x in s && f(x) == y
    requires forall x, y | x in s && y in s && f(x) == f(y) :: x == y
    ensures |t| == |s|
    decreases |s|
  {
    if s != {} {
      var x :| x in s;
      InjectiveImage(s - {x}, t - {f(x)}, f);
    } else {
      assert forall y :: y !in t;
    }
  }

  /** One word's verdicts add up to the number of words similar to it. */
  lemma {:induction false} RowSum(dist: (string, string) -> real, a: string, w2: seq<string>)
    ensures RealSum(Row(dist, a, w2)) == |SimilarTo(dist, a, w2)| as real
    decreases |w2|
  {
    if w2 != [] {
      var init := w2[..|w2| - 1];
      RowSum(dist, a, init);
      assert Row(dist, a, w2)[..|w2| - 1] == Row(dist, a, init);
      if Similar(dist, a, w2[|w2| - 1]) {
        assert SimilarTo(dist, a, w2) == SimilarTo(dist, a, init) + {|w2| - 1};
      } else {
        assert SimilarTo(dist, a, w2) == SimilarTo(dist, a, init);
      }
    }
  }

  /** The similar pairs are those of the first word, followed by those of the
      others shifted down one row. */
  lemma SimilarPairsSplit(dist: (string, string) -> real, w1: seq<string>, w2: seq<string>)
    requires w1 != []
    ensures var first := set j | j in SimilarTo(dist, w1[0], w2) :: (0, j);
            var later := set p | p in SimilarPairs(dist, w1[1..], w2) :: (p.0 + 1, p.1);
            SimilarPairs(dist, w1, w2) == first + later && first !! later
  {
    var rest := w1[1..];
    var first := set j | j in SimilarTo(dist, w1[0], w2) :: (0, j);
    var later := set p | p in SimilarPairs(dist, rest, w2) :: (p.0 + 1, p.1);
    forall p | p in SimilarPairs(dist, w1, w2) ensures p in first + later {
      var i, j :| 0 <= i < |w1| && 0 <= j < |w2| && Similar(dist, w1[i], w2[j]) && p == (i, j);
      if i == 0 {
        assert j in SimilarTo(dist, w1[0], w2);
      } else {
        assert rest[i - 1] == w1[i];
        assert (i - 1, j) in SimilarPairs(dist, rest, w2);
      }
    }
    forall p | p in later ensures p in SimilarPairs(dist, w1, w2) {
      var q :| q in SimilarPairs(dist, rest, w2) && p == (q.0 + 1, q.1);
      var i, j :| 0 <= i < |rest| && 0 <= j < |w2| && Similar(dist, rest[i], w2[j]) && q == (i, j);
      assert rest[i] == w1[i + 1];
    }
  }

  /** The verdicts over all pairs add up to the number of similar pairs. */
  lemma {:induction false} PairSimsCount(dist: (string, string) -> real, w1: seq<string>, w2: seq<string>)
    ensures RealSum(PairSims(dist, w1, w2)) == |SimilarPairs(dist, w1, w2)| as real
    decreases |w1|
  {
    if w1 != [] {
      var rest := w1[1..];
      var row, sims := Row(dist, w1[0], w2), PairSims(dist, rest, w2);
      assert PairSims(dist, w1, w2) == row + sims;
      PairSimsCount(dist, rest, w2);
      RowSum(dist, w1[0], w2);
      RealSumAppend(row, sims);
      SimilarPairsCount(dist, w1, w2);
    }
  }

  /** The similar pairs number those of the first word plus those of the others. */
  lemma SimilarPairsCount(dist: (string, string) -> real, w1: seq<string>, w2: seq<string>)
    requires w1 != []
    ensures |SimilarPairs(dist, w1, w2)| == |SimilarTo(dist, w1[0], w2)| + |SimilarPairs(dist, w1[1..], w2)|
  {
    var near, far := SimilarTo(dist, w1[0], w2), SimilarPairs(dist, w1[1..], w2);
    var first := set j | j in near :: (0, j);
    var later := set p | p in far :: (p.0 + 1, p.1);
    SimilarPairsSplit(dist, w1, w2);
    InjectiveImage(near, first, (j: int) => (0, j));
    InjectiveImage(far, later, (p: (int, int)) => (p.0 + 1, p.1));
    assert |first + later| == |first| + |later|;
  }

  /** `productMaxAverage`: the number of similar pairs of words. */
  function ProductMaxAverage(dist: (string, string) -> real, w1: seq<string>, w2: seq<string>): (r: real)
    ensures r == |SimilarPairs(dist, w1, w2)| as real
    ensures 0.0 <= r <= (|w1| * |w2|) as real
    ensures r == r.Floor as real
    ensures r == 0.0 <==> forall i, j | 0 <= i < |w1| && 0 <= j < |w2| :: !Similar(dist, w1[i], w2[j])
  {
    var sims := PairSims(dist, w1, w2);
    VerdictSum(sims);
    PairSimsCount(dist, w1, w2);
    RealSum(sims)
  }

  /** The verdicts as doubles, for `List<Double>.average()`. */
  function AsDoubles(xs: seq<real>): (r: seq<Double>)
    ensures AllFinite(r)
    ensures Reals(r) == xs
  {
    var r := seq(|xs|, k requires 0 <= k < |xs| => Finite(xs[k]));
    assert Reals(r) == xs;
    r
  }

  /** `productAverage`: the share of similar pairs among all pairs; `average()` of no
      pairs is NaN. */
  function ProductAverage(dist: (string, string) -> real, w1: seq<string>, w2: seq<string>): (r: Double)
    ensures r.NaN? <==> w1 == [] || w2 == []
    ensures r.Finite? <==> w1 != [] && w2 != []
    ensures r.Finite? ==> 0.0 <= r.value <= 1.0
    ensures r.Finite? ==> r.value == ProductMaxAverage(dist, w1, w2) / (|w1| * |w2|) as real
  {
    var sims := PairSims(dist, w1, w2);
    AverageOfVerdicts(sims);
    PairCount(|w1|, |w2|);
    var r := Average(AsDoubles(sims));
    r
  }

  /** The average of verdicts that are each 0 or 1 is their sum over their number,
      a share between 0 and 1. */
  lemma AverageOfVerdicts(xs: seq<real>)
    requires forall k | 0 <= k < |xs| :: xs[k] == 0.0 || xs[k] == 1.0
    ensures Average(AsDoubles(xs)).Finite? <==> |xs| > 0
    ensures Average(AsDoubles(xs)).Finite? ==>
      Average(AsDoubles(xs)).value == RealSum(xs) / |xs| as real &&
      0.0 <= Average(AsDoubles(xs)).value <= 1.0
  {
    var doubles := AsDoubles(xs);
    var r := Average(doubles);
    if r.Finite? {
      VerdictSum(xs);
      Share(|xs| as real, RealSum(xs));
    }
  }

  lemma Share(n: real, total: real)
    requires n > 0.0 && 0.0 <= total <= n
    ensures 0.0 <= total / n <= 1.0
  {
  }

  lemma Quotient(total: real, n: real)
    requires n > 0.0
    ensures total / n == 0.0 <==> total == 0.0
  {
  }

  /** The top-level `filterWords`: the tokens of the lower-cased text. */
  function FilterWords(tokenize: string -> seq<string>, text: string): seq<string>
  {
    tokenize(LowerCase(text))
  }

  /** Lowering the text first changes nothing: `filterWords` sees a text and its
      lower-cased form alike, whatever the tokenizer. */
  lemma FilterWordsIgnoresCase(tokenize: string -> seq<string>, text: string)
    ensures FilterWords(tokenize, LowerCase(text)) == FilterWords(tokenize, text)
  {
    LowerCaseIdempotent(text);
  }

  /** The score `bindSims` gives to a pair of word lists under a reduction reduction. */
  function Reduce(reduction: ReductionMethod, dist: (string, string) -> real, w1: seq<string>, w2: seq<string>): (r: Outcome<Double>)
    ensures r.Fail? <==> reduction.ReductionMaxMax? && (w1 == [] || w2 == [])
    ensures r.Ok? && !r.value.Finite? ==> reduction.ReductionAverage? && r.value.NaN?
    ensures r.Ok? && r.value.Finite? ==> 0.0 <= r.value.value
    ensures r.Ok? && r.value.Finite? ==>
      (r.value.value == 0.0 <==> forall i, j | 0 <= i < |w1| && 0 <= j < |w2| :: !Similar(dist, w1[i], w2[j]))
  {
    match reduction
    case ReductionMaxMax =>
      var m := ProductMaxMax(dist, w1, w2);
      if m.Fail? then Fail(m.failure) else Ok(Finite(m.value))
    case ReductionAverage =>
      var a := ProductAverage(dist, w1, w2);
      assert a.Finite? ==> (a.value == 0.0 <==> ProductMaxAverage(dist, w1, w2) == 0.0) by {
        if a.Finite? {
          PairCount(|w1|, |w2|);
          Quotient(ProductMaxAverage(dist, w1, w2), (|w1| * |w2|) as real);
        }
      }
      Ok(a)
    case ReductionMaxAverage => Ok(Finite(ProductMaxAverage(dist, w1, w2)))
  }

  /** `bindSims`: the similarity of any text to the fixed text, by the chosen
      reduction over their filtered words. */
  function BindSims(text: string, reduction: ReductionMethod, tokenize: string -> seq<string>,
                    dist: (string, string) -> real): (sim: string -> Outcome<Double>)
    ensures forall other :: sim(other).Fail? <==>
      reduction.ReductionMaxMax? && (FilterWords(tokenize, text) == [] || FilterWords(tokenize, other) == [])
  {
    var w1 := FilterWords(tokenize, text);
    other => Reduce(reduction, dist, w1, FilterWords(tokenize, other))
  }
}
