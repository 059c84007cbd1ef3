/** `KotlinGramAnalyzer`: unigram, adjacent-bigram and windowed-bigram statistics of
    a token list, and the mixing of document and corpus frequencies in
    `LanguageStats.smooth`. The tokenizer and the corpus index are parameters: the
    token list is given, and `corpus(field, gram)` / `corpusTotal(field)` stand for
    `getCorpusGram` and `getSumTotalTermFreq`. */
module GramAnalyzer {
  import opened Wrappers
  import opened Numeric
  import opened MapSums
  import opened Counting

  datatype GramStatType = TypeUnigram | TypeBigram | TypeBigramWindow

  /** `LanguageStats(docTermCounts, docTermFreqs, corpusTermFreqs)`. */
  datatype LanguageStats = LanguageStats(docTermCounts: map<string, int>,
                                         docTermFreqs: map<string, Double>,
                                         corpusTermFreqs: map<string, Double>)

  // ---------------------------------------------------------------------------
  // smooth

  /** Some document term has no corpus frequency: `corpusTermFreqs[k]!!` throws. */
  predicate MissingCorpusTerm(stats: LanguageStats)
  {
    exists k :: k in stats.docTermFreqs && k !in stats.corpusTermFreqs
  }

  /** `smooth(alpha)` as written: `v * alpha + corpusTermFreqs[k]!! * (alpha - 1.0)`. */
  function SmoothAsWritten(stats: LanguageStats, alpha: real): (r: Outcome<map<string, Double>>)
    ensures r.Fail? <==> MissingCorpusTerm(stats)
    ensures r.Fail? ==> r.failure == NullPointer
    ensures r.Ok? ==> r.value.Keys == stats.docTermFreqs.Keys
  {
    if MissingCorpusTerm(stats) then Fail(NullPointer)
    else Ok(map k | k in stats.docTermFreqs ::
              Add(Scale(stats.docTermFreqs[k], alpha), Scale(stats.corpusTermFreqs[k], alpha - 1.0)))
  }

  /** `smooth(alpha)` with the weights of a mixture, `alpha` and `1 - alpha`. */
  function Smooth(stats: LanguageStats, alpha: real): (r: Outcome<map<string, Double>>)
    ensures r.Fail? <==> MissingCorpusTerm(stats)
    ensures r.Fail? ==> r.failure == NullPointer
    ensures r.Ok? ==> r.value.Keys == stats.docTermFreqs.Keys
  {
    if MissingCorpusTerm(stats) then Fail(NullPointer)
    else Ok(map k | k in stats.docTermFreqs ::
              Add(Scale(stats.docTermFreqs[k], alpha), Scale(stats.corpusTermFreqs[k], 1.0 - alpha)))
  }

  /** Every corpus frequency of a document term is a finite number. */
  predicate FiniteCorpus(stats: LanguageStats)
  {
    forall k | k in stats.docTermFreqs && k in stats.corpusTermFreqs :: stats.corpusTermFreqs[k].Finite?
  }

  /** `smooth(1.0)` gives back the document frequencies, as long as the corpus
      frequencies are finite (a non-finite one times 0 is NaN). Both forms agree. */
  lemma SmoothOne(stats: LanguageStats)
    requires !MissingCorpusTerm(stats) && FiniteCorpus(stats)
    ensures Smooth(stats, 1.0) == Ok(stats.docTermFreqs)
    ensures SmoothAsWritten(stats, 1.0) == Ok(stats.docTermFreqs)
  {
    var m := Smooth(stats, 1.0).value;
    forall k | k in m
      ensures m[k] == stats.docTermFreqs[k]
    {
      assert stats.corpusTermFreqs[k].Finite?;
    }
    assert m == stats.docTermFreqs;
    var w := SmoothAsWritten(stats, 1.0).value;
    forall k | k in w
      ensures w[k] == stats.docTermFreqs[k]
    {
      assert stats.corpusTermFreqs[k].Finite?;
    }
    assert w == stats.docTermFreqs;
  }

  /** `a * v + (1 - a) * c` lies between `v` and `c` for `0 <= a <= 1`. */
  lemma Between(a: real, v: real, c: real)
    requires 0.0 <= a <= 1.0
    ensures v <= c ==> v <= a * v + (1.0 - a) * c <= c
    ensures c <= v ==> c <= a * v + (1.0 - a) * c <= v
  {
    if v <= c {
      Shrink(1.0 - a, c - v);
      Shrink(a, c - v);
      assert a * v + (1.0 - a) * c == v + (1.0 - a) * (c - v);
    } else {
      Shrink(a, v - c);
      Shrink(1.0 - a, v - c);
      assert a * v + (1.0 - a) * c == c + a * (v - c);
    }
  }

  lemma Shrink(a: real, d: real)
    requires 0.0 <= a <= 1.0 && d >= 0.0
    ensures 0.0 <= a * d <= d
  {
    assert d - a * d == (1.0 - a) * d;
  }

  /** With `0 <= alpha <= 1`, a smoothed frequency lies between the document and the
      corpus frequency; in particular frequencies in [0, 1] stay in [0, 1]. */
  lemma SmoothIsMixture(stats: LanguageStats, alpha: real, k: string)
    requires !MissingCorpusTerm(stats) && 0.0 <= alpha <= 1.0
    requires k in stats.docTermFreqs && stats.docTermFreqs[k].Finite?
    requires k in stats.corpusTermFreqs && stats.corpusTermFreqs[k].Finite?
    ensures var v := stats.docTermFreqs[k].value;
            var c := stats.corpusTermFreqs[k].value;
            var r := Smooth(stats, alpha).value[k];
      r.Finite? && (v <= c ==> v <= r.value <= c) && (c <= v ==> c <= r.value <= v)
  {
    Between(alpha, stats.docTermFreqs[k].value, stats.corpusTermFreqs[k].value);
  }

  /** As written, mixing a document frequency of 0.2 with a corpus frequency of 0.4
      at `alpha = 0.5` gives a negative frequency. */
  lemma SmoothAsWrittenNegative()
    ensures var stats := LanguageStats(map["a" := 1], map["a" := Finite(0.2)], map["a" := Finite(0.4)]);
      SmoothAsWritten(stats, 0.5) == Ok(map["a" := Finite(-0.1)]) &&
      Smooth(stats, 0.5) == Ok(map["a" := Finite(0.3)])
  {
    var stats := LanguageStats(map["a" := 1], map["a" := Finite(0.2)], map["a" := Finite(0.4)]);
    assert !MissingCorpusTerm(stats);
    var w := SmoothAsWritten(stats, 0.5).value;
    assert w.Keys == {"a"} && w["a"] == Finite(-0.1);
    assert w == map["a" := Finite(-0.1)];
    var m := Smooth(stats, 0.5).value;
    assert m.Keys == {"a"} && m["a"] == Finite(0.3);
    assert m == map["a" := Finite(0.3)];
  }

  // ---------------------------------------------------------------------------
  // The grams of a token list

  /** `windowed(2, 1).map { joinToString("") }`: each token glued to the next. */
  function Bigrams(terms: seq<string>): (grams: seq<string>)
    ensures |grams| == if |terms| == 0 then 0 else |terms| - 1
    ensures forall i | 0 <= i < |grams| :: grams[i] == terms[i] + terms[i + 1]
  {
    if |terms| < 2 then [] else seq(|terms| - 1, i requires 0 <= i < |terms| - 1 => terms[i] + terms[i + 1])
  }

  /** The pairs of the window starting at token `i` of `windowed(8, 1, true)`: token
      `i` glued to each of the next (up to) seven tokens. */
  function WindowPairs(terms: seq<string>, i: nat): (grams: seq<string>)
    requires i < |terms|
    ensures |grams| == Min(7, |terms| - 1 - i)
    ensures forall j | 0 <= j < |grams| :: grams[j] == terms[i] + terms[i + 1 + j]
  {
    seq(Min(7, |terms| - 1 - i), j requires 0 <= j < Min(7, |terms| - 1 - i) => terms[i] + terms[i + 1 + j])
  }

  /** The windowed pairs of every window from token `i` on, in order. */
  function WindowedBigrams(terms: seq<string>, i: nat): seq<string>
    requires i <= |terms|
    decreases |terms| - i
  {
    if i == |terms| then [] else WindowPairs(terms, i) + WindowedBigrams(terms, i + 1)
  }

  /** `Σ min(7, n - 1 - i)` over the windows from `i` on. */
  function WindowTotal(n: nat, i: nat): nat
    requires i <= n
    decreases n - i
  {
    if i == n then 0 else Min(7, n - 1 - i) + WindowTotal(n, i + 1)
  }

  /** There are `Σᵢ min(7, n - 1 - i)` windowed pairs. */
  lemma {:induction false} WindowedBigramsCount(terms: seq<string>, i: nat)
    requires i <= |terms|
    ensures |WindowedBigrams(terms, i)| == WindowTotal(|terms|, i)
    decreases |terms| - i
  {
    if i < |terms| {
      WindowedBigramsCount(terms, i + 1);
    }
  }

  /** Two consecutive tokens glued together. */
  ghost predicate Adjacent(terms: seq<string>, g: string)
  {
    exists i :: 0 <= i < |terms| - 1 && g == terms[i] + terms[i + 1]
  }

  /** Token `a` glued to a token `b` at most seven places after it, with `i <= a`. */
  ghost predicate WithinWindow(terms: seq<string>, i: nat, g: string)
  {
    exists a, b :: i <= a < b < |terms| && b <= a + 7 && g == terms[a] + terms[b]
  }

  /** A windowed pair is token `a` glued to a token `b` at most seven places after
      it, and every such pair is produced. */
  lemma WindowedBigramsShape(terms: seq<string>, i: nat, g: string)
    requires i <= |terms|
    ensures g in WindowedBigrams(terms, i) <==> WithinWindow(terms, i, g)
  {
    if g in WindowedBigrams(terms, i) {
      WindowedBigramsSound(terms, i, g);
    }
    if WithinWindow(terms, i, g) {
      WindowedBigramsComplete(terms, i, g);
    }
  }

  lemma {:induction false} WindowedBigramsSound(terms: seq<string>, i: nat, g: string)
    requires i <= |terms| && g in WindowedBigrams(terms, i)
    ensures WithinWindow(terms, i, g)
    decreases |terms| - i
  {
    assert i < |terms|;
    var first, rest := WindowPairs(terms, i), WindowedBigrams(terms, i + 1);
    assert WindowedBigrams(terms, i) == first + rest;
    assert g in first || g in rest;
    if g in first {
      var j :| 0 <= j < |first| && first[j] == g;
      var b := i + 1 + j;
      assert g == terms[i] + terms[b];
      assert i <= i < b < |terms| && b <= i + 7;
    } else {
      WindowedBigramsSound(terms, i + 1, g);
      WithinWindowWiden(terms, i, g);
    }
  }

  /** A pair starting at or after token `i + 1` also starts at or after token `i`. */
  lemma WithinWindowWiden(terms: seq<string>, i: nat, g: string)
    requires WithinWindow(terms, i + 1, g)
    ensures WithinWindow(terms, i, g)
  {
    var a, b :| i + 1 <= a < b < |terms| && b <= a + 7 && g == terms[a] + terms[b];
    assert i <= a;
  }

  /** Token `i` glued to any of the seven tokens after it is a pair of window `i`. */
  lemma WindowPairsContain(terms: seq<string>, i: nat, b: nat)
    requires i < b < |terms| && b <= i + 7
    ensures terms[i] + terms[b] in WindowPairs(terms, i)
  {
    assert WindowPairs(terms, i)[b - i - 1] == terms[i] + terms[b];
  }

  lemma {:induction false} WindowedBigramsComplete(terms: seq<string>, i: nat, g: string)
    requires i <= |terms| && WithinWindow(terms, i, g)
    ensures g in WindowedBigrams(terms, i)
    decreases |terms| - i
  {
    var a, b :| i <= a < b < |terms| && b <= a + 7 && g == terms[a] + terms[b];
    var first, rest := WindowPairs(terms, i), WindowedBigrams(terms, i + 1);
    assert WindowedBigrams(terms, i) == first + rest;
    if a == i {
      WindowPairsContain(terms, i, b);
      assert g in first;
    } else {
      assert WithinWindow(terms, i + 1, g);
      WindowedBigramsComplete(terms, i + 1, g);
      assert g in rest;
    }
  }

  // ---------------------------------------------------------------------------
  // Statistics

  /** The statistics of a list of grams: each gram's count, its share of all the
      grams (`count / total`), and its corpus frequency `corpus(field, gram) /
      corpusTotal(field)`. */
  ghost function GramStats(grams: seq<string>, field: string, corpus: (string, string) -> int,
                           corpusTotal: string -> int): (s: LanguageStats)
    ensures s.docTermCounts == CountMap(grams)
    ensures s.docTermCounts.Keys == (set g | g in grams)
    ensures s.docTermFreqs.Keys == s.docTermCounts.Keys && s.corpusTermFreqs.Keys == s.docTermCounts.Keys
    ensures forall g | g in s.docTermFreqs ::
              s.docTermFreqs[g] == Finite(multiset(grams)[g] as real / |grams| as real)
    ensures forall g | g in s.corpusTermFreqs ::
              s.corpusTermFreqs[g] == Divide(corpus(field, g) as real, corpusTotal(field) as real)
  {
    var counts := CountMap(grams);
    LanguageStats(counts, Frequencies(grams),
                  map g | g in counts :: Divide(corpus(field, g) as real, corpusTotal(field) as real))
  }

  /** Whenever there is at least one gram, the document frequencies sum to 1 and the
      counts to the number of grams. */
  lemma GramStatsTotals(grams: seq<string>, field: string, corpus: (string, string) -> int,
                        corpusTotal: string -> int)
    ensures SumOfValues(AsReals(GramStats(grams, field, corpus, corpusTotal).docTermCounts)) == |grams| as real
    ensures |grams| > 0 ==>
              SumOfValues(FiniteParts(GramStats(grams, field, corpus, corpusTotal).docTermFreqs)) == 1.0
  {
    CountMapTotal(grams);
    if |grams| > 0 {
      FrequenciesSumToOne(grams);
    }
  }

  /** `getUnigramStats`: the tokens counted, each token's share of the text, and
      its share of the corpus field `unigram`. */
  ghost function UnigramStats(terms: seq<string>, corpus: (string, string) -> int, corpusTotal: string -> int): (s: LanguageStats)
    ensures s.docTermCounts.Keys == set t | t in terms
    ensures forall t | t in s.docTermCounts :: s.docTermCounts[t] == multiset(terms)[t]
    ensures forall t | t in s.corpusTermFreqs ::
              s.corpusTermFreqs[t] == Divide(corpus("unigram", t) as real, corpusTotal("unigram") as real)
  {
    GramStats(terms, "unigram", corpus, corpusTotal)
  }

  /** `getBigramStats`: the adjacent bigrams counted, each one's share of the text,
      and its share of the corpus field `bigrams`. */
  ghost function BigramStats(terms: seq<string>, corpus: (string, string) -> int, corpusTotal: string -> int): (s: LanguageStats)
    ensures forall g :: g in s.docTermCounts <==> Adjacent(terms, g)
    ensures forall g | g in s.corpusTermFreqs ::
              s.corpusTermFreqs[g] == Divide(corpus("bigrams", g) as real, corpusTotal("bigrams") as real)
  {
    assert forall g :: g in Bigrams(terms) <==> Adjacent(terms, g) by {
      forall g ensures g in Bigrams(terms) <==> Adjacent(terms, g) {
        BigramMembership(terms, g);
      }
    }
    GramStats(Bigrams(terms), "bigrams", corpus, corpusTotal)
  }

  /** `getWindowedBigramStats`: the windowed pairs counted, each one's share of the
      text, and its share of the corpus field `bigram_windows`. */
  ghost function WindowedBigramStats(terms: seq<string>, corpus: (string, string) -> int, corpusTotal: string -> int): (s: LanguageStats)
    ensures forall g :: g in s.docTermCounts <==> WithinWindow(terms, 0, g)
    ensures forall g | g in s.corpusTermFreqs ::
              s.corpusTermFreqs[g] == Divide(corpus("bigram_windows", g) as real, corpusTotal("bigram_windows") as real)
  {
    assert forall g :: g in WindowedBigrams(terms, 0) <==> WithinWindow(terms, 0, g) by {
      forall g ensures g in WindowedBigrams(terms, 0) <==> WithinWindow(terms, 0, g) {
        WindowedBigramsShape(terms, 0, g);
      }
    }
    GramStats(WindowedBigrams(terms, 0), "bigram_windows", corpus, corpusTotal)
  }

  /** `getStats(text, statType)`. */
  ghost function GetStats(terms: seq<string>, statType: GramStatType, corpus: (string, string) -> int,
                          corpusTotal: string -> int): (s: LanguageStats)
    ensures s.docTermFreqs.Keys == s.docTermCounts.Keys && s.corpusTermFreqs.Keys == s.docTermCounts.Keys
  {
    match statType
    case TypeUnigram => UnigramStats(terms, corpus, corpusTotal)
    case TypeBigram => BigramStats(terms, corpus, corpusTotal)
    case TypeBigramWindow => WindowedBigramStats(terms, corpus, corpusTotal)
  }

  /** Unigram counts add up to the number of tokens, and each frequency is the
      token's count over the number of tokens. */
  lemma UnigramCounts(terms: seq<string>, corpus: (string, string) -> int, corpusTotal: string -> int)
    ensures var s := UnigramStats(terms, corpus, corpusTotal);
      SumOfValues(AsReals(s.docTermCounts)) == |terms| as real &&
      forall t | t in s.docTermFreqs :: s.docTermFreqs[t] == Finite(multiset(terms)[t] as real / |terms| as real)
  {
    var s := UnigramStats(terms, corpus, corpusTotal);
    assert s == GramStats(terms, "unigram", corpus, corpusTotal);
    GramStatsTotals(terms, "unigram", corpus, corpusTotal);
  }

  /** Bigram counts add up to `max(0, n - 1)`, and every key is two consecutive
      tokens glued together. */
  lemma BigramCounts(terms: seq<string>, corpus: (string, string) -> int, corpusTotal: string -> int)
    ensures var s := BigramStats(terms, corpus, corpusTotal);
      SumOfValues(AsReals(s.docTermCounts)) == (if |terms| == 0 then 0 else |terms| - 1) as real &&
      forall g | g in s.docTermCounts :: exists i :: 0 <= i < |terms| - 1 && g == terms[i] + terms[i + 1]
  {
    var grams := Bigrams(terms);
    GramStatsTotals(grams, "bigrams", corpus, corpusTotal);
    forall g | g in BigramStats(terms, corpus, corpusTotal).docTermCounts
      ensures exists i :: 0 <= i < |terms| - 1 && g == terms[i] + terms[i + 1]
    {
      BigramShape(terms, g);
    }
  }

  lemma BigramShape(terms: seq<string>, g: string)
    requires g in Bigrams(terms)
    ensures exists i :: 0 <= i < |terms| - 1 && g == terms[i] + terms[i + 1]
  {
    var grams := Bigrams(terms);
    var i :| 0 <= i < |grams| && grams[i] == g;
    assert g == terms[i] + terms[i + 1];
  }

  /** A string is a bigram exactly when it is two consecutive tokens glued together. */
  lemma BigramMembership(terms: seq<string>, g: string)
    ensures g in Bigrams(terms) <==> Adjacent(terms, g)
  {
    if g in Bigrams(terms) {
      BigramShape(terms, g);
    }
    if exists i :: 0 <= i < |terms| - 1 && g == terms[i] + terms[i + 1] {
      var i :| 0 <= i < |terms| - 1 && g == terms[i] + terms[i + 1];
      assert Bigrams(terms)[i] == g;
    }
  }

  /** Windowed-bigram counts add up to `Σᵢ min(7, n - 1 - i)`, and every key pairs a
      token with one of the seven after it. */
  lemma WindowedBigramCounts(terms: seq<string>, corpus: (string, string) -> int, corpusTotal: string -> int)
    ensures var s := WindowedBigramStats(terms, corpus, corpusTotal);
      SumOfValues(AsReals(s.docTermCounts)) == WindowTotal(|terms|, 0) as real &&
      forall g | g in s.docTermCounts ::
        exists a, b :: 0 <= a < b < |terms| && b <= a + 7 && g == terms[a] + terms[b]
  {
    var grams := WindowedBigrams(terms, 0);
    var s := WindowedBigramStats(terms, corpus, corpusTotal);
    assert s == GramStats(grams, "bigram_windows", corpus, corpusTotal);
    assert SumOfValues(AsReals(s.docTermCounts)) == WindowTotal(|terms|, 0) as real by {
      GramStatsTotals(grams, "bigram_windows", corpus, corpusTotal);
      WindowedBigramsCount(terms, 0);
    }
    assert s.docTermCounts.Keys == set g | g in grams;
    forall g | g in s.docTermCounts
      ensures exists a, b :: 0 <= a < b < |terms| && b <= a + 7 && g == terms[a] + terms[b]
    {
      WindowedBigramsShape(terms, 0, g);
    }
  }
}
