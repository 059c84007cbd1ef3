# Sheaf topic trees, n-gram statistics and anchor-text links

This project is a Dafny model of three Kotlin components of a paragraph-retrieval
system, with proofs about that model.

- **`KotlinMetaKernelAnalyzer`** builds a *sheaf*: a tree of topic partitions.
  - Each node has a name, a list of text partitions, a `kld` scalar, a `cover`
    link to its parent, and a `measure` table from child name to (child, weight).
  - `descend` grows the tree one level per descent step. It names the partitions
    `"<name>_<i>"` and averages three fits position by position. It keeps the
    partitions whose averaged weight is positive, and recurses with the rest of
    the steps.
  - Inference is pure recursion over the finished tree:
    - `measurePartitions` and `transferDown`, which applies a sparsity threshold;
    - `retrieveLayer`;
    - `ascend` and `transferMeasure`;
    - `evaluateMeasure` and `inferMetric`, which score one layer of every loaded
      tree against a text.
  - The same file holds the text kernels:
    - the sentence and word splitters;
    - the bigram, letter-window and single-letter frequency maps;
    - the three word-pair similarity reductions behind `bindSims`.
- **`KotlinGramAnalyzer`** computes counts and relative frequencies of unigrams,
  adjacent bigrams and windowed bigrams, and the smoothing of `LanguageStats`.
- **`KotlinHyperlinkIndexer`** keeps a table. It counts how often an anchor text
  links to an entity, and keeps the set of anchor texts seen. Queries ask for the
  most popular entity of an anchor, the closest known mention, and the likelihood
  of an entity given a mention.

Structure of the model:

- **Modules.** There is one module per concern:
  - `Wrappers`: `Option`, and `Outcome` for a result or the exception thrown;
  - `Numeric`: Kotlin `Double`, with its NaN and infinities;
  - `MapSums` and `Counting`: `groupingBy`/`eachCount`/`normalize`;
  - `TextKernels` and `Similarity`;
  - `Sheaves`: the tree as a value, with inference;
  - `SheafDescent`: the growth of the tree, as a function;
  - `SheafNodes`: the tree as heap nodes that `descend` updates in place;
  - `MetaKernelAnalyzer`, `GramAnalyzer` and `Hyperlinks`.
- **Imperative parts.** Where the source changes state, the model is a class:
  - `SheafNode`, whose `measure` rows are rewritten by `descend`;
  - `KernelAnalyzer`, whose `sheaves` list `loadSheaves` appends to;
  - `HyperlinkIndexer`, whose link table and mention set `addLink` updates.

  Each method is proved against the pure function that specifies it.
- **Numbers.** Kotlin doubles are modelled as `real`. The non-finite results that
  the code relies on are explicit, as `Double.NaN` and the infinities.
- **Parameters.** Every library or helper the model cannot see is a function
  parameter:
  - the Lucene tokenizer and the corpus-frequency lookups;
  - the Levenshtein and Jaccard distances;
  - the weight fitter behind `doPerturb`;
  - the Gaussian draws of `perturb`.
- **Hash-map iteration order.** Hash maps that are iterated are association lists.
  Their order stands for the iteration order, which the model does not fix.

## Model

| member | source | states |
|---|---|---|
| Numeric.Divide | src/main/kotlin/edu/unh/cs980/context/KotlinHyperlinkIndexer.kt:98 | double division: finite exactly when the divisor is non-zero, and then quotient times divisor is the dividend; 0/0 is NaN |
| Numeric.Sum | src/main/kotlin/edu/unh/cs980/language/KotlinMetaKernelAnalyzer.kt:305 | `sum()` of doubles is finite exactly when every term is, and is then the real sum of the terms |
| Numeric.Average | src/main/kotlin/edu/unh/cs980/language/KotlinMetaKernelAnalyzer.kt:100 | `average()` is finite exactly when the list is non-empty and all finite (an empty list gives NaN), and is then the sum over the size |
| MapSums.Normalize | src/main/kotlin/edu/unh/cs980/language/KotlinMetaKernelAnalyzer.kt:43 | `normalize()` keeps the keys, divides every value by the total, and the results sum to 1 whenever the total is non-zero |
| Counting.CountMap | src/main/kotlin/edu/unh/cs980/language/KotlinMetaKernelAnalyzer.kt:146-147 | `groupingBy(::identity).eachCount()`: the keys are exactly the elements, each mapped to its multiplicity (at least 1) |
| Counting.CountMapTotal | src/main/kotlin/edu/unh/cs980/language/KotlinGramAnalyzer.kt:54-56 | the counts of `eachCount` sum to the length of the list |
| Counting.Frequencies | src/main/kotlin/edu/unh/cs980/language/KotlinMetaKernelAnalyzer.kt:144-148 | `eachCount().normalize()`: every element maps to its multiplicity over the length |
| Counting.FrequenciesSumToOne | src/main/kotlin/edu/unh/cs980/language/KotlinMetaKernelAnalyzer.kt:144-148 | the frequencies of a non-empty list sum to 1 |
| Counting.ToMap | src/main/kotlin/edu/unh/cs980/language/KotlinMetaKernelAnalyzer.kt:288 | `toMap()` has exactly the first components of the pairs as keys |
| Counting.ToMapLast | src/main/kotlin/edu/unh/cs980/language/KotlinMetaKernelAnalyzer.kt:288 | in `toMap()` the last pair with a given key wins |
| TextKernels.LowerCase | src/main/kotlin/edu/unh/cs980/language/KotlinMetaKernelAnalyzer.kt:331 | `toLowerCase()` keeps the length and lowers each character in place |
| TextKernels.LowerCaseIdempotent | src/main/kotlin/edu/unh/cs980/language/KotlinMetaKernelAnalyzer.kt:331 | lower-casing a lower-cased text changes nothing |
| TextKernels.Reverse | src/main/kotlin/edu/unh/cs980/language/KotlinMetaKernelAnalyzer.kt:179 | `reversed()` keeps the length and mirrors the positions |
| TextKernels.ReverseReverse | src/main/kotlin/edu/unh/cs980/language/KotlinMetaKernelAnalyzer.kt:179 | reversing twice gives back the window |
| TextKernels.Split | src/main/kotlin/edu/unh/cs980/language/KotlinMetaKernelAnalyzer.kt:158 | `split` yields at least one piece, no piece holds the delimiter, and joining the pieces with the delimiter gives back the text |
| TextKernels.SplitJoin | src/main/kotlin/edu/unh/cs980/language/KotlinMetaKernelAnalyzer.kt:158 | splitting the join of delimiter-free pieces gives back those pieces, so the split is the unique such decomposition |
| TextKernels.LongPiecesCount | src/main/kotlin/edu/unh/cs980/language/KotlinMetaKernelAnalyzer.kt:159 | `filter { it.length > 2 }` keeps every piece longer than 2 as often as it occurs and drops every other |
| TextKernels.LongPiecesAppend | src/main/kotlin/edu/unh/cs980/language/KotlinMetaKernelAnalyzer.kt:159 | the filter distributes over concatenation, so it keeps the source order |
| TextKernels.SplitSentence | src/main/kotlin/edu/unh/cs980/language/KotlinMetaKernelAnalyzer.kt:158-159 | `splitSentence`: every piece is longer than 2 and has no `'.'`, and the pieces are exactly the long pieces of the split |
| TextKernels.Distinct | src/main/kotlin/edu/unh/cs980/language/KotlinMetaKernelAnalyzer.kt:164-165 | `toSet().toList()`: the same members, no duplicates, in first-occurrence order |
| TextKernels.SplitWord | src/main/kotlin/edu/unh/cs980/language/KotlinMetaKernelAnalyzer.kt:161-166 | `splitWord`: pieces longer than 2 with no space, exactly the long pieces of the split on `' '`, without duplicates |
| TextKernels.UnderscoredInjective | src/main/kotlin/edu/unh/cs980/language/KotlinMetaKernelAnalyzer.kt:153 | `"${a}_$b"` determines `a` and `b` when neither holds `'_'` |
| TextKernels.BigramKeys | src/main/kotlin/edu/unh/cs980/language/KotlinMetaKernelAnalyzer.kt:151-153 | two keys per adjacent token pair, in order: positions `2i` and `2i+1` hold `t[i]_t[i+1]` and `t[i+1]_t[i]`, `2(n-1)` keys for `n >= 2` tokens and none otherwise |
| TextKernels.BigramKeysMembership | src/main/kotlin/edu/unh/cs980/language/KotlinMetaKernelAnalyzer.kt:151-153 | a string is a bigram key exactly when it is `x_y` or `y_x` for two neighbouring tokens `x`, `y` |
| TextKernels.BigramCountSymmetric | src/main/kotlin/edu/unh/cs980/language/KotlinMetaKernelAnalyzer.kt:150-154 | before normalising, `"a_b"` is counted exactly as often as `"b_a"` for words without `'_'` |
| TextKernels.BigramFrequency | src/main/kotlin/edu/unh/cs980/language/KotlinMetaKernelAnalyzer.kt:150-156 | `bigramFrequency`: the keys are the bigram keys, each with its count over the number of keys; for underscore-free words `"a_b"` is a key exactly when `"b_a"` is, with the same frequency |
| TextKernels.BigramFrequencyKeys | src/main/kotlin/edu/unh/cs980/language/KotlinMetaKernelAnalyzer.kt:150-156 | the keys of `bigramFrequency` are exactly `x_y` and `y_x` for the neighbouring tokens `x`, `y` |
| TextKernels.BigramFrequencySumsToOne | src/main/kotlin/edu/unh/cs980/language/KotlinMetaKernelAnalyzer.kt:150-156 | with at least two tokens the bigram frequencies sum to 1 |
| TextKernels.BigramSymmetryNeedsUnderscoreFreeWords | src/main/kotlin/edu/unh/cs980/language/KotlinMetaKernelAnalyzer.kt:153 | with tokens `p_q` and `r` the key `p_q_r` has no mirror under the reading (`p`, `q_r`): the symmetry needs words without `'_'` |
| TextKernels.Windows | src/main/kotlin/edu/unh/cs980/language/KotlinMetaKernelAnalyzer.kt:171 | `windowed(size, partialWindows)`: one window per start position (only the full ones unless partial), each the substring from there of at most `size` characters |
| TextKernels.LetterWindows | src/main/kotlin/edu/unh/cs980/language/KotlinMetaKernelAnalyzer.kt:171 | every window of every token is non-empty, at most `size` long, and exactly `size` long without partial windows |
| TextKernels.LetterWindowsMembership | src/main/kotlin/edu/unh/cs980/language/KotlinMetaKernelAnalyzer.kt:171 | the `flatMap` holds exactly the windows of the tokens: a string is in it if and only if it is a window of some token |
| TextKernels.LetterFreq | src/main/kotlin/edu/unh/cs980/language/KotlinMetaKernelAnalyzer.kt:169-174 | `letterFreq` throws `IllegalArgumentException` exactly when the size is not positive and there is a token to window; otherwise its keys are the letter windows, each with its count over the number of windows, and of the right length |
| TextKernels.LetterFreqKeys | src/main/kotlin/edu/unh/cs980/language/KotlinMetaKernelAnalyzer.kt:169-174 | for a positive size the keys of `letterFreq` are exactly the windows of the tokens |
| TextKernels.LetterFreqSumsToOne | src/main/kotlin/edu/unh/cs980/language/KotlinMetaKernelAnalyzer.kt:169-174 | once some token has a window, the `letterFreq` frequencies sum to 1 |
| TextKernels.WithReversalsSymmetric | src/main/kotlin/edu/unh/cs980/language/KotlinMetaKernelAnalyzer.kt:179 | listing each window with its reversal counts every string as often as its reverse |
| TextKernels.ReversibleLetterWindowsSymmetric | src/main/kotlin/edu/unh/cs980/language/KotlinMetaKernelAnalyzer.kt:177-179 | before normalising, every window of `letterFreq2` has the same count as its reverse |
| TextKernels.WithReversalsMembership | src/main/kotlin/edu/unh/cs980/language/KotlinMetaKernelAnalyzer.kt:179 | a string is among the windows listed with their reversals exactly when it or its reverse is a window |
| TextKernels.ReversibleIsWithReversals | src/main/kotlin/edu/unh/cs980/language/KotlinMetaKernelAnalyzer.kt:177-179 | reversing token by token lists the same strings as listing all letter windows with their reversals |
| TextKernels.LetterFreq2 | src/main/kotlin/edu/unh/cs980/language/KotlinMetaKernelAnalyzer.kt:176-181 | `letterFreq2` throws exactly as `letterFreq` does; otherwise its keys are the windows and their reversals, each with its count over their number, and a window and its reverse have equal frequency |
| TextKernels.LetterFreq2Keys | src/main/kotlin/edu/unh/cs980/language/KotlinMetaKernelAnalyzer.kt:176-181 | for a positive size a string is a key of `letterFreq2` exactly when it or its reverse is a window of some token |
| TextKernels.LetterFreq2SumsToOne | src/main/kotlin/edu/unh/cs980/language/KotlinMetaKernelAnalyzer.kt:176-181 | once some token has a window, the `letterFreq2` frequencies sum to 1 |
| TextKernels.Letters | src/main/kotlin/edu/unh/cs980/language/KotlinMetaKernelAnalyzer.kt:186 | `map(Char::toString)`: one one-letter string per character, in order |
| TextKernels.LettersCount | src/main/kotlin/edu/unh/cs980/language/KotlinMetaKernelAnalyzer.kt:186-187 | the one-letter string of `c` occurs as often as `c` does in the text |
| TextKernels.SingleLetterFreq | src/main/kotlin/edu/unh/cs980/language/KotlinMetaKernelAnalyzer.kt:185-189 | `singleLetterFreq`: the keys are the text's characters, each with its count over the text length |
| TextKernels.UnigramFreq | src/main/kotlin/edu/unh/cs980/language/KotlinMetaKernelAnalyzer.kt:144-148 | `unigramFreq` on the token list: the keys are the tokens, each with its count over the number of tokens, and the shares of a non-empty list sum to 1 |
| Similarity.AverageSim | src/main/kotlin/edu/unh/cs980/language/KotlinMetaKernelAnalyzer.kt:294-295 | `averageSim` is 1.0 exactly when `1 - distance >= 0.8` and 0.0 otherwise |
| Similarity.Row | src/main/kotlin/edu/unh/cs980/language/KotlinMetaKernelAnalyzer.kt:300 | one verdict of a word against each word of the other list, in order |
| Similarity.PairSims | src/main/kotlin/edu/unh/cs980/language/KotlinMetaKernelAnalyzer.kt:303 | the `flatMap` of verdicts has `|w1|*|w2|` entries, each 0 or 1, and holds a 1 exactly when some pair of words is similar |
| Similarity.VerdictSum | src/main/kotlin/edu/unh/cs980/language/KotlinMetaKernelAnalyzer.kt:308 | a sum of 0/1 verdicts is a whole number between 0 and the count, and is 0 exactly when every verdict is 0 |
| Similarity.MaxOf | src/main/kotlin/edu/unh/cs980/language/KotlinMetaKernelAnalyzer.kt:300 | `max()!!` of a non-empty list is an element of it and bounds every element |
| Similarity.RowMax | src/main/kotlin/edu/unh/cs980/language/KotlinMetaKernelAnalyzer.kt:300 | the inner maximum is 1 exactly when the word is similar to some word of the other list, else 0 |
| Similarity.ProductMaxMax | src/main/kotlin/edu/unh/cs980/language/KotlinMetaKernelAnalyzer.kt:299-300 | `productMaxMax` throws (`max()!!` on an empty list) exactly when a list is empty; otherwise it is 1 exactly when some pair is similar, else 0 |
| Similarity.ProductMaxAverage | src/main/kotlin/edu/unh/cs980/language/KotlinMetaKernelAnalyzer.kt:302-310 | `productMaxAverage` is the number of similar pairs `(i, j)` of positions: hence a whole number in `[0, |w1|*|w2|]`, 0 exactly when no pair is similar |
| Similarity.RowSum | src/main/kotlin/edu/unh/cs980/language/KotlinMetaKernelAnalyzer.kt:303 | one word's verdicts add up to the number of words of the other list similar to it |
| Similarity.SimilarPairsSplit | src/main/kotlin/edu/unh/cs980/language/KotlinMetaKernelAnalyzer.kt:303 | the similar pairs are those of the first word together with those of the remaining words one row down, and the two parts are disjoint |
| Similarity.SimilarPairsCount | src/main/kotlin/edu/unh/cs980/language/KotlinMetaKernelAnalyzer.kt:303 | the similar pairs number those of the first word plus those of the remaining words |
| Similarity.PairSimsCount | src/main/kotlin/edu/unh/cs980/language/KotlinMetaKernelAnalyzer.kt:303-308 | the verdicts over all pairs add up to the number of similar pairs |
| Similarity.ProductAverage | src/main/kotlin/edu/unh/cs980/language/KotlinMetaKernelAnalyzer.kt:312-313 | `productAverage` is NaN exactly when a list is empty; otherwise it is the share of similar pairs, in `[0, 1]` |
| Similarity.AverageOfVerdicts | src/main/kotlin/edu/unh/cs980/language/KotlinMetaKernelAnalyzer.kt:313 | the average of 0/1 verdicts is finite exactly for a non-empty list, and then lies in `[0, 1]` |
| Similarity.Reduce | src/main/kotlin/edu/unh/cs980/language/KotlinMetaKernelAnalyzer.kt:319-323 | the `when` on the reduction method: only max-max throws, only average can be NaN, and a finite score is non-negative and 0 exactly when no pair is similar |
| Similarity.BindSims | src/main/kotlin/edu/unh/cs980/language/KotlinMetaKernelAnalyzer.kt:315-325 | the bound measure throws on another text exactly when the method is max-max and either filtered word list is empty |
| Similarity.FilterWordsIgnoresCase | src/main/kotlin/edu/unh/cs980/language/KotlinMetaKernelAnalyzer.kt:330-332 | `filterWords` tokenizes the lower-cased text, so a text and its lower-cased form give the same words |
| Sheaves.Lookup | src/main/kotlin/edu/unh/cs980/language/KotlinMetaKernelAnalyzer.kt:95 | `measure[datumName]` is missing exactly when no entry has that key, and a found entry carries the key |
| Sheaves.IndexOf | src/main/kotlin/edu/unh/cs980/language/KotlinMetaKernelAnalyzer.kt:64 | the position of a key is its first occurrence, or none when the key is absent |
| Sheaves.Put | src/main/kotlin/edu/unh/cs980/language/KotlinMetaKernelAnalyzer.kt:64 | `measure[key] = …` makes the key read back the new entry, leaves every other key's lookup unchanged, and keeps the keys distinct |
| Sheaves.PutLookup | src/main/kotlin/edu/unh/cs980/language/KotlinMetaKernelAnalyzer.kt:64 | overwriting the first entry with a key reads back the new entry and changes no other lookup |
| Sheaves.AppendLookup | src/main/kotlin/edu/unh/cs980/language/KotlinMetaKernelAnalyzer.kt:64 | appending an entry for a new key reads back the new entry and changes no other lookup |
| Sheaves.SimAll | src/main/kotlin/edu/unh/cs980/language/KotlinMetaKernelAnalyzer.kt:100 | `partitions.map(simFun)` throws exactly when the measure throws on some partition, and otherwise is that measure, partition by partition |
| Sheaves.MeasurePartitions | src/main/kotlin/edu/unh/cs980/language/KotlinMetaKernelAnalyzer.kt:99-100 | `measurePartitions` is the average similarity of the partitions, or 0.0 when there are none or a score is not finite (the NaN average defaulted) |
| Sheaves.Threshold | src/main/kotlin/edu/unh/cs980/language/KotlinMetaKernelAnalyzer.kt:111 | the threshold `1/max(1, |partitions|)` lies in `(0, 1]` |
| Sheaves.TransferDown | src/main/kotlin/edu/unh/cs980/language/KotlinMetaKernelAnalyzer.kt:102-114 | at depth 0 `transferDown` is `measurePartitions`; at any other depth it is exactly 0.0 or at least the threshold |
| Sheaves.TransferDownChildless | src/main/kotlin/edu/unh/cs980/language/KotlinMetaKernelAnalyzer.kt:106-111 | a node without children scores 0.0 at every non-zero depth |
| Sheaves.TransferDownNegative | src/main/kotlin/edu/unh/cs980/language/KotlinMetaKernelAnalyzer.kt:102-111 | a negative depth never reaches the depth-0 case, and the score is 0.0 |
| Sheaves.TransferDownNonNegative | src/main/kotlin/edu/unh/cs980/language/KotlinMetaKernelAnalyzer.kt:106-111 | with non-negative weights and a non-negative measure every score is non-negative |
| Sheaves.RetrieveLayer | src/main/kotlin/edu/unh/cs980/language/KotlinMetaKernelAnalyzer.kt:117-119 | `retrieveLayer(0)` is the node itself, and a childless node yields no node at any other depth |
| Sheaves.RetrieveLayerAtDepth | src/main/kotlin/edu/unh/cs980/language/KotlinMetaKernelAnalyzer.kt:117-119 | a node is in `retrieveLayer(d)` exactly when it lies `d` levels below |
| Sheaves.LayerOfAtDepth | src/main/kotlin/edu/unh/cs980/language/KotlinMetaKernelAnalyzer.kt:119 | the `flatMap` over the children holds exactly the nodes `d` levels below one of them |
| Sheaves.StepsStoredStep | src/main/kotlin/edu/unh/cs980/language/KotlinMetaKernelAnalyzer.kt:95-96 | a path of covers stores every step exactly when the first cover stores the node and the rest of the path stores every step |
| Sheaves.UpWeightsStep | src/main/kotlin/edu/unh/cs980/language/KotlinMetaKernelAnalyzer.kt:95-96 | the weights met going up start with the first cover's weight for the node |
| Sheaves.Ascend | src/main/kotlin/edu/unh/cs980/language/KotlinMetaKernelAnalyzer.kt:94-97 | `ascend` throws only a null-pointer failure (`measure[datumName]!!`), and on success returns the name of the root of the path |
| Sheaves.AscendSucceeds | src/main/kotlin/edu/unh/cs980/language/KotlinMetaKernelAnalyzer.kt:95-96 | `ascend` succeeds exactly when every node on the way up has the name below it as a key of its `measure` |
| Sheaves.LinkedStep | src/main/kotlin/edu/unh/cs980/language/KotlinMetaKernelAnalyzer.kt:95-96 | a path is linked exactly when its first node stores the datum and the rest is linked from that node's name |
| Sheaves.PathProductStep | src/main/kotlin/edu/unh/cs980/language/KotlinMetaKernelAnalyzer.kt:95-96 | the product of weights along a path is the first stored weight times the product along the rest |
| Sheaves.AscendScales | src/main/kotlin/edu/unh/cs980/language/KotlinMetaKernelAnalyzer.kt:95-96 | the value `ascend` returns is the starting measure times the product of the stored weights along the path to the root |
| Sheaves.TransferMeasure | src/main/kotlin/edu/unh/cs980/language/KotlinMetaKernelAnalyzer.kt:88-92 | `transferMeasure` throws if the measure throws or there is no cover (`cover!!`); on success it returns the root's name and the averaged measure times the path product |
| Sheaves.Perturb | src/main/kotlin/edu/unh/cs980/language/KotlinMetaKernelAnalyzer.kt:122-133 | `perturb` throws an `IllegalArgumentException` (`sample(0)`) exactly when the distribution is empty and a sample is asked for; otherwise it returns the kernel names in order and `max(0, nSamples)` samples, each as long as the map and summing to 1 whenever its noisy total is non-zero |
| Sheaves.NormalizeListSumsToOne | src/main/kotlin/edu/unh/cs980/language/KotlinMetaKernelAnalyzer.kt:130 | a list with a non-zero total normalises to finite values summing to 1 |
| SheafDescent.NatToString | src/main/kotlin/edu/unh/cs980/language/KotlinMetaKernelAnalyzer.kt:37 | the decimal rendering of an index has at least one digit, and at least two from 10 on |
| SheafDescent.NatToStringInjective | src/main/kotlin/edu/unh/cs980/language/KotlinMetaKernelAnalyzer.kt:37 | distinct indices render as distinct decimal strings |
| SheafDescent.PartitionNameInjective | src/main/kotlin/edu/unh/cs980/language/KotlinMetaKernelAnalyzer.kt:37 | distinct partition indices give distinct names `"${name}_$index"` |
| SheafDescent.PartitionSims | src/main/kotlin/edu/unh/cs980/language/KotlinMetaKernelAnalyzer.kt:36-38 | one pair per partition, in order: its name `"<name>_<i>"` with the similarity map of its text |
| SheafDescent.PartitionTexts | src/main/kotlin/edu/unh/cs980/language/KotlinMetaKernelAnalyzer.kt:36-38 | one pair per partition, in order: its name with its text |
| SheafDescent.PartitionText | src/main/kotlin/edu/unh/cs980/language/KotlinMetaKernelAnalyzer.kt:52 | `partitionTextMap[sheafName]!!` for the name of partition `i` is that partition's text (names are distinct, so the lookup never fails) |
| SheafDescent.MergedSims | src/main/kotlin/edu/unh/cs980/language/KotlinMetaKernelAnalyzer.kt:40-42 | the fold's keys are the union of the partitions' keys, each with the sum of its values across partitions |
| SheafDescent.CoveringSim | src/main/kotlin/edu/unh/cs980/language/KotlinMetaKernelAnalyzer.kt:40-43 | the covering similarity has the same keys and sums to 1 whenever the merged total is non-zero |
| SheafDescent.AddRun | src/main/kotlin/edu/unh/cs980/language/KotlinMetaKernelAnalyzer.kt:48 | the `zip` step is as long as the shorter list, keeps the accumulator's names and adds the weights position by position |
| SheafDescent.AverageFits | src/main/kotlin/edu/unh/cs980/language/KotlinMetaKernelAnalyzer.kt:46-49 | the three fits are averaged by position, keeping the first run's names, up to the length of the shortest |
| SheafDescent.NewChild | src/main/kotlin/edu/unh/cs980/language/KotlinMetaKernelAnalyzer.kt:62-64 | a new child is named `"<name>_<i>"`, inherits `kld`, has no children, and has the partitions `partitionFun` gives for its text (none without `partitionFun`) |
| SheafDescent.AddChildrenEntries | src/main/kotlin/edu/unh/cs980/language/KotlinMetaKernelAnalyzer.kt:58-65 | after the children are stored, every entry is an old one or the new child of a selected partition |
| SheafDescent.AddChildrenStores | src/main/kotlin/edu/unh/cs980/language/KotlinMetaKernelAnalyzer.kt:58-65 | every partition with a positive fitted weight is stored under its name as its new child |
| SheafDescent.AddChildrenKeeps | src/main/kotlin/edu/unh/cs980/language/KotlinMetaKernelAnalyzer.kt:58-65 | a key that no selected partition is named after keeps its old entry |
| SheafDescent.AddChildrenDistinct | src/main/kotlin/edu/unh/cs980/language/KotlinMetaKernelAnalyzer.kt:58-65 | storing the children keeps the keys of `measure` distinct |
| SheafDescent.Grow | src/main/kotlin/edu/unh/cs980/language/KotlinMetaKernelAnalyzer.kt:26-70 | descent never changes a node's name, partitions or `kld`, and changes nothing when the steps run out or the node has no partitions |
| SheafDescent.GrowEntries | src/main/kotlin/edu/unh/cs980/language/KotlinMetaKernelAnalyzer.kt:67-70 | the loop over `measure` grows every child with the remaining steps and keeps its key and weight |
| SheafDescent.Descend | src/main/kotlin/edu/unh/cs980/language/KotlinMetaKernelAnalyzer.kt:26-34 | with no steps `descend` is a no-op; it throws (`cover!!`) exactly at a root with no partitions and steps left; without partitions it changes nothing |
| SheafDescent.DescendChildren | src/main/kotlin/edu/unh/cs980/language/KotlinMetaKernelAnalyzer.kt:58-70 | after a descent every child is an old child grown, or a new one with key and name `"<name>_<i>"`, weight > 0, the parent's `kld` and the partitions of partition `i` |
| SheafDescent.DescendKeeps | src/main/kotlin/edu/unh/cs980/language/KotlinMetaKernelAnalyzer.kt:58-64 | every partition with a positive fitted weight ends up a child under its name, with that weight |
| SheafDescent.LevelWellFormed | src/main/kotlin/edu/unh/cs980/language/KotlinMetaKernelAnalyzer.kt:58-65 | one level keeps the tree well formed: distinct keys, each child named after its key, positive weights |
| SheafDescent.GrowWellFormed | src/main/kotlin/edu/unh/cs980/language/KotlinMetaKernelAnalyzer.kt:26-70 | a whole descent keeps the tree well formed |
| SheafNodes.PutRow | src/main/kotlin/edu/unh/cs980/language/KotlinMetaKernelAnalyzer.kt:64 | `measure[key] = …` on the node's rows: the row is replaced where the key stands, or appended, and no other row changes |
| SheafNodes.SheafNode.constructor | src/main/kotlin/edu/unh/cs980/language/KotlinMetaKernelAnalyzer.kt:23-24 | a new node has the given name, partitions, `kld` and cover, and an empty `measure` |
| SheafNodes.SheafNode.Descend | src/main/kotlin/edu/unh/cs980/language/KotlinMetaKernelAnalyzer.kt:26-72 | in place, the tree under the node becomes exactly the grown tree of `SheafDescent`; it fails exactly at a root with no partitions and steps left; every child's `cover` is the node |
| SheafNodes.SheafNode.StoreChildren | src/main/kotlin/edu/unh/cs980/language/KotlinMetaKernelAnalyzer.kt:58-65 | the loop that stores the children leaves `measure` equal to one level of `SheafDescent` |
| SheafNodes.SheafNode.StoreChild | src/main/kotlin/edu/unh/cs980/language/KotlinMetaKernelAnalyzer.kt:58-64 | one partition: stored under its name with its weight when selected, otherwise nothing changes |
| SheafNodes.SheafNode.AddRow | src/main/kotlin/edu/unh/cs980/language/KotlinMetaKernelAnalyzer.kt:64 | storing a fresh child with `cover = this` is a `Put` on the tree's entries and keeps the node structure valid |
| SheafNodes.SheafNode.DescendAll | src/main/kotlin/edu/unh/cs980/language/KotlinMetaKernelAnalyzer.kt:67-70 | after the loop every child has grown with the remaining steps, and the rows keep their keys and weights |
| SheafNodes.SheafNode.DescendChild | src/main/kotlin/edu/unh/cs980/language/KotlinMetaKernelAnalyzer.kt:68-69 | descending one child grows that child's tree and leaves every other child's tree as it was |
| MetaKernelAnalyzer.Chosen | src/main/kotlin/edu/unh/cs980/language/KotlinMetaKernelAnalyzer.kt:275 | the filter keeps exactly the trees of the wanted files: every kept tree comes from a wanted file and every wanted file's tree is kept |
| MetaKernelAnalyzer.ChosenAll | src/main/kotlin/edu/unh/cs980/language/KotlinMetaKernelAnalyzer.kt:275 | with no filter words every file is loaded, in directory order |
| MetaKernelAnalyzer.KernelAnalyzer.constructor | src/main/kotlin/edu/unh/cs980/language/KotlinMetaKernelAnalyzer.kt:140 | a new analyzer holds no sheaves |
| MetaKernelAnalyzer.KernelAnalyzer.LoadSheaves | src/main/kotlin/edu/unh/cs980/language/KotlinMetaKernelAnalyzer.kt:272-279 | `loadSheaves` returns the trees of the wanted files and appends exactly those to `sheaves`, in order |
| MetaKernelAnalyzer.KernelAnalyzer.ExtractSheaves | src/main/kotlin/edu/unh/cs980/language/KotlinMetaKernelAnalyzer.kt:231-232 | one pair per stored tree, in order, carrying the tree's name and its `retrieveLayer(level)`: exactly the nodes `level` steps below that root |
| MetaKernelAnalyzer.Concat | src/main/kotlin/edu/unh/cs980/language/KotlinMetaKernelAnalyzer.kt:192-193 | the `flatMap` over the layers holds exactly the nodes of some layer |
| MetaKernelAnalyzer.KernelAnalyzer.LayerNodesAtDepth | src/main/kotlin/edu/unh/cs980/language/KotlinMetaKernelAnalyzer.kt:191-195 | a node is scored exactly when it lies `startingLayer` levels below one of the stored roots |
| MetaKernelAnalyzer.Scores | src/main/kotlin/edu/unh/cs980/language/KotlinMetaKernelAnalyzer.kt:193-194 | one pair per node, in order, with its name and `transferDown` score; the list fails exactly when some score fails |
| MetaKernelAnalyzer.KernelAnalyzer.EvaluateMeasure | src/main/kotlin/edu/unh/cs980/language/KotlinMetaKernelAnalyzer.kt:191-195 | `evaluateMeasure` pairs each node of the starting layer with its `transferDown` score at the depth difference, and throws exactly when one of those throws |
| MetaKernelAnalyzer.KernelAnalyzer.EvaluateMeasureSparse | src/main/kotlin/edu/unh/cs980/language/KotlinMetaKernelAnalyzer.kt:191-195 | below the starting layer every score is 0.0 or at least the node's threshold; on the starting layer it is the node's `measurePartitions` |
| MetaKernelAnalyzer.KernelAnalyzer.EvaluateMeasureNonNegative | src/main/kotlin/edu/unh/cs980/language/KotlinMetaKernelAnalyzer.kt:191-195 | with non-negative weights and measure, every score is non-negative |
| MetaKernelAnalyzer.ScoreKeys | src/main/kotlin/edu/unh/cs980/language/KotlinMetaKernelAnalyzer.kt:288 | the keys of the score map are exactly the names of the scored nodes |
| MetaKernelAnalyzer.Mixture | src/main/kotlin/edu/unh/cs980/language/KotlinMetaKernelAnalyzer.kt:288-291 | the result has `kld` 0 and the score names as keys; raw scores when not normalising, normalised ones otherwise |
| MetaKernelAnalyzer.KernelAnalyzer.InferMetric | src/main/kotlin/edu/unh/cs980/language/KotlinMetaKernelAnalyzer.kt:282-292 | `inferMetric` throws exactly when `evaluateMeasure` does; its keys are the names of the starting layer and `kld` is 0 |
| MetaKernelAnalyzer.KernelAnalyzer.InferMetricValue | src/main/kotlin/edu/unh/cs980/language/KotlinMetaKernelAnalyzer.kt:286-289 | a node's reported value is its score (last node of a name wins), divided by the total of all scores when normalising |
| MetaKernelAnalyzer.KernelAnalyzer.InferMetricSumsToOne | src/main/kotlin/edu/unh/cs980/language/KotlinMetaKernelAnalyzer.kt:289 | normalised results sum to 1 whenever the scores' total is non-zero |
| GramAnalyzer.SmoothAsWritten | src/main/kotlin/edu/unh/cs980/language/KotlinGramAnalyzer.kt:20-23 | `smooth` as written keeps the keys of `docTermFreqs` and throws (`!!`) exactly when a document term has no corpus frequency |
| GramAnalyzer.SmoothAsWrittenNegative | src/main/kotlin/edu/unh/cs980/language/KotlinGramAnalyzer.kt:21 | as written, frequencies 0.2 and 0.4 smoothed with alpha 0.5 give -0.1 (the corrected form gives 0.3) |
| GramAnalyzer.Smooth | src/main/kotlin/edu/unh/cs980/language/KotlinGramAnalyzer.kt:20-23 | the corrected `smooth` has the same keys and the same failure |
| GramAnalyzer.SmoothOne | src/main/kotlin/edu/unh/cs980/language/KotlinGramAnalyzer.kt:21 | `smooth(1.0)`, as written and corrected, gives back `docTermFreqs` when the corpus frequencies are finite |
| GramAnalyzer.SmoothIsMixture | src/main/kotlin/edu/unh/cs980/language/KotlinGramAnalyzer.kt:21 | for `0 <= alpha <= 1` a corrected smoothed frequency lies between the document and the corpus frequency |
| GramAnalyzer.Bigrams | src/main/kotlin/edu/unh/cs980/language/KotlinGramAnalyzer.kt:48-49 | `windowed(2, 1)` joined with no separator: `n - 1` grams, the `i`-th gluing tokens `i` and `i + 1` |
| GramAnalyzer.BigramShape | src/main/kotlin/edu/unh/cs980/language/KotlinGramAnalyzer.kt:48-49 | every bigram is two consecutive tokens glued together |
| GramAnalyzer.BigramMembership | src/main/kotlin/edu/unh/cs980/language/KotlinGramAnalyzer.kt:48-49 | a string is a bigram of the text if and only if it is two consecutive tokens glued together |
| GramAnalyzer.WindowPairs | src/main/kotlin/edu/unh/cs980/language/KotlinGramAnalyzer.kt:76-81 | the window at token `i` pairs it with the next `min(7, n - 1 - i)` tokens, in order |
| GramAnalyzer.WindowedBigramsCount | src/main/kotlin/edu/unh/cs980/language/KotlinGramAnalyzer.kt:75-81 | there are `Σᵢ min(7, n - 1 - i)` windowed pairs |
| GramAnalyzer.WindowedBigramsShape | src/main/kotlin/edu/unh/cs980/language/KotlinGramAnalyzer.kt:75-81 | a string is a windowed pair exactly when it glues token `a` to a token at most seven places after it |
| GramAnalyzer.WindowedBigramsSound | src/main/kotlin/edu/unh/cs980/language/KotlinGramAnalyzer.kt:75-81 | every windowed pair glues a token to one at most seven places after it |
| GramAnalyzer.WindowedBigramsComplete | src/main/kotlin/edu/unh/cs980/language/KotlinGramAnalyzer.kt:75-81 | every such gluing of two tokens is a windowed pair |
| GramAnalyzer.GramStats | src/main/kotlin/edu/unh/cs980/language/KotlinGramAnalyzer.kt:107-127 | the stats of a gram list: counts are multiplicities, the three maps share one key set, document frequency is count over length, corpus frequency is the corpus count over the corpus total |
| GramAnalyzer.GramStatsTotals | src/main/kotlin/edu/unh/cs980/language/KotlinGramAnalyzer.kt:109-121 | the counts sum to the number of grams, and the document frequencies sum to 1 whenever there is a gram |
| GramAnalyzer.UnigramStats | src/main/kotlin/edu/unh/cs980/language/KotlinGramAnalyzer.kt:107-128 | `getUnigramStats`: the keys are the tokens, each counted by its multiplicity, with its share of the corpus field `unigram` |
| GramAnalyzer.BigramStats | src/main/kotlin/edu/unh/cs980/language/KotlinGramAnalyzer.kt:46-71 | `getBigramStats`: the keys are exactly the glued pairs of consecutive tokens, each with its share of the corpus field `bigrams` |
| GramAnalyzer.WindowedBigramStats | src/main/kotlin/edu/unh/cs980/language/KotlinGramAnalyzer.kt:73-105 | `getWindowedBigramStats`: the keys are exactly the tokens glued to a token at most seven places after them, each with its share of the corpus field `bigram_windows` |
| GramAnalyzer.GetStats | src/main/kotlin/edu/unh/cs980/language/KotlinGramAnalyzer.kt:130-136 | whichever statistic is asked for, `docTermFreqs` and `corpusTermFreqs` have exactly the keys of `docTermCounts` |
| GramAnalyzer.UnigramCounts | src/main/kotlin/edu/unh/cs980/language/KotlinGramAnalyzer.kt:107-121 | unigram counts sum to the token count, and each frequency is count over the token count |
| GramAnalyzer.BigramCounts | src/main/kotlin/edu/unh/cs980/language/KotlinGramAnalyzer.kt:46-56 | bigram counts sum to `max(0, n - 1)`, and every key is two consecutive tokens glued together |
| GramAnalyzer.WindowedBigramCounts | src/main/kotlin/edu/unh/cs980/language/KotlinGramAnalyzer.kt:73-89 | windowed counts sum to `Σᵢ min(7, n - 1 - i)`, and every key glues a token to one at most seven places after it |
| Hyperlinks.Clean | src/main/kotlin/edu/unh/cs980/context/KotlinHyperlinkIndexer.kt:103 | `clean` keeps the length, turns spaces into `'_'`, lowers capitals and keeps every other character; the result has no space and no capital |
| Hyperlinks.CleanIdempotent | src/main/kotlin/edu/unh/cs980/context/KotlinHyperlinkIndexer.kt:103 | cleaning twice is cleaning once |
| Hyperlinks.LinkCount | src/main/kotlin/edu/unh/cs980/context/KotlinHyperlinkIndexer.kt:49-50 | `map.get(…) ?: 0`: 0 for a pair never added, and with positive counts at least 1 exactly for stored pairs |
| Hyperlinks.Bump | src/main/kotlin/edu/unh/cs980/context/KotlinHyperlinkIndexer.kt:41 | `compute { value?.inc() ?: 1 }`: the pair's count goes up by one (to 1 when new), every other count is unchanged, and counts stay positive |
| Hyperlinks.BumpAll | src/main/kotlin/edu/unh/cs980/context/KotlinHyperlinkIndexer.kt:46-47 | the table after `addLinks` has the old keys and every pair of the list as keys |
| Hyperlinks.BumpAllCounts | src/main/kotlin/edu/unh/cs980/context/KotlinHyperlinkIndexer.kt:46-47 | after `addLinks` every pair's count has grown by its number of occurrences in the list |
| Hyperlinks.BumpAllPositive | src/main/kotlin/edu/unh/cs980/context/KotlinHyperlinkIndexer.kt:46-47 | `addLinks` keeps every stored count positive |
| Hyperlinks.PrefixStep | src/main/kotlin/edu/unh/cs980/context/KotlinHyperlinkIndexer.kt:46-47 | one more pair of the list is one more `addLink` and one more mention |
| Hyperlinks.Under | src/main/kotlin/edu/unh/cs980/context/KotlinHyperlinkIndexer.kt:57 | `prefixSubMap(arrayOf(anchor))` holds exactly the entities linked from the anchor, with their counts |
| Hyperlinks.CountBelowTotal | src/main/kotlin/edu/unh/cs980/context/KotlinHyperlinkIndexer.kt:59 | with positive counts, each count lies between 1 and the total |
| Hyperlinks.MostPopular | src/main/kotlin/edu/unh/cs980/context/KotlinHyperlinkIndexer.kt:61-64 | the first entry after `sortedByDescending { value }` has a maximal count, and is the least key among those with that count (the sort is stable over key order) |
| Hyperlinks.ClosestAsWritten | src/main/kotlin/edu/unh/cs980/context/KotlinHyperlinkIndexer.kt:71-81 | as written: a known mention is returned as is, an empty mention set throws, otherwise the mention at the LARGEST distance is returned when that distance exceeds 0.9, else none |
| Hyperlinks.Closest | src/main/kotlin/edu/unh/cs980/context/KotlinHyperlinkIndexer.kt:71-81 | corrected: the same, but the mention at the smallest distance is taken, and kept when its similarity `1 - distance` exceeds 0.9 |
| Hyperlinks.ClosestAsWrittenPicksFarthest | src/main/kotlin/edu/unh/cs980/context/KotlinHyperlinkIndexer.kt:76-79 | for "barack obama", with mentions at distance 0.05 and 0.95, the code as written returns the far one and the corrected form the near one |
| Hyperlinks.Likelihood | src/main/kotlin/edu/unh/cs980/context/KotlinHyperlinkIndexer.kt:94-98 | the pair's count over the anchor's total: finite and times the total equal to the count when the total is non-zero; with positive counts it is NaN exactly when the anchor has no links, and otherwise lies in `[0, 1]` |
| Hyperlinks.HyperlinkIndexer.constructor | src/main/kotlin/edu/unh/cs980/context/KotlinHyperlinkIndexer.kt:26-34 | a new indexer has an empty link table and an empty mention set |
| Hyperlinks.HyperlinkIndexer.GetLink | src/main/kotlin/edu/unh/cs980/context/KotlinHyperlinkIndexer.kt:49-50 | `getLink` reads the stored count, 0 for a pair never added, and is never negative |
| Hyperlinks.HyperlinkIndexer.HasEntityMention | src/main/kotlin/edu/unh/cs980/context/KotlinHyperlinkIndexer.kt:101 | `hasEntityMention` holds for every anchor text that links to some entity (the indexer's invariant: `addLink` records the mention with the link) |
| Hyperlinks.HyperlinkIndexer.AddLink | src/main/kotlin/edu/unh/cs980/context/KotlinHyperlinkIndexer.kt:40-43 | `addLink` bumps the pair's count, adds the anchor to the mention set, and afterwards `hasEntityMention(anchor)` holds |
| Hyperlinks.HyperlinkIndexer.AddLinks | src/main/kotlin/edu/unh/cs980/context/KotlinHyperlinkIndexer.kt:46-47 | after `addLinks` every `getLink` has grown by the pair's number of occurrences in the list, and every anchor of the list is a mention |
| Hyperlinks.HyperlinkIndexer.GetPopular | src/main/kotlin/edu/unh/cs980/context/KotlinHyperlinkIndexer.kt:55-68 | `getPopular` throws (`first()` on nothing) exactly when the cleaned anchor has no links; otherwise it returns an entity of maximal count and its count over the total, in `(0, 1]` |
| Hyperlinks.HyperlinkIndexer.GetMentionLikelihood | src/main/kotlin/edu/unh/cs980/context/KotlinHyperlinkIndexer.kt:86-99 | as written: it throws exactly when the text is unknown and there are no mentions; a known text is its own mention; otherwise 0.0 when every mention lies within distance 0.9, else the likelihood of the cleaned entity under a cleaned mention FARTHEST from the text; a finite value lies in `[0, 1]` |
| Hyperlinks.HyperlinkIndexer.GetMentionLikelihoodIntended | src/main/kotlin/edu/unh/cs980/context/KotlinHyperlinkIndexer.kt:86-99 | over the corrected mention search: the same failure and known-text cases; otherwise 0.0 when no mention has similarity `1 - distance` above 0.9, else the likelihood under a NEAREST mention, which has that similarity; a finite value lies in `[0, 1]` |

## Left out

- File I/O and serialization are not modelled:
  - `trainParagraph`, `trainParagraphs` and `extractTopicText` read directories, and `trainParagraph` writes object streams;
  - `loadSheaves` reads each tree from an object stream. `LoadSheaves` takes the directory's files as a list of (file name, tree) pairs.
- `println` diagnostics and `TopicMixtureResult.reportResults` produce output only. They are left out.
- `doPerturb` is not modelled. It depends on a Gaussian sampler, `KotlinStochasticIntegrator` and `GradientDescenter`, which are not part of this model. The three fits of `descend` come from a fitter parameter `fit(run, name, partitionSims)`, called once per run number 0, 1 and 2.
- `SheafDescent.Descend` and `SheafNodes.SheafNode.Descend` assume the fitter never throws. In the source it can throw in two ways:
  - `doPerturb` calls `perturb(100, coveringSim)`, which throws through `sample(0)` when every partition's similarity map is empty. This is the failure `Sheaves.Perturb` models.
  - `integrals.find { it.first == name }!!` throws when the integrator returns no entry for the node.
  So their promise that descent fails exactly at a root without partitions holds only for a fitter that does not throw.
- `perturb` draws Gaussian noise with mean 1.0 and deviation 0.001. The draws are a parameter `gaussian(sample, index)`, so `Sheaves.Perturb` states the shape of the result and its normalisation, not the distribution.
- The Lucene analyzers are not modelled. `createTokenList`, `createTokenSequence` and the `filterWords` tokenizer are a `tokenize` parameter, or a list of tokens taken as input.
- The corpus lookups `getCorpusGram` and `getSumTotalTermFreq` are parameters `corpus(field, gram)` and `corpusTotal(field)`.
- The string distances `NormalizedLevenshtein` and `Jaccard` are a `dist` parameter.
- The MapDB store is modelled as a Dafny map. Its persistence, `concurrencyScale` and `closeOnJvmShutdown` are left out. `prefixSubMap` becomes `Under`, a map filtered on the anchor text.
- `indexHyperlinks` is left out. It streams a CBOR file in parallel with an atomic counter.
- `normalize`, `defaultWhenNotFinite`, `identity` and `TopicMixtureResult` are defined in files that are not part of this model.
  - `normalize` is modelled as division by the sum of the values.
  - `defaultWhenNotFinite` replaces a non-finite value with the default.
  - `TopicMixtureResult`'s sorted map is a Dafny map.
- Floating-point rounding is not modelled: doubles are exact reals. NaN and the infinities appear only where the code produces them: `average()` of an empty list, and division by zero.
- 32-bit `Int` overflow of the link counts and of `sumBy` is not modelled. The counts are unbounded integers.
- `toLowerCase` is modelled on the ASCII capitals only. Locale-dependent and non-ASCII case mapping is left out.
- Kotlin strings are sequences of UTF-16 code units; the model's strings are sequences of Unicode characters. For a text with characters outside the Basic Multilingual Plane the two differ in:
  - the `length > 2` filters of `TextKernels.SplitSentence` and `TextKernels.SplitWord`;
  - the window sizes of `TextKernels.Windows`, `TextKernels.LetterFreq` and `TextKernels.LetterFreq2`, where a window may split a surrogate pair;
  - `map(Char::toString)` in `TextKernels.Letters` and `TextKernels.SingleLetterFreq`, which yields one string per code unit;
  - `reversed()` in `TextKernels.Reverse`, which reverses code units;
  - the `String.compareTo` tie order that `Hyperlinks.StrLe` stands for in `Hyperlinks.MostPopular` and `Hyperlinks.HyperlinkIndexer.GetPopular`, which compares code units.
- Hash-map and hash-set iteration order is not modelled:
  - The order of `measure` rows stands for `HashMap` iteration order. `SheafNodes.PutRow` appends a new key at the end.
  - `Hyperlinks.ClosestAsWritten` and `Hyperlinks.Closest` pick some mention of extreme distance. When several are tied, which one `maxBy` would return depends on the hash set's iteration order, which is not modelled. `Hyperlinks.HyperlinkIndexer.GetMentionLikelihood` and `Hyperlinks.HyperlinkIndexer.GetMentionLikelihoodIntended` inherit this: they promise the likelihood under one of the tied mentions.
- `MetaKernelAnalyzer.KernelAnalyzer.InferMetric`, `Hyperlinks.HyperlinkIndexer.GetPopular`, `Hyperlinks.HyperlinkIndexer.GetMentionLikelihood` and `Hyperlinks.HyperlinkIndexer.GetMentionLikelihoodIntended` are ghost functions of the object's state, not methods. They do not change state, and the map sums they use are defined by choice over the map's entries.
- `SheafNodes.SheafNode.Descend` models the heap nodes. The `cover` back-pointer is a field, and `Valid` states that every child's `cover` is its parent. On the value tree of `Sheaves`, `ascend` takes the path of covers from the node up to the root as a list.
- `Main.java`, `KotlinRankLibTrainer.kt`, `KotlinEmbedding.kt`, `EmbeddingExperiments.kt`, `KotlinSparql.kt` and `KotlinAbstractAnalyzer.kt` are wiring, demos, network code or search wrappers around the three modelled components. They are not part of this model.

## Findings

| source | as written | input that shows it | evidently intended | confidence | as-written member | corrected member |
|---|---|---|---|---|---|---|
| src/main/kotlin/edu/unh/cs980/language/KotlinGramAnalyzer.kt:21 | `v * alpha + c * (alpha - 1.0)`: the corpus weight is negative for `alpha < 1` | document frequency 0.2, corpus frequency 0.4, alpha 0.5 gives -0.1 | a mixture `v * alpha + c * (1.0 - alpha)`, which lies between `v` and `c` (0.3 here) | not executed | GramAnalyzer.SmoothAsWrittenNegative | GramAnalyzer.SmoothIsMixture |
| src/main/kotlin/edu/unh/cs980/context/KotlinHyperlinkIndexer.kt:76-79 | `maxBy { dist.distance(…) }` takes the FARTHEST mention, and accepts it when its distance exceeds 0.9 | anchor "barack obama" with mentions "barack_obama" at distance 0.05 and "zebra" at 0.95 returns "zebra" | the closest mention, accepted when its similarity `1 - distance` exceeds 0.9 ("barack_obama" here) | not executed | Hyperlinks.ClosestAsWrittenPicksFarthest | Hyperlinks.Closest |
