/** The text kernels of the meta-kernel analyzer: the sentence and word splitters
    used as partition functions, and the n-gram and letter-window frequency kernels
    used as similarity functions. The Lucene tokenizer is not modelled: the kernels
    that tokenize take the token list it produced. */
module TextKernels {
  import opened Wrappers
  import opened Numeric
  import opened MapSums
  import opened Counting

  // ---------------------------------------------------------------------------
  // Characters and strings

  /** `Char.toLowerCase()` on the ASCII letters. */
  function LowerChar(c: char): char
  {
    if 'A' <= c <= 'Z' then (c as int + 32) as char else c
  }

  /** `String.toLowerCase()`, character by character. */
  function LowerCase(s: string): (r: string)
    ensures |r| == |s|
    ensures forall i | 0 <= i < |s| :: r[i] == LowerChar(s[i])
  {
    if s == [] then [] else [LowerChar(s[0])] + LowerCase(s[1..])
  }

  /** Lower-casing a lower-cased string changes nothing. */
  lemma LowerCaseIdempotent(s: string)
    ensures LowerCase(LowerCase(s)) == LowerCase(s)
  {
    var lower := LowerCase(s);
    forall i | 0 <= i < |lower| ensures LowerCase(lower)[i] == lower[i] {
      assert lower[i] == LowerChar(s[i]);
    }
  }

  /** `String.reversed()`. */
  function Reverse(s: string): (r: string)
    ensures |r| == |s|
    ensures forall i | 0 <= i < |s| :: r[i] == s[|s| - 1 - i]
  {
    if s == [] then [] else Reverse(s[1..]) + [s[0]]
  }

  /** Reversing twice gives the string back, so reversal is one-to-one. */
  lemma ReverseReverse(s: string)
    ensures Reverse(Reverse(s)) == s
  {
  }

  // ---------------------------------------------------------------------------
  // Splitting

  /** `split(d)` with a one-character delimiter: the pieces between delimiters,
      empty pieces included. Joining the pieces with `d` gives the text back. */
  function Split(s: string, d: char): (pieces: seq<string>)
    ensures |pieces| >= 1
    ensures forall i | 0 <= i < |pieces| :: d !in pieces[i]
    ensures Join(pieces, d) == s
  {
    if s == [] then [""]
    else
      var rest := Split(s[1..], d);
      if s[0] == d then
        assert ([""] + rest)[1..] == rest;
        [""] + rest
      else
        var pieces := [[s[0]] + rest[0]] + rest[1..];
        assert pieces[1..] == rest[1..];
        assert |rest| > 1 ==> Join(rest, d) == rest[0] + [d] + Join(rest[1..], d);
        assert s == [s[0]] + s[1..];
        pieces
  }

  /** `joinToString(d)`. */
  function Join(pieces: seq<string>, d: char): string
  {
    if pieces == [] then ""
    else if |pieces| == 1 then pieces[0]
    else pieces[0] + [d] + Join(pieces[1..], d)
  }

  lemma {:induction false} SplitPiece(p: string, d: char)
    requires d !in p
    ensures Split(p, d) == [p]
    decreases |p|
  {
    if p != [] {
      SplitPiece(p[1..], d);
      assert [p[0]] + p[1..] == p;
    }
  }

  lemma {:induction false} SplitPieceThen(p: string, t: string, d: char)
    requires d !in p
    ensures Split(p + [d] + t, d) == [p] + Split(t, d)
    decreases |p|
  {
    if p == [] {
      assert p + [d] + t == [d] + t;
      assert ([d] + t)[1..] == t;
    } else {
      assert (p + [d] + t)[1..] == p[1..] + [d] + t;
      SplitPieceThen(p[1..], t, d);
      assert [p[0]] + p[1..] == p;
    }
  }

  /** The converse round trip: splitting the joined pieces gives them back, as long
      as no piece contains the delimiter. */
  lemma {:induction false} SplitJoin(pieces: seq<string>, d: char)
    requires |pieces| >= 1
    requires forall i | 0 <= i < |pieces| :: d !in pieces[i]
    ensures Split(Join(pieces, d), d) == pieces
    decreases |pieces|
  {
    if |pieces| == 1 {
      SplitPiece(pieces[0], d);
    } else {
      SplitJoin(pieces[1..], d);
      SplitPieceThen(pieces[0], Join(pieces[1..], d), d);
      assert [pieces[0]] + pieces[1..] == pieces;
    }
  }

  /** `filter { it.length > 2 }`: the pieces longer than two characters. */
  function LongPieces(ps: seq<string>): (r: seq<string>)
    ensures forall i | 0 <= i < |r| :: |r[i]| > 2
  {
    if ps == [] then []
    else (if |ps[0]| > 2 then [ps[0]] else []) + LongPieces(ps[1..])
  }

  /** Filtering keeps every long piece as often as it occurs. */
  lemma {:induction false} LongPiecesCount(ps: seq<string>, x: string)
    ensures multiset(LongPieces(ps))[x] == if |x| > 2 then multiset(ps)[x] else 0
    decreases |ps|
  {
    if ps != [] {
      LongPiecesCount(ps[1..], x);
      var head := if |ps[0]| > 2 then [ps[0]] else [];
      assert ps == [ps[0]] + ps[1..];
      assert multiset(ps) == multiset([ps[0]]) + multiset(ps[1..]);
      assert multiset(LongPieces(ps)) == multiset(head) + multiset(LongPieces(ps[1..]));
    }
  }

  /** Filtering keeps exactly the long pieces. */
  lemma LongPiecesMembers(ps: seq<string>)
    ensures forall x :: x in LongPieces(ps) <==> x in ps && |x| > 2
  {
    forall x
      ensures x in LongPieces(ps) <==> x in ps && |x| > 2
    {
      LongPiecesCount(ps, x);
    }
  }

  /** Filtering keeps the order: it distributes over concatenation. */
  lemma {:induction false} LongPiecesAppend(a: seq<string>, b: seq<string>)
    ensures LongPieces(a + b) == LongPieces(a) + LongPieces(b)
    decreases |a|
  {
    if a == [] {
      assert a + b == b;
    } else {
      assert a + b == [a[0]] + (a[1..] + b);
      assert a == [a[0]] + a[1..];
      LongPiecesCons(a[0], a[1..] + b);
      LongPiecesCons(a[0], a[1..]);
      LongPiecesAppend(a[1..], b);
    }
  }

  lemma LongPiecesCons(x: string, rest: seq<string>)
    ensures LongPieces([x] + rest) == (if |x| > 2 then [x] else []) + LongPieces(rest)
  {
    assert ([x] + rest)[0] == x;
    assert ([x] + rest)[1..] == rest;
  }

  /** `splitSentence`: the pieces of the text between full stops that are longer
      than two characters, in the order of the text. */
  function SplitSentence(text: string): (r: seq<string>)
    ensures forall i | 0 <= i < |r| :: |r[i]| > 2 && '.' !in r[i]
    ensures forall x :: x in r <==> x in Split(text, '.') && |x| > 2
  {
    var ps := Split(text, '.');
    LongPiecesMembers(ps);
    LongPieces(ps)
  }

  /** `toSet().toList()`: the distinct elements, each at its first occurrence. */
  function Distinct(xs: seq<string>): (r: seq<string>)
    ensures forall x :: x in r <==> x in xs
    ensures forall i, j | 0 <= i < j < |r| :: r[i] != r[j]
    ensures forall i, j | 0 <= i < j < |r| ::
      forall q | 0 <= q < |xs| && xs[q] == r[j] :: r[i] in xs[..q]
  {
    if xs == [] then []
    else
      var init := xs[..|xs| - 1];
      var x := xs[|xs| - 1];
      var r := Distinct(init);
      assert forall q | 0 <= q < |init| :: xs[..q] == init[..q];
      assert xs[..|init|] == init;
      if x in init then r else r + [x]
  }

  /** `splitWord`: the pieces of the text between spaces that are longer than two
      characters, each once, in the order of their first occurrence. */
  function SplitWord(text: string): (r: seq<string>)
    ensures forall i | 0 <= i < |r| :: |r[i]| > 2 && ' ' !in r[i]
    ensures forall x :: x in r <==> x in Split(text, ' ') && |x| > 2
    ensures forall i, j | 0 <= i < j < |r| :: r[i] != r[j]
  {
    var ps := Split(text, ' ');
    LongPiecesMembers(ps);
    Distinct(LongPieces(ps))
  }

  // ---------------------------------------------------------------------------
  // Bigrams over tokens

  /** The key `"${first}_$second"`. */
  function Underscored(a: string, b: string): string
  {
    a + "_" + b
  }

  /** Words of different lengths give different keys when the longer one is
      underscore-free: the underscore of the shorter one meets a letter. */
  lemma UnderscoredLengths(x: string, y: string, a: string, b: string)
    requires '_' !in a && '_' !in b && |x| != |a|
    ensures Underscored(x, y) != Underscored(a, b)
  {
    var s, t := Underscored(x, y), Underscored(a, b);
    if |s| == |t| {
      if |x| < |a| {
        assert s[|x|] != t[|x|];
      } else {
        assert t[|a|] != s[|a|] || s[|x|] != t[|x|];
      }
    }
  }

  /** Joining with an underscore is one-to-one on underscore-free words. */
  lemma UnderscoredInjective(x: string, y: string, a: string, b: string)
    requires '_' !in a && '_' !in b
    ensures Underscored(x, y) == Underscored(a, b) <==> x == a && y == b
  {
    var s, t := Underscored(x, y), Underscored(a, b);
    if |x| != |a| {
      UnderscoredLengths(x, y, a, b);
    } else if s == t {
      assert x == s[..|x|] == t[..|a|] == a;
      assert y == s[|x| + 1..] == t[|a| + 1..] == b;
    }
  }

  /** `windowed(2).flatMap { (first, second) -> listOf("${first}_$second", "${second}_$first") }`. */
  function BigramKeys(tokens: seq<string>): (keys: seq<string>)
    ensures |keys| == if |tokens| < 2 then 0 else 2 * (|tokens| - 1)
    ensures forall i | 0 <= i < |tokens| - 1 ::
      keys[2 * i] == Underscored(tokens[i], tokens[i + 1]) && keys[2 * i + 1] == Underscored(tokens[i + 1], tokens[i])
  {
    if |tokens| < 2 then []
    else
      var rest := BigramKeys(tokens[1..]);
      var keys := [Underscored(tokens[0], tokens[1]), Underscored(tokens[1], tokens[0])] + rest;
      forall i | 1 <= i < |tokens| - 1
        ensures keys[2 * i] == Underscored(tokens[i], tokens[i + 1])
        ensures keys[2 * i + 1] == Underscored(tokens[i + 1], tokens[i])
      {
        var k := 2 * (i - 1);
        assert 2 * i == k + 2;
        assert keys[k + 2] == rest[k] && keys[k + 3] == rest[k + 1];
        assert tokens[1..][i - 1] == tokens[i] && tokens[1..][i] == tokens[i + 1];
      }
      keys
  }

  /** For underscore-free words `a` and `b`, the key `a_b` occurs as often as `b_a`. */
  lemma {:induction false} BigramCountSymmetric(tokens: seq<string>, a: string, b: string)
    requires '_' !in a && '_' !in b
    ensures multiset(BigramKeys(tokens))[Underscored(a, b)] == multiset(BigramKeys(tokens))[Underscored(b, a)]
    decreases |tokens|
  {
    if |tokens| >= 2 {
      BigramCountSymmetric(tokens[1..], a, b);
      var x, y := tokens[0], tokens[1];
      UnderscoredInjective(x, y, a, b);
      UnderscoredInjective(y, x, a, b);
      UnderscoredInjective(x, y, b, a);
      UnderscoredInjective(y, x, b, a);
    }
  }

  /** A key `x_y` or `y_x` of two neighbouring tokens. */
  ghost predicate NeighbourKey(tokens: seq<string>, k: string)
  {
    exists i :: 0 <= i < |tokens| - 1 &&
      (k == Underscored(tokens[i], tokens[i + 1]) || k == Underscored(tokens[i + 1], tokens[i]))
  }

  /** The bigram keys are exactly the neighbour keys. */
  lemma {:induction false} BigramKeysMembership(tokens: seq<string>, k: string)
    ensures k in BigramKeys(tokens) <==> NeighbourKey(tokens, k)
    decreases |tokens|
  {
    if |tokens| >= 2 {
      var rest := tokens[1..];
      var pair := [Underscored(tokens[0], tokens[1]), Underscored(tokens[1], tokens[0])];
      BigramKeysMembership(rest, k);
      assert BigramKeys(tokens) == pair + BigramKeys(rest);
      if k in pair {
        assert 0 < |tokens| - 1;
      }
      if NeighbourKey(rest, k) {
        var i :| 0 <= i < |rest| - 1 &&
          (k == Underscored(rest[i], rest[i + 1]) || k == Underscored(rest[i + 1], rest[i]));
        assert tokens[i + 1] == rest[i] && tokens[i + 2] == rest[i + 1];
      }
      if NeighbourKey(tokens, k) && k !in pair {
        var i :| 0 <= i < |tokens| - 1 &&
          (k == Underscored(tokens[i], tokens[i + 1]) || k == Underscored(tokens[i + 1], tokens[i]));
        assert rest[i - 1] == tokens[i] && rest[i] == tokens[i + 1];
      }
    }
  }

  /** `bigramFrequency` on the token list: every neighbour key `x_y` and `y_x` maps
      to its share of all the keys; the shares sum to 1 once there are two tokens,
      and for underscore-free words `a_b` and `b_a` always have the same share. */
  ghost function BigramFrequency(tokens: seq<string>): (f: map<string, Double>)
    ensures f.Keys == set k | k in BigramKeys(tokens)
    ensures var keys := BigramKeys(tokens);
      forall k | k in f :: f[k] == Finite(multiset(keys)[k] as real / |keys| as real)
    ensures forall a, b | '_' !in a && '_' !in b ::
      (Underscored(a, b) in f <==> Underscored(b, a) in f) &&
      (Underscored(a, b) in f ==> f[Underscored(a, b)] == f[Underscored(b, a)])
  {
    var keys := BigramKeys(tokens);
    forall a, b | '_' !in a && '_' !in b
      ensures multiset(keys)[Underscored(a, b)] == multiset(keys)[Underscored(b, a)]
    {
      BigramCountSymmetric(tokens, a, b);
    }
    Frequencies(keys)
  }

  /** The keys of `bigramFrequency` are exactly the neighbour keys. */
  lemma BigramFrequencyKeys(tokens: seq<string>, k: string)
    ensures k in BigramFrequency(tokens) <==> NeighbourKey(tokens, k)
  {
    BigramKeysMembership(tokens, k);
  }

  /** Once there are two tokens, the bigram shares sum to 1. */
  lemma BigramFrequencySumsToOne(tokens: seq<string>)
    requires |tokens| >= 2
    ensures SumOfValues(FiniteParts(BigramFrequency(tokens))) == 1.0
  {
    FrequenciesSumToOne(BigramKeys(tokens));
  }

  /** The symmetry needs underscore-free words: a token that contains `_` can make
      `a_b` a key while `b_a` is not one. */
  lemma BigramSymmetryNeedsUnderscoreFreeWords()
    ensures var f := BigramFrequency(["p_q", "r"]);
      Underscored("p", "q_r") in f && Underscored("q_r", "p") !in f
  {
    var tokens := ["p_q", "r"];
    assert tokens[1..] == ["r"];
    var keys := BigramKeys(tokens);
    assert keys == [Underscored("p_q", "r"), Underscored("r", "p_q")];
    assert keys[0] == "p_q" + "_" + "r" == "p_q_r";
    assert keys[1] == "r" + "_" + "p_q" == "r_p_q";
    assert Underscored("p", "q_r") == "p" + "_" + "q_r" == keys[0];
    assert Underscored("q_r", "p") == "q_r_p" != keys[1];
  }

  // ---------------------------------------------------------------------------
  // Letter windows over tokens

  /** `CharSequence.windowed(size, step = 1, partialWindows = partial)`: the window
      starting at every position, cut short at the end of the string when partial
      windows are kept, and left out otherwise. */
  function Windows(s: string, size: nat, partial: bool): (ws: seq<string>)
    requires size > 0
    ensures |ws| == if partial then |s| else if |s| >= size then |s| - size + 1 else 0
    ensures forall i | 0 <= i < |ws| :: ws[i] == s[i..Min(i + size, |s|)]
    ensures forall i | 0 <= i < |ws| :: 0 < |ws[i]| <= size && (!partial ==> |ws[i]| == size)
  {
    var count := if partial then |s| else if |s| >= size then |s| - size + 1 else 0;
    seq(count, i requires 0 <= i < count => s[i..Min(i + size, |s|)])
  }

  /** A window of one of the tokens. */
  ghost predicate WindowOfSome(tokens: seq<string>, size: nat, partial: bool, w: string)
    requires size > 0
  {
    exists k :: 0 <= k < |tokens| && w in Windows(tokens[k], size, partial)
  }

  /** `tokens.flatMap { token -> token.windowed(size, partialWindows = partial) }`:
      the windows of the first token, then those of the others. */
  function LetterWindows(tokens: seq<string>, size: nat, partial: bool): (ws: seq<string>)
    requires size > 0
    ensures forall i | 0 <= i < |ws| :: 0 < |ws[i]| <= size && (!partial ==> |ws[i]| == size)
  {
    if tokens == [] then [] else Windows(tokens[0], size, partial) + LetterWindows(tokens[1..], size, partial)
  }

  /** The letter windows are exactly the windows of the tokens. */
  lemma {:induction false} LetterWindowsMembership(tokens: seq<string>, size: nat, partial: bool, w: string)
    requires size > 0
    ensures w in LetterWindows(tokens, size, partial) <==> WindowOfSome(tokens, size, partial, w)
    decreases |tokens|
  {
    if tokens != [] {
      var first, rest := Windows(tokens[0], size, partial), tokens[1..];
      LetterWindowsMembership(rest, size, partial, w);
      assert LetterWindows(tokens, size, partial) == first + LetterWindows(rest, size, partial);
      if WindowOfSome(rest, size, partial, w) {
        var k :| 0 <= k < |rest| && w in Windows(rest[k], size, partial);
        assert tokens[k + 1] == rest[k];
      }
      if WindowOfSome(tokens, size, partial, w) && w !in first {
        var k :| 0 <= k < |tokens| && w in Windows(tokens[k], size, partial);
        assert k != 0 && rest[k - 1] == tokens[k];
      }
    }
  }

  /** `letterFreq`: the relative frequency of every letter window of the tokens.
      `windowed` rejects a size below 1, but only once there is a token to cut. */
  ghost function LetterFreq(size: int, tokens: seq<string>, partial: bool): (r: Outcome<map<string, Double>>)
    ensures r.Fail? <==> size <= 0 && tokens != []
    ensures r.Fail? ==> r.failure == IllegalArgument
    ensures r.Ok? && size <= 0 ==> r.value == map[]
    ensures r.Ok? && size > 0 ==> var ws := LetterWindows(tokens, size as nat, partial);
      r.value.Keys == (set w | w in ws) &&
      forall w | w in r.value :: r.value[w] == Finite(multiset(ws)[w] as real / |ws| as real)
    ensures r.Ok? && size > 0 ==> forall w | w in r.value :: 0 < |w| <= size && (!partial ==> |w| == size)
  {
    if size <= 0 then
      (if tokens == [] then Ok(Frequencies<string>([])) else Fail(IllegalArgument))
    else
      var ws := LetterWindows(tokens, size as nat, partial);
      assert forall w | w in ws :: exists i :: 0 <= i < |ws| && ws[i] == w;
      Ok(Frequencies(ws))
  }

  /** The keys of `letterFreq` are exactly the windows of the tokens. */
  lemma LetterFreqKeys(size: int, tokens: seq<string>, partial: bool, w: string)
    requires size > 0
    ensures LetterFreq(size, tokens, partial).Ok?
    ensures w in LetterFreq(size, tokens, partial).value <==> WindowOfSome(tokens, size as nat, partial, w)
  {
    LetterWindowsMembership(tokens, size as nat, partial, w);
  }

  /** Once some token has a window, the window shares sum to 1. */
  lemma LetterFreqSumsToOne(size: int, tokens: seq<string>, partial: bool)
    requires size > 0 && |LetterWindows(tokens, size as nat, partial)| > 0
    ensures LetterFreq(size, tokens, partial).Ok?
    ensures SumOfValues(FiniteParts(LetterFreq(size, tokens, partial).value)) == 1.0
  {
    FrequenciesSumToOne(LetterWindows(tokens, size as nat, partial));
  }

  /** Every window followed by its reversal:
      `flatMap { window -> listOf(window, window.reversed()) }`. */
  function WithReversals(ws: seq<string>): (r: seq<string>)
    ensures |r| == 2 * |ws|
  {
    if ws == [] then [] else [ws[0], Reverse(ws[0])] + WithReversals(ws[1..])
  }

  lemma {:induction false} WithReversalsSymmetric(ws: seq<string>, w: string)
    ensures multiset(WithReversals(ws))[w] == multiset(WithReversals(ws))[Reverse(w)]
    decreases |ws|
  {
    if ws != [] {
      WithReversalsSymmetric(ws[1..], w);
      ReverseReverse(w);
      ReverseReverse(ws[0]);
    }
  }

  /** `tokens.flatMap { token -> token.windowed(...).flatMap { listOf(it, it.reversed()) } }`. */
  function ReversibleLetterWindows(tokens: seq<string>, size: nat, partial: bool): seq<string>
    requires size > 0
  {
    if tokens == [] then []
    else WithReversals(Windows(tokens[0], size, partial)) + ReversibleLetterWindows(tokens[1..], size, partial)
  }

  lemma {:induction false} WithReversalsAppend(a: seq<string>, b: seq<string>)
    ensures WithReversals(a + b) == WithReversals(a) + WithReversals(b)
    decreases |a|
  {
    if a == [] {
      assert a + b == b;
    } else {
      assert (a + b)[1..] == a[1..] + b;
      WithReversalsAppend(a[1..], b);
    }
  }

  /** A string is among the windows with their reversals exactly when it or its
      reversal is one of the windows. */
  lemma {:induction false} WithReversalsMembership(ws: seq<string>, w: string)
    ensures w in WithReversals(ws) <==> w in ws || Reverse(w) in ws
    decreases |ws|
  {
    if ws != [] {
      WithReversalsMembership(ws[1..], w);
      ReverseReverse(w);
      ReverseReverse(ws[0]);
      assert ws == [ws[0]] + ws[1..];
    }
  }

  /** Reversing window by window is reversing the letter windows. */
  lemma {:induction false} ReversibleIsWithReversals(tokens: seq<string>, size: nat, partial: bool)
    requires size > 0
    ensures ReversibleLetterWindows(tokens, size, partial) == WithReversals(LetterWindows(tokens, size, partial))
    decreases |tokens|
  {
    if tokens != [] {
      ReversibleIsWithReversals(tokens[1..], size, partial);
      WithReversalsAppend(Windows(tokens[0], size, partial), LetterWindows(tokens[1..], size, partial));
    }
  }

  lemma {:induction false} ReversibleLetterWindowsSymmetric(tokens: seq<string>, size: nat, partial: bool, w: string)
    requires size > 0
    ensures multiset(ReversibleLetterWindows(tokens, size, partial))[w]
         == multiset(ReversibleLetterWindows(tokens, size, partial))[Reverse(w)]
    decreases |tokens|
  {
    if tokens != [] {
      WithReversalsSymmetric(Windows(tokens[0], size, partial), w);
      ReversibleLetterWindowsSymmetric(tokens[1..], size, partial, w);
    }
  }

  /** `letterFreq2`: like `letterFreq`, but every window is counted together with its
      reversal, so a window and its reversal always have the same frequency. */
  ghost function LetterFreq2(size: int, tokens: seq<string>, partial: bool): (r: Outcome<map<string, Double>>)
    ensures r.Fail? <==> size <= 0 && tokens != []
    ensures r.Fail? ==> r.failure == IllegalArgument
    ensures r.Ok? && size <= 0 ==> r.value == map[]
    ensures r.Ok? && size > 0 ==> var ws := ReversibleLetterWindows(tokens, size as nat, partial);
      r.value.Keys == (set w | w in ws) &&
      forall w | w in r.value :: r.value[w] == Finite(multiset(ws)[w] as real / |ws| as real)
    ensures r.Ok? ==> forall w ::
      (w in r.value <==> Reverse(w) in r.value) &&
      (w in r.value ==> r.value[w] == r.value[Reverse(w)])
  {
    if size <= 0 then
      (if tokens == [] then Ok(Frequencies<string>([])) else Fail(IllegalArgument))
    else
      ReversibleFrequenciesSymmetric(tokens, size as nat, partial);
      Ok(Frequencies(ReversibleLetterWindows(tokens, size as nat, partial)))
  }

  /** A window and its reversal have the same share of the windows with reversals. */
  lemma ReversibleFrequenciesSymmetric(tokens: seq<string>, size: nat, partial: bool)
    requires size > 0
    ensures var f := Frequencies(ReversibleLetterWindows(tokens, size, partial));
      forall w :: (w in f <==> Reverse(w) in f) && (w in f ==> f[w] == f[Reverse(w)])
  {
    var ws := ReversibleLetterWindows(tokens, size, partial);
    forall w ensures multiset(ws)[w] == multiset(ws)[Reverse(w)] {
      ReversibleLetterWindowsSymmetric(tokens, size, partial, w);
    }
  }

  /** The keys of `letterFreq2` are exactly the windows of the tokens and their
      reversals. */
  lemma LetterFreq2Keys(size: int, tokens: seq<string>, partial: bool, w: string)
    requires size > 0
    ensures LetterFreq2(size, tokens, partial).Ok?
    ensures w in LetterFreq2(size, tokens, partial).value <==>
      WindowOfSome(tokens, size as nat, partial, w) || WindowOfSome(tokens, size as nat, partial, Reverse(w))
  {
    ReversibleIsWithReversals(tokens, size as nat, partial);
    WithReversalsMembership(LetterWindows(tokens, size as nat, partial), w);
    LetterWindowsMembership(tokens, size as nat, partial, w);
    LetterWindowsMembership(tokens, size as nat, partial, Reverse(w));
  }

  /** Once some token has a window, the shares of `letterFreq2` sum to 1. */
  lemma LetterFreq2SumsToOne(size: int, tokens: seq<string>, partial: bool)
    requires size > 0 && |LetterWindows(tokens, size as nat, partial)| > 0
    ensures LetterFreq2(size, tokens, partial).Ok?
    ensures SumOfValues(FiniteParts(LetterFreq2(size, tokens, partial).value)) == 1.0
  {
    ReversibleIsWithReversals(tokens, size as nat, partial);
    FrequenciesSumToOne(ReversibleLetterWindows(tokens, size as nat, partial));
  }

  // ---------------------------------------------------------------------------
  // Single letters and unigrams

  /** `text.map(Char::toString)`. */
  function Letters(text: string): (r: seq<string>)
    ensures |r| == |text|
    ensures forall i | 0 <= i < |text| :: r[i] == [text[i]]
  {
    if text == [] then [] else [[text[0]]] + Letters(text[1..])
  }

  lemma {:induction false} LettersCount(text: string, c: char)
    ensures multiset(Letters(text))[[c]] == multiset(text)[c]
    decreases |text|
  {
    if text != [] {
      LettersCount(text[1..], c);
      CountCons([text[0]], Letters(text[1..]), [c]);
      CountCons(text[0], text[1..], c);
      assert text == [text[0]] + text[1..];
      assert [text[0]] == [c] <==> text[0] == c;
    }
  }

  lemma CountCons<T>(x: T, xs: seq<T>, y: T)
    ensures multiset([x] + xs)[y] == (if x == y then 1 else 0) + multiset(xs)[y]
  {
    assert multiset([x] + xs) == multiset([x]) + multiset(xs);
  }

  /** `singleLetterFreq`: the share of every character of the text, keyed by the
      one-character string. */
  ghost function SingleLetterFreq(text: string): (f: map<string, Double>)
    ensures f.Keys == set c | c in text :: [c]
    ensures forall c | c in text :: f[[c]] == Finite(multiset(text)[c] as real / |text| as real)
  {
    var letters := Letters(text);
    forall c ensures multiset(letters)[[c]] == multiset(text)[c] {
      LettersCount(text, c);
    }
    assert (set w | w in letters) == set c | c in text :: [c] by {
      forall w | w in letters ensures w in set c | c in text :: [c] {
        var i :| 0 <= i < |letters| && letters[i] == w;
      }
      forall c | c in text ensures [c] in letters {
        var i :| 0 <= i < |text| && text[i] == c;
        assert letters[i] == [c];
      }
    }
    Frequencies(letters)
  }

  /** `unigramFreq` on the token list: every token maps to its share of the list,
      and the shares of a non-empty list sum to 1. */
  ghost function UnigramFreq(tokens: seq<string>): (f: map<string, Double>)
    ensures f.Keys == set t | t in tokens
    ensures forall t | t in f :: f[t] == Finite(multiset(tokens)[t] as real / |tokens| as real)
    ensures |tokens| > 0 ==> SumOfValues(FiniteParts(f)) == 1.0
  {
    assert |tokens| > 0 ==> SumOfValues(FiniteParts(Frequencies(tokens))) == 1.0 by {
      if |tokens| > 0 {
        FrequenciesSumToOne(tokens);
      }
    }
    Frequencies(tokens)
  }
}
