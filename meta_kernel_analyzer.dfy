/** `KotlinMetaKernelAnalyzer`: the list of trained sheaves it holds, and the queries
    that score a text against the nodes of one layer of those trees. */
module MetaKernelAnalyzer {
  import opened Wrappers
  import opened Numeric
  import opened MapSums
  import opened Counting
  import opened Sheaves
  import opened Similarity

  /** A file of the sheaf directory: its name, and the tree it deserializes to. */
  datatype SheafFile = SheafFile(fileName: string, sheaf: Sheaf)

  /** `TopicMixtureResult(results, kld)`; the sorted map is kept as a map. */
  datatype TopicMixtureResult = TopicMixtureResult(results: map<string, Double>, kld: real)

  /** `filterWords.isEmpty() || file.name in filterWords`. */
  predicate Wanted(f: SheafFile, filterWords: seq<string>)
  {
    filterWords == [] || f.fileName in filterWords
  }

  /** The trees of the wanted files, in directory order. */
  function Chosen(files: seq<SheafFile>, filterWords: seq<string>): (r: seq<Sheaf>)
    ensures |r| <= |files|
    ensures forall s | s in r :: exists f | f in files :: f.sheaf == s && Wanted(f, filterWords)
    ensures forall f | f in files && Wanted(f, filterWords) :: f.sheaf in r
  {
    if files == [] then []
    else
      var init := files[..|files| - 1];
      var last := files[|files| - 1];
      assert files == init + [last];
      Chosen(init, filterWords) + if Wanted(last, filterWords) then [last.sheaf] else []
  }

  /** With no filter every file is loaded, in order. */
  lemma {:induction false} ChosenAll(files: seq<SheafFile>)
    ensures Chosen(files, []) == seq(|files|, i requires 0 <= i < |files| => files[i].sheaf)
  {
    if files != [] {
      var init := files[..|files| - 1];
      ChosenAll(init);
      var all := seq(|files|, i requires 0 <= i < |files| => files[i].sheaf);
      assert all == seq(|init|, i requires 0 <= i < |init| => init[i].sheaf) + [files[|files| - 1].sheaf];
    }
  }

  /** The pairs `sheaf.name to transferDown(depth, measure)` over `nodes`, in order;
      the first failing score ends the list. */
  function Scores(nodes: seq<Sheaf>, depth: int, sim: Sim): (r: Outcome<seq<(string, real)>>)
    ensures r.Fail? <==> exists k :: 0 <= k < |nodes| && TransferDown(nodes[k], depth, sim).Fail?
    ensures r.Ok? ==> |r.value| == |nodes|
    ensures r.Ok? ==> forall k | 0 <= k < |nodes| ::
              r.value[k].0 == nodes[k].name && TransferDown(nodes[k], depth, sim) == Ok(r.value[k].1)
  {
    if nodes == [] then Ok([])
    else
      var first := TransferDown(nodes[0], depth, sim);
      if first.Fail? then Fail(first.failure)
      else
        var rest := Scores(nodes[1..], depth, sim);
        if rest.Fail? then
          assert exists k :: 0 <= k < |nodes[1..]| && TransferDown(nodes[1..][k], depth, sim).Fail?;
          Fail(rest.failure)
        else Ok([(nodes[0].name, first.value)] + rest.value)
  }

  /** The layers of a list of (topic, layer) pairs, concatenated. */
  function Concat(layers: seq<(string, seq<Sheaf>)>): (nodes: seq<Sheaf>)
    ensures forall t :: t in nodes <==> exists i :: 0 <= i < |layers| && t in layers[i].1
  {
    if layers == [] then []
    else
      var init := layers[..|layers| - 1];
      var rest := Concat(init);
      assert forall i | 0 <= i < |init| :: init[i] == layers[i];
      rest + layers[|layers| - 1].1
  }

  /** The names of a list of nodes. */
  function Names(nodes: seq<Sheaf>): (r: set<string>)
    ensures forall k | 0 <= k < |nodes| :: nodes[k].name in r
    ensures forall n | n in r :: exists k :: 0 <= k < |nodes| && nodes[k].name == n
  {
    set k | 0 <= k < |nodes| :: nodes[k].name
  }

  /** Score lists carry the names of the nodes they score. */
  lemma ScoreKeys(scores: seq<(string, real)>, nodes: seq<Sheaf>)
    requires |scores| == |nodes| && forall k | 0 <= k < |nodes| :: scores[k].0 == nodes[k].name
    ensures Keys(scores) == Names(nodes)
  {
  }

  /** `toMap()`, normalized when asked, as a `TopicMixtureResult` with `kld` 0. */
  ghost function Mixture(scores: seq<(string, real)>, doNormalize: bool): (r: TopicMixtureResult)
    ensures r.kld == 0.0 && r.results.Keys == Keys(scores)
    ensures !doNormalize ==> forall n | n in r.results :: r.results[n] == Finite(ToMap(scores)[n])
    ensures doNormalize ==> r.results == Normalize(ToMap(scores))
  {
    var res := ToMap(scores);
    TopicMixtureResult(if doNormalize then Normalize(res) else map n | n in res :: Finite(res[n]), 0.0)
  }

  class KernelAnalyzer {
    /** `sheaves`: the trained trees, one per topic. */
    var sheaves: seq<Sheaf>

    constructor ()
      ensures sheaves == []
    {
      sheaves := [];
    }

    /** `loadSheaves(sheafIndex, filterWords)`: the wanted files are read and each
        tree is appended to `sheaves`; the loaded trees are returned. */
    method LoadSheaves(files: seq<SheafFile>, filterWords: seq<string>) returns (loaded: seq<Sheaf>)
      modifies this
      ensures loaded == Chosen(files, filterWords)
      ensures sheaves == old(sheaves) + loaded
    {
      loaded := [];
      var i := 0;
      while i < |files|
        invariant 0 <= i <= |files|
        invariant loaded == Chosen(files[..i], filterWords)
      {
        assert files[..i + 1][..i] == files[..i];
        if Wanted(files[i], filterWords) {
          loaded := loaded + [files[i].sheaf];
        }
        i := i + 1;
      }
      assert files[..i] == files;
      var j := 0;
      while j < |loaded|
        invariant 0 <= j <= |loaded|
        invariant sheaves == old(sheaves) + loaded[..j]
      {
        assert loaded[..j + 1] == loaded[..j] + [loaded[j]];
        sheaves := sheaves + [loaded[j]];
        j := j + 1;
      }
      assert loaded[..j] == loaded;
    }

    /** `extractSheaves(level)`: every stored tree's name with its layer at `level`. */
    function ExtractSheaves(level: int): (r: seq<(string, seq<Sheaf>)>)
      reads this
      ensures |r| == |sheaves|
      ensures forall i | 0 <= i < |sheaves| :: r[i].0 == sheaves[i].name
      ensures forall i | 0 <= i < |sheaves| :: forall t :: t in r[i].1 <==> AtDepth(sheaves[i], level, t)
    {
      assert forall i | 0 <= i < |sheaves| :: forall t :: t in RetrieveLayer(sheaves[i], level) <==> AtDepth(sheaves[i], level, t) by {
        forall i, t | 0 <= i < |sheaves|
          ensures t in RetrieveLayer(sheaves[i], level) <==> AtDepth(sheaves[i], level, t)
        {
          RetrieveLayerAtDepth(sheaves[i], level, t);
        }
      }
      seq(|sheaves|, i requires 0 <= i < |sheaves| reads this => (sheaves[i].name, RetrieveLayer(sheaves[i], level)))
    }

    /** The nodes `evaluateMeasure` scores: the layers at `level`, tree after tree. */
    function LayerNodes(level: int): seq<Sheaf>
      reads this
    {
      Concat(ExtractSheaves(level))
    }

    /** A node is scored exactly when it lies `level` steps below one of the stored
        roots. */
    lemma LayerNodesAtDepth(level: int, t: Sheaf)
      ensures t in LayerNodes(level) <==> exists i :: 0 <= i < |sheaves| && AtDepth(sheaves[i], level, t)
    {
      var layers := ExtractSheaves(level);
      forall i | 0 <= i < |sheaves|
        ensures t in layers[i].1 <==> AtDepth(sheaves[i], level, t)
      {
        RetrieveLayerAtDepth(sheaves[i], level, t);
      }
    }

    /** `evaluateMeasure(startingLayer, measureLayer, measure)`: every node of the
        starting layer paired with the measure it receives from `measureLayer -
        startingLayer` levels further down. It fails as soon as one score does. */
    function EvaluateMeasure(startingLayer: int, measureLayer: int, sim: Sim): (r: Outcome<seq<(string, real)>>)
      reads this
      ensures r.Fail? <==>
                exists k :: 0 <= k < |LayerNodes(startingLayer)| &&
                  TransferDown(LayerNodes(startingLayer)[k], measureLayer - startingLayer, sim).Fail?
      ensures r.Ok? ==> |r.value| == |LayerNodes(startingLayer)|
      ensures r.Ok? ==>
                forall k | 0 <= k < |LayerNodes(startingLayer)| ::
                  r.value[k].0 == LayerNodes(startingLayer)[k].name &&
                  TransferDown(LayerNodes(startingLayer)[k], measureLayer - startingLayer, sim) == Ok(r.value[k].1)
    {
      Scores(LayerNodes(startingLayer), measureLayer - startingLayer, sim)
    }

    /** Below the starting layer each score is sparse: 0.0 or at least the node's
        threshold `1/max(1, |partitions|)`; on the starting layer itself it is the
        partitions' average. */
    lemma EvaluateMeasureSparse(startingLayer: int, measureLayer: int, sim: Sim, k: nat)
      requires EvaluateMeasure(startingLayer, measureLayer, sim).Ok?
      requires k < |LayerNodes(startingLayer)|
      ensures var v := EvaluateMeasure(startingLayer, measureLayer, sim).value[k].1;
              var node := LayerNodes(startingLayer)[k];
        (measureLayer != startingLayer ==> v == 0.0 || v >= Threshold(node)) &&
        (measureLayer == startingLayer ==> MeasurePartitions(node, sim) == Ok(v))
    {
    }

    /** With non-negative weights and a non-negative similarity, every score is
        non-negative. */
    lemma EvaluateMeasureNonNegative(startingLayer: int, measureLayer: int, sim: Sim, k: nat)
      requires NonNegativeSim(sim)
      requires forall t | t in LayerNodes(startingLayer) :: NonNegativeWeights(t)
      requires EvaluateMeasure(startingLayer, measureLayer, sim).Ok?
      requires k < |LayerNodes(startingLayer)|
      ensures EvaluateMeasure(startingLayer, measureLayer, sim).value[k].1 >= 0.0
    {
      var nodes := LayerNodes(startingLayer);
      TransferDownNonNegative(nodes[k], measureLayer - startingLayer, sim);
    }

    /** `inferMetric(text, startingLayer, measureLayer, doNormalize, reductionMethod)`:
        the scores of the starting layer against the text, keyed by node name (a later
        node of the same name overwrites an earlier one), normalized when asked. */
    ghost function InferMetric(text: string, startingLayer: int, measureLayer: int, doNormalize: bool,
                               reduction: ReductionMethod, tokenize: string -> seq<string>,
                               dist: (string, string) -> real): (r: Outcome<TopicMixtureResult>)
      reads this
      ensures var sim := BindSims(text, reduction, tokenize, dist);
        r.Fail? <==> EvaluateMeasure(startingLayer, measureLayer, sim).Fail?
      ensures r.Ok? ==> r.value.kld == 0.0 && r.value.results.Keys == Names(LayerNodes(startingLayer))
      ensures r.Ok? && !doNormalize ==> forall n | n in r.value.results :: r.value.results[n].Finite?
    {
      var sim := BindSims(text, reduction, tokenize, dist);
      var scores := EvaluateMeasure(startingLayer, measureLayer, sim);
      if scores.Fail? then Fail(scores.failure)
      else
        ScoreKeys(scores.value, LayerNodes(startingLayer));
        Ok(Mixture(scores.value, doNormalize))
    }

    /** The value `inferMetric` reports for a node is that node's score when no later
        node shares its name, divided by the total of all scores when normalizing. */
    lemma InferMetricValue(text: string, startingLayer: int, measureLayer: int, doNormalize: bool,
                           reduction: ReductionMethod, tokenize: string -> seq<string>,
                           dist: (string, string) -> real, k: nat)
      requires InferMetric(text, startingLayer, measureLayer, doNormalize, reduction, tokenize, dist).Ok?
      requires var scores := EvaluateMeasure(startingLayer, measureLayer, BindSims(text, reduction, tokenize, dist));
        scores.Ok? && k < |scores.value| && IsLast(scores.value, k)
      ensures var scores := EvaluateMeasure(startingLayer, measureLayer, BindSims(text, reduction, tokenize, dist)).value;
              var total := SumOfValues(ToMap(scores));
              var results := InferMetric(text, startingLayer, measureLayer, doNormalize, reduction, tokenize, dist).value.results;
        (!doNormalize ==> results[scores[k].0] == Finite(scores[k].1)) &&
        (doNormalize && total != 0.0 ==> results[scores[k].0] == Finite(scores[k].1 / total))
    {
      var scores := EvaluateMeasure(startingLayer, measureLayer, BindSims(text, reduction, tokenize, dist)).value;
      ToMapLast(scores, k);
    }

    /** Normalized results that are finite sum to 1. */
    lemma InferMetricSumsToOne(text: string, startingLayer: int, measureLayer: int,
                               reduction: ReductionMethod, tokenize: string -> seq<string>,
                               dist: (string, string) -> real)
      requires InferMetric(text, startingLayer, measureLayer, true, reduction, tokenize, dist).Ok?
      requires SumOfValues(ToMap(EvaluateMeasure(startingLayer, measureLayer, BindSims(text, reduction, tokenize, dist)).value)) != 0.0
      ensures SumOfValues(FiniteParts(InferMetric(text, startingLayer, measureLayer, true, reduction, tokenize, dist).value.results)) == 1.0
    {
    }
  }
}
