/** `get_data` end to end: the weight column is attached, the optional edge filter, densification
    and rescaling or per-node normalization are applied in the order of lines 77-156, and the
    result is split. Line numbers in this module refer to `tgn/utils/data_processing.py`. */
module Pipeline {
  import opened Sequences
  import opened Interactions
  import opened PositiveEdges
  import opened Densification
  import opened NodeNormalization
  import opened TemporalSplit

  /** The boolean options of `get_data` that shape the data. */
  datatype Config = Config(onlyPositiveEdges: bool, fillAllEdges: bool,
                           maxNormalization: bool, logarithmizeWeights: bool,
                           nodeOutNormalization: bool, nodeInNormalization: bool,
                           differentNewNodes: bool)

  /** `graph_df['weight'] = edge_features[1:]`: row `k` gets feature `k + 1`, the first feature
      row being the padding row of edge id 0. */
  function AttachWeights(t: Table, edgeFeatures: seq<real>): (r: Table)
    requires t.WellFormed() && |edgeFeatures| == t.Len() + 1
    ensures r.WellFormed() && r.Len() == t.Len()
    ensures r.u == t.u && r.i == t.i && r.ts == t.ts && r.idx == t.idx && r.labels == t.labels
    ensures forall k :: 0 <= k < r.Len() ==> r.weight[k] == edgeFeatures[k + 1]
  {
    t.(weight := edgeFeatures[1..])
  }

  /** `np.maximum(xs, floor)`. */
  function AtLeast(xs: seq<real>, floor: real): (r: seq<real>)
    ensures |r| == |xs|
    ensures forall k :: 0 <= k < |r| ==> floor <= r[k] && (xs[k] < floor ==> r[k] == floor)
    ensures forall k :: 0 <= k < |r| ==> floor <= xs[k] ==> r[k] == xs[k]
  {
    seq(|xs|, k requires 0 <= k < |xs| => if xs[k] < floor then floor else xs[k])
  }

  /** The table after the edge filter (lines 80-82) and densification (lines 86-106). */
  function PreparedTable(t: Table, cfg: Config): (r: Table)
    requires t.WellFormed()
    ensures r.WellFormed()
  {
    var t1 := if cfg.onlyPositiveEdges then KeepPositive(t) else t;
    if cfg.fillAllEdges then Densified(t1) else t1
  }

  /** The weight column after the out pass (lines 127-138) and then the in pass (lines 141-154),
      each when asked. */
  function NormalizedWeights(p: Table, cfg: Config): (r: seq<real>)
    requires p.WellFormed()
    ensures |r| == p.Len()
  {
    var w1 := if cfg.nodeOutNormalization then Normalized(p.u, p.ts, p.weight) else p.weight;
    if cfg.nodeInNormalization then Normalized(p.i, p.ts, w1) else w1
  }

  /** The table `get_data` splits: the prepared table, whose weight column the node normalization
      passes rewrite in place when they run. */
  function FinalTable(t: Table, cfg: Config): (r: Table)
    requires t.WellFormed()
    ensures r.WellFormed() && r.Len() == PreparedTable(t, cfg).Len()
    ensures r.u == PreparedTable(t, cfg).u && r.i == PreparedTable(t, cfg).i
    ensures r.ts == PreparedTable(t, cfg).ts && r.idx == PreparedTable(t, cfg).idx
    ensures r.labels == PreparedTable(t, cfg).labels
  {
    var p := PreparedTable(t, cfg);
    if cfg.nodeOutNormalization || cfg.nodeInNormalization then p.(weight := NormalizedWeights(p, cfg)) else p
  }

  /** The edge features `get_data` ends with (lines 113-156): the weight column, min-max scaled
      and log-floored when asked; but when either node normalization runs, the normalized weight
      column replaces them. `minMax` and `log10` stand for the library routines. */
  function PreparedFeatures(t: Table, cfg: Config, minMax: seq<real> -> seq<real>,
                            log10: seq<real> -> seq<real>): (r: seq<real>)
    requires t.WellFormed()
    requires forall s :: |minMax(s)| == |s|
    requires forall s :: |log10(s)| == |s|
    ensures |r| == PreparedTable(t, cfg).Len()
  {
    var p := PreparedTable(t, cfg);
    if cfg.nodeOutNormalization || cfg.nodeInNormalization then NormalizedWeights(p, cfg)
    else
      var f1 := if cfg.maxNormalization then minMax(p.weight) else p.weight;
      if cfg.logarithmizeWeights then AtLeast(log10(f1), 0.001) else f1
  }

  /** Lines 77-156 as the program runs them: the filter, the densification loop, the rescaling,
      and the two in-place normalization passes over the weight column. */
  method Prepare(t: Table, edgeFeatures: seq<real>, cfg: Config,
                 minMax: seq<real> -> seq<real>, log10: seq<real> -> seq<real>)
    returns (table: Table, features: seq<real>)
    requires t.WellFormed() && |edgeFeatures| == t.Len() + 1
    requires forall s :: |minMax(s)| == |s|
    requires forall s :: |log10(s)| == |s|
    ensures table == FinalTable(AttachWeights(t, edgeFeatures), cfg)
    ensures features == PreparedFeatures(AttachWeights(t, edgeFeatures), cfg, minMax, log10)
  {
    table := AttachWeights(t, edgeFeatures);
    if cfg.onlyPositiveEdges {
      table := KeepPositive(table);
    }
    if cfg.fillAllEdges {
      table := Densify(table);
    }
    features := table.weight;
    if cfg.maxNormalization {
      features := minMax(features);
    }
    if cfg.logarithmizeWeights {
      features := AtLeast(log10(features), 0.001);
    }
    if cfg.nodeOutNormalization || cfg.nodeInNormalization {
      var w := NormalizeWeights(table, cfg);
      features := w;
      table := table.(weight := w);
    }
  }

  /** Lines 127-154: the out pass and then the in pass, each when asked, over one array holding
      the weight column. */
  method NormalizeWeights(table: Table, cfg: Config) returns (weights: seq<real>)
    requires table.WellFormed()
    ensures weights == NormalizedWeights(table, cfg)
  {
    var w := new real[table.Len()](k requires 0 <= k < table.Len() => table.weight[k]);
    assert w[..] == table.weight;
    if cfg.nodeOutNormalization {
      NormalizeByNode(table.u, table.ts, w);
    }
    if cfg.nodeInNormalization {
      NormalizeByNode(table.i, table.ts, w);
    }
    weights := w[..];
  }

  /** `get_data` without its I/O: the prepared data, split. */
  method GetData(t: Table, edgeFeatures: seq<real>, cfg: Config,
                 minMax: seq<real> -> seq<real>, log10: seq<real> -> seq<real>,
                 valTime: real, testTime: real, order: seq<int>)
    returns (r: Result<Splits, SplitError>)
    requires t.WellFormed() && |edgeFeatures| == t.Len() + 1
    requires forall s :: |minMax(s)| == |s|
    requires forall s :: |log10(s)| == |s|
    requires var p := FinalTable(AttachWeights(t, edgeFeatures), cfg);
      SampleSize(p) <= |TestNodeSet(p, valTime)| ==> IsSample(order, TestNodeSet(p, valTime), SampleSize(p))
    ensures r == Split(FinalTable(AttachWeights(t, edgeFeatures), cfg),
                       PreparedFeatures(AttachWeights(t, edgeFeatures), cfg, minMax, log10),
                       valTime, testTime, order, cfg.differentNewNodes)
  {
    var table, features := Prepare(t, edgeFeatures, cfg, minMax, log10);
    r := Split(table, features, valTime, testTime, order, cfg.differentNewNodes);
  }

  /** Either node normalization discards the min-max and log rescaling: the features do not
      depend on those routines at all. */
  lemma NormalizationDiscardsRescaling(t: Table, cfg: Config,
                                       minMax: seq<real> -> seq<real>, log10: seq<real> -> seq<real>,
                                       minMax': seq<real> -> seq<real>, log10': seq<real> -> seq<real>)
    requires t.WellFormed() && (cfg.nodeOutNormalization || cfg.nodeInNormalization)
    requires forall s :: |minMax(s)| == |s|
    requires forall s :: |log10(s)| == |s|
    requires forall s :: |minMax'(s)| == |s|
    requires forall s :: |log10'(s)| == |s|
    ensures PreparedFeatures(t, cfg, minMax, log10) == PreparedFeatures(t, cfg, minMax', log10')
    ensures PreparedFeatures(t, cfg, minMax, log10) == PreparedFeatures(t, cfg.(maxNormalization := false, logarithmizeWeights := false), minMax, log10)
  {
  }

  /** With the out pass alone, every `(source, timestamp)` group of the features sums to 1, or
      to 0 when its weights summed to 0. */
  lemma OutNormalizedGroups(t: Table, cfg: Config, minMax: seq<real> -> seq<real>,
                            log10: seq<real> -> seq<real>, x: int, time: real)
    requires t.WellFormed() && cfg.nodeOutNormalization && !cfg.nodeInNormalization
    requires forall s :: |minMax(s)| == |s|
    requires forall s :: |log10(s)| == |s|
    ensures var p := PreparedTable(t, cfg);
      GroupSum(p.u, p.ts, PreparedFeatures(t, cfg, minMax, log10), x, time) ==
        if GroupSum(p.u, p.ts, p.weight, x, time) != 0.0 then 1.0 else 0.0
  {
    var p := PreparedTable(t, cfg);
    NormalizedGroupSum(p.u, p.ts, p.weight, x, time);
  }

  /** With the in pass, every `(destination, timestamp)` group of the features sums to 1, or to
      0 when its weights summed to 0 after the out pass (if any) had run. */
  lemma InNormalizedGroups(t: Table, cfg: Config, minMax: seq<real> -> seq<real>,
                           log10: seq<real> -> seq<real>, x: int, time: real)
    requires t.WellFormed() && cfg.nodeInNormalization
    requires forall s :: |minMax(s)| == |s|
    requires forall s :: |log10(s)| == |s|
    ensures var p := PreparedTable(t, cfg);
      var w1 := if cfg.nodeOutNormalization then Normalized(p.u, p.ts, p.weight) else p.weight;
      GroupSum(p.i, p.ts, PreparedFeatures(t, cfg, minMax, log10), x, time) ==
        if GroupSum(p.i, p.ts, w1, x, time) != 0.0 then 1.0 else 0.0
  {
    var p := PreparedTable(t, cfg);
    var w1 := if cfg.nodeOutNormalization then Normalized(p.u, p.ts, p.weight) else p.weight;
    NormalizedGroupSum(p.i, p.ts, w1, x, time);
  }

  /** Without node normalization, logarithmized features are never below 0.001. */
  lemma LogFeaturesFloored(t: Table, cfg: Config, minMax: seq<real> -> seq<real>, log10: seq<real> -> seq<real>)
    requires t.WellFormed() && cfg.logarithmizeWeights
    requires !cfg.nodeOutNormalization && !cfg.nodeInNormalization
    requires forall s :: |minMax(s)| == |s|
    requires forall s :: |log10(s)| == |s|
    ensures forall k :: 0 <= k < |PreparedFeatures(t, cfg, minMax, log10)| ==>
      0.001 <= PreparedFeatures(t, cfg, minMax, log10)[k]
  {
  }
}
