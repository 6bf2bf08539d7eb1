/** The edge table every stage works on, and the `Data` store the splits are returned in.
    Line numbers in this module refer to `tgn/utils/data_processing.py`. */
module Interactions {
  import opened Sequences

  /** The data frame `graph_df`, one parallel sequence per column: source `u`, destination `i`,
      timestamp `ts`, edge id `idx`, `label` (field `labels`, since `label` is a Dafny keyword) and `weight`. */
  datatype Table = Table(u: seq<int>, i: seq<int>, ts: seq<real>, idx: seq<int>, labels: seq<int>, weight: seq<real>)
  {
    /** Every column has one entry per row. */
    predicate WellFormed() {
      |i| == |u| && |ts| == |u| && |idx| == |u| && |labels| == |u| && |weight| == |u|
    }

    function Len(): nat {
      |u|
    }
  }

  /** One interaction store: the six sequences `Data.__init__` keeps, with its derived
      statistics as member functions. Edge features are one weight per interaction. */
  datatype Data = Data(sources: seq<int>, destinations: seq<int>, timestamps: seq<real>,
                       edgeIdxs: seq<int>, labels: seq<int>, edgeFeatures: seq<real>)
  {
    /** All parallel sequences share one length. */
    predicate Aligned() {
      |destinations| == |sources| && |timestamps| == |sources| && |edgeIdxs| == |sources|
      && |labels| == |sources| && |edgeFeatures| == |sources|
    }

    /** `n_interactions`. */
    function NInteractions(): nat {
      |sources|
    }

    /** `unique_nodes`: every node that occurs as a source or as a destination. */
    function UniqueNodes(): (nodes: set<int>)
      ensures forall k :: 0 <= k < |sources| ==> sources[k] in nodes
      ensures forall k :: 0 <= k < |destinations| ==> destinations[k] in nodes
      ensures forall x :: x in nodes ==> x in sources || x in destinations
    {
      Elems(sources) + Elems(destinations)
    }

    /** `n_unique_nodes`. */
    function NUniqueNodes(): nat {
      |UniqueNodes()|
    }
  }

  /** The store `Data(sources[m], destinations[m], ..., edge_features[m])` built from the rows
      of `t` selected by the boolean mask `m`: row `j` of the store is the `j`-th selected row. */
  function Store(t: Table, features: seq<real>, m: seq<bool>): (d: Data)
    requires t.WellFormed() && |features| == t.Len() && |m| == t.Len()
    ensures d.Aligned()
    ensures d.NInteractions() == |TrueIndices(m)|
    ensures forall j :: 0 <= j < d.NInteractions() ==>
      && d.sources[j] == t.u[TrueIndices(m)[j]] && d.destinations[j] == t.i[TrueIndices(m)[j]]
      && d.timestamps[j] == t.ts[TrueIndices(m)[j]] && d.edgeIdxs[j] == t.idx[TrueIndices(m)[j]]
      && d.labels[j] == t.labels[TrueIndices(m)[j]] && d.edgeFeatures[j] == features[TrueIndices(m)[j]]
  {
    var ks := TrueIndices(m);
    Data(Gather(t.u, ks), Gather(t.i, ks), Gather(t.ts, ks),
         Gather(t.idx, ks), Gather(t.labels, ks), Gather(features, ks))
  }

  /** The nodes of a store are exactly the endpoints of the selected rows. */
  lemma StoreUniqueNodes(t: Table, features: seq<real>, m: seq<bool>, x: int)
    requires t.WellFormed() && |features| == t.Len() && |m| == t.Len()
    ensures x in Store(t, features, m).UniqueNodes() <==>
      exists k :: 0 <= k < |m| && m[k] && (t.u[k] == x || t.i[k] == x)
  {
    var ks := TrueIndices(m);
    var d := Store(t, features, m);
    if x in d.UniqueNodes() {
      if x in d.sources {
        var j :| 0 <= j < |d.sources| && d.sources[j] == x;
        assert m[ks[j]] && t.u[ks[j]] == x;
      } else {
        var j :| 0 <= j < |d.destinations| && d.destinations[j] == x;
        assert m[ks[j]] && t.i[ks[j]] == x;
      }
    }
    if exists k :: 0 <= k < |m| && m[k] && (t.u[k] == x || t.i[k] == x) {
      var k :| 0 <= k < |m| && m[k] && (t.u[k] == x || t.i[k] == x);
      var j :| 0 <= j < |ks| && ks[j] == k;
      assert d.sources[j] == t.u[k] && d.destinations[j] == t.i[k];
    }
  }
}
