/** The `only_positive_edges` option: drop the zero-weight rows and renumber the edge ids.
    Line numbers in this module refer to `tgn/utils/data_processing.py`. */
module PositiveEdges {
  import opened Sequences
  import opened Interactions

  /** The row mask `graph_df.weight != 0`. */
  function PositiveMask(t: Table): (m: seq<bool>)
    requires t.WellFormed()
    ensures |m| == t.Len()
    ensures forall k :: 0 <= k < |m| ==> (m[k] <==> t.weight[k] != 0.0)
  {
    seq(t.Len(), k requires 0 <= k < t.Len() => t.weight[k] != 0.0)
  }

  /** `range(1, n + 1)`. */
  function OneBased(n: nat): (r: seq<int>)
    ensures |r| == n
    ensures forall k :: 0 <= k < n ==> r[k] == k + 1
  {
    seq(n, k => k + 1)
  }

  /** `graph_df[graph_df.weight != 0]` followed by `idx = range(1, len + 1)`: the result holds
      exactly the rows of `t` with a nonzero weight, in their original order, every column but
      `idx` copied unchanged, and the edge ids renumbered 1..n. */
  function KeepPositive(t: Table): (r: Table)
    requires t.WellFormed()
    ensures r.WellFormed()
    ensures r.Len() == |TrueIndices(PositiveMask(t))|
    ensures forall j :: 0 <= j < r.Len() ==>
      && r.u[j] == t.u[TrueIndices(PositiveMask(t))[j]]
      && r.i[j] == t.i[TrueIndices(PositiveMask(t))[j]]
      && r.ts[j] == t.ts[TrueIndices(PositiveMask(t))[j]]
      && r.labels[j] == t.labels[TrueIndices(PositiveMask(t))[j]]
      && r.weight[j] == t.weight[TrueIndices(PositiveMask(t))[j]]
      && r.idx[j] == j + 1
    ensures forall j :: 0 <= j < r.Len() ==> r.weight[j] != 0.0
    ensures forall k :: 0 <= k < t.Len() ==> (t.weight[k] != 0.0 <==> k in TrueIndices(PositiveMask(t)))
    ensures forall j, j' :: 0 <= j < j' < r.Len() ==>
      TrueIndices(PositiveMask(t))[j] < TrueIndices(PositiveMask(t))[j']
  {
    var ks := TrueIndices(PositiveMask(t));
    Table(Gather(t.u, ks), Gather(t.i, ks), Gather(t.ts, ks), OneBased(|ks|),
          Gather(t.labels, ks), Gather(t.weight, ks))
  }

  /** Filtering is idempotent: a table without zero weights keeps every row (only `idx` is
      renumbered). */
  lemma {:induction false} KeepPositiveIdempotent(t: Table)
    requires t.WellFormed()
    ensures KeepPositive(KeepPositive(t)) == KeepPositive(t)
  {
    var r := KeepPositive(t);
    var m := PositiveMask(r);
    AllTrueIndices(m);
    var id := seq(r.Len(), k => k);
    GatherAll(r.u);
    GatherAll(r.i);
    GatherAll(r.ts);
    GatherAll(r.labels);
    GatherAll(r.weight);
    assert KeepPositive(r) == Table(Gather(r.u, id), Gather(r.i, id), Gather(r.ts, id), OneBased(r.Len()),
                                    Gather(r.labels, id), Gather(r.weight, id));
  }

  /** Gathering every position in order gives the sequence back. */
  lemma GatherAll<T>(s: seq<T>)
    ensures Gather(s, seq(|s|, k => k)) == s
  {
  }

  /** On an all-true mask `TrueIndices` selects every position. */
  lemma {:induction false} AllTrueIndices(m: seq<bool>)
    requires forall k :: 0 <= k < |m| ==> m[k]
    ensures TrueIndices(m) == seq(|m|, k => k)
    decreases |m|
  {
    if |m| > 0 {
      AllTrueIndices(m[..|m| - 1]);
    }
  }
}
