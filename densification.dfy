/** The `fill_all_edges` option: materialise every ordered node pair at every timestamp,
    keep the original weight where the edge exists and 0 where it does not. Line numbers in this
    module refer to `tgn/utils/data_processing.py`. */
module Densification {
  import opened Sequences
  import opened Interactions

  /** One row `[u, i, ts, weight]` of the candidate frame and of the joined frame. */
  datatype Edge = Edge(u: int, i: int, ts: real, weight: real)

  /** `[[x, y, t, 0] for x in xs for y in ys]`: every pair with `x` from `xs` and `y` from `ys`,
      grouped by `x`. */
  function PairsAt(xs: seq<int>, ys: seq<int>, t: real): (r: seq<Edge>)
    ensures |r| == |xs| * |ys|
    ensures forall e :: e in r <==> e.u in xs && e.i in ys && e.ts == t && e.weight == 0.0
    decreases |xs|
  {
    if |xs| == 0 then []
    else
      var row := seq(|ys|, b requires 0 <= b < |ys| => Edge(xs[0], ys[b], t, 0.0));
      var rest := PairsAt(xs[1..], ys, t);
      assert forall e :: e in row <==> e.u == xs[0] && e.i in ys && e.ts == t && e.weight == 0.0 by {
        forall e: Edge | e.u == xs[0] && e.i in ys && e.ts == t && e.weight == 0.0 ensures e in row {
          var b :| 0 <= b < |ys| && ys[b] == e.i;
          assert row[b] == e;
        }
      }
      assert xs == [xs[0]] + xs[1..];
      row + rest
  }

  /** Position `a * m + b`, with `a < n` and `b < m`, lies in block `a` of `n` blocks of size `m`. */
  lemma BlockIndex(a: int, b: int, n: int, m: int)
    requires 0 <= a < n && 0 <= b < m
    ensures 0 <= a * m + b < n * m
    ensures 0 < a ==> a * m + b == m + ((a - 1) * m + b) && (a - 1) * m + b < (n - 1) * m
  {
    assert (a + 1) * m <= n * m;
  }

  /** The pair `(xs[a], ys[b])` is row `a * |ys| + b` of `PairsAt`: x-major order. */
  lemma {:induction false} PairsAtIndex(xs: seq<int>, ys: seq<int>, t: real, a: nat, b: nat)
    requires a < |xs| && b < |ys|
    ensures a * |ys| + b < |PairsAt(xs, ys, t)|
    ensures PairsAt(xs, ys, t)[a * |ys| + b] == Edge(xs[a], ys[b], t, 0.0)
    decreases a
  {
    BlockIndex(a, b, |xs|, |ys|);
    if a > 0 {
      PairsAtIndex(xs[1..], ys, t, a - 1, b);
    }
  }

  /** The candidate frame after the loop has gone through the timestamps `uts`: for each
      timestamp in turn, every ordered pair over `nodes`. */
  function AllPairs(uts: seq<real>, nodes: seq<int>): (r: seq<Edge>)
    ensures |r| == |uts| * (|nodes| * |nodes|)
    ensures forall e :: e in r <==> e.u in nodes && e.i in nodes && e.ts in uts && e.weight == 0.0
    decreases |uts|
  {
    if |uts| == 0 then []
    else
      var n := |uts| - 1;
      assert uts == uts[..n] + [uts[n]];
      AllPairs(uts[..n], nodes) + PairsAt(nodes, nodes, uts[n])
  }

  /** Block `c` of `|nodes|^2` rows of `AllPairs` holds the pairs of timestamp `uts[c]`: the
      timestamps follow the order of `uts`. */
  lemma {:induction false} AllPairsIndex(uts: seq<real>, nodes: seq<int>, c: nat, j: nat)
    requires c < |uts| && j < |nodes| * |nodes|
    ensures c * (|nodes| * |nodes|) + j < |AllPairs(uts, nodes)|
    ensures AllPairs(uts, nodes)[c * (|nodes| * |nodes|) + j] == PairsAt(nodes, nodes, uts[c])[j]
    decreases |uts|
  {
    var n := |uts| - 1;
    var size := |nodes| * |nodes|;
    var front := AllPairs(uts[..n], nodes);
    assert AllPairs(uts, nodes) == front + PairsAt(nodes, nodes, uts[n]);
    assert |front| == n * size;
    BlockIndex(c, j, |uts|, size);
    if c < n {
      BlockIndex(c, j, n, size);
      AllPairsIndex(uts[..n], nodes, c, j);
      assert uts[..n][c] == uts[c];
    } else {
      assert c * size + j - |front| == j;
    }
  }

  /** The node list the loop recomputes on every iteration:
      `np.union1d(pd.unique(graph_df['u']), pd.unique(graph_df['i']))`. */
  function GlobalNodes(t: Table): (nodes: seq<int>)
    requires t.WellFormed()
    ensures StrictlyIncreasing(nodes)
    ensures forall x :: x in nodes <==> x in t.u || x in t.i
  {
    Union1d(Unique(t.u), Unique(t.i))
  }

  /** The whole candidate frame of `t`. */
  function Candidates(t: Table): (r: seq<Edge>)
    requires t.WellFormed()
    ensures |r| == |Unique(t.ts)| * (|GlobalNodes(t)| * |GlobalNodes(t)|)
    ensures forall e :: e in r <==>
      (e.u in t.u || e.u in t.i) && (e.i in t.u || e.i in t.i) && e.ts in t.ts && e.weight == 0.0
  {
    var uts := Unique(t.ts);
    assert forall x :: x in uts <==> x in t.ts;
    AllPairs(uts, GlobalNodes(t))
  }

  /** Lines 89-96: for every distinct timestamp, in order of first appearance, append all
      ordered pairs over the global node set (recomputed each time, never filtered by `t`). */
  method BuildCandidates(t: Table) returns (all: seq<Edge>)
    requires t.WellFormed()
    ensures all == Candidates(t)
  {
    var uts := Unique(t.ts);
    all := [];
    var k := 0;
    while k < |uts|
      invariant 0 <= k <= |uts|
      invariant all == AllPairs(uts[..k], GlobalNodes(t))
    {
      var nodes := Union1d(Unique(t.u), Unique(t.i));
      var edges := PairsAt(nodes, nodes, uts[k]);
      assert uts[..k + 1][..k] == uts[..k];
      all := all + edges;
      k := k + 1;
    }
    assert uts[..k] == uts;
  }

  /** Row `k` of `t` has the merge key `(u, i, ts)` of `e`. */
  predicate SameKey(t: Table, k: nat, e: Edge)
    requires t.WellFormed() && k < t.Len()
  {
    t.u[k] == e.u && t.i[k] == e.i && t.ts[k] == e.ts
  }

  /** The row mask of the rows of `t` whose merge key `(u, i, ts)` equals that of `e`. */
  function KeyMask(t: Table, e: Edge): (m: seq<bool>)
    requires t.WellFormed()
    ensures |m| == t.Len()
    ensures forall k :: 0 <= k < t.Len() ==> (m[k] <==> SameKey(t, k, e))
  {
    seq(t.Len(), k requires 0 <= k < t.Len() => SameKey(t, k, e))
  }

  /** No row of `t` has the merge key of `e`. */
  predicate NoMatch(t: Table, e: Edge)
    requires t.WellFormed()
  {
    forall k :: 0 <= k < t.Len() ==> !SameKey(t, k, e)
  }

  /** `x` is a row the left merge can produce for candidate `e`: `e`'s key, with the weight of a
      row of `t` having that key, or `e` unchanged when no row has it. */
  predicate MergedRow(t: Table, e: Edge, x: Edge)
    requires t.WellFormed()
  {
    && x.u == e.u && x.i == e.i && x.ts == e.ts
    && ((exists k :: 0 <= k < t.Len() && SameKey(t, k, e) && x.weight == t.weight[k])
        || (NoMatch(t, e) && x.weight == e.weight))
  }

  /** What one candidate row becomes in the left merge: one row per matching row of `t`, carrying
      that row's weight (`weight_y` filled over `weight_x`), or the candidate itself, weight 0,
      when nothing matches. */
  function JoinOne(e: Edge, t: Table): (r: seq<Edge>)
    requires t.WellFormed()
    ensures |r| >= 1
    ensures forall x :: x in r ==> MergedRow(t, e, x)
    ensures forall k :: 0 <= k < t.Len() && SameKey(t, k, e) ==> e.(weight := t.weight[k]) in r
    ensures NoMatch(t, e) ==> r == [e]
  {
    var ks := TrueIndices(KeyMask(t, e));
    if |ks| == 0 then [e]
    else
      var r := seq(|ks|, j requires 0 <= j < |ks| => e.(weight := t.weight[ks[j]]));
      assert SameKey(t, ks[0], e);
      assert forall x :: x in r ==> MergedRow(t, e, x) by {
        forall x | x in r
          ensures MergedRow(t, e, x)
        {
          var j :| 0 <= j < |ks| && r[j] == x;
          assert SameKey(t, ks[j], e);
        }
      }
      assert forall k :: 0 <= k < t.Len() && SameKey(t, k, e) ==> e.(weight := t.weight[k]) in r by {
        forall k | 0 <= k < t.Len() && SameKey(t, k, e)
          ensures e.(weight := t.weight[k]) in r
        {
          var j :| 0 <= j < |ks| && ks[j] == k;
          assert r[j] == e.(weight := t.weight[k]);
        }
      }
      r
  }

  /** A candidate with matches merges into exactly as many rows as it has matching rows, one per
      match in row order, so equal weights of two matches stay two rows. */
  lemma JoinOneCount(e: Edge, t: Table)
    requires t.WellFormed()
    ensures !NoMatch(t, e) ==> |JoinOne(e, t)| == |TrueIndices(KeyMask(t, e))|
    ensures !NoMatch(t, e) ==> forall j :: 0 <= j < |JoinOne(e, t)| ==>
      JoinOne(e, t)[j] == e.(weight := t.weight[TrueIndices(KeyMask(t, e))[j]])
  {
    if !NoMatch(t, e) {
      var k :| 0 <= k < t.Len() && SameKey(t, k, e);
      assert k in TrueIndices(KeyMask(t, e));
    }
  }

  /** `pd.merge(candidates, t, on=['u', 'i', 'ts'], how='left')`, keeping the candidates' order:
      every merged row comes from a candidate, carrying the weight of a row with its key or, with
      no such row, its own; every matching pair and every unmatched candidate is present. */
  function LeftJoin(cands: seq<Edge>, t: Table): (r: seq<Edge>)
    requires t.WellFormed()
    ensures forall x :: x in r ==> exists j :: 0 <= j < |cands| && MergedRow(t, cands[j], x)
    ensures forall j, k :: 0 <= j < |cands| && 0 <= k < t.Len() && SameKey(t, k, cands[j]) ==>
      cands[j].(weight := t.weight[k]) in r
    ensures forall j :: 0 <= j < |cands| && NoMatch(t, cands[j]) ==> cands[j] in r
  {
    var ss := seq(|cands|, k requires 0 <= k < |cands| => JoinOne(cands[k], t));
    assert forall x :: x in Flatten(ss) ==> exists j :: 0 <= j < |cands| && MergedRow(t, cands[j], x) by {
      forall x | x in Flatten(ss)
        ensures exists j :: 0 <= j < |cands| && MergedRow(t, cands[j], x)
      {
        FlattenMember(ss, x);
        var j :| 0 <= j < |ss| && x in ss[j];
        assert MergedRow(t, cands[j], x);
      }
    }
    assert forall j, k :: 0 <= j < |cands| && 0 <= k < t.Len() && SameKey(t, k, cands[j]) ==>
      cands[j].(weight := t.weight[k]) in Flatten(ss) by {
      forall j, k | 0 <= j < |cands| && 0 <= k < t.Len() && SameKey(t, k, cands[j])
        ensures cands[j].(weight := t.weight[k]) in Flatten(ss)
      {
        assert cands[j].(weight := t.weight[k]) in ss[j];
        FlattenMember(ss, cands[j].(weight := t.weight[k]));
      }
    }
    assert forall j :: 0 <= j < |cands| && NoMatch(t, cands[j]) ==> cands[j] in Flatten(ss) by {
      forall j | 0 <= j < |cands| && NoMatch(t, cands[j])
        ensures cands[j] in Flatten(ss)
      {
        FlattenMember(ss, cands[j]);
        assert cands[j] in ss[j];
      }
    }
    Flatten(ss)
  }

  /** The merge key of row `k`, as a candidate row. */
  function KeyOf(t: Table, k: nat): Edge
    requires t.WellFormed() && k < t.Len()
  {
    Edge(t.u[k], t.i[k], t.ts[k], 0.0)
  }

  /** No two rows of `t` share a merge key. */
  predicate KeysUnique(t: Table)
    requires t.WellFormed()
  {
    forall k, k' :: 0 <= k < k' < t.Len() ==> !SameKey(t, k', KeyOf(t, k))
  }

  /** The weight the merge gives candidate `e`: that of the row with its key, 0 if none. */
  function JoinedWeight(t: Table, e: Edge): real
    requires t.WellFormed()
  {
    var ks := TrueIndices(KeyMask(t, e));
    if |ks| == 0 then e.weight else t.weight[ks[0]]
  }

  /** With unique keys, the merged weight of a candidate is the weight of the row with its key,
      and the candidate's own weight 0 when there is none. */
  lemma JoinedWeightIsLookup(t: Table, e: Edge)
    requires t.WellFormed() && KeysUnique(t) && e.weight == 0.0
    ensures forall k :: 0 <= k < t.Len() && SameKey(t, k, e) ==> JoinedWeight(t, e) == t.weight[k]
    ensures (forall k :: 0 <= k < t.Len() ==> !SameKey(t, k, e)) ==> JoinedWeight(t, e) == 0.0
  {
    AtMostOneMatch(e, t);
    if forall k :: 0 <= k < t.Len() ==> !SameKey(t, k, e) {
      NoTrueIndices(KeyMask(t, e));
    }
  }

  lemma AtMostOneMatch(e: Edge, t: Table)
    requires t.WellFormed() && KeysUnique(t)
    ensures |TrueIndices(KeyMask(t, e))| <= 1
  {
    var m := KeyMask(t, e);
    forall k, k' | 0 <= k < k' < |m| && m[k]
      ensures !m[k']
    {
      assert !SameKey(t, k', KeyOf(t, k));
    }
    AtMostOneTrueIndex(m);
  }

  /** Candidate `e` with the weight the merge gives it. */
  function Filled(t: Table, e: Edge): Edge
    requires t.WellFormed()
  {
    e.(weight := JoinedWeight(t, e))
  }

  /** With unique keys every candidate matches at most one row. */
  lemma JoinOneUnique(e: Edge, t: Table)
    requires t.WellFormed() && KeysUnique(t)
    ensures JoinOne(e, t) == [Filled(t, e)]
  {
    AtMostOneMatch(e, t);
  }

  /** With unique keys the left merge is row-for-row: candidate `j` becomes joined row `j`, with
      the original weight if its key exists in `t` and weight 0 otherwise. */
  lemma LeftJoinUniqueKeys(cands: seq<Edge>, t: Table)
    requires t.WellFormed() && KeysUnique(t)
    ensures |LeftJoin(cands, t)| == |cands|
    ensures forall j :: 0 <= j < |cands| ==> LeftJoin(cands, t)[j] == Filled(t, cands[j])
  {
    var ss := seq(|cands|, k requires 0 <= k < |cands| => JoinOne(cands[k], t));
    var xs := seq(|cands|, k requires 0 <= k < |cands| => Filled(t, cands[k]));
    forall k | 0 <= k < |cands|
      ensures ss[k] == [xs[k]]
    {
      JoinOneUnique(cands[k], t);
    }
    FlattenSingletons(ss, xs);
  }

  /** numpy's float-to-int32 cast: truncation toward zero. */
  function Trunc(r: real): (n: int)
    ensures 0.0 <= r ==> 0 <= n && n as real <= r < n as real + 1.0
    ensures r < 0.0 ==> n <= 0 && n as real - 1.0 < r <= n as real
  {
    if r >= 0.0 then r.Floor else -((-r).Floor)
  }

  /** An int64-to-int32 cast: two's-complement wrap-around. */
  function Wrap32(x: int): (n: int)
    ensures -0x8000_0000 <= n < 0x8000_0000
    ensures (n - x) % 0x1_0000_0000 == 0
    ensures -0x8000_0000 <= x < 0x8000_0000 ==> n == x
  {
    (x + 0x8000_0000) % 0x1_0000_0000 - 0x8000_0000
  }

  /** Lines 103-106: keep `u, i, ts, weight`, set every label to 0, number the rows 1..n, and
      cast every column to int32. */
  function CastRows(rows: seq<Edge>): (r: Table)
    ensures r.WellFormed() && r.Len() == |rows|
    ensures forall k :: 0 <= k < |rows| ==>
      && r.u[k] == Wrap32(rows[k].u) && r.i[k] == Wrap32(rows[k].i)
      && r.ts[k] == Trunc(rows[k].ts) as real && r.weight[k] == Trunc(rows[k].weight) as real
      && r.labels[k] == 0 && r.idx[k] == Wrap32(k + 1)
  {
    var n := |rows|;
    Table(seq(n, k requires 0 <= k < n => Wrap32(rows[k].u)),
          seq(n, k requires 0 <= k < n => Wrap32(rows[k].i)),
          seq(n, k requires 0 <= k < n => Trunc(rows[k].ts) as real),
          seq(n, k => Wrap32(k + 1)),
          seq(n, k => 0),
          seq(n, k requires 0 <= k < n => Trunc(rows[k].weight) as real))
  }

  /** The joined frame of `t`. */
  function Joined(t: Table): seq<Edge>
    requires t.WellFormed()
  {
    LeftJoin(Candidates(t), t)
  }

  /** The densified table. */
  function Densified(t: Table): Table
    requires t.WellFormed()
  {
    CastRows(Joined(t))
  }

  /** Lines 86-106 end to end: the loop, the merge, the fill and the cast. */
  method Densify(t: Table) returns (r: Table)
    requires t.WellFormed()
    ensures r == Densified(t)
    ensures r.WellFormed()
    ensures forall k :: 0 <= k < r.Len() ==> r.labels[k] == 0
    ensures r.Len() < 0x8000_0000 ==> forall k :: 0 <= k < r.Len() ==> r.idx[k] == k + 1
  {
    var cands := BuildCandidates(t);
    var joined := LeftJoin(cands, t);
    r := CastRows(joined);
  }

  /** With unique merge keys the densified table has |distinct timestamps| * |V|^2 rows, where
      V is the set of all sources and destinations. */
  lemma DensifiedRowCount(t: Table)
    requires t.WellFormed() && KeysUnique(t)
    ensures Densified(t).Len() == |Elems(t.ts)| * (|Elems(t.u) + Elems(t.i)| * |Elems(t.u) + Elems(t.i)|)
  {
    var uts := Unique(t.ts);
    var nodes := GlobalNodes(t);
    LeftJoinUniqueKeys(Candidates(t), t);
    DistinctCard(uts);
    assert Elems(uts) == Elems(t.ts);
    StrictlyIncreasingIsDistinct(nodes);
    DistinctCard(nodes);
    assert Elems(nodes) == Elems(t.u) + Elems(t.i);
  }

  /** With unique merge keys, joined row `k` is candidate `k`, and its weight is the weight of the
      original row with the same `(u, i, ts)` if there is one, otherwise 0. */
  lemma JoinedWeights(t: Table)
    requires t.WellFormed() && KeysUnique(t)
    ensures |Joined(t)| == |Candidates(t)|
    ensures forall k, j ::
      (0 <= k < |Joined(t)| && 0 <= j < t.Len() && SameKey(t, j, Candidates(t)[k])) ==>
      Joined(t)[k] == Candidates(t)[k].(weight := t.weight[j])
    ensures forall k ::
      (0 <= k < |Joined(t)| && forall j :: 0 <= j < t.Len() ==> !SameKey(t, j, Candidates(t)[k])) ==>
      Joined(t)[k] == Candidates(t)[k]
  {
    var c := Candidates(t);
    LeftJoinUniqueKeys(c, t);
    forall k | 0 <= k < |c|
      ensures Joined(t)[k] == c[k].(weight := JoinedWeight(t, c[k]))
      ensures c[k].weight == 0.0
    {
      assert c[k] in c;
    }
    forall k | 0 <= k < |c| {
      JoinedWeightIsLookup(t, c[k]);
    }
  }

  /** Every original row has its key among the candidates, so none is lost by the densification. */
  lemma CandidatesCoverTable(t: Table)
    requires t.WellFormed()
    ensures forall j :: 0 <= j < t.Len() ==> Edge(t.u[j], t.i[j], t.ts[j], 0.0) in Candidates(t)
  {
    forall j | 0 <= j < t.Len()
      ensures Edge(t.u[j], t.i[j], t.ts[j], 0.0) in Candidates(t)
    {
      assert t.ts[j] in Unique(t.ts);
    }
  }
}
