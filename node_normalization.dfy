/** `node_out_normalization` and `node_in_normalization`: every weight is divided by the sum of
    the weights of its group, the rows sharing its node (source for the out pass, destination for
    the in pass) and its timestamp, unless that sum is zero. Line numbers in this module refer to
    `tgn/utils/data_processing.py`. */
module NodeNormalization {
  import opened Sequences

  /** `keys`, `ts` and `w` are the node, timestamp and weight columns of one table. */
  predicate Columns(keys: seq<int>, ts: seq<real>, w: seq<real>) {
    |keys| == |w| && |ts| == |w|
  }

  /** Row `k` belongs to the group of node `x` at timestamp `t`. */
  predicate InGroup(keys: seq<int>, ts: seq<real>, k: nat, x: int, t: real)
    requires k < |keys| && k < |ts|
  {
    keys[k] == x && ts[k] == t
  }

  /** The sum of the weights of the group `(x, t)` among the first `n` rows. */
  function GroupSumUpTo(keys: seq<int>, ts: seq<real>, w: seq<real>, x: int, t: real, n: nat): real
    requires Columns(keys, ts, w) && n <= |w|
  {
    if n == 0 then 0.0
    else GroupSumUpTo(keys, ts, w, x, t, n - 1) + (if InGroup(keys, ts, n - 1, x, t) then w[n - 1] else 0.0)
  }

  /** `edges['weight'].sum()` for `edges = graph_df[(graph_df.u == x) & (graph_df.ts == t)]`. */
  function GroupSum(keys: seq<int>, ts: seq<real>, w: seq<real>, x: int, t: real): real
    requires Columns(keys, ts, w)
  {
    GroupSumUpTo(keys, ts, w, x, t, |w|)
  }

  /** The column one normalization pass produces: each row divided once by the sum its group had
      before the pass, or left alone when that sum is zero. */
  function Normalized(keys: seq<int>, ts: seq<real>, w: seq<real>): (r: seq<real>)
    requires Columns(keys, ts, w)
    ensures |r| == |w|
  {
    seq(|w|, k requires 0 <= k < |w| =>
      var g := GroupSum(keys, ts, w, keys[k], ts[k]);
      if g != 0.0 then w[k] / g else w[k])
  }

  /** `graph_df[graph_df.ts == t].u`: the nodes of the rows at timestamp `t`, in row order. */
  function KeysAt(keys: seq<int>, ts: seq<real>, t: real): (r: seq<int>)
    requires |keys| == |ts|
    ensures forall k :: 0 <= k < |ts| && ts[k] == t ==> keys[k] in r
    ensures forall y :: y in r ==> exists k :: 0 <= k < |ts| && ts[k] == t && keys[k] == y
    decreases |ts|
  {
    if |ts| == 0 then []
    else
      var n := |ts| - 1;
      KeysAt(keys[..n], ts[..n], t) + (if ts[n] == t then [keys[n]] else [])
  }

  /** The column with the weights of group `(x, t)` divided by `s`, when `s` is nonzero: the
      assignment `graph_df.loc[group, 'weight'] = graph_df['weight'] / s`. */
  function DivideGroup(keys: seq<int>, ts: seq<real>, w: seq<real>, x: int, t: real, s: real): (r: seq<real>)
    requires Columns(keys, ts, w)
    ensures |r| == |w|
  {
    seq(|w|, k requires 0 <= k < |w| => if s != 0.0 && InGroup(keys, ts, k, x, t) then w[k] / s else w[k])
  }

  /** Midway through a pass: the rows whose timestamp is in `doneTs`, or whose timestamp is `t`
      and whose node is in `doneXs`, hold their normalized weight; all others their original one. */
  ghost predicate PassState(keys: seq<int>, ts: seq<real>, w0: seq<real>, w: seq<real>,
                            doneTs: set<real>, t: real, doneXs: set<int>)
    requires Columns(keys, ts, w0)
  {
    && |w| == |w0|
    && forall k :: 0 <= k < |w| ==>
         w[k] == if ts[k] in doneTs || (ts[k] == t && keys[k] in doneXs) then Normalized(keys, ts, w0)[k] else w0[k]
  }

  /** Treating one more group `(x, t)`, with its sum taken from the current column, moves `x` to
      the nodes done: the group was untouched so far, so its current sum is its original one. */
  lemma StepGroup(keys: seq<int>, ts: seq<real>, w0: seq<real>, w: seq<real>,
                  doneTs: set<real>, t: real, doneXs: set<int>, x: int)
    requires Columns(keys, ts, w0) && PassState(keys, ts, w0, w, doneTs, t, doneXs)
    requires t !in doneTs && x !in doneXs
    ensures PassState(keys, ts, w0, DivideGroup(keys, ts, w, x, t, GroupSum(keys, ts, w, x, t)),
                      doneTs, t, doneXs + {x})
  {
    GroupSumFrame(keys, ts, w, w0, x, t, |w|);
  }

  /** Moving on to the next timestamp once all of `t`'s nodes are done. */
  lemma StepTimestamp(keys: seq<int>, ts: seq<real>, w0: seq<real>, w: seq<real>,
                      doneTs: set<real>, t: real, doneXs: set<int>, t': real)
    requires Columns(keys, ts, w0) && PassState(keys, ts, w0, w, doneTs, t, doneXs)
    requires forall k :: 0 <= k < |ts| && ts[k] == t ==> keys[k] in doneXs
    ensures PassState(keys, ts, w0, w, doneTs + {t}, t', {})
  {
  }

  /** With no node done at the current timestamp, which timestamp is current does not matter. */
  lemma SwitchTimestamp(keys: seq<int>, ts: seq<real>, w0: seq<real>, w: seq<real>,
                        doneTs: set<real>, t: real, t': real)
    requires Columns(keys, ts, w0) && PassState(keys, ts, w0, w, doneTs, t, {})
    ensures PassState(keys, ts, w0, w, doneTs, t', {})
  {
  }

  /** `graph_df.loc[group, 'weight'] = graph_df['weight'] / s` when `s` is nonzero (line 138). */
  method DivideGroupInPlace(keys: seq<int>, ts: seq<real>, w: array<real>, x: int, t: real, s: real)
    requires Columns(keys, ts, w[..])
    modifies w
    ensures w[..] == DivideGroup(keys, ts, old(w[..]), x, t, s)
  {
    if s != 0.0 {
      forall k | 0 <= k < w.Length && keys[k] == x && ts[k] == t {
        w[k] := w[k] / s;
      }
    }
  }

  /** The inner loop of one pass (lines 132-138): every node active at timestamp `t` has its
      group normalized, the sum taken from the current column. */
  method NormalizeTimestamp(keys: seq<int>, ts: seq<real>, w: array<real>, t: real,
                            ghost w0: seq<real>, ghost doneTs: set<real>)
    requires Columns(keys, ts, w0) && t !in doneTs
    requires PassState(keys, ts, w0, w[..], doneTs, t, {})
    modifies w
    ensures PassState(keys, ts, w0, w[..], doneTs + {t}, t, {})
  {
    var xs := Unique(KeysAt(keys, ts, t));
    ghost var doneXs: set<int> := {};
    for b := 0 to |xs|
      invariant forall j :: 0 <= j < b ==> xs[j] in doneXs
      invariant forall j :: b <= j < |xs| ==> xs[j] !in doneXs
      invariant PassState(keys, ts, w0, w[..], doneTs, t, doneXs)
    {
      var x := xs[b];
      var s := GroupSum(keys, ts, w[..], x, t);
      StepGroup(keys, ts, w0, w[..], doneTs, t, doneXs, x);
      DivideGroupInPlace(keys, ts, w, x, t, s);
      doneXs := doneXs + {x};
    }
    StepTimestamp(keys, ts, w0, w[..], doneTs, t, doneXs, t);
  }

  /** One pass over the weight column, in place, as lines 130-138 (and 146-154) do it: for every
      timestamp and every node active at it, the group's sum is taken from the current column and,
      when nonzero, the group's weights are divided by it. Since the groups are disjoint, the
      result is the snapshot specification `Normalized`. */
  method NormalizeByNode(keys: seq<int>, ts: seq<real>, w: array<real>)
    requires Columns(keys, ts, w[..])
    modifies w
    ensures w[..] == Normalized(keys, ts, old(w[..]))
  {
    ghost var w0 := w[..];
    ghost var doneTs: set<real> := {};
    var uts := Unique(ts);
    for a := 0 to |uts|
      invariant forall j :: 0 <= j < a ==> uts[j] in doneTs
      invariant forall j :: a <= j < |uts| ==> uts[j] !in doneTs
      invariant PassState(keys, ts, w0, w[..], doneTs, 0.0, {})
    {
      var t := uts[a];
      SwitchTimestamp(keys, ts, w0, w[..], doneTs, 0.0, t);
      NormalizeTimestamp(keys, ts, w, t, w0, doneTs);
      SwitchTimestamp(keys, ts, w0, w[..], doneTs + {t}, t, 0.0);
      doneTs := doneTs + {t};
    }
    assert forall k :: 0 <= k < |ts| ==> ts[k] in doneTs;
  }

  /** The sum of a group depends only on the weights of that group. */
  lemma {:induction false} GroupSumFrame(keys: seq<int>, ts: seq<real>, w: seq<real>, v: seq<real>, x: int, t: real, n: nat)
    requires Columns(keys, ts, w) && |v| == |w| && n <= |w|
    requires forall k :: 0 <= k < n && InGroup(keys, ts, k, x, t) ==> w[k] == v[k]
    ensures GroupSumUpTo(keys, ts, w, x, t, n) == GroupSumUpTo(keys, ts, v, x, t, n)
  {
    if n > 0 {
      GroupSumFrame(keys, ts, w, v, x, t, n - 1);
    }
  }

  /** Dividing every weight of a group by `c` divides the group's sum by `c`. */
  lemma {:induction false} GroupSumScaled(keys: seq<int>, ts: seq<real>, w: seq<real>, v: seq<real>, x: int, t: real, c: real, n: nat)
    requires Columns(keys, ts, w) && |v| == |w| && n <= |w| && c != 0.0
    requires forall k :: 0 <= k < n && InGroup(keys, ts, k, x, t) ==> v[k] == w[k] / c
    ensures GroupSumUpTo(keys, ts, v, x, t, n) == GroupSumUpTo(keys, ts, w, x, t, n) / c
  {
    if n > 0 {
      GroupSumScaled(keys, ts, w, v, x, t, c, n - 1);
      var a := GroupSumUpTo(keys, ts, w, x, t, n - 1);
      var b := if InGroup(keys, ts, n - 1, x, t) then w[n - 1] else 0.0;
      assert a / c + b / c == (a + b) / c;
    }
  }

  /** After a pass, a group whose sum was nonzero sums to 1; a group whose sum was zero is left
      as it was and still sums to 0. */
  lemma NormalizedGroupSum(keys: seq<int>, ts: seq<real>, w: seq<real>, x: int, t: real)
    requires Columns(keys, ts, w)
    ensures GroupSum(keys, ts, Normalized(keys, ts, w), x, t) ==
      if GroupSum(keys, ts, w, x, t) != 0.0 then 1.0 else 0.0
    ensures GroupSum(keys, ts, w, x, t) == 0.0 ==>
      forall k :: 0 <= k < |w| && InGroup(keys, ts, k, x, t) ==> Normalized(keys, ts, w)[k] == w[k]
  {
    var g := GroupSum(keys, ts, w, x, t);
    var v := Normalized(keys, ts, w);
    if g != 0.0 {
      GroupSumScaled(keys, ts, w, v, x, t, g, |w|);
    } else {
      GroupSumFrame(keys, ts, w, v, x, t, |w|);
    }
  }

  /** A pass divides row `k` by its group's sum `g` when that is nonzero (so `r[k] * g` gives
      back the weight), and keeps the proportions between members of a group. */
  lemma NormalizedRows(keys: seq<int>, ts: seq<real>, w: seq<real>, k: nat, k': nat)
    requires Columns(keys, ts, w) && k < |w| && k' < |w|
    ensures GroupSum(keys, ts, w, keys[k], ts[k]) != 0.0 ==>
      Normalized(keys, ts, w)[k] * GroupSum(keys, ts, w, keys[k], ts[k]) == w[k]
    ensures GroupSum(keys, ts, w, keys[k], ts[k]) == 0.0 ==> Normalized(keys, ts, w)[k] == w[k]
    ensures InGroup(keys, ts, k', keys[k], ts[k]) ==>
      Normalized(keys, ts, w)[k] * w[k'] == Normalized(keys, ts, w)[k'] * w[k]
  {
    var g := GroupSum(keys, ts, w, keys[k], ts[k]);
    if g != 0.0 && InGroup(keys, ts, k', keys[k], ts[k]) {
      assert (w[k] / g) * w[k'] == (w[k'] / g) * w[k];
    }
  }

  /** A second pass changes nothing: every group then sums to 1 or to 0. */
  lemma NormalizedIdempotent(keys: seq<int>, ts: seq<real>, w: seq<real>)
    requires Columns(keys, ts, w)
    ensures Normalized(keys, ts, Normalized(keys, ts, w)) == Normalized(keys, ts, w)
  {
    var v := Normalized(keys, ts, w);
    forall k | 0 <= k < |w|
      ensures Normalized(keys, ts, v)[k] == v[k]
    {
      NormalizedGroupSum(keys, ts, w, keys[k], ts[k]);
    }
  }

  /** Among nonnegative weights, each member of a group is at most the group's sum. */
  lemma {:induction false} GroupMemberBound(keys: seq<int>, ts: seq<real>, w: seq<real>, x: int, t: real, n: nat, k: nat)
    requires Columns(keys, ts, w) && n <= |w|
    requires forall j :: 0 <= j < |w| ==> 0.0 <= w[j]
    ensures 0.0 <= GroupSumUpTo(keys, ts, w, x, t, n)
    ensures k < n && InGroup(keys, ts, k, x, t) ==> w[k] <= GroupSumUpTo(keys, ts, w, x, t, n)
  {
    if n > 0 {
      GroupMemberBound(keys, ts, w, x, t, n - 1, k);
    }
  }

  /** With nonnegative weights every normalized weight lies in [0, 1]. */
  lemma NormalizedUnitRange(keys: seq<int>, ts: seq<real>, w: seq<real>)
    requires Columns(keys, ts, w)
    requires forall j :: 0 <= j < |w| ==> 0.0 <= w[j]
    ensures forall k :: 0 <= k < |w| ==> 0.0 <= Normalized(keys, ts, w)[k] <= 1.0 || GroupSum(keys, ts, w, keys[k], ts[k]) == 0.0
  {
    forall k | 0 <= k < |w|
      ensures 0.0 <= Normalized(keys, ts, w)[k] <= 1.0 || GroupSum(keys, ts, w, keys[k], ts[k]) == 0.0
    {
      GroupMemberBound(keys, ts, w, keys[k], ts[k], |w|, k);
    }
  }
}
