/** `compute_time_statistics`: for every interaction, the time elapsed since its source last
    acted as a source, and since its destination last acted as a destination.
    Line numbers in this module refer to `tgn/utils/data_processing.py`. */
module TimeStatistics {

  /** The timestamp of the last row before `k` whose node is `x`, or 0 when there is none (the
      loop stores 0 for a node it has not met yet). */
  function LastSeen(nodes: seq<int>, ts: seq<real>, x: int, k: nat): real
    requires |ts| == |nodes| && k <= |nodes|
    decreases k
  {
    if k == 0 then 0.0
    else if nodes[k - 1] == x then ts[k - 1]
    else LastSeen(nodes, ts, x, k - 1)
  }

  /** The gap sequence of one side: row `k` gives `ts[k]` minus the last time its node was seen
      on that side, so a first appearance gives `ts[k] - 0`. */
  function Gaps(nodes: seq<int>, ts: seq<real>): (r: seq<real>)
    requires |ts| == |nodes|
    ensures |r| == |nodes|
  {
    seq(|nodes|, k requires 0 <= k < |nodes| => ts[k] - LastSeen(nodes, ts, nodes[k], k))
  }

  /** `LastSeen` is the timestamp of the latest earlier occurrence, or 0 when there is none. */
  lemma {:induction false} LastSeenIsLatest(nodes: seq<int>, ts: seq<real>, x: int, k: nat)
    requires |ts| == |nodes| && k <= |nodes|
    ensures (forall j :: 0 <= j < k ==> nodes[j] != x) ==> LastSeen(nodes, ts, x, k) == 0.0
    ensures forall j :: 0 <= j < k && nodes[j] == x && (forall j' :: j < j' < k ==> nodes[j'] != x) ==>
      LastSeen(nodes, ts, x, k) == ts[j]
    decreases k
  {
    if k > 0 {
      LastSeenIsLatest(nodes, ts, x, k - 1);
    }
  }

  /** The loop of lines 254-265, with the two dictionaries `last_timestamp_sources` and
      `last_timestamp_dst`: it yields exactly the two gap sequences. */
  method ComputeTimeGaps(sources: seq<int>, destinations: seq<int>, timestamps: seq<real>)
    returns (srcGaps: seq<real>, dstGaps: seq<real>)
    requires |destinations| == |sources| && |timestamps| == |sources|
    ensures |srcGaps| == |sources| && |dstGaps| == |sources|
    ensures srcGaps == Gaps(sources, timestamps)
    ensures dstGaps == Gaps(destinations, timestamps)
  {
    var lastSrc: map<int, real> := map[];
    var lastDst: map<int, real> := map[];
    srcGaps, dstGaps := [], [];
    for k := 0 to |sources|
      invariant srcGaps == Gaps(sources, timestamps)[..k]
      invariant dstGaps == Gaps(destinations, timestamps)[..k]
      invariant forall x :: x in lastSrc ==> lastSrc[x] == LastSeen(sources, timestamps, x, k)
      invariant forall x :: x !in lastSrc ==> LastSeen(sources, timestamps, x, k) == 0.0
      invariant forall x :: x in lastDst ==> lastDst[x] == LastSeen(destinations, timestamps, x, k)
      invariant forall x :: x !in lastDst ==> LastSeen(destinations, timestamps, x, k) == 0.0
    {
      var src, dst, now := sources[k], destinations[k], timestamps[k];
      if src !in lastSrc {
        lastSrc := lastSrc[src := 0.0];
      }
      if dst !in lastDst {
        lastDst := lastDst[dst := 0.0];
      }
      srcGaps := srcGaps + [now - lastSrc[src]];
      dstGaps := dstGaps + [now - lastDst[dst]];
      lastSrc := lastSrc[src := now];
      lastDst := lastDst[dst := now];
    }
  }

  /** The first time a node appears on a side, its gap is its own timestamp. */
  lemma FirstAppearanceGap(nodes: seq<int>, ts: seq<real>, k: nat)
    requires |ts| == |nodes| && k < |nodes|
    requires forall j :: 0 <= j < k ==> nodes[j] != nodes[k]
    ensures Gaps(nodes, ts)[k] == ts[k]
  {
    LastSeenIsLatest(nodes, ts, nodes[k], k);
  }

  /** With nonnegative, chronologically ordered timestamps no gap is negative. */
  lemma {:induction false} GapsNonnegative(nodes: seq<int>, ts: seq<real>)
    requires |ts| == |nodes|
    requires forall j :: 0 <= j < |ts| ==> 0.0 <= ts[j]
    requires forall j, j' :: 0 <= j <= j' < |ts| ==> ts[j] <= ts[j']
    ensures forall k :: 0 <= k < |nodes| ==> 0.0 <= Gaps(nodes, ts)[k]
  {
    forall k | 0 <= k < |nodes|
      ensures LastSeen(nodes, ts, nodes[k], k) <= ts[k]
    {
      LastSeenBounded(nodes, ts, nodes[k], k, ts[k]);
    }
  }

  /** `LastSeen` before `k` is 0 or an earlier timestamp, so under any bound of those it stays. */
  lemma {:induction false} LastSeenBounded(nodes: seq<int>, ts: seq<real>, x: int, k: nat, bound: real)
    requires |ts| == |nodes| && k <= |nodes| && 0.0 <= bound
    requires forall j :: 0 <= j < k ==> ts[j] <= bound
    ensures LastSeen(nodes, ts, x, k) <= bound
    decreases k
  {
    if k > 0 && nodes[k - 1] != x {
      LastSeenBounded(nodes, ts, x, k - 1, bound);
    }
  }

  /** Sources `[1, 2, 1]` and destinations `[2, 1, 2]` at times 10, 20, 30: each node's first
      appearance gives its own timestamp, and node 1 (as source) and node 2 (as destination)
      reappear after 20. */
  lemma GapsExample()
    ensures Gaps([1, 2, 1], [10.0, 20.0, 30.0]) == [10.0, 20.0, 20.0]
    ensures Gaps([2, 1, 2], [10.0, 20.0, 30.0]) == [10.0, 20.0, 20.0]
  {
    assert LastSeen([1, 2, 1], [10.0, 20.0, 30.0], 1, 2) == 10.0;
    assert LastSeen([2, 1, 2], [10.0, 20.0, 30.0], 2, 2) == 10.0;
  }
}
