/** The chronological and inductive split of `get_data`: the training, validation and test
    stores, and the two "new node" stores made of edges that touch a node never seen in training.
    Line numbers in this module refer to `tgn/utils/data_processing.py`. */
module TemporalSplit {
  import opened Sequences
  import opened Interactions

  datatype Result<T, E> = Ok(value: T) | Err(error: E)

  /** Why a split cannot be made: `random.sample` refuses a sample larger than its population,
      and the assertion of line 189 fails when a training edge touches a held-out node. */
  datatype SplitError = SampleLargerThanPopulation | TrainTouchesNewNodes

  /** The six stores `get_data` returns, and the held-out node set. */
  datatype Splits = Splits(full: Data, train: Data, val: Data, test: Data,
                           newNodeVal: Data, newNodeTest: Data, newTestNodeSet: set<int>)

  /** `node_set`: every node of the table. */
  function NodeSet(t: Table): (r: set<int>)
    requires t.WellFormed()
    ensures forall x :: x in r <==> exists k :: 0 <= k < t.Len() && (t.u[k] == x || t.i[k] == x)
  {
    assert forall x :: x in t.i ==> exists k :: 0 <= k < t.Len() && t.i[k] == x;
    Elems(t.u) + Elems(t.i)
  }

  /** `test_node_set`: the nodes of the edges after the validation time. */
  function TestNodeSet(t: Table, valTime: real): (r: set<int>)
    requires t.WellFormed()
    ensures forall x :: x in r <==> exists k :: 0 <= k < t.Len() && t.ts[k] > valTime && (t.u[k] == x || t.i[k] == x)
    ensures r <= NodeSet(t)
  {
    (set k | 0 <= k < t.Len() && t.ts[k] > valTime :: t.u[k]) +
    (set k | 0 <= k < t.Len() && t.ts[k] > valTime :: t.i[k])
  }

  /** `int(0.1 * n_total_unique_nodes)`, the number of held-out nodes. */
  function SampleSize(t: Table): (r: nat)
    requires t.WellFormed()
    ensures 10 * r <= |NodeSet(t)| < 10 * r + 10
  {
    |NodeSet(t)| / 10
  }

  /** `order` lists, without repetition, `k` nodes of `pop`: a possible outcome of
      `list(set(random.sample(pop, k)))`. */
  predicate IsSample(order: seq<int>, pop: set<int>, k: nat) {
    Distinct(order) && Elems(order) <= pop && |order| == k
  }

  /** `np.logical_and`. */
  function And(a: seq<bool>, b: seq<bool>): (r: seq<bool>)
    requires |a| == |b|
    ensures |r| == |a|
    ensures forall k :: 0 <= k < |r| ==> (r[k] <==> a[k] && b[k])
  {
    seq(|a|, k requires 0 <= k < |a| => a[k] && b[k])
  }

  /** `graph_df.u.map(lambda x: x in s)`. */
  function InSetMask(xs: seq<int>, s: set<int>): (m: seq<bool>)
    ensures |m| == |xs|
    ensures forall k :: 0 <= k < |m| ==> (m[k] <==> xs[k] in s)
  {
    seq(|xs|, k requires 0 <= k < |xs| => xs[k] in s)
  }

  /** `observed_edges_mask`: neither endpoint is held out. */
  function ObservedMask(t: Table, s: set<int>): (m: seq<bool>)
    requires t.WellFormed()
    ensures |m| == t.Len()
    ensures forall k :: 0 <= k < |m| ==> (m[k] <==> t.u[k] !in s && t.i[k] !in s)
  {
    var src := InSetMask(t.u, s);
    var dst := InSetMask(t.i, s);
    seq(t.Len(), k requires 0 <= k < t.Len() => !src[k] && !dst[k])
  }

  /** `timestamps <= bound`. */
  function AtMost(t: Table, bound: real): (m: seq<bool>)
    requires t.WellFormed()
    ensures |m| == t.Len()
    ensures forall k :: 0 <= k < |m| ==> (m[k] <==> t.ts[k] <= bound)
  {
    seq(t.Len(), k requires 0 <= k < t.Len() => t.ts[k] <= bound)
  }

  /** `timestamps > bound`. */
  function After(t: Table, bound: real): (m: seq<bool>)
    requires t.WellFormed()
    ensures |m| == t.Len()
    ensures forall k :: 0 <= k < |m| ==> (m[k] <==> t.ts[k] > bound)
  {
    seq(t.Len(), k requires 0 <= k < t.Len() => t.ts[k] > bound)
  }

  /** `train_mask`: at or before the validation time, and no held-out endpoint. */
  function TrainMask(t: Table, s: set<int>, valTime: real): (m: seq<bool>)
    requires t.WellFormed()
    ensures |m| == t.Len()
    ensures forall k :: 0 <= k < |m| ==> (m[k] <==> t.ts[k] <= valTime && t.u[k] !in s && t.i[k] !in s)
  {
    And(AtMost(t, valTime), ObservedMask(t, s))
  }

  /** `val_mask`: after the validation time, at or before the test time. */
  function ValMask(t: Table, valTime: real, testTime: real): (m: seq<bool>)
    requires t.WellFormed()
    ensures |m| == t.Len()
    ensures forall k :: 0 <= k < |m| ==> (m[k] <==> valTime < t.ts[k] <= testTime)
  {
    And(AtMost(t, testTime), After(t, valTime))
  }

  /** `test_mask`: after the test time. */
  function TestMask(t: Table, testTime: real): (m: seq<bool>)
    requires t.WellFormed()
    ensures |m| == t.Len()
    ensures forall k :: 0 <= k < |m| ==> (m[k] <==> t.ts[k] > testTime)
  {
    After(t, testTime)
  }

  /** The `edge_contains_new_..._node_mask` comprehensions: an endpoint lies in `s`. */
  function TouchesMask(t: Table, s: set<int>): (m: seq<bool>)
    requires t.WellFormed()
    ensures |m| == t.Len()
    ensures forall k :: 0 <= k < |m| ==> (m[k] <==> t.u[k] in s || t.i[k] in s)
  {
    seq(t.Len(), k requires 0 <= k < t.Len() => t.u[k] in s || t.i[k] in s)
  }

  /** `train_data`. */
  function TrainData(t: Table, features: seq<real>, s: set<int>, valTime: real): (d: Data)
    requires t.WellFormed() && |features| == t.Len()
    ensures d.Aligned()
    ensures d.NInteractions() == |TrueIndices(TrainMask(t, s, valTime))|
    ensures forall j :: 0 <= j < d.NInteractions() ==>
      d.timestamps[j] <= valTime && d.sources[j] !in s && d.destinations[j] !in s
  {
    Store(t, features, TrainMask(t, s, valTime))
  }

  /** `new_node_set = node_set - train_node_set`. */
  function NewNodeSet(t: Table, features: seq<real>, s: set<int>, valTime: real): (r: set<int>)
    requires t.WellFormed() && |features| == t.Len()
    ensures r <= NodeSet(t)
  {
    NodeSet(t) - TrainData(t, features, s, valTime).UniqueNodes()
  }

  /** `list(new_test_node_set)[:n]` and `[n:]` for `n = len(new_test_node_set) // 2`. */
  function HalfSplit(order: seq<int>): (r: (set<int>, set<int>))
    ensures r.0 + r.1 == Elems(order)
    ensures forall j :: 0 <= j < |order| / 2 ==> order[j] in r.0
    ensures forall j :: |order| / 2 <= j < |order| ==> order[j] in r.1
  {
    var n := |order| / 2;
    (Elems(order[..n]), Elems(order[n..]))
  }

  /** The new-node validation and test masks, in the two modes of
      `different_new_nodes_between_val_and_test`. */
  function NewNodeMasks(t: Table, features: seq<real>, order: seq<int>, valTime: real, testTime: real,
                        different: bool): (r: (seq<bool>, seq<bool>))
    requires t.WellFormed() && |features| == t.Len()
    ensures |r.0| == t.Len() && |r.1| == t.Len()
    ensures different ==> forall k :: 0 <= k < t.Len() ==>
      && (r.0[k] <==> ValMask(t, valTime, testTime)[k]
                      && (t.u[k] in HalfSplit(order).0 || t.i[k] in HalfSplit(order).0))
      && (r.1[k] <==> TestMask(t, testTime)[k]
                      && (t.u[k] in HalfSplit(order).1 || t.i[k] in HalfSplit(order).1))
    ensures !different ==> forall k :: 0 <= k < t.Len() ==>
      && (r.0[k] <==> ValMask(t, valTime, testTime)[k]
                      && (t.u[k] in NewNodeSet(t, features, Elems(order), valTime)
                          || t.i[k] in NewNodeSet(t, features, Elems(order), valTime)))
      && (r.1[k] <==> TestMask(t, testTime)[k]
                      && (t.u[k] in NewNodeSet(t, features, Elems(order), valTime)
                          || t.i[k] in NewNodeSet(t, features, Elems(order), valTime)))
  {
    if different then
      var (valNew, testNew) := HalfSplit(order);
      (And(ValMask(t, valTime, testTime), TouchesMask(t, valNew)),
       And(TestMask(t, testTime), TouchesMask(t, testNew)))
    else
      var newNodes := NewNodeSet(t, features, Elems(order), valTime);
      (And(ValMask(t, valTime, testTime), TouchesMask(t, newNodes)),
       And(TestMask(t, testTime), TouchesMask(t, newNodes)))
  }

  /** Lines 158-228 once the sample is drawn: the six stores and the held-out set. Every store
      holds rows from its own time window, and no training row touches a held-out node. */
  function Stores(t: Table, features: seq<real>, valTime: real, testTime: real, order: seq<int>,
                  different: bool): (r: Splits)
    requires t.WellFormed() && |features| == t.Len()
    ensures r.full == Data(t.u, t.i, t.ts, t.idx, t.labels, features)
    ensures r.newTestNodeSet == Elems(order)
    ensures r.train.Aligned() && r.val.Aligned() && r.test.Aligned()
    ensures r.newNodeVal.Aligned() && r.newNodeTest.Aligned()
    ensures forall j :: 0 <= j < r.train.NInteractions() ==>
      (r.train.timestamps[j] <= valTime
       && r.train.sources[j] !in Elems(order) && r.train.destinations[j] !in Elems(order))
    ensures forall j :: 0 <= j < r.val.NInteractions() ==> valTime < r.val.timestamps[j] <= testTime
    ensures forall j :: 0 <= j < r.test.NInteractions() ==> testTime < r.test.timestamps[j]
    ensures forall j :: 0 <= j < r.newNodeVal.NInteractions() ==> valTime < r.newNodeVal.timestamps[j] <= testTime
    ensures forall j :: 0 <= j < r.newNodeTest.NInteractions() ==> testTime < r.newNodeTest.timestamps[j]
  {
    var s := Elems(order);
    var masks := NewNodeMasks(t, features, order, valTime, testTime, different);
    StoreWindow(t, features, masks.0, ValMask(t, valTime, testTime));
    StoreWindow(t, features, masks.1, TestMask(t, testTime));
    Splits(Data(t.u, t.i, t.ts, t.idx, t.labels, features), TrainData(t, features, s, valTime),
           Store(t, features, ValMask(t, valTime, testTime)),
           Store(t, features, TestMask(t, testTime)),
           Store(t, features, masks.0), Store(t, features, masks.1), s)
  }

  /** Lines 160-228: the split, given the validation and test times and the listed sample of
      held-out nodes. It fails exactly when the sample would be larger than the population; the
      assertion of line 189 never fails. */
  function Split(t: Table, features: seq<real>, valTime: real, testTime: real, order: seq<int>,
                 different: bool): (r: Result<Splits, SplitError>)
    requires t.WellFormed() && |features| == t.Len()
    requires SampleSize(t) <= |TestNodeSet(t, valTime)| ==> IsSample(order, TestNodeSet(t, valTime), SampleSize(t))
    ensures r.Err? <==> SampleSize(t) > |TestNodeSet(t, valTime)|
    ensures r.Err? ==> r.error == SampleLargerThanPopulation
    ensures r.Ok? ==> r.value == Stores(t, features, valTime, testTime, order, different)
    ensures r.Ok? ==> r.value.train.UniqueNodes() !! r.value.newTestNodeSet
  {
    if SampleSize(t) > |TestNodeSet(t, valTime)| then Err(SampleLargerThanPopulation)
    else
      var s := Elems(order);
      var train := TrainData(t, features, s, valTime);
      TrainNodesAvoidSample(t, features, s, valTime);
      if train.UniqueNodes() * s != {} then Err(TrainTouchesNewNodes)
      else Ok(Stores(t, features, valTime, testTime, order, different))
  }

  /** The rows a store keeps all satisfy any mask that covers its own. */
  lemma StoreWindow(t: Table, features: seq<real>, m: seq<bool>, cover: seq<bool>)
    requires t.WellFormed() && |features| == t.Len() && |m| == t.Len() && |cover| == t.Len()
    requires forall k :: 0 <= k < t.Len() && m[k] ==> cover[k]
    ensures forall j :: 0 <= j < |TrueIndices(m)| ==> cover[TrueIndices(m)[j]]
  {
  }

  /** The assertion of line 189: no training edge touches a held-out node. */
  lemma TrainNodesAvoidSample(t: Table, features: seq<real>, s: set<int>, valTime: real)
    requires t.WellFormed() && |features| == t.Len()
    ensures TrainData(t, features, s, valTime).UniqueNodes() !! s
  {
    forall x | x in s
      ensures x !in TrainData(t, features, s, valTime).UniqueNodes()
    {
      StoreUniqueNodes(t, features, TrainMask(t, s, valTime), x);
    }
  }

  /** The training nodes are the endpoints of the training rows. */
  lemma TrainNodes(t: Table, features: seq<real>, s: set<int>, valTime: real, x: int)
    requires t.WellFormed() && |features| == t.Len()
    ensures x in TrainData(t, features, s, valTime).UniqueNodes() <==>
      exists k :: 0 <= k < t.Len() && t.ts[k] <= valTime && t.u[k] !in s && t.i[k] !in s
                  && (t.u[k] == x || t.i[k] == x)
  {
    StoreUniqueNodes(t, features, TrainMask(t, s, valTime), x);
  }

  /** A node is new iff it occurs in the table but in no training row. */
  lemma NewNodes(t: Table, features: seq<real>, s: set<int>, valTime: real, x: int)
    requires t.WellFormed() && |features| == t.Len()
    ensures x in NewNodeSet(t, features, s, valTime) <==>
      && (exists k :: 0 <= k < t.Len() && (t.u[k] == x || t.i[k] == x))
      && (forall k :: 0 <= k < t.Len() && (t.u[k] == x || t.i[k] == x) ==>
            t.ts[k] > valTime || t.u[k] in s || t.i[k] in s)
  {
    TrainNodes(t, features, s, valTime, x);
  }

  /** Every held-out node that occurs in the table is a new node. */
  lemma SampleInNewNodes(t: Table, features: seq<real>, valTime: real, order: seq<int>)
    requires t.WellFormed() && |features| == t.Len()
    requires Elems(order) <= TestNodeSet(t, valTime)
    ensures Elems(order) <= NewNodeSet(t, features, Elems(order), valTime)
  {
    TrainNodesAvoidSample(t, features, Elems(order), valTime);
  }

  /** The validation and test windows are disjoint and validation is disjoint from training;
      when `valTime <= testTime`, test is disjoint from training too and the two windows
      together are exactly the rows after the validation time. */
  lemma WindowsPartition(t: Table, s: set<int>, valTime: real, testTime: real)
    requires t.WellFormed()
    ensures forall k :: 0 <= k < t.Len() ==> !(ValMask(t, valTime, testTime)[k] && TestMask(t, testTime)[k])
    ensures forall k :: 0 <= k < t.Len() ==> !(TrainMask(t, s, valTime)[k] && ValMask(t, valTime, testTime)[k])
    ensures valTime <= testTime ==>
      forall k :: 0 <= k < t.Len() ==> !(TrainMask(t, s, valTime)[k] && TestMask(t, testTime)[k])
    ensures valTime <= testTime ==>
      forall k :: 0 <= k < t.Len() ==>
        (ValMask(t, valTime, testTime)[k] || TestMask(t, testTime)[k] <==> t.ts[k] > valTime)
  {
  }

  /** Without `valTime <= testTime` training and test may overlap: one row at time 5, with the
      validation time 10 and the test time 0, is in both. */
  lemma TrainTestOverlap()
    ensures var t := Table([1], [2], [5.0], [1], [0], [1.0]);
      t.WellFormed() && TrainMask(t, {}, 10.0)[0] && TestMask(t, 0.0)[0]
  {
  }

  /** Every row falls in exactly one of: training, validation, test, or dropped because it is at
      or before the validation time and touches a held-out node. */
  lemma RowsCovered(t: Table, s: set<int>, valTime: real, testTime: real, k: nat)
    requires t.WellFormed() && k < t.Len()
    ensures TrainMask(t, s, valTime)[k] || ValMask(t, valTime, testTime)[k] || TestMask(t, testTime)[k]
            || (t.ts[k] <= valTime && (t.u[k] in s || t.i[k] in s))
  {
  }

  /** Counting rows: two disjoint masks select as many rows together as their union. */
  lemma {:induction false} CountDisjointUnion(a: seq<bool>, b: seq<bool>, c: seq<bool>)
    requires |a| == |b| == |c|
    requires forall k :: 0 <= k < |c| ==> !(a[k] && b[k]) && (c[k] <==> a[k] || b[k])
    ensures |TrueIndices(c)| == |TrueIndices(a)| + |TrueIndices(b)|
    decreases |c|
  {
    if |c| > 0 {
      var n := |c| - 1;
      CountDisjointUnion(a[..n], b[..n], c[..n]);
    }
  }

  /** The validation and test stores together hold every interaction after the validation time. */
  lemma ValTestCount(t: Table, features: seq<real>, valTime: real, testTime: real)
    requires t.WellFormed() && |features| == t.Len() && valTime <= testTime
    ensures Store(t, features, ValMask(t, valTime, testTime)).NInteractions()
          + Store(t, features, TestMask(t, testTime)).NInteractions()
         == |TrueIndices(After(t, valTime))|
  {
    CountDisjointUnion(ValMask(t, valTime, testTime), TestMask(t, testTime), After(t, valTime));
  }

  /** In the "different" mode the two halves partition the held-out nodes, the validation half
      holding `|S| // 2` of them. */
  lemma HalfSplitPartition(order: seq<int>)
    requires Distinct(order)
    ensures HalfSplit(order).0 + HalfSplit(order).1 == Elems(order)
    ensures HalfSplit(order).0 !! HalfSplit(order).1
    ensures |HalfSplit(order).0| == |Elems(order)| / 2
  {
    var n := |order| / 2;
    var p, q := order[..n], order[n..];
    assert order == p + q;
    forall x | x in Elems(p)
      ensures x !in Elems(q)
    {
      var j :| 0 <= j < n && p[j] == x;
      forall j' | 0 <= j' < |q| ensures q[j'] != x {
        assert q[j'] == order[n + j'];
      }
    }
    assert Distinct(p) by {
      forall j, j' | 0 <= j < j' < |p| ensures p[j] != p[j'] {
        assert p[j] == order[j] && p[j'] == order[j'];
      }
    }
    DistinctCard(p);
    DistinctCard(order);
  }

  /** In the default mode an edge touching a node never seen in training qualifies; in
      particular every validation or test edge that touches a held-out node does. */
  lemma HeldOutEdgesAreNew(t: Table, features: seq<real>, valTime: real, testTime: real, order: seq<int>, k: nat)
    requires t.WellFormed() && |features| == t.Len() && k < t.Len()
    requires Elems(order) <= TestNodeSet(t, valTime)
    requires t.u[k] in Elems(order) || t.i[k] in Elems(order)
    ensures ValMask(t, valTime, testTime)[k] ==> NewNodeMasks(t, features, order, valTime, testTime, false).0[k]
    ensures TestMask(t, testTime)[k] ==> NewNodeMasks(t, features, order, valTime, testTime, false).1[k]
  {
    SampleInNewNodes(t, features, valTime, order);
  }
}
