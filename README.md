# Verified model of the TGN data-preparation core

This project models the data preparation of `tgn/utils/data_processing.py`, the preprocessing
of a temporal graph network: a table of timestamped, weighted interactions `(u, i, ts, idx, label,
weight)` is turned into the interaction stores used to train and evaluate the model. The
modelled stages are:

- the `Data` interaction store;
- the optional positive-edge filter;
- the optional densification into a complete graph per timestamp, with its int32 cast;
- the optional per-node out/in weight normalization;
- the chronological and inductive train/validation/test split, with its new-node stores;
- the time-shift gap loop of `compute_time_statistics`.

A table is a set of parallel sequences (`Interactions.Table`). Node ids, edge ids and labels are
`int`. Timestamps and weights are `real`, so the division in normalization is exact. Boolean-mask
indexing `xs[mask]` is `Gather(xs, TrueIndices(mask))`. pandas' `unique` keeps first-appearance
order (`Sequences.Unique`) and numpy's `union1d` sorts (`Sequences.Union1d`).

Modules, one file each:
- `Sequences`: generic helpers.
- `Interactions`: the table and `Data`.
- `PositiveEdges`.
- `Densification`.
- `NodeNormalization`.
- `TemporalSplit`.
- `TimeStatistics`.
- `Pipeline`: `get_data` end to end.

Loops that update state in the source are methods with loop invariants, each proved equal to a
specification function:
- the candidate accumulation of densification (`Densification.BuildCandidates`);
- the two in-place normalization passes over a weight `array` (`NodeNormalization.NormalizeByNode`);
- the dictionary loop of the gap computation (`TimeStatistics.ComputeTimeGaps`).

Filters, masks and set algebra are functions with lemmas.

Where the documented intent and the code differ, the model follows the code:
- **Densification node set.** Densification pairs all nodes of the whole table at every
  timestamp, because `np.union1d` over `pd.unique` of the full columns is recomputed inside the
  loop and never filtered by the timestamp. It does not use only the nodes active at that timestamp.
- **First appearance in the gap loop.** A node's first appearance yields the gap `ts - 0`
  (the dictionary default is 0), not a gap of 0.
- **Normalization replaces rescaling.** Either node normalization rebuilds the edge features
  from the weight column, so it discards any min-max or logarithm rescaling done just before.
- **Densified values are truncated.** After densification the table is cast to int32. Weights
  and timestamps are truncated toward zero, and node and edge ids wrap around 2^32.
  Normalization then divides these integral weights.

## Model

| member | source | states |
|---|---|---|
| Interactions.Data.UniqueNodes | tgn/utils/data_processing.py:16-17 | the node set holds every source and every destination, and nothing else |
| Interactions.Store | tgn/utils/data_processing.py:184-185 | a masked store is aligned, has one row per selected index, and row j copies every column of the j-th selected row |
| Interactions.StoreUniqueNodes | tgn/utils/data_processing.py:188 | a node is in a masked store's node set iff some selected row has it as source or destination |
| Sequences.Unique | tgn/utils/data_processing.py:89-92 | `unique` is repetition-free and holds exactly the values of its input |
| Sequences.UniqueFirstAppearanceOrder | tgn/utils/data_processing.py:89 | `unique` lists values in the order of their first occurrence |
| Sequences.Union1d | tgn/utils/data_processing.py:93 | `union1d` is strictly increasing and holds exactly the values of either input |
| Sequences.SortedUnique | tgn/utils/data_processing.py:93 | the sorted distinct list is strictly increasing and holds exactly the values of its input |
| Sequences.Gather | tgn/utils/data_processing.py:184-185 | mask indexing yields one element per selected position, in the order of the positions |
| Sequences.TrueIndices | tgn/utils/data_processing.py:81 | mask indexing selects, in increasing order, exactly the positions where the mask holds |
| PositiveEdges.PositiveMask | tgn/utils/data_processing.py:81 | the mask holds exactly at the rows with nonzero weight |
| PositiveEdges.OneBased | tgn/utils/data_processing.py:82 | `range(1, n + 1)` has n entries, entry k being k + 1 |
| PositiveEdges.KeepPositive | tgn/utils/data_processing.py:80-82 | the filter keeps exactly the nonzero-weight rows, in their original order, copies every column but `idx`, and renumbers `idx` as 1..n |
| PositiveEdges.KeepPositiveIdempotent | tgn/utils/data_processing.py:80-82 | filtering an already filtered table changes nothing |
| Densification.PairsAt | tgn/utils/data_processing.py:94 | the comprehension yields \|xs\|·\|ys\| rows, exactly the pairs over the two node lists at that timestamp with weight 0 |
| Densification.PairsAtIndex | tgn/utils/data_processing.py:94 | the comprehension is x-major: pair (xs[a], ys[b]) is row a·\|ys\| + b |
| Densification.AllPairs | tgn/utils/data_processing.py:89-96 | the accumulated candidates number \|timestamps\|·\|V\|² and are exactly the weight-0 pairs over V at the listed timestamps |
| Densification.AllPairsIndex | tgn/utils/data_processing.py:89-96 | the candidates come in blocks of \|V\|² rows, block c holding the pairs of the c-th listed timestamp in comprehension order |
| Densification.GlobalNodes | tgn/utils/data_processing.py:91-93 | the node list is sorted, repetition-free and holds exactly the table's sources and destinations |
| Densification.Candidates | tgn/utils/data_processing.py:89-96 | the candidate frame holds exactly the weight-0 pairs of table nodes at table timestamps |
| Densification.BuildCandidates | tgn/utils/data_processing.py:89-96 | the loop, recomputing the node set every iteration, yields the candidate frame |
| Densification.JoinOne | tgn/utils/data_processing.py:98-101 | a candidate merges into at least one row; every merged row keeps its key and takes the weight of a row with that key, or keeps its own when there is none; every matching row's weight appears among the merged rows |
| Densification.JoinOneCount | tgn/utils/data_processing.py:98-101 | a candidate with matches merges into one row per matching row, in row order, each carrying that row's weight |
| Densification.LeftJoin | tgn/utils/data_processing.py:98-101 | for any table, duplicate keys included: every merged row comes from a candidate with the weight of a matching row, or its own when nothing matches; every matching pair and every unmatched candidate appears |
| Densification.JoinOneUnique | tgn/utils/data_processing.py:98-101 | with unique `(u, i, ts)` keys each candidate merges into exactly one row |
| Densification.LeftJoinUniqueKeys | tgn/utils/data_processing.py:98-101 | with unique keys the left merge is row-for-row: one output row per candidate, in candidate order |
| Densification.JoinedWeightIsLookup | tgn/utils/data_processing.py:98-101 | with unique keys a candidate's merged weight is the weight of the row with its key, and 0 when there is none |
| Densification.JoinedWeights | tgn/utils/data_processing.py:98-101 | with unique keys, merged row k is candidate k, carrying the original weight if its key occurs in the table and weight 0 otherwise |
| Densification.CandidatesCoverTable | tgn/utils/data_processing.py:89-98 | every original row's key is among the candidates, so no original weight is lost |
| Densification.Trunc | tgn/utils/data_processing.py:106 | the float-to-int32 cast truncates toward zero |
| Densification.Wrap32 | tgn/utils/data_processing.py:106 | the int-to-int32 cast lands in the int32 range, is congruent modulo 2^32, and is the identity on int32 values |
| Densification.CastRows | tgn/utils/data_processing.py:100-106 | the output table has one row per merged row, cast to int32, with label 0 and `idx` k+1 |
| Densification.Densify | tgn/utils/data_processing.py:86-106 | densification yields the specified table; every label is 0 and `idx` is 1..n while n fits int32 |
| Densification.DensifiedRowCount | tgn/utils/data_processing.py:89-106 | with unique keys the densified table has \|distinct ts\|·\|V\|² rows, V being all sources and destinations |
| NodeNormalization.KeysAt | tgn/utils/data_processing.py:131 | the nodes listed at timestamp t are exactly the nodes of the rows at t |
| NodeNormalization.DivideGroupInPlace | tgn/utils/data_processing.py:136-138 | the `.loc` assignment divides the group's weights by a nonzero sum and leaves every other row unchanged |
| NodeNormalization.StepGroup | tgn/utils/data_processing.py:133-138 | a group not yet visited still has its original sum, so dividing it by its current sum normalizes exactly that group |
| NodeNormalization.NormalizeTimestamp | tgn/utils/data_processing.py:132-138 | the inner loop normalizes every group at timestamp t and nothing else |
| NodeNormalization.NormalizeByNode | tgn/utils/data_processing.py:129-138 | the in-place pass equals dividing every row once by the sum its group had before the pass, nonzero sums only |
| NodeNormalization.GroupSumFrame | tgn/utils/data_processing.py:135 | a group's sum depends only on that group's weights |
| NodeNormalization.GroupSumScaled | tgn/utils/data_processing.py:134-138 | dividing a group's weights by c divides its sum by c |
| NodeNormalization.NormalizedGroupSum | tgn/utils/data_processing.py:134-138 | after a pass a group with nonzero sum sums to 1, and a zero-sum group is unchanged |
| NodeNormalization.NormalizedRows | tgn/utils/data_processing.py:134-138 | one pass (`Normalized`) gives back the weight when a row is multiplied by its group's nonzero sum, leaves zero-sum groups alone, and keeps the proportions inside a group |
| NodeNormalization.NormalizedIdempotent | tgn/utils/data_processing.py:129-138 | a second pass changes nothing |
| NodeNormalization.NormalizedUnitRange | tgn/utils/data_processing.py:126-138 | with nonnegative weights every normalized weight of a nonzero group lies in [0, 1] |
| TemporalSplit.NodeSet | tgn/utils/data_processing.py:162 | the node set holds exactly the endpoints of the rows |
| TemporalSplit.TestNodeSet | tgn/utils/data_processing.py:166-167 | the test-time node set holds exactly the endpoints of rows after the validation time, and lies within the node set |
| TemporalSplit.SampleSize | tgn/utils/data_processing.py:170 | the sample size is the node count divided by 10, rounded down |
| TemporalSplit.InSetMask | tgn/utils/data_processing.py:173-174 | the membership mask holds exactly at the rows whose node is in the set |
| TemporalSplit.ObservedMask | tgn/utils/data_processing.py:178 | a row is observed iff neither endpoint is held out |
| TemporalSplit.TrainMask | tgn/utils/data_processing.py:182 | a row is for training iff it is at or before the validation time and neither endpoint is held out |
| TemporalSplit.ValMask | tgn/utils/data_processing.py:192 | a row is for validation iff its time lies in (val_time, test_time] |
| TemporalSplit.TestMask | tgn/utils/data_processing.py:193 | a row is for testing iff its time is after test_time |
| TemporalSplit.TouchesMask | tgn/utils/data_processing.py:200-210 | the new-node edge mask holds iff an endpoint is in the set |
| TemporalSplit.TrainData | tgn/utils/data_processing.py:182-185 | the training store is aligned, has one row per training-mask row, and each of its rows is at or before val_time with no held-out endpoint |
| TemporalSplit.NewNodeSet | tgn/utils/data_processing.py:190 | the new nodes are table nodes |
| TemporalSplit.NewNodes | tgn/utils/data_processing.py:182-190 | a node is new iff it occurs in the table and every row it occurs in is after val_time or touches a held-out node |
| TemporalSplit.Stores | tgn/utils/data_processing.py:158-228 | the stores are aligned, each holds rows of its own time window only, and no training row touches a held-out node |
| TemporalSplit.Split | tgn/utils/data_processing.py:160-228 | the split fails exactly when the sample size exceeds the test-time node set, and the assertion at line 189 never fails |
| TemporalSplit.TrainNodesAvoidSample | tgn/utils/data_processing.py:188-189 | the training node set and the held-out node set are disjoint |
| TemporalSplit.TrainNodes | tgn/utils/data_processing.py:182-188 | a node is a training node iff it is an endpoint of an early row with no held-out endpoint |
| TemporalSplit.SampleInNewNodes | tgn/utils/data_processing.py:170-190 | every held-out node is a new node |
| TemporalSplit.WindowsPartition | tgn/utils/data_processing.py:182-193 | validation and test are disjoint, and validation is disjoint from training; for val_time ≤ test_time, test is also disjoint from training and validation and test together are exactly the rows after val_time |
| TemporalSplit.TrainTestOverlap | tgn/utils/data_processing.py:182-193 | with val_time above test_time, a row can be in both the training and the test window |
| TemporalSplit.RowsCovered | tgn/utils/data_processing.py:182-193 | every row is in training, validation or test, or is an early row touching a held-out node |
| TemporalSplit.ValTestCount | tgn/utils/data_processing.py:215-219 | for val_time ≤ test_time, the validation and test stores together hold as many interactions as there are rows after val_time |
| TemporalSplit.HalfSplit | tgn/utils/data_processing.py:196-198 | the two halves together are the held-out list's nodes, the first \|S\| // 2 listed in the first half and the rest in the second |
| TemporalSplit.HalfSplitPartition | tgn/utils/data_processing.py:196-198 | the two halves partition the held-out set, the first holding \|S\| // 2 nodes |
| TemporalSplit.NewNodeMasks | tgn/utils/data_processing.py:195-212 | a new-node mask holds iff the row is in its window and touches that mode's new-node set |
| TemporalSplit.HeldOutEdgesAreNew | tgn/utils/data_processing.py:208-212 | in the default mode every validation or test edge touching a held-out node is a new-node edge |
| TimeStatistics.LastSeenIsLatest | tgn/utils/data_processing.py:258-265 | the remembered time is that of the node's latest earlier occurrence, or 0 when it has none |
| TimeStatistics.ComputeTimeGaps | tgn/utils/data_processing.py:249-267 | the loop yields one source gap and one destination gap per interaction, each the time since that node's last appearance on that side (minus 0 for a first appearance) |
| TimeStatistics.FirstAppearanceGap | tgn/utils/data_processing.py:258-263 | a node's first appearance on a side gives its own timestamp as gap |
| TimeStatistics.GapsNonnegative | tgn/utils/data_processing.py:254-265 | with nonnegative, chronologically ordered timestamps no gap is negative |
| TimeStatistics.GapsExample | tgn/utils/data_processing.py:254-265 | sources [1, 2, 1] and destinations [2, 1, 2] at times 10, 20, 30 give gaps [10, 20, 20] on both sides |
| Pipeline.AttachWeights | tgn/utils/data_processing.py:77 | row k gets weight `edge_features[k + 1]`; every other column is kept |
| Pipeline.AtLeast | tgn/utils/data_processing.py:124 | `np.maximum` floors every value at the bound and keeps larger ones |
| Pipeline.NormalizeWeights | tgn/utils/data_processing.py:127-154 | the two in-place passes over one weight array yield the out pass followed by the in pass, each when asked |
| Pipeline.FinalTable | tgn/utils/data_processing.py:77-154 | the table `get_data` splits keeps the prepared table's rows and columns, only the weight column being rewritten by normalization |
| Pipeline.Prepare | tgn/utils/data_processing.py:77-156 | filtering, densification, rescaling and the two in-place passes yield the specified table, its weight column normalized in place, and the specified features |
| Pipeline.GetData | tgn/utils/data_processing.py:56-228 | `get_data` without I/O is the split of the prepared data |
| Pipeline.NormalizationDiscardsRescaling | tgn/utils/data_processing.py:116-156 | with either node normalization the features do not depend on min-max or logarithm rescaling |
| Pipeline.OutNormalizedGroups | tgn/utils/data_processing.py:127-140 | with the out pass alone every (source, timestamp) group of the features sums to 1, or to 0 if its weights did |
| Pipeline.InNormalizedGroups | tgn/utils/data_processing.py:143-156 | with the in pass every (destination, timestamp) group sums to 1, or to 0 if it did after the out pass |
| Pipeline.LogFeaturesFloored | tgn/utils/data_processing.py:120-124 | logarithmized features are never below 0.001 |

## Left out

- File loading (`pd.read_csv`, `np.load`), `print` and `tqdm` are I/O. The model takes the table and the edge-feature column as inputs.
- `node_features`, its zero padding to 172 columns and the `np.random.rand` feature randomization are left out. They are shape plumbing and randomness that touch no modelled value.
- Pipeline.AttachWeights, Pipeline.Prepare, Pipeline.GetData: the model covers only one-column edge features with one row more than the table (`|edgeFeatures| == t.Len() + 1`), the only input the weight assignment of line 77 accepts. For `enron`, `socialevolve` and `uci`, lines 69-70 pad the edge features to 172 columns, and line 77 then raises, since one column cannot take a 172-column array. Line 77 also raises when the row counts differ. Both failures stop `get_data` before any modelled stage and are not modelled.
- `np.quantile` is floating-point statistics. The validation and test times are parameters.
- `random.sample` is a foreign random generator. The listed sample `order` is a parameter, required to be a repetition-free list of `int(0.1 · |node_set|)` test-time nodes whenever that many exist. Python 3.11 and later refuse a set as the population of `random.sample`; this version dependence is not modelled.
- `TemporalSplit.SampleSize`: `int(0.1 * n)` is modelled as `n // 10`. The two agree for every node count below 2^49.
- `MinMaxScaler` and `np.log10` are float routines behind library calls. They are the function parameters `minMax` and `log10`, assumed to preserve length. Only the `np.maximum(…, 0.001)` floor is modelled.
- `np.mean` and `np.std` of the gap sequences are float statistics. `compute_time_statistics` is modelled up to the two gap sequences.
- `get_data_node_classification` is left out. It calls `Data` with five arguments against six parameters, so it cannot run.
- Densification.Trunc: a float outside the int32 range has no defined int32 conversion in numpy. The model truncates it without wrapping.
- NaN is not modelled. The `fillna` of the merge is modelled as "use the matched row's weight when there is one".
- Floating-point rounding is not modelled: weights and timestamps are exact reals. Group sums that are zero only up to rounding are therefore not captured.
- The pandas dtype upcast of the int32 weight column on the first `.loc` division is modelled as plain real division.
- Densification.Densify: `idx` equals k+1 only while the row count fits int32. Beyond that, `Wrap32` gives the wrapped value.
