/** Sequence and set helpers shared by the model: Python's `set(xs)`, pandas'
    first-appearance `unique`, numpy's sorted `union1d`, and boolean-mask indexing. */
module Sequences {

  /** The elements of a sequence as a set (Python's `set(xs)`). */
  function Elems<T>(s: seq<T>): set<T> {
    set x | x in s
  }

  /** No element occurs twice. */
  predicate Distinct<T(==)>(s: seq<T>) {
    forall j, j' :: 0 <= j < j' < |s| ==> s[j] != s[j']
  }

  predicate StrictlyIncreasing(s: seq<int>) {
    forall j, j' :: 0 <= j < j' < |s| ==> s[j] < s[j']
  }

  /** Index of the first occurrence of `x` in `s`. */
  function FirstIndex<T(==)>(s: seq<T>, x: T): (k: nat)
    requires x in s
    ensures k < |s| && s[k] == x && x !in s[..k]
  {
    if s[0] == x then 0
    else
      var k' := FirstIndex(s[1..], x);
      assert s[..k' + 1] == [s[0]] + s[1..][..k'];
      k' + 1
  }

  /** The first occurrence is the only index with nothing equal before it. */
  lemma FirstIndexUnique<T>(s: seq<T>, x: T, k: nat)
    requires k < |s| && s[k] == x && x !in s[..k]
    ensures FirstIndex(s, x) == k
  {
    var f := FirstIndex(s, x);
    assert forall j :: 0 <= j < k ==> s[j] != x by {
      forall j | 0 <= j < k ensures s[j] != x {
        assert s[..k][j] == s[j];
      }
    }
    assert forall j :: 0 <= j < f ==> s[j] != x by {
      forall j | 0 <= j < f ensures s[j] != x {
        assert s[..f][j] == s[j];
      }
    }
  }

  /** pandas' `unique`: the distinct values of `s`, each once, in order of first appearance. */
  function Unique<T(==)>(s: seq<T>): (r: seq<T>)
    ensures Distinct(r)
    ensures forall j :: 0 <= j < |r| ==> r[j] in s
    ensures forall k :: 0 <= k < |s| ==> s[k] in r
    decreases |s|
  {
    if |s| == 0 then []
    else
      var p := Unique(s[..|s| - 1]);
      assert s == s[..|s| - 1] + [s[|s| - 1]];
      if s[|s| - 1] in p then p else p + [s[|s| - 1]]
  }

  /** `Unique` lists the values in the order in which they first occur in `s`. */
  lemma {:induction false} UniqueFirstAppearanceOrder<T>(s: seq<T>)
    ensures forall j, j' :: 0 <= j < j' < |Unique(s)| ==>
      FirstIndex(s, Unique(s)[j]) < FirstIndex(s, Unique(s)[j'])
    decreases |s|
  {
    if |s| > 0 {
      var n := |s| - 1;
      var pre := s[..n];
      var p := Unique(pre);
      UniqueFirstAppearanceOrder(pre);
      assert s == pre + [s[n]];
      forall j | 0 <= j < |p|
        ensures FirstIndex(s, p[j]) == FirstIndex(pre, p[j]) < n
      {
        FirstIndexAppend(pre, s[n], p[j]);
      }
      if s[n] !in p {
        FirstIndexAppendNew(pre, s[n]);
      }
    }
  }

  /** Appending an element does not move the first occurrence of a present one. */
  lemma FirstIndexAppend<T>(s: seq<T>, y: T, x: T)
    requires x in s
    ensures FirstIndex(s + [y], x) == FirstIndex(s, x) < |s|
  {
    var f := FirstIndex(s, x);
    assert (s + [y])[..f] == s[..f];
    FirstIndexUnique(s + [y], x, f);
  }

  /** An appended element that was absent first occurs at the end. */
  lemma FirstIndexAppendNew<T>(s: seq<T>, y: T)
    requires y !in s
    ensures FirstIndex(s + [y], y) == |s|
  {
    assert (s + [y])[..|s|] == s;
    FirstIndexUnique(s + [y], y, |s|);
  }

  /** Inserts `x` at its place in a strictly increasing sequence, unless it is already there. */
  function InsertSorted(s: seq<int>, x: int): (r: seq<int>)
    requires StrictlyIncreasing(s)
    ensures StrictlyIncreasing(r)
    ensures forall y :: y in r <==> y in s || y == x
  {
    if |s| == 0 then [x]
    else if x < s[0] then [x] + s
    else if x == s[0] then s
    else
      var rest := InsertSorted(s[1..], x);
      assert forall y :: y in rest ==> s[0] < y by {
        forall y | y in rest ensures s[0] < y {
          if y in s[1..] {
            var k :| 0 <= k < |s[1..]| && s[1..][k] == y;
            assert s[k + 1] == y;
          }
        }
      }
      var r := [s[0]] + rest;
      assert forall j, j' :: 0 <= j < j' < |r| ==> r[j] < r[j'] by {
        forall j, j' | 0 <= j < j' < |r| ensures r[j] < r[j'] {
          if j > 0 {
            assert r[j] == rest[j - 1] && r[j'] == rest[j' - 1];
          } else {
            assert r[j'] in rest;
          }
        }
      }
      assert s == [s[0]] + s[1..];
      r
  }

  /** numpy's `unique`: the distinct values of `s` in increasing order. */
  function SortedUnique(s: seq<int>): (r: seq<int>)
    ensures StrictlyIncreasing(r)
    ensures forall y :: y in r <==> y in s
    decreases |s|
  {
    if |s| == 0 then []
    else
      assert s == s[..|s| - 1] + [s[|s| - 1]];
      InsertSorted(SortedUnique(s[..|s| - 1]), s[|s| - 1])
  }

  /** numpy's `union1d`: the sorted distinct values occurring in either input. */
  function Union1d(a: seq<int>, b: seq<int>): (r: seq<int>)
    ensures StrictlyIncreasing(r)
    ensures forall y :: y in r <==> y in a || y in b
  {
    SortedUnique(a + b)
  }

  lemma StrictlyIncreasingIsDistinct(s: seq<int>)
    requires StrictlyIncreasing(s)
    ensures Distinct(s)
  {
  }

  /** A sequence without repetitions has as many elements as its set. */
  lemma {:induction false} DistinctCard<T>(s: seq<T>)
    requires Distinct(s)
    ensures |Elems(s)| == |s|
    decreases |s|
  {
    if |s| > 0 {
      var n := |s| - 1;
      DistinctCard(s[..n]);
      assert s == s[..n] + [s[n]];
      assert Elems(s) == Elems(s[..n]) + {s[n]};
      assert forall k :: 0 <= k < n ==> s[..n][k] != s[n];
      assert s[n] !in Elems(s[..n]);
    }
  }

  /** Boolean-mask indexing (`xs[mask]`): the positions where `m` holds, in increasing order. */
  function TrueIndices(m: seq<bool>): (r: seq<nat>)
    ensures forall j :: 0 <= j < |r| ==> r[j] < |m| && m[r[j]]
    ensures forall j, j' :: 0 <= j < j' < |r| ==> r[j] < r[j']
    ensures forall k :: 0 <= k < |m| && m[k] ==> k in r
    decreases |m|
  {
    if |m| == 0 then []
    else
      var n := |m| - 1;
      TrueIndices(m[..n]) + (if m[n] then [n] else [])
  }

  /** A mask with no true entry selects nothing. */
  lemma {:induction false} NoTrueIndices(m: seq<bool>)
    requires forall k :: 0 <= k < |m| ==> !m[k]
    ensures TrueIndices(m) == []
    decreases |m|
  {
    if |m| > 0 {
      NoTrueIndices(m[..|m| - 1]);
    }
  }

  /** A mask with at most one true entry selects at most one position. */
  lemma {:induction false} AtMostOneTrueIndex(m: seq<bool>)
    requires forall k, k' :: 0 <= k < k' < |m| && m[k] ==> !m[k']
    ensures |TrueIndices(m)| <= 1
    decreases |m|
  {
    if |m| > 0 {
      var n := |m| - 1;
      if m[n] {
        NoTrueIndices(m[..n]);
      } else {
        AtMostOneTrueIndex(m[..n]);
      }
    }
  }

  /** The elements of `s` at the positions `ks`, in that order. */
  function Gather<T>(s: seq<T>, ks: seq<nat>): (r: seq<T>)
    requires forall j :: 0 <= j < |ks| ==> ks[j] < |s|
    ensures |r| == |ks|
    ensures forall j :: 0 <= j < |r| ==> r[j] == s[ks[j]]
  {
    seq(|ks|, j requires 0 <= j < |ks| => s[ks[j]])
  }

  /** The concatenation of a sequence of sequences, in order. */
  function Flatten<T>(ss: seq<seq<T>>): seq<T>
    decreases |ss|
  {
    if |ss| == 0 then [] else Flatten(ss[..|ss| - 1]) + ss[|ss| - 1]
  }

  /** Concatenating singletons gives back their elements. */
  lemma {:induction false} FlattenSingletons<T>(ss: seq<seq<T>>, xs: seq<T>)
    requires |ss| == |xs|
    requires forall k :: 0 <= k < |ss| ==> ss[k] == [xs[k]]
    ensures Flatten(ss) == xs
    decreases |ss|
  {
    if |ss| > 0 {
      var n := |ss| - 1;
      FlattenSingletons(ss[..n], xs[..n]);
      assert xs == xs[..n] + [xs[n]];
    }
  }

  /** An element is in the concatenation exactly when it is in one of the parts. */
  lemma {:induction false} FlattenMember<T>(ss: seq<seq<T>>, x: T)
    ensures x in Flatten(ss) <==> exists k :: 0 <= k < |ss| && x in ss[k]
    decreases |ss|
  {
    if |ss| > 0 {
      var n := |ss| - 1;
      FlattenMember(ss[..n], x);
      assert Flatten(ss) == Flatten(ss[..n]) + ss[n];
      if x in Flatten(ss[..n]) {
        var k :| 0 <= k < n && x in ss[..n][k];
        assert x in ss[k];
      }
      if exists k :: 0 <= k < n && x in ss[k] {
        var k :| 0 <= k < n && x in ss[k];
        assert x in ss[..n][k];
      }
    }
  }
}
