/** What an ascending argsort of a score vector is, with one admissible
    implementation. numpy's default sort is not stable, so the recommender
    accepts any ordering that satisfies IsArgsort; the insertion sort below
    only shows that such orderings exist for every score vector. */
module Argsort {

  /** No position of `s` holds the same value as another. */
  predicate Distinct(s: seq<int>)
  {
    forall i, j :: 0 <= i < j < |s| ==> s[i] != s[j]
  }

  /** `order` lists every position 0 .. n-1 exactly once. */
  predicate IsPermutationOfIndices(order: seq<int>, n: nat)
  {
    && |order| == n
    && (forall k :: 0 <= k < |order| ==> 0 <= order[k] < n)
    && (forall j :: 0 <= j < n ==> j in order)
    && Distinct(order)
  }

  /** The positions of `scores` listed so that their scores never decrease. */
  predicate IsSorted(scores: seq<real>, order: seq<int>)
    requires forall k :: 0 <= k < |order| ==> 0 <= order[k] < |scores|
  {
    forall k, l :: 0 <= k < l < |order| ==> scores[order[k]] <= scores[order[l]]
  }

  /** `order` is a result numpy's `argsort` may give for `scores`: a
      permutation of the positions, in ascending order of score, ties in
      any order. */
  predicate IsArgsort(scores: seq<real>, order: seq<int>)
  {
    IsPermutationOfIndices(order, |scores|) && IsSorted(scores, order)
  }

  /** Every function that returns an admissible argsort for every input. */
  ghost predicate IsArgsortFunction(argsort: seq<real> -> seq<int>)
  {
    forall s :: IsArgsort(s, argsort(s))
  }

  /** The positions 0 .. n-1 in increasing order. */
  function Indices(n: nat): (r: seq<int>)
    ensures |r| == n
    ensures forall k :: 0 <= k < n ==> r[k] == k
  {
    seq(n, k => k)
  }

  /** Inserts position `x` into `sorted` before the first position whose
      score is not smaller. */
  function InsertByScore(scores: seq<real>, x: int, sorted: seq<int>): (r: seq<int>)
    ensures |r| == |sorted| + 1
    ensures multiset(r) == multiset(sorted) + multiset{x}
  {
    if sorted == [] then [x]
    else if 0 <= x < |scores| && 0 <= sorted[0] < |scores| && scores[x] <= scores[sorted[0]] then [x] + sorted
    else
      assert sorted == [sorted[0]] + sorted[1..];
      [sorted[0]] + InsertByScore(scores, x, sorted[1..])
  }

  /** Every position in the result of an insertion is `x` or comes from `sorted`. */
  lemma InsertMembers(scores: seq<real>, x: int, sorted: seq<int>)
    ensures forall k :: 0 <= k < |InsertByScore(scores, x, sorted)| ==>
      InsertByScore(scores, x, sorted)[k] == x || InsertByScore(scores, x, sorted)[k] in sorted
  {
    var r := InsertByScore(scores, x, sorted);
    forall k | 0 <= k < |r| ensures r[k] == x || r[k] in sorted {
      assert r[k] in multiset(r);
    }
  }

  /** A sorted sequence stays sorted when a position of no larger score is put in front. */
  lemma SortedCons(scores: seq<real>, a: int, rest: seq<int>)
    requires 0 <= a < |scores|
    requires forall k :: 0 <= k < |rest| ==> 0 <= rest[k] < |scores|
    requires IsSorted(scores, rest)
    requires forall l :: 0 <= l < |rest| ==> scores[a] <= scores[rest[l]]
    ensures IsSorted(scores, [a] + rest)
  {
    var r := [a] + rest;
    forall k, l | 0 <= k < l < |r| ensures scores[r[k]] <= scores[r[l]] {
      assert r[l] == rest[l - 1];
      if k > 0 { assert r[k] == rest[k - 1]; }
    }
  }

  lemma {:induction false} InsertKeepsSorted(scores: seq<real>, x: int, sorted: seq<int>)
    requires 0 <= x < |scores|
    requires forall k :: 0 <= k < |sorted| ==> 0 <= sorted[k] < |scores|
    requires IsSorted(scores, sorted)
    ensures forall k :: 0 <= k < |InsertByScore(scores, x, sorted)| ==> 0 <= InsertByScore(scores, x, sorted)[k] < |scores|
    ensures IsSorted(scores, InsertByScore(scores, x, sorted))
  {
    var r := InsertByScore(scores, x, sorted);
    InsertMembers(scores, x, sorted);
    if sorted == [] {
    } else if scores[x] <= scores[sorted[0]] {
      SortedCons(scores, x, sorted);
    } else {
      var tail := sorted[1..];
      var rest := InsertByScore(scores, x, tail);
      assert r == [sorted[0]] + rest;
      assert IsSorted(scores, tail);
      InsertKeepsSorted(scores, x, tail);
      InsertMembers(scores, x, tail);
      forall l | 0 <= l < |rest| ensures scores[sorted[0]] <= scores[rest[l]] {
        if rest[l] != x {
          var k :| 0 <= k < |tail| && tail[k] == rest[l];
          assert sorted[k + 1] == rest[l];
        }
      }
      SortedCons(scores, sorted[0], rest);
    }
  }

  /** A sequence without repeats has no element twice in its multiset. */
  lemma {:induction false} DistinctMultiset(s: seq<int>)
    ensures Distinct(s) <==> forall y :: multiset(s)[y] <= 1
  {
    if s != [] {
      var tail := s[1..];
      DistinctMultiset(tail);
      assert s == [s[0]] + tail;
      assert multiset(s) == multiset{s[0]} + multiset(tail);
      if Distinct(s) {
        assert s[0] !in tail;
      } else {
        var i, j :| 0 <= i < j < |s| && s[i] == s[j];
        if i == 0 {
          assert tail[j - 1] == s[0];
          assert s[0] in multiset(tail);
          assert multiset(s)[s[0]] >= 2;
        } else {
          assert tail[i - 1] == tail[j - 1];
          assert !Distinct(tail);
          var y :| multiset(tail)[y] > 1;
          assert multiset(s)[y] > 1;
        }
      }
    }
  }

  /** Insertion sort of the positions `idxs` by score. */
  function SortIndices(scores: seq<real>, idxs: seq<int>): (r: seq<int>)
    ensures multiset(r) == multiset(idxs)
  {
    if idxs == [] then []
    else
      assert idxs == [idxs[0]] + idxs[1..];
      InsertByScore(scores, idxs[0], SortIndices(scores, idxs[1..]))
  }

  lemma {:induction false} SortIndicesSorted(scores: seq<real>, idxs: seq<int>)
    requires forall k :: 0 <= k < |idxs| ==> 0 <= idxs[k] < |scores|
    ensures forall k :: 0 <= k < |SortIndices(scores, idxs)| ==> 0 <= SortIndices(scores, idxs)[k] < |scores|
    ensures IsSorted(scores, SortIndices(scores, idxs))
  {
    if idxs != [] {
      SortIndicesSorted(scores, idxs[1..]);
      InsertKeepsSorted(scores, idxs[0], SortIndices(scores, idxs[1..]));
    }
  }

  /** A stable ascending argsort; an admissible one for every input. */
  function ReferenceArgsort(scores: seq<real>): (order: seq<int>)
    ensures IsArgsort(scores, order)
  {
    var all := Indices(|scores|);
    var order := SortIndices(scores, all);
    assert |order| == |all| by { assert |multiset(order)| == |multiset(all)|; }
    SortIndicesSorted(scores, all);
    assert forall j :: 0 <= j < |scores| ==> j in order by {
      forall j | 0 <= j < |scores| ensures j in order {
        assert all[j] == j;
        assert j in multiset(all);
      }
    }
    assert Distinct(order) by {
      assert Distinct(all);
      DistinctMultiset(all);
      DistinctMultiset(order);
    }
    order
  }

  /** The requirement the recommender puts on its argsort can be met. */
  lemma ReferenceArgsortIsAdmissible()
    ensures IsArgsortFunction(ReferenceArgsort)
  {
  }

  /** The stable argsort orders two equal scores by position. */
  lemma ReferenceArgsortOfTie(x: real)
    ensures ReferenceArgsort([x, x]) == [0, 1]
  {
    var scores := [x, x];
    assert Indices(2) == [0, 1];
    assert SortIndices(scores, [1]) == [1] by {
      assert [1][1..] == [];
    }
    assert SortIndices(scores, [0, 1]) == InsertByScore(scores, 0, SortIndices(scores, [1])) by {
      assert [0, 1][1..] == [1];
    }
  }
}
