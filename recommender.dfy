/** The content-based shabad recommender: the table of cached shabads and
    its feature matrix, "more like this" selection by similarity rank, the
    reweighting of rows from the log of likes, and the document that is
    cached for one shabad fetched from the content API. */
module Recommender {
  import opened Argsort

  datatype Option<T> = None | Some(value: T)

  /** One row of the shabad table as loaded from the document store:
      `docId` is the store's own key, the other five fields are the ones
      the cache writes. */
  datatype Row = Row(
    docId: string,
    shabadId: int,
    text: string,
    translation: string,
    raag: string,
    writer: string)

  /** A returned recommendation, and the document cached for a shabad:
      exactly five fields. */
  datatype ShabadRecord = ShabadRecord(
    shabadId: int,
    text: string,
    translation: string,
    raag: string,
    writer: string)

  /** One logged user interaction. The timestamp plays no part in
      reweighting and is not kept. */
  datatype Interaction = Interaction(shabadId: int, interactionType: string)

  // ---------------------------------------------------------------------
  // Looking up a shabad id
  // ---------------------------------------------------------------------

  /** The position of the first row carrying `id`, if any. */
  function FirstIndex(rows: seq<Row>, id: int): (r: Option<nat>)
    ensures r.None? <==> forall i :: 0 <= i < |rows| ==> rows[i].shabadId != id
    ensures r.Some? ==> r.value < |rows| && rows[r.value].shabadId == id
    ensures r.Some? ==> forall i :: 0 <= i < r.value ==> rows[i].shabadId != id
  {
    if rows == [] then None
    else if rows[0].shabadId == id then Some(0)
    else match FirstIndex(rows[1..], id)
      case None => None
      case Some(k) => Some(k + 1)
  }

  // ---------------------------------------------------------------------
  // Selecting the recommended positions from an argsort
  // ---------------------------------------------------------------------

  /** Python's normalisation of a slice bound `i` on a sequence of length
      `n` (step 1): negative bounds count from the end, and both kinds are
      clamped to 0 .. n. */
  function SliceBound(i: int, n: nat): (b: nat)
    ensures b <= n
    ensures i < 0 && 0 <= i + n ==> b == i + n
    ensures 0 <= i <= n ==> b == i
  {
    if i < 0 then (if i + n < 0 then 0 else i + n)
    else if i > n then n
    else i
  }

  /** Python's `s[start:stop]`. */
  function PySlice<T>(s: seq<T>, start: int, stop: int): (r: seq<T>)
    ensures var a, b := SliceBound(start, |s|), SliceBound(stop, |s|);
      |r| == (if a < b then b - a else 0)
    ensures forall k :: 0 <= k < |r| ==>
      SliceBound(start, |s|) + k < SliceBound(stop, |s|) && r[k] == s[SliceBound(start, |s|) + k]
  {
    var a := SliceBound(start, |s|);
    var b := SliceBound(stop, |s|);
    if a < b then s[a..b] else []
  }

  /** Python's `s[::-1]`. */
  function Reversed<T>(s: seq<T>): (r: seq<T>)
    ensures |r| == |s|
    ensures forall k :: 0 <= k < |s| ==> r[k] == s[|s| - 1 - k]
  {
    seq(|s|, k requires 0 <= k < |s| => s[|s| - 1 - k])
  }

  /** Reversing twice gives the sequence back. */
  lemma ReversedTwice<T>(s: seq<T>)
    ensures Reversed(Reversed(s)) == s
  {
    var r := Reversed(s);
    assert forall k :: 0 <= k < |s| ==> Reversed(r)[k] == r[|s| - 1 - k] == s[k];
  }

  /** The positions `recommend` keeps from an ascending argsort `order`:
      the slice from `-topN-1` to `-1`, reversed. */
  function TopPositions(order: seq<int>, topN: int): (p: seq<int>)
    ensures |order| >= 1 ==> forall k :: 0 <= k < |p| ==> p[k] in order[..|order| - 1]
  {
    var slice := PySlice(order, -topN - 1, -1);
    assert |order| >= 1 ==> forall k :: 0 <= k < |slice| ==> slice[k] in order[..|order| - 1] by {
      if |order| >= 1 {
        assert SliceBound(-1, |order|) == |order| - 1;
        forall k | 0 <= k < |slice| ensures slice[k] in order[..|order| - 1] {
          var m := SliceBound(-topN - 1, |order|) + k;
          assert order[..|order| - 1][m] == slice[k];
        }
      }
    }
    Reversed(slice)
  }

  /** How many recommendations a table of `n` rows yields for `topN`:
      `min(topN, n-1)` when `topN` is not negative; a negative `topN` makes
      the slice start near the front, keeping `n + topN` positions. */
  function ExpectedCount(n: nat, topN: int): nat
    requires n >= 1
  {
    if topN >= 0 then (if topN < n - 1 then topN else n - 1)
    else if n + topN > 0 then n + topN
    else 0
  }

  /** The kept positions are the ones just below the last position of
      `order`, read backwards. */
  lemma TopPositionsShape(order: seq<int>, topN: int)
    requires |order| >= 1
    ensures |TopPositions(order, topN)| == ExpectedCount(|order|, topN)
    ensures forall k :: 0 <= k < |TopPositions(order, topN)| ==>
      TopPositions(order, topN)[k] == order[|order| - 2 - k]
  {
    var n := |order|;
    var a := SliceBound(-topN - 1, n);
    assert SliceBound(-1, n) == n - 1;
    var p := TopPositions(order, topN);
    if a < n - 1 {
      var slice := order[a..n - 1];
      assert PySlice(order, -topN - 1, -1) == slice;
      forall k | 0 <= k < |p| ensures p[k] == order[n - 2 - k] {
        assert p[k] == slice[|slice| - 1 - k];
      }
    } else {
      assert PySlice(order, -topN - 1, -1) == [];
    }
  }

  /** What the selection guarantees: `p` has the expected size and lists
      distinct positions of the table, never the one `order` puts last, in
      non-increasing score order, and every position left out (other than
      the one sorted last) scores no higher than every kept one. */
  predicate IsRankedSelection(scores: seq<real>, order: seq<int>, p: seq<int>, topN: int)
    requires |scores| >= 1 && |order| == |scores|
  {
    && |p| == ExpectedCount(|scores|, topN)
    && (forall k :: 0 <= k < |p| ==> 0 <= p[k] < |scores|)
    && Distinct(p)
    && (forall k :: 0 <= k < |p| ==> p[k] != order[|scores| - 1])
    && (forall k, l :: 0 <= k < l < |p| ==> scores[p[k]] >= scores[p[l]])
    && (forall j :: 0 <= j < |scores| && j !in p && j != order[|scores| - 1] ==>
          forall k :: 0 <= k < |p| ==> scores[j] <= scores[p[k]])
  }

  /** `p` reads `order` backwards from just below its last position. */
  predicate BelowTop(order: seq<int>, p: seq<int>)
  {
    |p| < |order| && forall k :: 0 <= k < |p| ==> p[k] == order[|order| - 2 - k]
  }

  lemma BelowTopDistinct(scores: seq<real>, order: seq<int>, p: seq<int>)
    requires IsArgsort(scores, order) && BelowTop(order, p)
    ensures forall k :: 0 <= k < |p| ==> 0 <= p[k] < |scores| && p[k] != order[|scores| - 1]
    ensures Distinct(p)
  {
    var n := |scores|;
    forall k, l | 0 <= k < l < |p| ensures p[k] != p[l] {
      assert order[n - 2 - k] != order[n - 2 - l];
    }
    forall k | 0 <= k < |p| ensures p[k] != order[n - 1] {
      assert order[n - 2 - k] != order[n - 1];
    }
  }

  lemma BelowTopDescending(scores: seq<real>, order: seq<int>, p: seq<int>)
    requires IsArgsort(scores, order) && BelowTop(order, p)
    ensures forall k :: 0 <= k < |p| ==> 0 <= p[k] < |scores|
    ensures forall k, l :: 0 <= k < l < |p| ==> scores[p[k]] >= scores[p[l]]
  {
    var n := |scores|;
    forall k, l | 0 <= k < l < |p| ensures scores[p[k]] >= scores[p[l]] {
      assert p[k] == order[n - 2 - k] && p[l] == order[n - 2 - l];
    }
  }

  lemma BelowTopDominates(scores: seq<real>, order: seq<int>, p: seq<int>)
    requires IsArgsort(scores, order) && BelowTop(order, p)
    ensures forall k :: 0 <= k < |p| ==> 0 <= p[k] < |scores|
    ensures forall j :: 0 <= j < |scores| && j !in p && j != order[|scores| - 1] ==>
      forall k :: 0 <= k < |p| ==> scores[j] <= scores[p[k]]
  {
    var n := |scores|;
    var c := |p|;
    forall m' | n - 1 - c <= m' <= n - 2 ensures order[m'] in p {
      assert p[n - 2 - m'] == order[m'];
    }
    forall j | 0 <= j < n && j !in p && j != order[n - 1]
      ensures forall k :: 0 <= k < c ==> scores[j] <= scores[p[k]]
    {
      assert j in order;
      var m :| 0 <= m < n && order[m] == j;
      assert m < n - 1 - c;
      forall k | 0 <= k < c ensures scores[j] <= scores[p[k]] {
        assert p[k] == order[n - 2 - k];
      }
    }
  }

  /** For any admissible argsort the selection is a ranked selection. */
  lemma TopPositionsRanked(scores: seq<real>, order: seq<int>, topN: int)
    requires IsArgsort(scores, order) && |scores| >= 1
    ensures IsRankedSelection(scores, order, TopPositions(order, topN), topN)
  {
    var p := TopPositions(order, topN);
    TopPositionsShape(order, topN);
    assert BelowTop(order, p);
    BelowTopDistinct(scores, order, p);
    BelowTopDescending(scores, order, p);
    BelowTopDominates(scores, order, p);
  }

  /** A query row whose score is strictly above every other row's is sorted
      last by every admissible argsort, so it is never recommended. */
  lemma StrictMaximumExcluded(scores: seq<real>, order: seq<int>, topN: int, q: nat)
    requires IsArgsort(scores, order) && q < |scores|
    ensures (forall j :: 0 <= j < |scores| && j != q ==> scores[j] < scores[q]) ==>
      order[|scores| - 1] == q && q !in TopPositions(order, topN)
  {
    var n := |scores|;
    if forall j :: 0 <= j < n && j != q ==> scores[j] < scores[q] {
      assert q in order;
      var m :| 0 <= m < n && order[m] == q;
      forall m' | 0 <= m' < n - 1 ensures order[m'] != q {
        assert scores[order[m']] <= scores[order[n - 1]];
        assert order[m'] != order[n - 1];
      }
      TopPositionsRanked(scores, order, topN);
    }
  }

  /** Under ties the query row can be recommended: with two rows of equal
      score, the argsort that puts the query first is admissible, and the
      single recommendation is then the query row itself. */
  lemma QueryRecommendedUnderTies()
    ensures IsArgsort([1.0, 1.0], [0, 1])
    ensures TopPositions([0, 1], 1) == [0]
    ensures IsArgsort([1.0, 1.0], [1, 0])
    ensures TopPositions([1, 0], 1) == [1]
  {
    assert PySlice([0, 1], -2, -1) == [0];
    assert PySlice([1, 0], -2, -1) == [1];
  }

  // ---------------------------------------------------------------------
  // Reweighting from the interaction log
  // ---------------------------------------------------------------------

  /** The id of `e` if it is a like, as a list of at most one id. */
  function LikedId(e: Interaction): seq<int>
  {
    if e.interactionType == "like" then [e.shabadId] else []
  }

  /** The ids of the "like" interactions, in log order. */
  function LikedIds(log: seq<Interaction>): (ids: seq<int>)
    ensures |ids| <= |log|
  {
    if log == [] then [] else LikedId(log[0]) + LikedIds(log[1..])
  }

  /** The liked ids are exactly the ids of the likes in the log. */
  lemma {:induction false} LikedIdsMembers(log: seq<Interaction>)
    ensures forall id :: id in LikedIds(log) <==> Interaction(id, "like") in log
  {
    if log != [] {
      LikedIdsMembers(log[1..]);
      assert forall e :: e in log <==> e == log[0] || e in log[1..] by {
        assert log == [log[0]] + log[1..];
      }
    }
  }

  /** How many times `id` was liked. */
  function LikeCount(log: seq<Interaction>, id: int): nat
  {
    multiset(LikedIds(log))[id]
  }

  /** An id has a positive like count exactly when the log holds a like of it. */
  lemma LikeCountPositive(log: seq<Interaction>, id: int)
    ensures LikeCount(log, id) > 0 <==> Interaction(id, "like") in log
  {
    var ids := LikedIds(log);
    LikedIdsMembers(log);
    assert id in ids <==> id in multiset(ids);
  }

  /** The ids of `ids` without repeats. */
  function DistinctIds(ids: seq<int>): (r: seq<int>)
    ensures Distinct(r)
    ensures forall x :: x in r <==> x in ids
  {
    if ids == [] then []
    else
      var rest := DistinctIds(ids[1..]);
      assert forall x :: x in ids <==> x == ids[0] || x in ids[1..] by {
        assert ids == [ids[0]] + ids[1..];
      }
      if ids[0] in rest then rest
      else
        assert forall k :: 0 <= k < |rest| ==> ([ids[0]] + rest)[k + 1] == rest[k];
        [ids[0]] + rest
  }

  /** The ids liked at least once, each listed once: the index of the
      per-id like counts. */
  function LikedKeys(log: seq<Interaction>): (keys: seq<int>)
    ensures Distinct(keys)
    ensures forall id :: id in keys <==> LikeCount(log, id) > 0
  {
    var ids := LikedIds(log);
    assert forall id :: id in ids <==> id in multiset(ids);
    DistinctIds(ids)
  }

  /** The weight of every row: 1, plus 0.2 per like of its shabad id, but
      only at the first row that carries that id. */
  function Weights(rows: seq<Row>, log: seq<Interaction>): (w: seq<real>)
    ensures |w| == |rows|
    ensures forall i :: 0 <= i < |rows| ==> w[i] >= 1.0
  {
    seq(|rows|, i requires 0 <= i < |rows| =>
      if FirstIndex(rows, rows[i].shabadId) == Some(i)
      then 1.0 + 0.2 * (LikeCount(log, rows[i].shabadId) as real)
      else 1.0)
  }

  /** Every row of the matrix has the same number of columns. */
  predicate Rectangular(m: seq<seq<real>>)
  {
    forall i, j :: 0 <= i < |m| && 0 <= j < |m| ==> |m[i]| == |m[j]|
  }

  /** `row` multiplied element-wise by `c`. */
  function Scale(row: seq<real>, c: real): (r: seq<real>)
    ensures |r| == |row|
    ensures forall j :: 0 <= j < |row| ==> r[j] == row[j] * c
  {
    seq(|row|, j requires 0 <= j < |row| => row[j] * c)
  }

  /** Every row `i` of `m` multiplied by `w[i]`; the shape of the matrix is
      kept. */
  function ScaleRows(m: seq<seq<real>>, w: seq<real>): (r: seq<seq<real>>)
    requires |w| == |m|
    ensures |r| == |m|
    ensures forall i :: 0 <= i < |m| ==> |r[i]| == |m[i]|
    ensures Rectangular(m) ==> Rectangular(r)
  {
    seq(|m|, i requires 0 <= i < |m| => Scale(m[i], w[i]))
  }

  /** The weight of one row, as `Weights` defines it. */
  lemma WeightAt(rows: seq<Row>, log: seq<Interaction>, i: nat)
    requires i < |rows|
    ensures Weights(rows, log)[i] ==
      if FirstIndex(rows, rows[i].shabadId) == Some(i)
      then 1.0 + 0.2 * (LikeCount(log, rows[i].shabadId) as real)
      else 1.0
  {
  }

  /** Filtering the log for likes distributes over concatenation. */
  lemma {:induction false} LikedIdsAppend(a: seq<Interaction>, b: seq<Interaction>)
    ensures LikedIds(a + b) == LikedIds(a) + LikedIds(b)
  {
    if a == [] {
      assert a + b == b;
    } else {
      assert (a + b)[0] == a[0];
      assert (a + b)[1..] == a[1..] + b;
      LikedIdsAppend(a[1..], b);
      assert LikedIds(a + b) == LikedId(a[0]) + (LikedIds(a[1..]) + LikedIds(b));
    }
  }

  /** A log without likes counts no likes for any id. */
  lemma {:induction false} NoLikesCountZero(log: seq<Interaction>, id: int)
    requires forall k :: 0 <= k < |log| ==> log[k].interactionType != "like"
    ensures LikeCount(log, id) == 0
  {
    if log != [] {
      NoLikesCountZero(log[1..], id);
      assert LikedIds(log) == LikedIds(log[1..]);
    }
  }

  /** An interaction other than a like leaves every weight as it was. */
  lemma NonLikeIgnored(rows: seq<Row>, log: seq<Interaction>, e: Interaction)
    requires e.interactionType != "like"
    ensures Weights(rows, log + [e]) == Weights(rows, log)
  {
    LikedIdsAppend(log, [e]);
    assert LikedIds([e]) == LikedId(e) + LikedIds([]);
    assert LikedIds(log + [e]) == LikedIds(log);
    var w, w' := Weights(rows, log), Weights(rows, log + [e]);
    forall i | 0 <= i < |rows| ensures w'[i] == w[i] {
      WeightAt(rows, log, i);
      WeightAt(rows, log + [e], i);
    }
  }

  /** A like of an id that no row carries leaves every weight as it was. */
  lemma AbsentLikeIgnored(rows: seq<Row>, log: seq<Interaction>, e: Interaction)
    requires forall i :: 0 <= i < |rows| ==> rows[i].shabadId != e.shabadId
    ensures Weights(rows, log + [e]) == Weights(rows, log)
  {
    LikedIdsAppend(log, [e]);
    assert LikedIds([e]) == LikedId(e) + LikedIds([]);
    var w, w' := Weights(rows, log), Weights(rows, log + [e]);
    forall i | 0 <= i < |rows| ensures w'[i] == w[i] {
      assert LikeCount(log + [e], rows[i].shabadId) == LikeCount(log, rows[i].shabadId);
      WeightAt(rows, log, i);
      WeightAt(rows, log + [e], i);
    }
  }

  /** One more like of `id` adds one to its count and to no other. */
  lemma LikeCountAfterLike(log: seq<Interaction>, id: int, other: int)
    ensures LikeCount(log + [Interaction(id, "like")], other) ==
      LikeCount(log, other) + (if other == id then 1 else 0)
  {
    var e := Interaction(id, "like");
    LikedIdsAppend(log, [e]);
    assert LikedIds([e]) == LikedId(e) + LikedIds([]);
    assert LikedIds(log + [e]) == LikedIds(log) + [id];
  }

  /** The weight of row `j` after one more like of the id of row `i`. */
  lemma WeightAfterLike(rows: seq<Row>, log: seq<Interaction>, i: nat, j: nat)
    requires i < |rows| && j < |rows| && FirstIndex(rows, rows[i].shabadId) == Some(i)
    ensures Weights(rows, log + [Interaction(rows[i].shabadId, "like")])[j] ==
      Weights(rows, log)[j] + (if j == i then 0.2 else 0.0)
  {
    var id := rows[i].shabadId;
    WeightAt(rows, log, j);
    WeightAt(rows, log + [Interaction(id, "like")], j);
    LikeCountAfterLike(log, id, rows[j].shabadId);
  }

  /** One more like of the id of row `i`, the first row with that id, adds
      0.2 to the weight of row `i` and to no other. */
  lemma LikeAddsAFifth(rows: seq<Row>, log: seq<Interaction>, i: nat)
    requires i < |rows| && FirstIndex(rows, rows[i].shabadId) == Some(i)
    ensures var w, w' := Weights(rows, log), Weights(rows, log + [Interaction(rows[i].shabadId, "like")]);
      && w'[i] == w[i] + 0.2
      && forall j :: 0 <= j < |rows| && j != i ==> w'[j] == w[j]
  {
    forall j | 0 <= j < |rows| {
      WeightAfterLike(rows, log, i, j);
    }
  }

  /** The first row carrying an id is the one before which no row carries it. */
  lemma FirstIndexIs(rows: seq<Row>, i: nat)
    requires i < |rows|
    requires forall j :: 0 <= j < i ==> rows[j].shabadId != rows[i].shabadId
    ensures FirstIndex(rows, rows[i].shabadId) == Some(i)
  {
    var r := FirstIndex(rows, rows[i].shabadId);
    assert r.Some?;
  }

  /** Five likes of shabad 2 count five for shabad 2 and none for others. */
  lemma FiveLikesCount(other: int)
    ensures var like := Interaction(2, "like");
      LikeCount([like, like, like, like, like], other) == if other == 2 then 5 else 0
  {
    var like := Interaction(2, "like");
    var log: seq<Interaction> := [];
    var n := 0;
    while n < 5
      invariant 0 <= n <= 5
      invariant log == seq(n, _ => like)
      invariant LikeCount(log, other) == if other == 2 then n else 0
    {
      LikeCountAfterLike(log, 2, other);
      log := log + [like];
      n := n + 1;
    }
    assert log == [like, like, like, like, like];
  }

  /** The scenario of five likes for shabad 2 in a table of shabads 1 to 4:
      the row of shabad 2 gets weight 2, every other row keeps 1. */
  lemma FiveLikesDoubleTheWeight(rows: seq<Row>)
    requires |rows| == 4
    requires forall i :: 0 <= i < 4 ==> rows[i].shabadId == i + 1
    ensures var like := Interaction(2, "like");
      var w := Weights(rows, [like, like, like, like, like]);
      w[0] == 1.0 && w[1] == 2.0 && w[2] == 1.0 && w[3] == 1.0
  {
    var like := Interaction(2, "like");
    var log := [like, like, like, like, like];
    FirstIndexIs(rows, 0);
    FirstIndexIs(rows, 1);
    FirstIndexIs(rows, 2);
    FirstIndexIs(rows, 3);
    FiveLikesCount(1);
    FiveLikesCount(2);
    FiveLikesCount(3);
    FiveLikesCount(4);
    WeightAt(rows, log, 0);
    WeightAt(rows, log, 1);
    WeightAt(rows, log, 2);
    WeightAt(rows, log, 3);
  }

  /** A row whose shabad id has no likes is left as it was. */
  lemma UnlikedRowUnchanged(m: seq<seq<real>>, rows: seq<Row>, log: seq<Interaction>, i: nat)
    requires |m| == |rows| && i < |rows|
    requires LikeCount(log, rows[i].shabadId) == 0
    ensures ScaleRows(m, Weights(rows, log))[i] == m[i]
  {
    assert Weights(rows, log)[i] == 1.0;
    assert Scale(m[i], 1.0) == m[i];
  }

  /** With no likes in the log, reweighting leaves the matrix unchanged. */
  lemma NoLikesNoChange(m: seq<seq<real>>, rows: seq<Row>, log: seq<Interaction>)
    requires |m| == |rows|
    requires forall k :: 0 <= k < |log| ==> log[k].interactionType != "like"
    ensures ScaleRows(m, Weights(rows, log)) == m
  {
    forall i | 0 <= i < |rows| ensures ScaleRows(m, Weights(rows, log))[i] == m[i] {
      NoLikesCountZero(log, rows[i].shabadId);
      UnlikedRowUnchanged(m, rows, log, i);
    }
  }

  /** Reweighting scales the current matrix, so reweighting twice with the
      same weights multiplies every row by the square of its weight. */
  lemma RetrainTwiceCompounds(m: seq<seq<real>>, w: seq<real>)
    requires |w| == |m|
    ensures forall i, j :: 0 <= i < |m| && 0 <= j < |m[i]| ==>
      ScaleRows(ScaleRows(m, w), w)[i][j] == m[i][j] * (w[i] * w[i])
  {
    var once := ScaleRows(m, w);
    forall i, j | 0 <= i < |m| && 0 <= j < |m[i]|
      ensures ScaleRows(once, w)[i][j] == m[i][j] * (w[i] * w[i])
    {
      assert once[i][j] == m[i][j] * w[i];
      assert ScaleRows(once, w)[i][j] == once[i][j] * w[i];
    }
  }

  /** Scaling a value twice by a weight of at least 1 gives the same as
      scaling it once exactly when the weight is 1 or the value is 0. */
  lemma ScaleTwiceSameIff(x: real, w: real)
    requires w >= 1.0
    ensures (x * w) * w == x * w <==> w == 1.0 || x == 0.0
  {
    assert (x * w) * w - x * w == (x * w) * (w - 1.0);
    if (x * w) * w == x * w {
      assert (x * w) * (w - 1.0) == 0.0;
      if w != 1.0 {
        assert x * w == 0.0;
      }
    }
  }

  /** The same for a whole row. */
  lemma ScaleRowTwiceSameIff(row: seq<real>, c: real)
    requires c >= 1.0
    ensures Scale(Scale(row, c), c) == Scale(row, c) <==>
      c == 1.0 || forall j :: 0 <= j < |row| ==> row[j] == 0.0
  {
    var once := Scale(row, c);
    var twice := Scale(once, c);
    if twice == once {
      forall j | 0 <= j < |row| && c != 1.0 ensures row[j] == 0.0 {
        assert twice[j] == once[j] && once[j] == row[j] * c;
        ScaleTwiceSameIff(row[j], c);
      }
    } else {
      var j :| 0 <= j < |row| && twice[j] != once[j];
      assert once[j] == row[j] * c;
      ScaleTwiceSameIff(row[j], c);
    }
  }

  /** A second reweighting with the same log changes nothing exactly when
      every row either has weight 1 or is all zeros. */
  lemma RetrainIdempotentIff(m: seq<seq<real>>, rows: seq<Row>, log: seq<Interaction>)
    requires |m| == |rows|
    ensures var w := Weights(rows, log);
      ScaleRows(ScaleRows(m, w), w) == ScaleRows(m, w) <==>
      forall i :: 0 <= i < |m| ==> w[i] == 1.0 || forall j :: 0 <= j < |m[i]| ==> m[i][j] == 0.0
  {
    var w := Weights(rows, log);
    var once := ScaleRows(m, w);
    var twice := ScaleRows(once, w);
    forall i | 0 <= i < |m| ensures twice[i] == Scale(once[i], w[i]) && once[i] == Scale(m[i], w[i]) {
    }
    if twice == once {
      forall i | 0 <= i < |m| ensures w[i] == 1.0 || forall j :: 0 <= j < |m[i]| ==> m[i][j] == 0.0 {
        ScaleRowTwiceSameIff(m[i], w[i]);
      }
    } else {
      var i :| 0 <= i < |m| && twice[i] != once[i];
      ScaleRowTwiceSameIff(m[i], w[i]);
    }
  }

  // ---------------------------------------------------------------------
  // The recommender object
  // ---------------------------------------------------------------------

  /** The recommender's state: the feature matrix, one row per shabad, and
      the shabad table in the same order. */
  class ShabadRecommender {
    var features: seq<seq<real>>
    var rows: seq<Row>

    /** The matrix and the table line up row for row, and the matrix has
        at least one row (features cannot be built from an empty table). */
    ghost predicate Valid()
      reads this
    {
      |rows| > 0 && |features| == |rows| && Rectangular(features)
    }

    constructor (features: seq<seq<real>>, rows: seq<Row>)
      requires |rows| > 0 && |features| == |rows| && Rectangular(features)
      ensures Valid()
      ensures this.features == features && this.rows == rows
    {
      this.features := features;
      this.rows := rows;
    }

    /** The similarity of row `q` to every row, itself included. */
    function Similarities(q: nat, cosine: (seq<real>, seq<real>) -> real): (scores: seq<real>)
      reads this
      requires q < |features|
      ensures |scores| == |features|
    {
      var f := features;
      seq(|f|, j requires 0 <= j < |f| => cosine(f[q], f[j]))
    }

    /** The table positions `recommend` returns for `shabadId`: none when
        no row carries the id; otherwise, for the first row carrying it,
        the positions just below the top of the similarity ranking. */
    function RecommendedPositions(shabadId: int, topN: int,
                                  cosine: (seq<real>, seq<real>) -> real,
                                  argsort: seq<real> -> seq<int>): (p: seq<int>)
      reads this
      requires Valid()
      requires IsArgsortFunction(argsort)
      ensures FirstIndex(rows, shabadId).None? ==> p == []
      ensures FirstIndex(rows, shabadId).Some? ==>
        var q := FirstIndex(rows, shabadId).value;
        var scores := Similarities(q, cosine);
        && IsArgsort(scores, argsort(scores))
        && IsRankedSelection(scores, argsort(scores), p, topN)
        && ((forall j :: 0 <= j < |rows| && j != q ==> scores[j] < scores[q]) ==> q !in p)
    {
      match FirstIndex(rows, shabadId)
      case None => []
      case Some(q) =>
        var scores := Similarities(q, cosine);
        var order := argsort(scores);
        TopPositionsRanked(scores, order, topN);
        StrictMaximumExcluded(scores, order, topN, q);
        TopPositions(order, topN)
    }

    /** `recommend`: the rows at the recommended positions, most similar
        first, each cut down to its five cached fields. */
    function Recommend(shabadId: int, topN: int,
                       cosine: (seq<real>, seq<real>) -> real,
                       argsort: seq<real> -> seq<int>): (r: seq<ShabadRecord>)
      reads this
      requires Valid()
      requires IsArgsortFunction(argsort)
      ensures FirstIndex(rows, shabadId).None? ==> r == []
      ensures FirstIndex(rows, shabadId).Some? ==> |r| == ExpectedCount(|rows|, topN)
      ensures var p := RecommendedPositions(shabadId, topN, cosine, argsort);
        |r| == |p| &&
        forall k :: 0 <= k < |r| ==>
          && r[k].shabadId == rows[p[k]].shabadId
          && r[k].text == rows[p[k]].text
          && r[k].translation == rows[p[k]].translation
          && r[k].raag == rows[p[k]].raag
          && r[k].writer == rows[p[k]].writer
    {
      var p := RecommendedPositions(shabadId, topN, cosine, argsort);
      var table := rows;
      seq(|p|, k requires 0 <= k < |p| =>
        var row := table[p[k]];
        ShabadRecord(row.shabadId, row.text, row.translation, row.raag, row.writer))
    }

    /** `retrain_recommender`: weighs every row by its likes in `log` and
        replaces the matrix by the current one scaled row by row. The table
        is untouched. */
    method Retrain(log: seq<Interaction>)
      requires Valid()
      modifies this
      ensures Valid()
      ensures rows == old(rows)
      ensures features == ScaleRows(old(features), Weights(rows, log))
    {
      var weights := ComputeWeights(rows, log);
      features := ScaleRows(features, weights[..]);
    }
  }

  /** Under a tie even the stable argsort can recommend the query row: in
      a table of two rows whose similarities are all equal, the single
      recommendation for the first row's id is that row itself. A stable
      tie order and a query row always left out cannot both hold under
      this slice. */
  lemma StableTieRecommendsQuery(rec: ShabadRecommender, cosine: (seq<real>, seq<real>) -> real, x: real)
    requires rec.Valid() && |rec.rows| == 2
    requires forall u, v :: cosine(u, v) == x
    ensures IsArgsortFunction(ReferenceArgsort)
    ensures IsArgsortFunction(ReferenceArgsort) &&
      rec.RecommendedPositions(rec.rows[0].shabadId, 1, cosine, ReferenceArgsort) == [0]
    ensures IsArgsortFunction(ReferenceArgsort) &&
      var r := rec.Recommend(rec.rows[0].shabadId, 1, cosine, ReferenceArgsort);
      |r| == 1 && r[0].shabadId == rec.rows[0].shabadId
  {
    ReferenceArgsortIsAdmissible();
    var id := rec.rows[0].shabadId;
    assert FirstIndex(rec.rows, id) == Some(0);
    var scores := rec.Similarities(0, cosine);
    assert scores == [x, x];
    ReferenceArgsortOfTie(x);
    QueryRecommendedUnderTies();
  }

  /** The companion case: when the query is the later of the two tied rows
      (and the ids differ), the stable argsort sorts it last, so it is left
      out and the earlier row is recommended. */
  lemma StableTieExcludesLaterQuery(rec: ShabadRecommender, cosine: (seq<real>, seq<real>) -> real, x: real)
    requires rec.Valid() && |rec.rows| == 2 && rec.rows[0].shabadId != rec.rows[1].shabadId
    requires forall u, v :: cosine(u, v) == x
    ensures IsArgsortFunction(ReferenceArgsort)
    ensures IsArgsortFunction(ReferenceArgsort) &&
      rec.RecommendedPositions(rec.rows[1].shabadId, 1, cosine, ReferenceArgsort) == [0]
  {
    ReferenceArgsortIsAdmissible();
    var id := rec.rows[1].shabadId;
    assert FirstIndex(rec.rows, id) == Some(1);
    var scores := rec.Similarities(1, cosine);
    assert scores == [x, x];
    ReferenceArgsortOfTie(x);
    QueryRecommendedUnderTies();
  }

  /** A similarity that is unchanged when either vector is scaled by a
      positive factor, as cosine similarity is. */
  ghost predicate ScaleInvariant(cosine: (seq<real>, seq<real>) -> real)
  {
    forall u, v, a, b :: a > 0.0 && b > 0.0 ==> cosine(Scale(u, a), Scale(v, b)) == cosine(u, v)
  }

  /** Every weight is at least 1, so with a scale-invariant similarity the
      reweighted matrix ranks every row exactly as the old one did:
      retraining never changes what `recommend` returns. */
  lemma RetrainKeepsRecommendations(a: ShabadRecommender, b: ShabadRecommender, log: seq<Interaction>,
                                    shabadId: int, topN: int,
                                    cosine: (seq<real>, seq<real>) -> real,
                                    argsort: seq<real> -> seq<int>)
    requires a.Valid() && IsArgsortFunction(argsort) && ScaleInvariant(cosine)
    requires b.rows == a.rows && b.features == ScaleRows(a.features, Weights(a.rows, log))
    ensures b.Valid()
    ensures b.Recommend(shabadId, topN, cosine, argsort) == a.Recommend(shabadId, topN, cosine, argsort)
  {
    var w := Weights(a.rows, log);
    match FirstIndex(a.rows, shabadId)
    case None =>
    case Some(q) =>
      var before, after := a.Similarities(q, cosine), b.Similarities(q, cosine);
      forall j | 0 <= j < |before| ensures after[j] == before[j] {
        assert b.features[q] == Scale(a.features[q], w[q]);
        assert b.features[j] == Scale(a.features[j], w[j]);
      }
      assert after == before;
      assert b.RecommendedPositions(shabadId, topN, cosine, argsort)
          == a.RecommendedPositions(shabadId, topN, cosine, argsort);
  }

  /** The weight vector of `retrain_recommender`: a fresh array of ones to
      which each liked id, one after another, adds 0.2 per like at the
      first row carrying it. */
  method ComputeWeights(rows: seq<Row>, log: seq<Interaction>) returns (weights: array<real>)
    ensures fresh(weights)
    ensures weights[..] == Weights(rows, log)
  {
    var keys := LikedKeys(log);
    weights := new real[|rows|](_ => 1.0);
    for t := 0 to |keys|
      invariant forall i :: 0 <= i < |rows| ==> weights[i] == PartialWeight(rows, log, keys[..t], i)
    {
      var id := keys[t];
      forall i | 0 <= i < |rows| {
        PartialWeightStep(rows, log, keys, t, i);
      }
      var idx := FirstIndex(rows, id);
      if idx.Some? {
        weights[idx.value] := weights[idx.value] + (LikeCount(log, id) as real) * 0.2;
      }
    }
    assert keys[..|keys|] == keys;
    forall i | 0 <= i < |rows| {
      PartialWeightComplete(rows, log, i);
    }
  }

  /** Adding the liked id `keys[t]` changes only the weight of the first
      row that carries it. */
  lemma PartialWeightStep(rows: seq<Row>, log: seq<Interaction>, keys: seq<int>, t: nat, i: nat)
    requires Distinct(keys) && t < |keys| && i < |rows|
    ensures PartialWeight(rows, log, keys[..t + 1], i) ==
      PartialWeight(rows, log, keys[..t], i) +
      (if FirstIndex(rows, keys[t]) == Some(i) then (LikeCount(log, keys[t]) as real) * 0.2 else 0.0)
  {
    assert keys[..t + 1] == keys[..t] + [keys[t]];
    assert keys[t] !in keys[..t];
  }

  /** Once every liked id is added, the weights are those of `Weights`. */
  lemma PartialWeightComplete(rows: seq<Row>, log: seq<Interaction>, i: nat)
    requires i < |rows|
    ensures PartialWeight(rows, log, LikedKeys(log), i) == Weights(rows, log)[i]
  {
    WeightAt(rows, log, i);
  }

  /** The weight of row `i` once the liked ids in `done` have been added. */
  function PartialWeight(rows: seq<Row>, log: seq<Interaction>, done: seq<int>, i: nat): real
    requires i < |rows|
  {
    var id := rows[i].shabadId;
    if id in done && FirstIndex(rows, id) == Some(i) then 1.0 + (LikeCount(log, id) as real) * 0.2 else 1.0
  }

  // ---------------------------------------------------------------------
  // The document cached for a shabad fetched from the content API
  // ---------------------------------------------------------------------

  /** One verse line: its Gurmukhi text and its default English translation. */
  datatype Verse = Verse(gurmukhi: string, english: string)

  /** A shabad as the content API returns it, cut down to the fields the
      cache reads (raag and writer by their English names). */
  datatype BaniShabad = BaniShabad(shabadId: int, raag: string, writer: string, verses: seq<Verse>)

  /** Python's `" ".join(parts)`. */
  function JoinWithSpaces(parts: seq<string>): string
  {
    if parts == [] then ""
    else if |parts| == 1 then parts[0]
    else parts[0] + " " + JoinWithSpaces(parts[1..])
  }

  /** Where part `k` starts in the joined string. */
  function PartOffset(parts: seq<string>, k: nat): nat
    requires k <= |parts|
  {
    if k == 0 then 0 else |parts[0]| + 1 + PartOffset(parts[1..], k - 1)
  }

  /** The joined string ends with the last part. */
  lemma {:induction false} JoinLength(parts: seq<string>)
    requires |parts| >= 1
    ensures |JoinWithSpaces(parts)| == PartOffset(parts, |parts| - 1) + |parts[|parts| - 1]|
  {
    if |parts| > 1 {
      JoinLength(parts[1..]);
    }
  }

  /** Part `k` stands in the joined string at its offset. */
  lemma {:induction false} JoinPartAt(parts: seq<string>, k: nat)
    requires k < |parts|
    ensures PartOffset(parts, k) + |parts[k]| <= |JoinWithSpaces(parts)|
    ensures JoinWithSpaces(parts)[PartOffset(parts, k)..PartOffset(parts, k) + |parts[k]|] == parts[k]
  {
    var j := JoinWithSpaces(parts);
    if k == 0 {
      if |parts| > 1 {
        assert j == parts[0] + (" " + JoinWithSpaces(parts[1..]));
      }
      assert j[..|parts[0]|] == parts[0];
    } else {
      var tail := parts[1..];
      var jt := JoinWithSpaces(tail);
      JoinPartAt(tail, k - 1);
      var o := PartOffset(tail, k - 1);
      assert j == (parts[0] + " ") + jt;
      assert PartOffset(parts, k) == |parts[0]| + 1 + o;
      assert tail[k - 1] == parts[k];
      assert j[|parts[0]| + 1 + o..|parts[0]| + 1 + o + |parts[k]|] == jt[o..o + |parts[k]|];
    }
  }

  /** A single space follows every part but the last. */
  lemma {:induction false} JoinSpaceAfter(parts: seq<string>, k: nat)
    requires k + 1 < |parts|
    ensures PartOffset(parts, k) + |parts[k]| < |JoinWithSpaces(parts)|
    ensures JoinWithSpaces(parts)[PartOffset(parts, k) + |parts[k]|] == ' '
  {
    var j := JoinWithSpaces(parts);
    var tail := parts[1..];
    var jt := JoinWithSpaces(tail);
    assert j == (parts[0] + " ") + jt;
    if k > 0 {
      JoinSpaceAfter(tail, k - 1);
      var o := PartOffset(tail, k - 1);
      assert PartOffset(parts, k) == |parts[0]| + 1 + o;
      assert tail[k - 1] == parts[k];
      assert j[|parts[0]| + 1 + o + |parts[k]|] == jt[o + |parts[k]|];
    }
  }

  /** The Gurmukhi lines of the verses, in verse order. */
  function GurmukhiLines(verses: seq<Verse>): (lines: seq<string>)
    ensures |lines| == |verses|
    ensures forall k :: 0 <= k < |verses| ==> lines[k] == verses[k].gurmukhi
  {
    seq(|verses|, k requires 0 <= k < |verses| => verses[k].gurmukhi)
  }

  /** The English translations of the verses, in verse order. */
  function EnglishLines(verses: seq<Verse>): (lines: seq<string>)
    ensures |lines| == |verses|
    ensures forall k :: 0 <= k < |verses| ==> lines[k] == verses[k].english
  {
    seq(|verses|, k requires 0 <= k < |verses| => verses[k].english)
  }

  /** The document `cache_shabad` writes for a fetched shabad. */
  function CachedDocument(s: BaniShabad): (doc: ShabadRecord)
    ensures doc.shabadId == s.shabadId && doc.raag == s.raag && doc.writer == s.writer
    ensures s.verses == [] ==> doc.text == "" && doc.translation == ""
  {
    ShabadRecord(
      s.shabadId,
      JoinWithSpaces(GurmukhiLines(s.verses)),
      JoinWithSpaces(EnglishLines(s.verses)),
      s.raag,
      s.writer)
  }

  /** In the cached document, verse `k`'s Gurmukhi line stands in `text`
      and its translation in `translation` where the join of all lines puts
      them, in verse order, each followed by a single space unless it is
      the last verse. */
  lemma CachedDocumentVerseOrder(s: BaniShabad, k: nat)
    requires k < |s.verses|
    ensures var doc, o := CachedDocument(s), PartOffset(GurmukhiLines(s.verses), k);
      var line := s.verses[k].gurmukhi;
      && o + |line| <= |doc.text|
      && doc.text[o..o + |line|] == line
      && (k + 1 < |s.verses| ==> o + |line| < |doc.text| && doc.text[o + |line|] == ' ')
    ensures var doc, o := CachedDocument(s), PartOffset(EnglishLines(s.verses), k);
      var line := s.verses[k].english;
      && o + |line| <= |doc.translation|
      && doc.translation[o..o + |line|] == line
      && (k + 1 < |s.verses| ==> o + |line| < |doc.translation| && doc.translation[o + |line|] == ' ')
  {
    var g, e := GurmukhiLines(s.verses), EnglishLines(s.verses);
    assert g[k] == s.verses[k].gurmukhi;
    assert e[k] == s.verses[k].english;
    JoinPartAt(g, k);
    JoinPartAt(e, k);
    if k + 1 < |s.verses| {
      JoinSpaceAfter(g, k);
      JoinSpaceAfter(e, k);
    }
  }
}
