/** Search-quality metrics over ranked id lists: recall, precision,
    reciprocal rank, hit rate and mean average precision. The `f64` ratios
    of the source are modelled as exact rationals. */
module Retrieval {
  import opened Wrappers
  import opened Seqs

  /** A ratio of counts is never negative, and zero only for a zero part. */
  lemma RatioSign(part: nat, whole: nat)
    requires 0 < whole
    ensures 0.0 <= (part as real) / (whole as real)
    ensures (part as real) / (whole as real) == 0.0 <==> part == 0
  {
    var q := (part as real) / (whole as real);
    assert q * (whole as real) == part as real;
  }

  /** A ratio of counts with the part at most the whole lies in [0, 1]. */
  lemma RatioInUnit(part: nat, whole: nat)
    requires 0 < whole && part <= whole
    ensures 0.0 <= (part as real) / (whole as real) <= 1.0
    ensures (part as real) / (whole as real) == 1.0 <==> part == whole
    ensures (part as real) / (whole as real) == 0.0 <==> part == 0
  {
    var q := (part as real) / (whole as real);
    assert q * (whole as real) == part as real;
  }

  /** The results found in the truth set, repeats counted each time. */
  function Hits<T(==,!new)>(truth: seq<T>, results: seq<T>): (r: nat)
    ensures r <= |results|
    ensures r == 0 <==> forall i | 0 <= i < |results| :: results[i] !in truth
    ensures r == |results| <==> forall i | 0 <= i < |results| :: results[i] in truth
  {
    var truthSet := Elems(truth);
    Count(results, x => x in truthSet)
  }

  /** The hits of a list that is one longer. */
  lemma HitsSnoc<T(!new)>(truth: seq<T>, results: seq<T>, x: T)
    ensures Hits(truth, results + [x]) == Hits(truth, results) + (if x in truth then 1 else 0)
  {
    var s := results + [x];
    assert s[..|s| - 1] == results;
  }

  /** On a duplicate-free result list the hits are the size of the
      intersection of the two element sets. */
  lemma {:induction false} HitsDistinct<T(!new)>(truth: seq<T>, results: seq<T>)
    requires Distinct(results)
    ensures Hits(truth, results) == |Elems(results) * Elems(truth)|
  {
    if |results| > 0 {
      var front := results[..|results| - 1];
      var x := results[|results| - 1];
      assert results == front + [x];
      assert Distinct(front);
      HitsDistinct(truth, front);
      HitsSnoc(truth, front, x);
      assert x !in front;
      assert Elems(results) * Elems(truth) ==
        (Elems(front) * Elems(truth)) + (if x in truth then {x} else {});
    } else {
      assert Elems(results) * Elems(truth) == {};
    }
  }

  /** A list holds at least as many entries as distinct elements. */
  lemma {:induction false} ElemsCard<T(!new)>(s: seq<T>)
    ensures |Elems(s)| <= |s|
  {
    if |s| > 0 {
      var front := s[..|s| - 1];
      ElemsCard(front);
      assert s == front + [s[|s| - 1]];
      assert Elems(s) == Elems(front) + {s[|s| - 1]};
    } else {
      assert Elems(s) == {};
    }
  }

  /** `recall_at_k` as written: the hits over the size of the ground truth,
      0 for an empty ground truth. */
  function RecallAtKAsWritten<T(==,!new)>(groundTruth: seq<T>, results: seq<T>): (r: real)
    ensures r >= 0.0
    ensures r == 0.0 <==> |groundTruth| == 0 || forall i | 0 <= i < |results| :: results[i] !in groundTruth
  {
    if |groundTruth| == 0 then 0.0
    else
      RatioSign(Hits(groundTruth, results), |groundTruth|);
      (Hits(groundTruth, results) as real) / (|groundTruth| as real)
  }

  /** A result list that repeats a true neighbour scores a recall of 2. */
  lemma RecallAsWrittenExceedsOne()
    ensures RecallAtKAsWritten([1], [1, 1]) == 2.0
  {
    assert Hits([1], [1, 1]) == 2;
  }

  /** The as-written recall stays within [0, 1] when the results hold no
      duplicate, and then it agrees with the corrected one. */
  lemma RecallAsWrittenOnDistinct<T(!new)>(groundTruth: seq<T>, results: seq<T>)
    requires Distinct(results)
    ensures RecallAtKAsWritten(groundTruth, results) == RecallAtK(groundTruth, results)
    ensures RecallAtKAsWritten(groundTruth, results) <= 1.0
  {
    HitsDistinct(groundTruth, results);
  }

  /** The true neighbours found number at most the ground truth's
      length, none exactly when no result is a true neighbour, and as many
      only when every true neighbour is found. */
  lemma FoundBounds<T(!new)>(groundTruth: seq<T>, results: seq<T>)
    ensures |Elems(results) * Elems(groundTruth)| <= |groundTruth|
    ensures |Elems(results) * Elems(groundTruth)| == 0 <==> forall i | 0 <= i < |results| :: results[i] !in groundTruth
    ensures |Elems(results) * Elems(groundTruth)| == |groundTruth| ==>
      forall i | 0 <= i < |groundTruth| :: groundTruth[i] in results
  {
    var found := Elems(results) * Elems(groundTruth);
    var rest := Elems(groundTruth) - found;
    ElemsCard(groundTruth);
    assert Elems(groundTruth) == found + rest && found !! rest;
    if |found| == |groundTruth| {
      assert rest == {};
      forall i | 0 <= i < |groundTruth|
        ensures groundTruth[i] in results
      {
        assert groundTruth[i] !in rest;
      }
    }
    if forall i | 0 <= i < |results| :: results[i] !in groundTruth {
      assert found == {};
    } else {
      var i :| 0 <= i < |results| && results[i] in groundTruth;
      assert results[i] in found;
    }
  }

  /** The recall the documented formula `|ground_truth ∩ results| /
      |ground_truth|` gives: every true neighbour found counts once. */
  function RecallAtK<T(==,!new)>(groundTruth: seq<T>, results: seq<T>): (r: real)
    ensures 0.0 <= r <= 1.0
    ensures r == 0.0 <==> |groundTruth| == 0 || forall i | 0 <= i < |results| :: results[i] !in groundTruth
    ensures r == 1.0 ==> forall i | 0 <= i < |groundTruth| :: groundTruth[i] in results
  {
    if |groundTruth| == 0 then 0.0
    else
      var found := Elems(results) * Elems(groundTruth);
      FoundBounds(groundTruth, results);
      RatioInUnit(|found|, |groundTruth|);
      (|found| as real) / (|groundTruth| as real)
  }

  /** On the repeated result the corrected recall is 1. */
  lemma RecallRepeatedResult()
    ensures RecallAtK([1], [1, 1]) == 1.0
  {
    assert Elems([1, 1]) * Elems([1]) == {1};
  }

  /** `precision_at_k`: the hits over the number of results, 0 for no
      results; 1 exactly when every result is relevant. */
  function PrecisionAtK<T(==,!new)>(groundTruth: seq<T>, results: seq<T>): (r: real)
    ensures 0.0 <= r <= 1.0
    ensures r == 0.0 <==> |results| == 0 || forall i | 0 <= i < |results| :: results[i] !in groundTruth
    ensures r == 1.0 <==> |results| > 0 && forall i | 0 <= i < |results| :: results[i] in groundTruth
  {
    if |results| == 0 then 0.0
    else
      RatioInUnit(Hits(groundTruth, results), |results|);
      (Hits(groundTruth, results) as real) / (|results| as real)
  }

  /** The position of the first relevant result, scanning from the top. */
  function FirstHit<T(==,!new)>(truth: seq<T>, results: seq<T>): (r: Option<nat>)
    ensures r.None? <==> forall i | 0 <= i < |results| :: results[i] !in truth
    ensures r.Some? ==>
      && r.value < |results| && results[r.value] in truth
      && forall j | 0 <= j < r.value :: results[j] !in truth
  {
    if |results| == 0 then None
    else if results[0] in truth then Some(0)
    else
      match FirstHit(truth, results[1..])
      case None => None
      case Some(k) => Some(k + 1)
  }

  /** `mrr`: one over the 1-based rank of the first relevant result, 0
      when none is relevant. */
  method Mrr<T(==,!new)>(groundTruth: seq<T>, results: seq<T>) returns (r: real)
    ensures FirstHit(groundTruth, results).None? ==> r == 0.0
    ensures FirstHit(groundTruth, results).Some? ==> r == 1.0 / ((FirstHit(groundTruth, results).value + 1) as real)
    ensures 0.0 <= r <= 1.0
    ensures r == 1.0 <==> |results| > 0 && results[0] in groundTruth
  {
    var truthSet := Elems(groundTruth);
    for rank := 0 to |results|
      invariant forall j | 0 <= j < rank :: results[j] !in groundTruth
    {
      if results[rank] in truthSet {
        RatioInUnit(1, rank + 1);
        return 1.0 / ((rank + 1) as real);
      }
    }
    return 0.0;
  }

  /** Whether a query finds a relevant result among its first `k`. */
  predicate HasHit<T(==,!new)>(query: (seq<T>, seq<T>), k: nat) {
    exists i | 0 <= i < |query.1| && i < k :: query.1[i] in query.0
  }

  /** `hit_rate`: the fraction of queries with a relevant result among
      their first `k`, 0 when there is no query. */
  function HitRate<T(==,!new)>(queries: seq<(seq<T>, seq<T>)>, k: nat): (r: real)
    ensures 0.0 <= r <= 1.0
    ensures r == 0.0 <==> |queries| == 0 || forall i | 0 <= i < |queries| :: !HasHit(queries[i], k)
    ensures r == 1.0 <==> |queries| > 0 && forall i | 0 <= i < |queries| :: HasHit(queries[i], k)
  {
    if |queries| == 0 then 0.0
    else
      var hits := Count(queries, q => HasHit(q, k));
      RatioInUnit(hits, |queries|);
      (hits as real) / (|queries| as real)
  }

  /** The number of relevant positions. */
  function RelevantCount(relevances: seq<bool>): (r: nat)
    ensures r <= |relevances|
  {
    Count(relevances, b => b)
  }

  /** The sum, over the relevant positions, of the precision of the list
      up to and including that position. */
  function PrecisionSum(relevances: seq<bool>): real {
    if |relevances| == 0 then 0.0
    else
      var n := |relevances|;
      PrecisionSum(relevances[..n - 1])
        + (if relevances[n - 1] then (RelevantCount(relevances) as real) / (n as real) else 0.0)
  }

  /** The count of a list that is one longer. */
  lemma RelevantCountSnoc(relevances: seq<bool>)
    requires |relevances| > 0
    ensures RelevantCount(relevances)
      == RelevantCount(relevances[..|relevances| - 1]) + (if relevances[|relevances| - 1] then 1 else 0)
  {
  }

  /** Each precision term is at most 1, so the sum is at most the number
      of relevant positions. */
  lemma {:induction false} PrecisionSumBounds(relevances: seq<bool>)
    ensures 0.0 <= PrecisionSum(relevances) <= RelevantCount(relevances) as real
  {
    var n := |relevances|;
    if n > 0 {
      var front := relevances[..n - 1];
      PrecisionSumBounds(front);
      RelevantCountSnoc(relevances);
      RatioInUnit(RelevantCount(relevances), n);
    }
  }

  /** When every position is relevant each precision term is 1. */
  lemma {:induction false} PrecisionSumAllRelevant(relevances: seq<bool>)
    requires forall i | 0 <= i < |relevances| :: relevances[i]
    ensures PrecisionSum(relevances) == |relevances| as real
  {
    var n := |relevances|;
    if n > 0 {
      var front := relevances[..n - 1];
      PrecisionSumAllRelevant(front);
      RelevantCountAll(relevances);
      RatioInUnit(n, n);
    }
  }

  /** The average precision of one query: the precision sum over the
      number of relevant positions, 0 when none is relevant. */
  function AveragePrecisionOf(relevances: seq<bool>): real {
    var c := RelevantCount(relevances);
    if c == 0 then 0.0 else PrecisionSum(relevances) / (c as real)
  }

  /** One more position adds one to the count when it is relevant, and
      then adds the precision up to it to the sum. */
  lemma AveragePrecisionStep(relevances: seq<bool>, i: nat)
    requires i < |relevances|
    ensures RelevantCount(relevances[..i + 1]) == RelevantCount(relevances[..i]) + (if relevances[i] then 1 else 0)
    ensures PrecisionSum(relevances[..i + 1]) == PrecisionSum(relevances[..i])
      + (if relevances[i] then (RelevantCount(relevances[..i + 1]) as real) / ((i + 1) as real) else 0.0)
  {
    assert relevances[..i + 1][..i] == relevances[..i];
    RelevantCountSnoc(relevances[..i + 1]);
  }

  /** The average precision lies in [0, 1], and is 1 when every position
      of a non-empty list is relevant. */
  lemma AveragePrecisionBounds(relevances: seq<bool>)
    ensures 0.0 <= AveragePrecisionOf(relevances) <= 1.0
    ensures |relevances| > 0 && (forall i | 0 <= i < |relevances| :: relevances[i]) ==> AveragePrecisionOf(relevances) == 1.0
  {
    var c := RelevantCount(relevances);
    PrecisionSumBounds(relevances);
    if c > 0 {
      RatioAtMostOne(PrecisionSum(relevances), c);
    }
    var all := forall i | 0 <= i < |relevances| :: relevances[i];
    if |relevances| > 0 && all {
      AveragePrecisionAllRelevant(relevances);
    }
  }

  lemma AveragePrecisionAllRelevant(relevances: seq<bool>)
    requires |relevances| > 0 && forall i | 0 <= i < |relevances| :: relevances[i]
    ensures AveragePrecisionOf(relevances) == 1.0
  {
    PrecisionSumAllRelevant(relevances);
    RelevantCountAll(relevances);
    RatioInUnit(|relevances|, |relevances|);
  }

  lemma {:induction false} RelevantCountAll(relevances: seq<bool>)
    requires forall i | 0 <= i < |relevances| :: relevances[i]
    ensures RelevantCount(relevances) == |relevances|
  {
    if |relevances| > 0 {
      RelevantCountAll(relevances[..|relevances| - 1]);
      RelevantCountSnoc(relevances);
    }
  }

  /** The loop over one relevance list: a running count of relevant
      positions and a running sum of precisions. */
  method AveragePrecision(relevances: seq<bool>) returns (ap: real)
    ensures ap == AveragePrecisionOf(relevances)
    ensures 0.0 <= ap <= 1.0
    ensures RelevantCount(relevances) == 0 ==> ap == 0.0
    ensures |relevances| > 0 && (forall i | 0 <= i < |relevances| :: relevances[i]) ==> ap == 1.0
  {
    var relevantCount: nat := 0;
    var precisionSum := 0.0;
    for i := 0 to |relevances|
      invariant relevantCount == RelevantCount(relevances[..i])
      invariant precisionSum == PrecisionSum(relevances[..i])
    {
      AveragePrecisionStep(relevances, i);
      if relevances[i] {
        relevantCount := relevantCount + 1;
        precisionSum := precisionSum + (relevantCount as real) / ((i + 1) as real);
      }
    }
    assert relevances[..|relevances|] == relevances;
    AveragePrecisionBounds(relevances);
    if relevantCount == 0 {
      ap := 0.0;
    } else {
      ap := precisionSum / (relevantCount as real);
    }
  }

  /** A non-negative sum bounded by a positive count, over that count,
      lies in [0, 1]. */
  lemma RatioAtMostOne(sum: real, count: nat)
    requires count > 0 && 0.0 <= sum <= count as real
    ensures 0.0 <= sum / (count as real) <= 1.0
  {
    var q := sum / (count as real);
    assert q * (count as real) == sum;
  }

  /** The sum of the average precisions of a list of queries. */
  function TotalAveragePrecision(lists: seq<seq<bool>>): real {
    if |lists| == 0 then 0.0
    else TotalAveragePrecision(lists[..|lists| - 1]) + AveragePrecisionOf(lists[|lists| - 1])
  }

  /** `mean_average_precision`: the mean of the per-query average
      precisions, 0 when there is no query; it lies in [0, 1]. */
  method MeanAveragePrecision(lists: seq<seq<bool>>) returns (map_: real)
    ensures |lists| == 0 ==> map_ == 0.0
    ensures |lists| > 0 ==> map_ == TotalAveragePrecision(lists) / (|lists| as real)
    ensures 0.0 <= map_ <= 1.0
  {
    if |lists| == 0 {
      return 0.0;
    }
    var total := 0.0;
    for i := 0 to |lists|
      invariant total == TotalAveragePrecision(lists[..i])
      invariant 0.0 <= total <= i as real
    {
      var ap := AveragePrecision(lists[i]);
      assert lists[..i + 1][..i] == lists[..i];
      total := total + ap;
    }
    assert lists[..|lists|] == lists;
    RatioAtMostOne(total, |lists|);
    map_ := total / (|lists| as real);
  }

  /** The sums of the three per-query metrics over the first `n` queries. */
  function MetricTotals<T(==,!new)>(truths: seq<seq<T>>, resultLists: seq<seq<T>>, n: nat): (r: (real, real, real))
    requires n <= |truths| && n <= |resultLists|
    ensures 0.0 <= r.0 <= n as real && 0.0 <= r.1 <= n as real && 0.0 <= r.2 <= n as real
  {
    if n == 0 then (0.0, 0.0, 0.0)
    else
      var rest := MetricTotals(truths, resultLists, n - 1);
      var gt := truths[n - 1];
      var res := resultLists[n - 1];
      var rr := (match FirstHit(gt, res)
        case None => 0.0
        case Some(k) => RatioInUnit(1, k + 1); 1.0 / ((k + 1) as real));
      (rest.0 + RecallAtK(gt, res), rest.1 + PrecisionAtK(gt, res), rest.2 + rr)
  }

  /** `average_metrics`: the mean recall, precision and reciprocal rank
      over the queries both lists cover, all 0 when either list is
      empty; each mean lies in [0, 1]. Recall is the corrected one. */
  function AverageMetrics<T(==,!new)>(truths: seq<seq<T>>, resultLists: seq<seq<T>>): (r: (real, real, real))
    ensures |truths| == 0 || |resultLists| == 0 ==> r == (0.0, 0.0, 0.0)
    ensures 0.0 <= r.0 <= 1.0 && 0.0 <= r.1 <= 1.0 && 0.0 <= r.2 <= 1.0
  {
    if |truths| == 0 || |resultLists| == 0 then (0.0, 0.0, 0.0)
    else
      var n := if |truths| <= |resultLists| then |truths| else |resultLists|;
      var t := MetricTotals(truths, resultLists, n);
      RatioAtMostOne(t.0, n);
      RatioAtMostOne(t.1, n);
      RatioAtMostOne(t.2, n);
      (t.0 / (n as real), t.1 / (n as real), t.2 / (n as real))
  }
}
