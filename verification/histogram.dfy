/** Bucket arithmetic shared by the duration and latency histograms: the
    total of the bucket counts and the cumulative counts a Prometheus
    export prints, one per bucket bound. */
module Histograms {

  /** The sum of the bucket counts. */
  function Total(b: seq<nat>): nat {
    if |b| == 0 then 0 else Total(b[..|b| - 1]) + b[|b| - 1]
  }

  /** Every bucket count is at most the total. */
  lemma {:induction false} BucketAtMostTotal(b: seq<nat>, i: nat)
    requires i < |b|
    ensures b[i] <= Total(b)
  {
    var n := |b|;
    if i < n - 1 {
      BucketAtMostTotal(b[..n - 1], i);
    }
  }

  /** Adding one to a bucket adds one to the total. */
  lemma {:induction false} TotalIncrement(b: seq<nat>, i: nat)
    requires i < |b|
    ensures Total(b[i := b[i] + 1]) == Total(b) + 1
  {
    var n := |b|;
    var c := b[i := b[i] + 1];
    if i < n - 1 {
      assert c[..n - 1] == b[..n - 1][i := b[i] + 1];
      TotalIncrement(b[..n - 1], i);
    } else {
      assert c[..n - 1] == b[..n - 1];
    }
  }

  /** A list of zero counts totals zero. */
  lemma {:induction false} TotalZeros(b: seq<nat>)
    requires forall i | 0 <= i < |b| :: b[i] == 0
    ensures Total(b) == 0
  {
    if |b| > 0 {
      TotalZeros(b[..|b| - 1]);
    }
  }

  /** The running totals the export prints: entry `j` counts every
      observation in buckets `0..=j`. */
  function Cumulative(b: seq<nat>): (r: seq<nat>)
    ensures |r| == |b|
    ensures forall j | 0 <= j < |b| :: r[j] == Total(b[..j + 1])
  {
    seq(|b|, j requires 0 <= j < |b| => Total(b[..j + 1]))
  }

  /** The running totals never decrease, and the last one is the total. */
  lemma CumulativeShape(b: seq<nat>, i: nat, j: nat)
    requires i <= j < |b|
    ensures Cumulative(b)[i] <= Cumulative(b)[j]
    ensures Cumulative(b)[|b| - 1] == Total(b)
  {
    assert b[..|b|] == b;
    PrefixTotalMonotone(b, i + 1, j + 1);
  }

  /** A longer prefix totals at least as much. */
  lemma {:induction false} PrefixTotalMonotone(b: seq<nat>, m: nat, n: nat)
    requires m <= n <= |b|
    ensures Total(b[..m]) <= Total(b[..n])
  {
    if m < n {
      assert b[..n][..n - 1] == b[..n - 1];
      PrefixTotalMonotone(b, m, n - 1);
    }
  }

  /** One more observation in bucket `i` raises exactly the running
      totals from `i` on, each by one. */
  lemma CumulativeIncrement(b: seq<nat>, i: nat, j: nat)
    requires i < |b| && j < |b|
    ensures Cumulative(b[i := b[i] + 1])[j] == Cumulative(b)[j] + (if i <= j then 1 else 0)
  {
    var c := b[i := b[i] + 1];
    if i <= j {
      assert c[..j + 1] == b[..j + 1][i := b[i] + 1];
      TotalIncrement(b[..j + 1], i);
    } else {
      assert c[..j + 1] == b[..j + 1];
    }
  }
}
