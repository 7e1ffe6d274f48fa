/** Performance metrics of graph operations: node, edge and traversal
    counters, with node and edge counts that saturate at 0 on deletion,
    and four latency histograms with ten millisecond buckets. Counters are
    `u64` atomics whose `fetch_add` wraps, modelled sequentially. */
module GraphMetrics {
  import opened Wrappers
  import opened Seqs
  import opened Histograms

  /** Upper bounds (exclusive) of the first nine latency buckets, in
      milliseconds; the tenth bucket takes everything from 10 s on. */
  const BUCKET_BOUNDS_MS: seq<nat> := [1, 5, 10, 50, 100, 500, 1000, 5000, 10000]

  /** The first bucket from `i` on whose bound exceeds the value, 9 when
      none does. */
  function BucketFrom(ms: nat, i: nat): (r: nat)
    requires i <= 9
    ensures i <= r <= 9
    ensures forall j | i <= j < r :: ms >= BUCKET_BOUNDS_MS[j]
    ensures r < 9 ==> ms < BUCKET_BOUNDS_MS[r]
    decreases 9 - i
  {
    if i == 9 then 9
    else if ms < BUCKET_BOUNDS_MS[i] then i
    else BucketFrom(ms, i + 1)
  }

  /** `position(|&bound| ms < bound).unwrap_or(9)`. */
  function LatencyBucket(ms: nat): (r: nat)
    ensures r <= 9
    ensures forall j | 0 <= j < r :: ms >= BUCKET_BOUNDS_MS[j]
    ensures r < 9 ==> ms < BUCKET_BOUNDS_MS[r]
    ensures r == 9 <==> ms >= 10000
  {
    BucketFrom(ms, 0)
  }

  /** A value capped at `u64::MAX`, as the `u128` to `u64` conversions in
      `observe` do. */
  function CapU64(n: nat): (r: nat)
    ensures IsU64(r)
    ensures n <= U64_MAX ==> r == n
    ensures n > U64_MAX ==> r == U64_MAX
  {
    if n > U64_MAX then U64_MAX else n
  }

  /** `LatencyHistogram`: ten bucket counters, the nanosecond sum and the
      observation count. */
  datatype LatencyHistogram = LatencyHistogram(buckets: seq<nat>, sumNs: nat, count: nat)

  predicate ValidHistogram(h: LatencyHistogram) {
    && |h.buckets| == 10
    && IsU64(h.sumNs) && IsU64(h.count)
    && forall i | 0 <= i < 10 :: IsU64(h.buckets[i])
  }

  /** The bucket counters add up to the observation count. */
  predicate Consistent(h: LatencyHistogram) {
    ValidHistogram(h) && Total(h.buckets) == h.count
  }

  /** `LatencyHistogram::new`, and the state `reset` returns to. */
  function NewHistogram(): (h: LatencyHistogram)
    ensures Consistent(h) && h.count == 0 && h.sumNs == 0
    ensures forall i | 0 <= i < 10 :: h.buckets[i] == 0
  {
    var b: seq<nat> := [0, 0, 0, 0, 0, 0, 0, 0, 0, 0];
    TotalZeros(b);
    LatencyHistogram(b, 0, 0)
  }

  /** `observe`: the nanoseconds (capped) go into the sum and one
      observation into the count and into the bucket of the whole
      milliseconds (capped), each `fetch_add` wrapping. */
  function Observe(h: LatencyHistogram, d: Duration): (r: LatencyHistogram)
    requires ValidHistogram(h)
    ensures ValidHistogram(r)
  {
    var i := LatencyBucket(CapU64(d / NANOS_PER_MILLI));
    LatencyHistogram(h.buckets[i := WrappingAddU64(h.buckets[i], 1)],
                     WrappingAddU64(h.sumNs, CapU64(d)),
                     WrappingAddU64(h.count, 1))
  }

  /** Below `u64::MAX` observations `observe` keeps the buckets adding up
      to the count, raises the exported running totals exactly from the
      duration's bucket on, and adds the duration to the sum when that
      does not overflow. */
  lemma ObserveSpec(h: LatencyHistogram, d: Duration, j: nat)
    requires Consistent(h) && h.count < U64_MAX && j < 10
    ensures Consistent(Observe(h, d))
    ensures Observe(h, d).count == h.count + 1
    ensures Cumulative(Observe(h, d).buckets)[j]
      == Cumulative(h.buckets)[j] + (if LatencyBucket(CapU64(d / NANOS_PER_MILLI)) <= j then 1 else 0)
    ensures h.sumNs + d <= U64_MAX ==> Observe(h, d).sumNs == h.sumNs + d
  {
    var i := LatencyBucket(CapU64(d / NANOS_PER_MILLI));
    BucketAtMostTotal(h.buckets, i);
    assert Observe(h, d).buckets == h.buckets[i := h.buckets[i] + 1];
    TotalIncrement(h.buckets, i);
    CumulativeIncrement(h.buckets, i, j);
  }

  /** `avg_ns`: 0 with no observation, otherwise the mean nanoseconds. */
  function AvgNs(h: LatencyHistogram): (r: real)
    ensures h.count == 0 ==> r == 0.0
    ensures h.count > 0 ==> r * (h.count as real) == h.sumNs as real && r >= 0.0
  {
    if h.count == 0 then 0.0 else (h.sumNs as real) / (h.count as real)
  }

  /** The exported running totals never decrease, and the `+Inf` line
      equals the `_count` line. */
  lemma ExportedBuckets(h: LatencyHistogram, i: nat, j: nat)
    requires Consistent(h) && i <= j < 10
    ensures Cumulative(h.buckets)[i] <= Cumulative(h.buckets)[j]
    ensures Cumulative(h.buckets)[9] == h.count
  {
    CumulativeShape(h.buckets, i, j);
  }

  datatype GraphMetrics = GraphMetrics(
    nodesTotal: nat, nodeInsertsTotal: nat, nodeDeletesTotal: nat,
    edgesTotal: nat, edgeInsertsTotal: nat, edgeDeletesTotal: nat,
    traversalsTotal: nat, traversalNodesVisited: nat,
    edgeInsertLatency: LatencyHistogram, edgeDeleteLatency: LatencyHistogram,
    traversalLatency: LatencyHistogram, queryLatency: LatencyHistogram)

  predicate Valid(m: GraphMetrics) {
    && IsU64(m.nodesTotal) && IsU64(m.nodeInsertsTotal) && IsU64(m.nodeDeletesTotal)
    && IsU64(m.edgesTotal) && IsU64(m.edgeInsertsTotal) && IsU64(m.edgeDeletesTotal)
    && IsU64(m.traversalsTotal) && IsU64(m.traversalNodesVisited)
    && ValidHistogram(m.edgeInsertLatency) && ValidHistogram(m.edgeDeleteLatency)
    && ValidHistogram(m.traversalLatency) && ValidHistogram(m.queryLatency)
  }

  /** `GraphMetrics::new`: every counter and histogram empty. */
  function NewMetrics(): (m: GraphMetrics)
    ensures Valid(m)
  {
    GraphMetrics(0, 0, 0, 0, 0, 0, 0, 0, NewHistogram(), NewHistogram(), NewHistogram(), NewHistogram())
  }

  /** `fetch_add(1)` on a `u64`. */
  function Inc(n: nat): (r: nat)
    requires IsU64(n)
    ensures IsU64(r)
    ensures n < U64_MAX ==> r == n + 1
  {
    WrappingAddU64(n, 1)
  }

  /** `record_node_insert`: one more insertion and one more node. */
  function RecordNodeInsert(m: GraphMetrics): (r: GraphMetrics)
    requires Valid(m)
    ensures Valid(r) && r == m.(nodesTotal := r.nodesTotal, nodeInsertsTotal := r.nodeInsertsTotal)
    ensures m.nodesTotal < U64_MAX ==> r.nodesTotal == m.nodesTotal + 1
    ensures m.nodeInsertsTotal < U64_MAX ==> r.nodeInsertsTotal == m.nodeInsertsTotal + 1
  {
    m.(nodeInsertsTotal := Inc(m.nodeInsertsTotal), nodesTotal := Inc(m.nodesTotal))
  }

  /** `record_node_delete`: one more deletion and one node fewer, the node
      count staying at 0 rather than wrapping. */
  function RecordNodeDelete(m: GraphMetrics): (r: GraphMetrics)
    requires Valid(m)
    ensures Valid(r) && r == m.(nodesTotal := r.nodesTotal, nodeDeletesTotal := r.nodeDeletesTotal)
    ensures r.nodesTotal == SaturatingSub(m.nodesTotal, 1)
    ensures m.nodeDeletesTotal < U64_MAX ==> r.nodeDeletesTotal == m.nodeDeletesTotal + 1
  {
    m.(nodeDeletesTotal := Inc(m.nodeDeletesTotal), nodesTotal := SaturatingSub(m.nodesTotal, 1))
  }

  /** `record_edge_insert`: one more insertion and edge, and the latency
      observed. */
  function RecordEdgeInsert(m: GraphMetrics, latency: Duration): (r: GraphMetrics)
    requires Valid(m)
    ensures Valid(r)
    ensures r == m.(edgesTotal := r.edgesTotal, edgeInsertsTotal := r.edgeInsertsTotal,
                    edgeInsertLatency := Observe(m.edgeInsertLatency, latency))
    ensures m.edgesTotal < U64_MAX ==> r.edgesTotal == m.edgesTotal + 1
    ensures m.edgeInsertsTotal < U64_MAX ==> r.edgeInsertsTotal == m.edgeInsertsTotal + 1
  {
    m.(edgeInsertsTotal := Inc(m.edgeInsertsTotal), edgesTotal := Inc(m.edgesTotal),
       edgeInsertLatency := Observe(m.edgeInsertLatency, latency))
  }

  /** `record_edge_delete`: one more deletion and one edge fewer
      (saturating), and the latency observed. */
  function RecordEdgeDelete(m: GraphMetrics, latency: Duration): (r: GraphMetrics)
    requires Valid(m)
    ensures Valid(r)
    ensures r == m.(edgesTotal := r.edgesTotal, edgeDeletesTotal := r.edgeDeletesTotal,
                    edgeDeleteLatency := Observe(m.edgeDeleteLatency, latency))
    ensures r.edgesTotal == SaturatingSub(m.edgesTotal, 1)
    ensures m.edgeDeletesTotal < U64_MAX ==> r.edgeDeletesTotal == m.edgeDeletesTotal + 1
  {
    m.(edgeDeletesTotal := Inc(m.edgeDeletesTotal), edgesTotal := SaturatingSub(m.edgesTotal, 1),
       edgeDeleteLatency := Observe(m.edgeDeleteLatency, latency))
  }

  /** `record_traversal`: one more traversal, its visited nodes added
      (wrapping), and the latency observed. */
  function RecordTraversal(m: GraphMetrics, latency: Duration, nodesVisited: nat): (r: GraphMetrics)
    requires Valid(m) && IsU64(nodesVisited)
    ensures Valid(r)
    ensures r == m.(traversalsTotal := r.traversalsTotal, traversalNodesVisited := r.traversalNodesVisited,
                    traversalLatency := Observe(m.traversalLatency, latency))
    ensures m.traversalsTotal < U64_MAX ==> r.traversalsTotal == m.traversalsTotal + 1
    ensures m.traversalNodesVisited + nodesVisited <= U64_MAX ==>
      r.traversalNodesVisited == m.traversalNodesVisited + nodesVisited
  {
    m.(traversalsTotal := Inc(m.traversalsTotal),
       traversalNodesVisited := WrappingAddU64(m.traversalNodesVisited, nodesVisited),
       traversalLatency := Observe(m.traversalLatency, latency))
  }

  /** `record_query`: only the query histogram observes. */
  function RecordQuery(m: GraphMetrics, latency: Duration): (r: GraphMetrics)
    requires Valid(m)
    ensures Valid(r) && r == m.(queryLatency := Observe(m.queryLatency, latency))
  {
    m.(queryLatency := Observe(m.queryLatency, latency))
  }

  /** `reset`: every counter and histogram back to zero. */
  function Reset(m: GraphMetrics): (r: GraphMetrics)
    ensures r == NewMetrics()
    ensures r.nodesTotal == 0 && r.edgesTotal == 0 && r.traversalsTotal == 0
    ensures r.queryLatency.count == 0 && r.edgeInsertLatency.count == 0
  {
    GraphMetrics(0, 0, 0, 0, 0, 0, 0, 0, NewHistogram(), NewHistogram(), NewHistogram(), NewHistogram())
  }

  /** The calls the graph layer makes on its metrics. */
  datatype Event =
    | NodeInsert | NodeDelete
    | EdgeInsert(latency: Duration) | EdgeDelete(latency: Duration)
    | Traversal(latency: Duration, nodesVisited: nat)
    | Query(latency: Duration)

  predicate EventValid(e: Event) {
    e.Traversal? ==> IsU64(e.nodesVisited)
  }

  function Apply(m: GraphMetrics, e: Event): (r: GraphMetrics)
    requires Valid(m) && EventValid(e)
    ensures Valid(r)
  {
    match e
    case NodeInsert => RecordNodeInsert(m)
    case NodeDelete => RecordNodeDelete(m)
    case EdgeInsert(l) => RecordEdgeInsert(m, l)
    case EdgeDelete(l) => RecordEdgeDelete(m, l)
    case Traversal(l, n) => RecordTraversal(m, l, n)
    case Query(l) => RecordQuery(m, l)
  }

  /** The metrics after a sequence of calls on new metrics. */
  function Run(events: seq<Event>): (r: GraphMetrics)
    requires forall i | 0 <= i < |events| :: EventValid(events[i])
    ensures Valid(r)
  {
    if |events| == 0 then NewMetrics()
    else Apply(Run(events[..|events| - 1]), events[|events| - 1])
  }

  /** One call moves each node and edge counter only when it is of the
      counter's kind. */
  lemma ApplyCounters(m: GraphMetrics, e: Event)
    requires Valid(m) && EventValid(e)
    ensures Apply(m, e).nodeInsertsTotal == (if e.NodeInsert? then Inc(m.nodeInsertsTotal) else m.nodeInsertsTotal)
    ensures Apply(m, e).nodeDeletesTotal == (if e.NodeDelete? then Inc(m.nodeDeletesTotal) else m.nodeDeletesTotal)
    ensures Apply(m, e).nodesTotal == (if e.NodeInsert? then Inc(m.nodesTotal)
                                       else if e.NodeDelete? then SaturatingSub(m.nodesTotal, 1)
                                       else m.nodesTotal)
    ensures Apply(m, e).edgeInsertsTotal == (if e.EdgeInsert? then Inc(m.edgeInsertsTotal) else m.edgeInsertsTotal)
    ensures Apply(m, e).edgeDeletesTotal == (if e.EdgeDelete? then Inc(m.edgeDeletesTotal) else m.edgeDeletesTotal)
    ensures Apply(m, e).edgesTotal == (if e.EdgeInsert? then Inc(m.edgesTotal)
                                       else if e.EdgeDelete? then SaturatingSub(m.edgesTotal, 1)
                                       else m.edgesTotal)
  {
  }

  /** Below `u64::MAX` calls the node insertion and deletion totals
      count their calls. */
  lemma {:induction false} RunNodeTotals(events: seq<Event>)
    requires forall i | 0 <= i < |events| :: EventValid(events[i])
    requires |events| <= U64_MAX
    ensures Run(events).nodeInsertsTotal == Count(events, (e: Event) => e.NodeInsert?)
    ensures Run(events).nodeDeletesTotal == Count(events, (e: Event) => e.NodeDelete?)
  {
    if |events| > 0 {
      var front := events[..|events| - 1];
      RunNodeTotals(front);
      ApplyCounters(Run(front), events[|events| - 1]);
    }
  }

  /** The node count, saturating at 0, never exceeds the insertions and
      falls short of insertions less deletions only by the deletions that
      found it at 0. */
  lemma {:induction false} RunNodeGauge(events: seq<Event>)
    requires forall i | 0 <= i < |events| :: EventValid(events[i])
    requires |events| <= U64_MAX
    ensures Run(events).nodesTotal <= Count(events, (e: Event) => e.NodeInsert?)
    ensures Run(events).nodesTotal + Count(events, (e: Event) => e.NodeDelete?)
      >= Count(events, (e: Event) => e.NodeInsert?)
  {
    if |events| > 0 {
      var front := events[..|events| - 1];
      RunNodeGauge(front);
      ApplyCounters(Run(front), events[|events| - 1]);
    }
  }

  /** The edge insertion and deletion totals count their calls. */
  lemma {:induction false} RunEdgeTotals(events: seq<Event>)
    requires forall i | 0 <= i < |events| :: EventValid(events[i])
    requires |events| <= U64_MAX
    ensures Run(events).edgeInsertsTotal == Count(events, (e: Event) => e.EdgeInsert?)
    ensures Run(events).edgeDeletesTotal == Count(events, (e: Event) => e.EdgeDelete?)
  {
    if |events| > 0 {
      var front := events[..|events| - 1];
      RunEdgeTotals(front);
      ApplyCounters(Run(front), events[|events| - 1]);
    }
  }

  /** The edge count obeys the same bounds as the node count. */
  lemma {:induction false} RunEdgeGauge(events: seq<Event>)
    requires forall i | 0 <= i < |events| :: EventValid(events[i])
    requires |events| <= U64_MAX
    ensures Run(events).edgesTotal <= Count(events, (e: Event) => e.EdgeInsert?)
    ensures Run(events).edgesTotal + Count(events, (e: Event) => e.EdgeDelete?)
      >= Count(events, (e: Event) => e.EdgeInsert?)
  {
    if |events| > 0 {
      var front := events[..|events| - 1];
      RunEdgeGauge(front);
      ApplyCounters(Run(front), events[|events| - 1]);
    }
  }

  /** Below `u64::MAX` calls the traversal histogram's buckets add up to
      its count, which is the number of traversals. */
  lemma {:induction false} RunTraversalHistogram(events: seq<Event>)
    requires forall i | 0 <= i < |events| :: EventValid(events[i])
    requires |events| <= U64_MAX
    ensures Consistent(Run(events).traversalLatency)
    ensures Run(events).traversalLatency.count == Count(events, (e: Event) => e.Traversal?)
    ensures Run(events).traversalsTotal == Run(events).traversalLatency.count
  {
    if |events| > 0 {
      var front := events[..|events| - 1];
      RunTraversalHistogram(front);
      var e := events[|events| - 1];
      if e.Traversal? {
        ObserveSpec(Run(front).traversalLatency, e.latency, 0);
      }
    }
  }
}
