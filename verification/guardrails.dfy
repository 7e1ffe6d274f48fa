/** Graph-traversal statistics and guard-rail counters: how many
    traversals ran, how far the deepest went, and how often each resource
    limit or the rate limiter turned a request away. */
module Guardrails {
  import opened Wrappers
  import opened Seqs

  /** `TraversalMetrics`: four `u64` atomics. */
  datatype TraversalMetrics = TraversalMetrics(
    nodesVisitedTotal: nat, maxDepthReached: nat, edgesScannedTotal: nat, traversalCount: nat)

  predicate ValidTraversal(m: TraversalMetrics) {
    IsU64(m.nodesVisitedTotal) && IsU64(m.maxDepthReached)
    && IsU64(m.edgesScannedTotal) && IsU64(m.traversalCount)
  }

  const NEW_TRAVERSAL := TraversalMetrics(0, 0, 0, 0)

  /** `record_traversal`: count and sums wrap on overflow; the maximum
      depth only ever rises, to the new depth when that is deeper. */
  function RecordTraversal(m: TraversalMetrics, nodesVisited: nat, depth: nat, edgesScanned: nat): (r: TraversalMetrics)
    requires ValidTraversal(m) && IsU64(nodesVisited) && IsU64(depth) && IsU64(edgesScanned)
    ensures ValidTraversal(r)
    ensures r.maxDepthReached >= m.maxDepthReached && r.maxDepthReached >= depth
    ensures r.maxDepthReached == m.maxDepthReached || r.maxDepthReached == depth
    ensures m.traversalCount < U64_MAX ==> r.traversalCount == m.traversalCount + 1
    ensures m.nodesVisitedTotal + nodesVisited <= U64_MAX ==> r.nodesVisitedTotal == m.nodesVisitedTotal + nodesVisited
    ensures m.edgesScannedTotal + edgesScanned <= U64_MAX ==> r.edgesScannedTotal == m.edgesScannedTotal + edgesScanned
  {
    TraversalMetrics(
      WrappingAddU64(m.nodesVisitedTotal, nodesVisited),
      if depth > m.maxDepthReached then depth else m.maxDepthReached,
      WrappingAddU64(m.edgesScannedTotal, edgesScanned),
      WrappingAddU64(m.traversalCount, 1))
  }

  /** One traversal's figures. */
  datatype Traversal = Traversal(nodesVisited: nat, depth: nat, edgesScanned: nat)

  predicate TraversalValid(t: Traversal) {
    IsU64(t.nodesVisited) && IsU64(t.depth) && IsU64(t.edgesScanned)
  }

  /** The metrics after recording a sequence of traversals on new metrics. */
  function RunTraversals(ts: seq<Traversal>): (r: TraversalMetrics)
    requires forall i | 0 <= i < |ts| :: TraversalValid(ts[i])
    ensures ValidTraversal(r)
  {
    if |ts| == 0 then NEW_TRAVERSAL
    else
      var t := ts[|ts| - 1];
      assert TraversalValid(t);
      RecordTraversal(RunTraversals(ts[..|ts| - 1]), t.nodesVisited, t.depth, t.edgesScanned)
  }

  /** The recorded maximum depth is the deepest traversal (0 with none),
      and below `u64::MAX` traversals the count is their number. */
  lemma {:induction false} RunTraversalsMaxDepth(ts: seq<Traversal>)
    requires forall i | 0 <= i < |ts| :: TraversalValid(ts[i])
    requires |ts| <= U64_MAX
    ensures RunTraversals(ts).traversalCount == |ts|
    ensures forall i | 0 <= i < |ts| :: ts[i].depth <= RunTraversals(ts).maxDepthReached
    ensures |ts| == 0 ==> RunTraversals(ts).maxDepthReached == 0
    ensures |ts| > 0 ==> exists i | 0 <= i < |ts| :: ts[i].depth == RunTraversals(ts).maxDepthReached
  {
    if |ts| > 0 {
      var front := ts[..|ts| - 1];
      RunTraversalsMaxDepth(front);
      var r := RunTraversals(ts);
      assert forall i | 0 <= i < |front| :: front[i] == ts[i];
      if r.maxDepthReached == ts[|ts| - 1].depth {
        assert ts[|ts| - 1].depth == r.maxDepthReached;
      } else {
        var k :| 0 <= k < |front| && front[k].depth == RunTraversals(front).maxDepthReached;
        assert ts[k].depth == r.maxDepthReached;
      }
    }
  }

  /** `LimitType`. */
  datatype LimitType = Timeout | Depth | Cardinality | Memory | RateLimit

  /** `as_str`: the label the export prints. */
  function AsStr(l: LimitType): (r: string)
    ensures |r| > 0
  {
    match l
    case Timeout => "timeout"
    case Depth => "depth"
    case Cardinality => "cardinality"
    case Memory => "memory"
    case RateLimit => "rate_limit"
  }

  /** Distinct limit types print distinct labels, so the export lines
      never merge two counters. */
  lemma AsStrInjective(a: LimitType, b: LimitType)
    ensures AsStr(a) == AsStr(b) <==> a == b
  {
    if a != b {
      assert AsStr(a)[..2] != AsStr(b)[..2] || |AsStr(a)| != |AsStr(b)|;
    }
  }

  /** `GuardRailsMetrics`: six `u64` atomics. */
  datatype GuardRailsMetrics = GuardRailsMetrics(
    timeoutExceeded: nat, depthExceeded: nat, cardinalityExceeded: nat,
    memoryExceeded: nat, rateLimitAllowed: nat, rateLimitRejected: nat)

  predicate ValidGuard(m: GuardRailsMetrics) {
    IsU64(m.timeoutExceeded) && IsU64(m.depthExceeded) && IsU64(m.cardinalityExceeded)
    && IsU64(m.memoryExceeded) && IsU64(m.rateLimitAllowed) && IsU64(m.rateLimitRejected)
  }

  const NEW_GUARD := GuardRailsMetrics(0, 0, 0, 0, 0, 0)

  /** The counter a limit type is recorded in; a rate-limit hit shares the
      rejected-decision counter. */
  function CounterFor(m: GuardRailsMetrics, l: LimitType): nat {
    match l
    case Timeout => m.timeoutExceeded
    case Depth => m.depthExceeded
    case Cardinality => m.cardinalityExceeded
    case Memory => m.memoryExceeded
    case RateLimit => m.rateLimitRejected
  }

  /** `record_limit_exceeded`: the limit's own counter rises by one
      (wrapping) and every other counter is unchanged. */
  function RecordLimitExceeded(m: GuardRailsMetrics, l: LimitType): (r: GuardRailsMetrics)
    requires ValidGuard(m)
    ensures ValidGuard(r)
    ensures CounterFor(m, l) < U64_MAX ==> CounterFor(r, l) == CounterFor(m, l) + 1
    ensures forall o: LimitType | o != l :: CounterFor(r, o) == CounterFor(m, o)
    ensures r.rateLimitAllowed == m.rateLimitAllowed
  {
    match l
    case Timeout => m.(timeoutExceeded := WrappingAddU64(m.timeoutExceeded, 1))
    case Depth => m.(depthExceeded := WrappingAddU64(m.depthExceeded, 1))
    case Cardinality => m.(cardinalityExceeded := WrappingAddU64(m.cardinalityExceeded, 1))
    case Memory => m.(memoryExceeded := WrappingAddU64(m.memoryExceeded, 1))
    case RateLimit => m.(rateLimitRejected := WrappingAddU64(m.rateLimitRejected, 1))
  }

  /** `record_rate_limit`: an allowed request raises the allowed counter,
      a rejected one the rejected counter; nothing else changes. */
  function RecordRateLimit(m: GuardRailsMetrics, allowed: bool): (r: GuardRailsMetrics)
    requires ValidGuard(m)
    ensures ValidGuard(r)
    ensures allowed ==> r == m.(rateLimitAllowed := r.rateLimitAllowed)
    ensures !allowed ==> r == m.(rateLimitRejected := r.rateLimitRejected)
    ensures allowed && m.rateLimitAllowed < U64_MAX ==> r.rateLimitAllowed == m.rateLimitAllowed + 1
    ensures !allowed && m.rateLimitRejected < U64_MAX ==> r.rateLimitRejected == m.rateLimitRejected + 1
  {
    if allowed then m.(rateLimitAllowed := WrappingAddU64(m.rateLimitAllowed, 1))
    else m.(rateLimitRejected := WrappingAddU64(m.rateLimitRejected, 1))
  }

  /** Recording a rate-limit hit as an exceeded limit and recording a
      rejected decision have the same effect. */
  lemma RateLimitHitIsRejection(m: GuardRailsMetrics)
    requires ValidGuard(m)
    ensures RecordLimitExceeded(m, RateLimit) == RecordRateLimit(m, false)
  {
  }

  /** The calls a guarded executor makes. */
  datatype GuardEvent = Exceeded(limit: LimitType) | Decision(allowed: bool)

  /** Whether an event lands in the counter of limit `l`. */
  predicate Hits(e: GuardEvent, l: LimitType) {
    match e
    case Exceeded(k) => k == l
    case Decision(allowed) => l == RateLimit && !allowed
  }

  function ApplyGuard(m: GuardRailsMetrics, e: GuardEvent): (r: GuardRailsMetrics)
    requires ValidGuard(m)
    ensures ValidGuard(r)
  {
    match e
    case Exceeded(l) => RecordLimitExceeded(m, l)
    case Decision(a) => RecordRateLimit(m, a)
  }

  function RunGuard(events: seq<GuardEvent>): (r: GuardRailsMetrics)
    ensures ValidGuard(r)
  {
    if |events| == 0 then NEW_GUARD
    else ApplyGuard(RunGuard(events[..|events| - 1]), events[|events| - 1])
  }

  /** Below `u64::MAX` calls each limit's counter counts the calls that
      land in it: its own exceeded events, plus the rejected decisions for
      the rate limit; the allowed counter counts the allowed decisions. */
  lemma {:induction false} RunGuardCounts(events: seq<GuardEvent>, l: LimitType)
    requires |events| <= U64_MAX
    ensures CounterFor(RunGuard(events), l) == Count(events, (e: GuardEvent) => Hits(e, l))
    ensures RunGuard(events).rateLimitAllowed == Count(events, (e: GuardEvent) => e.Decision? && e.allowed)
  {
    if |events| > 0 {
      RunGuardCounts(events[..|events| - 1], l);
    }
  }
}
