/** Operational counters and gauges of the database: query throughput by
    kind, errors, document and index-size gauges, and active connections,
    with the numbers the Prometheus export prints. Each atomic counter is
    a `u64` whose `fetch_add` wraps; counters are modelled sequentially. */
module Operational {
  import opened Wrappers
  import opened Seqs

  datatype OperationalMetrics = OperationalMetrics(
    queriesTotal: nat,
    queryErrors: nat,
    vectorQueries: nat,
    graphQueries: nat,
    hybridQueries: nat,
    documentsTotal: nat,
    indexSizeBytes: nat,
    activeConnections: nat)

  /** Every counter fits in a `u64`. */
  predicate Valid(m: OperationalMetrics) {
    && IsU64(m.queriesTotal) && IsU64(m.queryErrors)
    && IsU64(m.vectorQueries) && IsU64(m.graphQueries) && IsU64(m.hybridQueries)
    && IsU64(m.documentsTotal) && IsU64(m.indexSizeBytes) && IsU64(m.activeConnections)
  }

  /** `OperationalMetrics::new`: every counter zero. */
  const NEW_METRICS := OperationalMetrics(0, 0, 0, 0, 0, 0, 0, 0)

  /** `fetch_add(1)` on a `u64`. */
  function Inc(n: nat): (r: nat)
    requires IsU64(n)
    ensures IsU64(r)
    ensures n < U64_MAX ==> r == n + 1
  {
    WrappingAddU64(n, 1)
  }

  /** `inc_queries`: only the total goes up. */
  function IncQueries(m: OperationalMetrics): (r: OperationalMetrics)
    requires Valid(m)
    ensures Valid(r) && r == m.(queriesTotal := r.queriesTotal)
    ensures m.queriesTotal < U64_MAX ==> r.queriesTotal == m.queriesTotal + 1
  {
    m.(queriesTotal := Inc(m.queriesTotal))
  }

  /** `inc_errors`: only the error count goes up. */
  function IncErrors(m: OperationalMetrics): (r: OperationalMetrics)
    requires Valid(m)
    ensures Valid(r) && r == m.(queryErrors := r.queryErrors)
    ensures m.queryErrors < U64_MAX ==> r.queryErrors == m.queryErrors + 1
  {
    m.(queryErrors := Inc(m.queryErrors))
  }

  /** `record_vector_query`: the total and the vector count go up, nothing
      else changes. */
  function RecordVectorQuery(m: OperationalMetrics): (r: OperationalMetrics)
    requires Valid(m)
    ensures Valid(r) && r == m.(queriesTotal := r.queriesTotal, vectorQueries := r.vectorQueries)
    ensures m.queriesTotal < U64_MAX ==> r.queriesTotal == m.queriesTotal + 1
    ensures m.vectorQueries < U64_MAX ==> r.vectorQueries == m.vectorQueries + 1
  {
    var n := IncQueries(m);
    n.(vectorQueries := Inc(n.vectorQueries))
  }

  /** `record_graph_query`: the total and the graph count go up. */
  function RecordGraphQuery(m: OperationalMetrics): (r: OperationalMetrics)
    requires Valid(m)
    ensures Valid(r) && r == m.(queriesTotal := r.queriesTotal, graphQueries := r.graphQueries)
    ensures m.queriesTotal < U64_MAX ==> r.queriesTotal == m.queriesTotal + 1
    ensures m.graphQueries < U64_MAX ==> r.graphQueries == m.graphQueries + 1
  {
    var n := IncQueries(m);
    n.(graphQueries := Inc(n.graphQueries))
  }

  /** `record_hybrid_query`: the total and the hybrid count go up. */
  function RecordHybridQuery(m: OperationalMetrics): (r: OperationalMetrics)
    requires Valid(m)
    ensures Valid(r) && r == m.(queriesTotal := r.queriesTotal, hybridQueries := r.hybridQueries)
    ensures m.queriesTotal < U64_MAX ==> r.queriesTotal == m.queriesTotal + 1
    ensures m.hybridQueries < U64_MAX ==> r.hybridQueries == m.hybridQueries + 1
  {
    var n := IncQueries(m);
    n.(hybridQueries := Inc(n.hybridQueries))
  }

  /** `inc_connections`: exactly one more connection. */
  function IncConnections(m: OperationalMetrics): (r: OperationalMetrics)
    requires Valid(m)
    ensures Valid(r) && r == m.(activeConnections := r.activeConnections)
    ensures m.activeConnections < U64_MAX ==> r.activeConnections == m.activeConnections + 1
  {
    m.(activeConnections := Inc(m.activeConnections))
  }

  /** `dec_connections`: one connection fewer, staying at 0 rather than
      wrapping to `u64::MAX`. */
  function DecConnections(m: OperationalMetrics): (r: OperationalMetrics)
    requires Valid(m)
    ensures Valid(r) && r == m.(activeConnections := r.activeConnections)
    ensures m.activeConnections == 0 ==> r == m
    ensures m.activeConnections > 0 ==> r.activeConnections + 1 == m.activeConnections
  {
    if m.activeConnections == 0 then m
    else m.(activeConnections := m.activeConnections - 1)
  }

  /** Opening and then closing a connection restores the gauge. */
  lemma IncThenDecConnections(m: OperationalMetrics)
    requires Valid(m) && m.activeConnections < U64_MAX
    ensures DecConnections(IncConnections(m)) == m
  {
  }

  /** The numbers the Prometheus export prints, in its order. */
  datatype Exported = Exported(
    success: nat, errors: nat, vector: nat, graph: nat, hybrid: nat,
    documents: nat, indexSize: nat, connections: nat)

  /** `export_prometheus`: successes are the total less the errors,
      saturating at 0; every other line prints its counter. */
  function ExportPrometheus(m: OperationalMetrics): (r: Exported)
    ensures m.queryErrors <= m.queriesTotal ==> r.success + r.errors == m.queriesTotal
    ensures m.queryErrors > m.queriesTotal ==> r.success == 0
    ensures r.errors == m.queryErrors && r.connections == m.activeConnections
    ensures r.vector == m.vectorQueries && r.graph == m.graphQueries && r.hybrid == m.hybridQueries
    ensures r.documents == m.documentsTotal && r.indexSize == m.indexSizeBytes
  {
    Exported(SaturatingSub(m.queriesTotal, m.queryErrors), m.queryErrors,
             m.vectorQueries, m.graphQueries, m.hybridQueries,
             m.documentsTotal, m.indexSizeBytes, m.activeConnections)
  }

  /** The calls a server makes on the metrics. */
  datatype Event =
    | VectorQuery | GraphQuery | HybridQuery | OtherQuery | QueryError
    | Connect | Disconnect | SetDocuments(count: nat) | SetIndexSize(bytes: nat)

  predicate EventValid(e: Event) {
    match e
    case SetDocuments(n) => IsU64(n)
    case SetIndexSize(n) => IsU64(n)
    case _ => true
  }

  predicate IsQuery(e: Event) {
    e.VectorQuery? || e.GraphQuery? || e.HybridQuery? || e.OtherQuery?
  }

  /** One call. */
  function Apply(m: OperationalMetrics, e: Event): (r: OperationalMetrics)
    requires Valid(m) && EventValid(e)
    ensures Valid(r)
  {
    match e
    case VectorQuery => RecordVectorQuery(m)
    case GraphQuery => RecordGraphQuery(m)
    case HybridQuery => RecordHybridQuery(m)
    case OtherQuery => IncQueries(m)
    case QueryError => IncErrors(m)
    case Connect => IncConnections(m)
    case Disconnect => DecConnections(m)
    case SetDocuments(n) => m.(documentsTotal := n)
    case SetIndexSize(n) => m.(indexSizeBytes := n)
  }

  /** The metrics after a sequence of calls on new metrics. */
  function Run(events: seq<Event>): (r: OperationalMetrics)
    requires forall i | 0 <= i < |events| :: EventValid(events[i])
    ensures Valid(r)
  {
    if |events| == 0 then NEW_METRICS
    else Apply(Run(events[..|events| - 1]), events[|events| - 1])
  }

  /** Below `u64::MAX` calls the total does not wrap: it counts every
      query call, whatever its kind. */
  lemma {:induction false} RunQueryTotal(events: seq<Event>)
    requires forall i | 0 <= i < |events| :: EventValid(events[i])
    requires |events| <= U64_MAX
    ensures Run(events).queriesTotal == Count(events, IsQuery)
  {
    if |events| > 0 {
      RunQueryTotal(events[..|events| - 1]);
    }
  }

  /** The counter of one query kind; the total for any other call. */
  function KindCounter(m: OperationalMetrics, kind: Event): nat {
    match kind
    case VectorQuery => m.vectorQueries
    case GraphQuery => m.graphQueries
    case HybridQuery => m.hybridQueries
    case _ => m.queriesTotal
  }

  /** Each kind counter counts exactly the calls of its kind. */
  lemma {:induction false} RunKindCount(events: seq<Event>, kind: Event)
    requires forall i | 0 <= i < |events| :: EventValid(events[i])
    requires |events| <= U64_MAX
    requires kind.VectorQuery? || kind.GraphQuery? || kind.HybridQuery?
    ensures KindCounter(Run(events), kind) == Count(events, (e: Event) => e == kind)
  {
    if |events| > 0 {
      RunKindCount(events[..|events| - 1], kind);
    }
  }

  /** The error count counts the error calls, so the exported successes
      are the query calls less the error calls, saturating at 0. */
  lemma {:induction false} RunErrorCount(events: seq<Event>)
    requires forall i | 0 <= i < |events| :: EventValid(events[i])
    requires |events| <= U64_MAX
    ensures Run(events).queryErrors == Count(events, (e: Event) => e.QueryError?)
    ensures ExportPrometheus(Run(events)).success
      == SaturatingSub(Count(events, IsQuery), Count(events, (e: Event) => e.QueryError?))
  {
    if |events| > 0 {
      RunErrorCount(events[..|events| - 1]);
    }
    RunQueryTotal(events);
  }

  /** The connection gauge never exceeds the number of connects, and
      falls short of connects less disconnects only by the disconnects
      that found it at 0. */
  lemma {:induction false} RunConnections(events: seq<Event>)
    requires forall i | 0 <= i < |events| :: EventValid(events[i])
    requires |events| <= U64_MAX
    ensures Run(events).activeConnections <= Count(events, (e: Event) => e.Connect?)
    ensures Run(events).activeConnections + Count(events, (e: Event) => e.Disconnect?)
      >= Count(events, (e: Event) => e.Connect?)
  {
    if |events| > 0 {
      RunConnections(events[..|events| - 1]);
    }
  }
}
