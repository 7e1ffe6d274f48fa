/** Evaluation of a SELECT WHERE clause on fetched records when it holds
    graph `MATCH (...)` predicates, so that AND, OR and NOT keep their
    boolean meaning. The graph anchor computation and the payload filter
    engine are parameters: neither is part of this model. */
module RecordWhere {
  import opened Wrappers
  import opened Seqs
  import opened Json
  import opened VelesQL
  import opened Points
  import opened Extraction

  /** `condition_contains_graph_match`. */
  function ContainsGraphMatch(c: Condition): (r: bool)
    ensures r <==> exists l :: l in Leaves(c) && l.GraphMatch?
  {
    match c
    case GraphMatch(_) => assert c in Leaves(c); true
    case And(l, rt) => ContainsGraphMatch(l) || ContainsGraphMatch(rt)
    case Or(l, rt) => ContainsGraphMatch(l) || ContainsGraphMatch(rt)
    case Not(i) => ContainsGraphMatch(i)
    case Group(i) => ContainsGraphMatch(i)
    case _ => false
  }

  /** `condition_requires_vector_eval`. */
  function RequiresVectorEval(c: Condition): (r: bool)
    ensures r <==> exists l :: l in Leaves(c) && l.Similarity?
  {
    match c
    case Similarity(_, _, _, _) => assert c in Leaves(c); true
    case And(l, rt) => RequiresVectorEval(l) || RequiresVectorEval(rt)
    case Or(l, rt) => RequiresVectorEval(l) || RequiresVectorEval(rt)
    case Not(i) => RequiresVectorEval(i)
    case Group(i) => RequiresVectorEval(i)
    case _ => false
  }

  /** `f32::EPSILON`, 2^-23. */
  const F32_EPSILON: real := 1.0 / 8388608.0

  /** The threshold test of a similarity condition. For a distance metric
      the four order operators are read the other way round, since a lower
      distance means more similar; equality is closeness within `eps`. */
  function ThresholdMatch(score: real, threshold: real, op: CompareOp, higherIsBetter: bool, eps: real): bool {
    var diff := if score >= threshold then score - threshold else threshold - score;
    match op
    case Gt => if higherIsBetter then score > threshold else score < threshold
    case Gte => if higherIsBetter then score >= threshold else score <= threshold
    case Lt => if higherIsBetter then score < threshold else score > threshold
    case Lte => if higherIsBetter then score <= threshold else score >= threshold
    case Eq => diff < eps
    case NotEq => diff >= eps
  }

  /** A distance metric behaves as the similarity metric on negated scores
      and thresholds, `NotEq` is the negation of `Eq`, and `Gte` is `Gt` or
      `Eq` up to the tolerance. */
  lemma ThresholdMatchMirror(score: real, threshold: real, op: CompareOp, eps: real)
    ensures ThresholdMatch(score, threshold, op, false, eps) == ThresholdMatch(-score, -threshold, op, true, eps)
    ensures ThresholdMatch(score, threshold, NotEq, false, eps) == !ThresholdMatch(score, threshold, Eq, true, eps)
    ensures ThresholdMatch(score, threshold, Gte, true, eps) == (score == threshold || ThresholdMatch(score, threshold, Gt, true, eps))
  {
  }

  /** What a record evaluation may consult besides the record: the query
      parameters, the collection metric, the graph anchor computation and
      the payload filter engine for the remaining leaves. */
  datatype Env = Env(
    params: Params,
    metric: (seq<real>, seq<real>) -> real,
    higherIsBetter: bool,
    anchors: GraphPredicate -> Result<set<nat>, string>,
    matches: (Condition, Json) -> bool)

  /** `GraphMatchEvalCache`: the anchor sets computed so far, in the order
      they were computed. */
  datatype GraphCache = GraphCache(entries: seq<(GraphPredicate, set<nat>)>)

  /** The predicates of a cache, in order. */
  function Preds(c: GraphCache): (r: seq<GraphPredicate>)
    ensures |r| == |c.entries| && forall k | 0 <= k < |r| :: r[k] == c.entries[k].0
  {
    seq(|c.entries|, k requires 0 <= k < |c.entries| => c.entries[k].0)
  }

  /** A cache is faithful: no predicate is cached twice and every cached
      set is what the anchor computation returns. */
  predicate CacheValid(c: GraphCache, anchors: GraphPredicate -> Result<set<nat>, string>) {
    && Distinct(Preds(c))
    && forall k | 0 <= k < |c.entries| :: anchors(c.entries[k].0) == Success(c.entries[k].1)
  }

  /** `entries.iter().position(|(p, _)| p == predicate)`. */
  function Position(entries: seq<(GraphPredicate, set<nat>)>, p: GraphPredicate): (r: Option<nat>)
    ensures r.Some? ==> r.value < |entries| && entries[r.value].0 == p
    ensures r.None? ==> forall k | 0 <= k < |entries| :: entries[k].0 != p
  {
    if |entries| == 0 then None
    else if entries[0].0 == p then Some(0)
    else
      var r := Position(entries[1..], p);
      if r.Some? then Some(r.value + 1) else None
  }

  /** `GraphMatchEvalCache::get_or_compute`: a cached set when there is one,
      otherwise the anchor computation, whose result is appended. On a valid
      cache it returns exactly what the anchor computation returns, keeps
      the cache valid and only ever appends. */
  function GetOrCompute(cache: GraphCache, p: GraphPredicate, anchors: GraphPredicate -> Result<set<nat>, string>): (r: Result<(set<nat>, GraphCache), string>)
    ensures CacheValid(cache, anchors) ==>
      && (r.Success? <==> anchors(p).Success?)
      && (r.Success? ==> r.value.0 == anchors(p).value && CacheValid(r.value.1, anchors))
    ensures r.Success? ==> cache.entries <= r.value.1.entries
    ensures r.Success? && p in Preds(cache) ==> r.value.1 == cache
  {
    var idx := Position(cache.entries, p);
    if idx.Some? then Success((cache.entries[idx.value].1, cache))
    else
      assert p !in Preds(cache);
      var ids :- anchors(p);
      var next := GraphCache(cache.entries + [(p, ids)]);
      assert Preds(next) == Preds(cache) + [p];
      assert CacheValid(cache, anchors) ==> Distinct(Preds(next)) by {
        if CacheValid(cache, anchors) { AppendDistinct(Preds(cache), p); }
      }
      Success((ids, next))
  }

  /** The value of one leaf for one record, computed without a cache. A
      similarity leaf is false when no vector was supplied and fails when
      its vector parameter does not resolve; vector-search leaves were
      already enforced when the candidates were fetched. */
  function LeafValue(l: Condition, id: nat, payload: Option<Json>, vector: Option<seq<real>>, env: Env): Result<bool, string> {
    match l
    case GraphMatch(p) =>
      var ids :- env.anchors(p);
      Success(id in ids)
    case Similarity(_, v, op, threshold) =>
      if vector.None? then Success(false)
      else
        var q :- ResolveVector(v, env.params);
        Success(ThresholdMatch(MetricScore(env.metric, vector.value, q), threshold, op, env.higherIsBetter, 0.001))
    case VectorSearch(_) => Success(true)
    case VectorFusedSearch(_) => Success(true)
    case _ => Success(env.matches(l, if payload.Some? then payload.value else JNull))
  }

  /** The truth of each leaf, a failing leaf read as false. */
  function LeafTruth(id: nat, payload: Option<Json>, vector: Option<seq<real>>, env: Env): Condition -> bool {
    (l: Condition) => var v := LeafValue(l, id, payload, vector, env); v.Success? && v.value
  }

  /** `evaluate_where_condition_for_record`: AND and OR stop at the first
      operand that decides, and an error anywhere on the path evaluated
      aborts the evaluation. */
  function EvalRecord(c: Condition, id: nat, payload: Option<Json>, vector: Option<seq<real>>, env: Env, cache: GraphCache): Result<(bool, GraphCache), string> {
    match c
    case GraphMatch(p) =>
      var (ids, next) :- GetOrCompute(cache, p, env.anchors);
      Success((id in ids, next))
    case And(l, rt) =>
      var (a, next) :- EvalRecord(l, id, payload, vector, env, cache);
      if !a then Success((false, next)) else EvalRecord(rt, id, payload, vector, env, next)
    case Or(l, rt) =>
      var (a, next) :- EvalRecord(l, id, payload, vector, env, cache);
      if a then Success((true, next)) else EvalRecord(rt, id, payload, vector, env, next)
    case Not(i) =>
      var (a, next) :- EvalRecord(i, id, payload, vector, env, cache);
      Success((!a, next))
    case Group(i) => EvalRecord(i, id, payload, vector, env, cache)
    case _ =>
      var b :- LeafValue(c, id, payload, vector, env);
      Success((b, cache))
  }

  /** With a valid cache, a successful record evaluation agrees with the
      boolean meaning of the tree over the uncached leaf values and leaves
      the cache valid. */
  lemma {:induction false} EvalRecordValue(c: Condition, id: nat, payload: Option<Json>, vector: Option<seq<real>>, env: Env, cache: GraphCache)
    requires CacheValid(cache, env.anchors)
    ensures var r := EvalRecord(c, id, payload, vector, env, cache);
      r.Success? ==> r.value.0 == Eval(c, LeafTruth(id, payload, vector, env)) && CacheValid(r.value.1, env.anchors)
  {
    var truth := LeafTruth(id, payload, vector, env);
    match c
    case And(l, rt) =>
      EvalRecordValue(l, id, payload, vector, env, cache);
      var a := EvalRecord(l, id, payload, vector, env, cache);
      if a.Success? {
        if a.value.0 {
          EvalRecordValue(rt, id, payload, vector, env, a.value.1);
          assert EvalRecord(c, id, payload, vector, env, cache) == EvalRecord(rt, id, payload, vector, env, a.value.1);
        } else {
          assert EvalRecord(c, id, payload, vector, env, cache) == Success((false, a.value.1));
          assert !Eval(l, truth);
        }
      }
    case Or(l, rt) =>
      EvalRecordValue(l, id, payload, vector, env, cache);
      var a := EvalRecord(l, id, payload, vector, env, cache);
      if a.Success? {
        if a.value.0 {
          assert EvalRecord(c, id, payload, vector, env, cache) == Success((true, a.value.1));
          assert Eval(l, truth);
        } else {
          EvalRecordValue(rt, id, payload, vector, env, a.value.1);
          assert EvalRecord(c, id, payload, vector, env, cache) == EvalRecord(rt, id, payload, vector, env, a.value.1);
        }
      }
    case Not(i) =>
      EvalRecordValue(i, id, payload, vector, env, cache);
    case Group(i) =>
      EvalRecordValue(i, id, payload, vector, env, cache);
    case _ =>
  }

  /** With a valid cache, the record evaluation succeeds when every leaf
      does. */
  lemma {:induction false} EvalRecordTotal(c: Condition, id: nat, payload: Option<Json>, vector: Option<seq<real>>, env: Env, cache: GraphCache)
    requires CacheValid(cache, env.anchors)
    requires forall l | l in Leaves(c) :: LeafValue(l, id, payload, vector, env).Success?
    ensures EvalRecord(c, id, payload, vector, env, cache).Success?
  {
    match c
    case And(l, rt) =>
      EvalRecordTotal(l, id, payload, vector, env, cache);
      EvalRecordValue(l, id, payload, vector, env, cache);
      var a := EvalRecord(l, id, payload, vector, env, cache);
      EvalRecordTotal(rt, id, payload, vector, env, a.value.1);
    case Or(l, rt) =>
      EvalRecordTotal(l, id, payload, vector, env, cache);
      EvalRecordValue(l, id, payload, vector, env, cache);
      var a := EvalRecord(l, id, payload, vector, env, cache);
      EvalRecordTotal(rt, id, payload, vector, env, a.value.1);
    case Not(i) =>
      EvalRecordTotal(i, id, payload, vector, env, cache);
    case Group(i) =>
      EvalRecordTotal(i, id, payload, vector, env, cache);
    case _ =>
      assert c in Leaves(c);
  }

  /** With a valid cache, the record evaluation fails only because some
      leaf does. */
  lemma {:induction false} EvalRecordFailure(c: Condition, id: nat, payload: Option<Json>, vector: Option<seq<real>>, env: Env, cache: GraphCache)
    requires CacheValid(cache, env.anchors)
    requires EvalRecord(c, id, payload, vector, env, cache).Failure?
    ensures exists l | l in Leaves(c) :: LeafValue(l, id, payload, vector, env).Failure?
  {
    match c
    case And(l, rt) =>
      var a := EvalRecord(l, id, payload, vector, env, cache);
      if a.Failure? {
        EvalRecordFailure(l, id, payload, vector, env, cache);
      } else {
        EvalRecordValue(l, id, payload, vector, env, cache);
        EvalRecordFailure(rt, id, payload, vector, env, a.value.1);
      }
    case Or(l, rt) =>
      var a := EvalRecord(l, id, payload, vector, env, cache);
      if a.Failure? {
        EvalRecordFailure(l, id, payload, vector, env, cache);
      } else {
        EvalRecordValue(l, id, payload, vector, env, cache);
        EvalRecordFailure(rt, id, payload, vector, env, a.value.1);
      }
    case Not(i) =>
      EvalRecordFailure(i, id, payload, vector, env, cache);
    case Group(i) =>
      EvalRecordFailure(i, id, payload, vector, env, cache);
    case GraphMatch(_) =>
      assert c in Leaves(c);
    case Similarity(_, _, _, _) =>
      assert c in Leaves(c);
    case _ =>
  }

  /** The vector `apply_where_condition_to_results` hands to the evaluation
      of one result: supplied only when some leaf needs it. */
  function RecordVector(c: Condition, x: SearchResult): Option<seq<real>> {
    if RequiresVectorEval(c) then Some(x.point.vector) else None
  }

  /** The loop of `apply_where_condition_to_results` from a given cache. */
  function ApplyWhereFrom(results: seq<SearchResult>, c: Condition, env: Env, cache: GraphCache): Result<seq<SearchResult>, string>
    decreases |results|
  {
    if |results| == 0 then Success([])
    else
      var x := results[0];
      var (keep, next) :- EvalRecord(c, x.point.id, x.point.payload, RecordVector(c, x), env, cache);
      var rest :- ApplyWhereFrom(results[1..], c, env, next);
      Success(if keep then [x] + rest else rest)
  }

  /** `apply_where_condition_to_results`: the results satisfying the WHERE
      clause, in order, with one graph cache for the whole list. */
  function ApplyWhere(results: seq<SearchResult>, c: Condition, env: Env): Result<seq<SearchResult>, string> {
    ApplyWhereFrom(results, c, env, GraphCache([]))
  }

  /** Whether a result satisfies the WHERE clause, evaluated on its own. */
  function Satisfies(c: Condition, env: Env): SearchResult -> bool {
    (x: SearchResult) => Eval(c, LeafTruth(x.point.id, x.point.payload, RecordVector(c, x), env))
  }

  /** Whether every leaf of the clause evaluates without error on a
      result. */
  predicate LeavesSucceed(c: Condition, env: Env, x: SearchResult) {
    forall l | l in Leaves(c) :: LeafValue(l, x.point.id, x.point.payload, RecordVector(c, x), env).Success?
  }

  /** Whether no leaf fails on any of the results. */
  predicate AllLeavesSucceed(c: Condition, env: Env, results: seq<SearchResult>) {
    forall k | 0 <= k < |results| :: LeavesSucceed(c, env, results[k])
  }

  lemma {:induction false} ApplyWhereFromValue(results: seq<SearchResult>, c: Condition, env: Env, cache: GraphCache)
    requires CacheValid(cache, env.anchors)
    ensures var r := ApplyWhereFrom(results, c, env, cache);
      r.Success? ==> r.value == Filter(results, Satisfies(c, env))
    decreases |results|
  {
    if |results| > 0 {
      var x := results[0];
      EvalRecordValue(c, x.point.id, x.point.payload, RecordVector(c, x), env, cache);
      var e := EvalRecord(c, x.point.id, x.point.payload, RecordVector(c, x), env, cache);
      if e.Success? {
        ApplyWhereFromValue(results[1..], c, env, e.value.1);
      }
    }
  }

  lemma {:induction false} ApplyWhereFromTotal(results: seq<SearchResult>, c: Condition, env: Env, cache: GraphCache)
    requires CacheValid(cache, env.anchors)
    requires AllLeavesSucceed(c, env, results)
    ensures ApplyWhereFrom(results, c, env, cache).Success?
    decreases |results|
  {
    if |results| > 0 {
      var x := results[0];
      assert LeavesSucceed(c, env, results[0]);
      EvalRecordTotal(c, x.point.id, x.point.payload, RecordVector(c, x), env, cache);
      EvalRecordValue(c, x.point.id, x.point.payload, RecordVector(c, x), env, cache);
      var e := EvalRecord(c, x.point.id, x.point.payload, RecordVector(c, x), env, cache);
      assert AllLeavesSucceed(c, env, results[1..]) by {
        forall k | 0 <= k < |results[1..]| ensures LeavesSucceed(c, env, results[1..][k]) {
          assert results[1..][k] == results[k + 1];
        }
      }
      ApplyWhereFromTotal(results[1..], c, env, e.value.1);
    }
  }

  /** The filtered list is exactly the results satisfying the clause, each
      judged alone, in their original order: the shared cache changes
      nothing but the number of anchor computations. The evaluation
      succeeds whenever no leaf of any result fails. */
  lemma ApplyWhereSound(results: seq<SearchResult>, c: Condition, env: Env)
    ensures var r := ApplyWhere(results, c, env);
      && (r.Success? ==> r.value == Filter(results, Satisfies(c, env)))
      && ((forall k | 0 <= k < |results| :: LeavesSucceed(c, env, results[k])) ==> r.Success?)
  {
    ApplyWhereFromValue(results, c, env, GraphCache([]));
    if AllLeavesSucceed(c, env, results) {
      ApplyWhereFromTotal(results, c, env, GraphCache([]));
    }
  }
}
