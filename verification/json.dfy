/** The `serde_json::Value` documents that payloads, query parameters and
    query results are made of, with the accessors the query code uses.
    Numbers keep the distinction `serde_json` makes between integers and
    floats; a float is an exact real, so `f64` rounding is not modelled. */
module Json {
  import opened Wrappers
  import opened Text

  /** `serde_json::Number`: an integer in the `i64` or `u64` range, or a
      float. */
  datatype Number = NInt(i: int) | NFloat(f: real)

  datatype Json =
    | JNull
    | JBool(b: bool)
    | JNum(n: Number)
    | JStr(s: string)
    | JArray(items: seq<Json>)
    | JObject(fields: map<string, Json>)

  /** `Value::as_i64`: integers in the `i64` range only. */
  function AsI64(j: Json): (r: Option<int>)
    ensures r.Some? ==> I64_MIN <= r.value <= I64_MAX
    ensures r.Some? <==> j.JNum? && j.n.NInt? && I64_MIN <= j.n.i <= I64_MAX
  {
    if j.JNum? && j.n.NInt? && I64_MIN <= j.n.i <= I64_MAX then Some(j.n.i) else None
  }

  /** `Value::as_f64`: every number, integers converted to floating point. */
  function AsF64(j: Json): (r: Option<real>)
    ensures r.Some? <==> j.JNum?
  {
    match j
    case JNum(NInt(i)) => Some(i as real)
    case JNum(NFloat(f)) => Some(f)
    case _ => None
  }

  /** `Value::as_str`. */
  function AsStr(j: Json): (r: Option<string>)
    ensures r.Some? <==> j.JStr?
  {
    if j.JStr? then Some(j.s) else None
  }

  /** `Value::get(key)`: a field of an object, `None` on any other value. */
  function Get(j: Json, key: string): (r: Option<Json>)
    ensures r.Some? <==> j.JObject? && key in j.fields
    ensures r.Some? ==> r.value == j.fields[key]
  {
    if j.JObject? && key in j.fields then Some(j.fields[key]) else None
  }

  /** The payload of a point, absent or not an object, read as an object:
      the `payload.as_object()` / empty-map fallback of the callers. */
  function FieldsOf(payload: Option<Json>): (r: map<string, Json>)
    ensures payload.Some? && payload.value.JObject? ==> r == payload.value.fields
    ensures !(payload.Some? && payload.value.JObject?) ==> r == map[]
  {
    if payload.Some? && payload.value.JObject? then payload.value.fields else map[]
  }

  /** `a` with every entry of `b` written over it (`Map::insert` of each
      entry of `b`). */
  function Overlay<K, V>(a: map<K, V>, b: map<K, V>): (r: map<K, V>)
    ensures r.Keys == a.Keys + b.Keys
    ensures forall k :: k in b ==> r[k] == b[k]
    ensures forall k :: k in a && k !in b ==> r[k] == a[k]
  {
    a + b
  }
}

/** The parts of the VelesQL syntax tree the query code walks: comparison
    values, vector expressions and the `Condition` tree. The parser and the
    leaves the code passes on untouched (LIKE, IS NULL, full-text and the
    rest) are collapsed into one opaque leaf. */
module VelesQL {
  import opened Wrappers
  import opened Json

  datatype CompareOp = Eq | NotEq | Lt | Gt | Lte | Gte

  /** `velesql::Value`: a literal or a `$name` placeholder. */
  datatype Value =
    | VInteger(i: int)
    | VFloat(f: real)
    | VString(s: string)
    | VBoolean(b: bool)
    | VNull
    | VParameter(name: string)

  /** `VectorExpr`: a literal vector or a `$name` placeholder. */
  datatype VectorExpr = Literal(v: seq<real>) | Parameter(name: string)

  /** A graph `MATCH (...)` predicate inside a WHERE clause; only its
      identity matters to the code modelled here. */
  datatype GraphPredicate = GraphPredicate(pattern: string)

  datatype Condition =
    | Comparison(column: string, op: CompareOp, value: Value)
    | In(column: string, values: seq<Value>)
    | Between(column: string, low: Value, high: Value)
    | Match(column: string, query: string)
    | Similarity(field: string, vector: VectorExpr, simOp: CompareOp, threshold: real)
    | VectorSearch(searchVector: VectorExpr)
    | VectorFusedSearch(fusedVectors: seq<VectorExpr>)
    | GraphMatch(pred: GraphPredicate)
    | OtherLeaf(tag: nat)
    | And(left: Condition, right: Condition)
    | Or(left: Condition, right: Condition)
    | Not(inner: Condition)
    | Group(inner: Condition)

  /** Query parameters, by name without the `$`. */
  type Params = map<string, Json>

  predicate IsConnective(c: Condition) {
    c.And? || c.Or? || c.Not? || c.Group?
  }

  /** The leaves reachable from `c` through And, Or, Not and Group. */
  function Leaves(c: Condition): (r: set<Condition>)
    ensures forall l :: l in r ==> !IsConnective(l)
    ensures !IsConnective(c) ==> r == {c}
  {
    match c
    case And(l, r) => Leaves(l) + Leaves(r)
    case Or(l, r) => Leaves(l) + Leaves(r)
    case Not(i) => Leaves(i)
    case Group(i) => Leaves(i)
    case _ => {c}
  }

  /** The vector leaves a metadata filter cannot evaluate. */
  predicate IsVectorLeaf(c: Condition) {
    c.Similarity? || c.VectorSearch? || c.VectorFusedSearch?
  }

  /** Boolean meaning of a condition tree once each leaf has a truth
      value. */
  function Eval(c: Condition, leaf: Condition -> bool): bool {
    match c
    case And(l, r) => Eval(l, leaf) && Eval(r, leaf)
    case Or(l, r) => Eval(l, leaf) || Eval(r, leaf)
    case Not(i) => !Eval(i, leaf)
    case Group(i) => Eval(i, leaf)
    case _ => leaf(c)
  }
}

/** Stored points and scored search results. */
module Points {
  import opened Wrappers
  import opened Json

  /** `Point`: an id, a vector and an optional JSON payload. */
  datatype Point = Point(id: nat, vector: seq<real>, payload: Option<Json>)

  /** `SearchResult`: a point with its score. */
  datatype SearchResult = SearchResult(point: Point, score: real)

  /** `point.payload.as_ref().and_then(|p| p.get(name))`. */
  function PayloadField(p: Point, name: string): (r: Option<Json>)
    ensures r.Some? <==> name in FieldsOf(p.payload)
    ensures r.Some? ==> r.value == FieldsOf(p.payload)[name]
  {
    if p.payload.Some? then Get(p.payload.value, name) else None
  }

  /** `compute_metric_score`: the collection's metric, or 0 when the
      vectors differ in length or are empty. The metric itself is a
      floating-point kernel and is a parameter. */
  function MetricScore(metric: (seq<real>, seq<real>) -> real, a: seq<real>, b: seq<real>): real {
    if |a| != |b| || |a| == 0 then 0.0 else metric(a, b)
  }
}
