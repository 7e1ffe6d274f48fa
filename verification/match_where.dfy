/** WHERE evaluation inside MATCH queries: parameter resolution, value
    comparison, nested payload paths and the boolean tree over one node. */
module MatchWhere {
  import opened Wrappers
  import opened Text
  import opened Json
  import opened VelesQL
  import opened Extraction
  import opened RecordWhere

  /** Whether an operator accepts a three-way comparison outcome. */
  predicate OpHolds(op: CompareOp, o: Ordering) {
    match op
    case Eq => o == Equal
    case NotEq => o != Equal
    case Lt => o == Less
    case Gt => o == Greater
    case Lte => o != Greater
    case Gte => o != Less
  }

  /** `evaluate_comparison` (it never returns an error): integers exactly,
      floats with a 0.001 tolerance for equality, strings
      lexicographically, booleans for (in)equality only, and a null
      expected value matching null actual values under `=` and every other
      value under `<>`. Any other pairing is false. */
  function EvaluateComparison(op: CompareOp, actual: Json, expected: Value): bool {
    match (actual, expected)
    case (JNum(_), VInteger(i)) =>
      var a := AsI64(actual);
      if a.None? then false
      else
        (match op
         case Eq => a.value == i
         case NotEq => a.value != i
         case Lt => a.value < i
         case Gt => a.value > i
         case Lte => a.value <= i
         case Gte => a.value >= i)
    case (JNum(_), VFloat(f)) =>
      var a := AsF64(actual).value;
      var diff := if a >= f then a - f else f - a;
      (match op
       case Eq => diff < 0.001
       case NotEq => diff >= 0.001
       case Lt => a < f
       case Gt => a > f
       case Lte => a <= f
       case Gte => a >= f)
    case (JStr(s), VString(e)) =>
      (match op
       case Eq => s == e
       case NotEq => s != e
       case Lt => StringLess(s, e)
       case Gt => StringLess(e, s)
       case Lte => !StringLess(e, s)
       case Gte => !StringLess(s, e))
    case (JBool(b), VBoolean(e)) =>
      (match op
       case Eq => b == e
       case NotEq => b != e
       case _ => false)
    case (JNull, VNull) => op == Eq
    case (_, VNull) => op == NotEq
    case _ => false
  }

  /** The pairings `evaluate_comparison` gives a meaning to. */
  predicate Comparable(actual: Json, expected: Value) {
    || (actual.JNum? && expected.VInteger? && AsI64(actual).Some?)
    || (actual.JNum? && expected.VFloat?)
    || (actual.JStr? && expected.VString?)
    || (actual.JBool? && expected.VBoolean?)
    || expected.VNull?
  }

  /** Integers and strings are compared by their total order under all six
      operators; floats are under the four order operators. */
  lemma EvaluateComparisonOrdered(op: CompareOp, actual: Json, expected: Value)
    ensures actual.JNum? && expected.VInteger? && AsI64(actual).Some? ==>
      EvaluateComparison(op, actual, expected) == OpHolds(op, CompareInt(AsI64(actual).value, expected.i))
    ensures actual.JNum? && expected.VFloat? && op != Eq && op != NotEq ==>
      EvaluateComparison(op, actual, expected) == OpHolds(op, CompareReal(AsF64(actual).value, expected.f))
    ensures actual.JStr? && expected.VString? ==>
      EvaluateComparison(op, actual, expected) == OpHolds(op, CompareString(actual.s, expected.s))
  {
    if actual.JStr? && expected.VString? {
      CompareStringAntisymmetric(actual.s, expected.s);
    }
  }

  /** On comparable values `<>` is the negation of `=`; on any other
      pairing, and for booleans under an order operator, every operator is
      false. */
  lemma EvaluateComparisonNegation(actual: Json, expected: Value)
    ensures Comparable(actual, expected) ==>
      EvaluateComparison(NotEq, actual, expected) == !EvaluateComparison(Eq, actual, expected)
    ensures !Comparable(actual, expected) ==>
      forall op :: !EvaluateComparison(op, actual, expected)
    ensures actual.JBool? && expected.VBoolean? ==>
      forall op | op != Eq && op != NotEq :: !EvaluateComparison(op, actual, expected)
  {
  }

  /** `resolve_where_param`: a `$name` placeholder is looked up (missing is
      an error) and converted: integers in the `i64` range stay integers,
      other numbers become floats, strings, booleans and null carry over,
      and arrays and objects are errors. Any other value is returned as
      is. */
  function ResolveWhereParam(v: Value, params: Params): (r: Result<Value, string>)
    ensures !v.VParameter? ==> r == Success(v)
    ensures v.VParameter? && v.name !in params ==> r.Failure?
    ensures v.VParameter? && v.name in params ==>
      (r.Failure? <==> params[v.name].JArray? || params[v.name].JObject?)
    ensures r.Success? ==> !r.value.VParameter?
  {
    match v
    case VParameter(name) =>
      if name !in params then Failure("Missing parameter: $" + name)
      else
        (match params[name]
         case JNum(n) =>
           var i := AsI64(params[name]);
           if i.Some? then Success(VInteger(i.value)) else Success(VFloat(AsF64(params[name]).value))
         case JStr(s) => Success(VString(s))
         case JBool(b) => Success(VBoolean(b))
         case JNull => Success(VNull)
         case _ => Failure("Unsupported parameter type for $" + name))
    case _ => Success(v)
  }

  /** A resolved parameter is equal, under `evaluate_comparison`, to the
      JSON value it was resolved from. */
  lemma ResolvedParamMatchesSource(name: string, params: Params)
    requires name in params
    ensures var r := ResolveWhereParam(VParameter(name), params);
      r.Success? ==> EvaluateComparison(Eq, params[name], r.value)
  {
  }

  /** Descends object keys one part at a time. */
  function GetParts(j: Json, parts: seq<string>): (r: Option<Json>)
    decreases |parts|
  {
    if |parts| == 0 then Some(j)
    else
      var next :- Get(j, parts[0]);
      GetParts(next, parts[1..])
  }

  /** `json_get_path`: the empty path is the value itself, otherwise each
      dot-separated part selects an object field. */
  function JsonGetPath(root: Json, path: string): (r: Option<Json>)
    ensures path == "" ==> r == Some(root)
  {
    if path == "" then Some(root) else GetParts(root, Split(path, '.'))
  }

  /** A key without dots selects that field; `a.rest` selects `rest` inside
      field `a`. */
  lemma JsonGetPathStep(root: Json, a: string, rest: string)
    requires a != "" && '.' !in a
    ensures JsonGetPath(root, a) == Get(root, a)
    ensures rest != "" ==>
      JsonGetPath(root, a + "." + rest) == (if Get(root, a).Some? then JsonGetPath(Get(root, a).value, rest) else None)
  {
    SplitNoSeparator(a, '.');
    assert GetParts(root, [a]) == Get(root, a) by {
      if Get(root, a).Some? { assert [a][1..] == []; }
    }
    SplitAfterPiece(a, rest, '.');
    var parts := [a] + Split(rest, '.');
    assert parts[1..] == Split(rest, '.');
  }

  /** What a MATCH WHERE evaluation may consult: node payloads (a missing
      or unreadable payload is `None`), node vectors (reading may fail),
      the collection metric and the query parameters. */
  datatype MatchEnv = MatchEnv(
    payloads: nat -> Option<Json>,
    vectors: nat -> Result<Option<seq<real>>, string>,
    metric: (seq<real>, seq<real>) -> real,
    higherIsBetter: bool,
    params: Params)

  /** `filter_map(as_f64)`: the numbers of an array, other elements
      dropped. */
  function LenientNumbers(items: seq<Json>): (r: seq<real>)
    ensures |r| <= |items|
  {
    if |items| == 0 then []
    else (if items[0].JNum? then [AsF64(items[0]).value] else []) + LenientNumbers(items[1..])
  }

  /** On an all-number array the lenient conversion agrees with the strict
      one of the SELECT path. */
  lemma {:induction false} LenientNumbersAgree(items: seq<Json>)
    ensures NumbersOf(items).Some? ==> LenientNumbers(items) == NumbersOf(items).value
    decreases |items|
  {
    if |items| > 0 && NumbersOf(items).Some? {
      assert forall k | 1 <= k < |items| :: items[k] == items[1..][k - 1];
      LenientNumbersAgree(items[1..]);
    }
  }

  /** The query vector of a similarity condition inside MATCH: a literal,
      or a parameter that must exist and be an array. */
  function MatchQueryVector(v: VectorExpr, params: Params): (r: Result<seq<real>, string>)
    ensures ResolveVector(v, params).Success? ==> r == ResolveVector(v, params)
    ensures r.Failure? <==> v.Parameter? && (v.name !in params || !params[v.name].JArray?)
  {
    match v
    case Literal(q) => Success(q)
    case Parameter(name) =>
      if name !in params then Failure("Missing vector parameter: $" + name)
      else if !params[name].JArray? then Failure("Parameter $" + name + " must be a vector array")
      else
        LenientNumbersAgree(params[name].items);
        Success(LenientNumbers(params[name].items))
  }

  /** `evaluate_similarity_condition`: false for an empty query vector, a
      node without a vector or a dimension mismatch; otherwise the metric
      score against the threshold, equality within `f32::EPSILON`. */
  function EvaluateSimilarity(nodeId: nat, v: VectorExpr, op: CompareOp, threshold: real, env: MatchEnv): (r: Result<bool, string>)
    ensures MatchQueryVector(v, env.params).Failure? ==> r.Failure?
    ensures r.Success? && r.value ==>
      && env.vectors(nodeId).Success? && env.vectors(nodeId).value.Some?
      && |env.vectors(nodeId).value.value| == |MatchQueryVector(v, env.params).value| > 0
  {
    var q :- MatchQueryVector(v, env.params);
    if |q| == 0 then Success(false)
    else
      var nv :- env.vectors(nodeId);
      if nv.None? || |nv.value| != |q| then Success(false)
      else Success(ThresholdMatch(env.metric(nv.value, q), threshold, op, env.higherIsBetter, F32_EPSILON))
  }

  /** The node a comparison reads and the path inside its payload: an
      `alias.rest` column whose alias is bound reads `rest` from the bound
      node; any other column is a path on the current node. */
  function ComparisonTarget(column: string, nodeId: nat, bindings: Option<map<string, nat>>): (r: (nat, string))
    ensures r.0 != nodeId ==> r.1 != column
  {
    var split := SplitOnce(column, '.');
    if split.Some? && bindings.Some? && split.value.0 in bindings.value then
      (bindings.value[split.value.0], split.value.1)
    else (nodeId, column)
  }

  /** The value of one leaf on one node. */
  function MatchLeafValue(l: Condition, nodeId: nat, bindings: Option<map<string, nat>>, env: MatchEnv): Result<bool, string> {
    match l
    case Comparison(column, op, value) =>
      var (target, path) := ComparisonTarget(column, nodeId, bindings);
      var payload := env.payloads(target);
      if payload.None? then Success(false)
      else
        var actual := JsonGetPath(payload.value, path);
        if actual.None? then Success(false)
        else
          var expected :- ResolveWhereParam(value, env.params);
          Success(EvaluateComparison(op, actual.value, expected))
    case Similarity(_, v, op, threshold) => EvaluateSimilarity(nodeId, v, op, threshold, env)
    case _ => Success(true)
  }

  function MatchLeafTruth(nodeId: nat, bindings: Option<map<string, nat>>, env: MatchEnv): Condition -> bool {
    (l: Condition) => var v := MatchLeafValue(l, nodeId, bindings, env); v.Success? && v.value
  }

  /** `evaluate_where_condition` of the MATCH executor: AND stops at a false
      left operand, OR at a true one, NOT negates, and leaves other than
      comparisons and similarity are true. */
  function EvaluateWhere(c: Condition, nodeId: nat, bindings: Option<map<string, nat>>, env: MatchEnv): Result<bool, string> {
    match c
    case And(l, rt) =>
      var a :- EvaluateWhere(l, nodeId, bindings, env);
      if !a then Success(false) else EvaluateWhere(rt, nodeId, bindings, env)
    case Or(l, rt) =>
      var a :- EvaluateWhere(l, nodeId, bindings, env);
      if a then Success(true) else EvaluateWhere(rt, nodeId, bindings, env)
    case Not(i) =>
      var a :- EvaluateWhere(i, nodeId, bindings, env);
      Success(!a)
    case Group(i) => EvaluateWhere(i, nodeId, bindings, env)
    case _ => MatchLeafValue(c, nodeId, bindings, env)
  }

  /** The evaluation agrees with the boolean meaning of the tree, succeeds
      when every leaf does and fails only because some leaf does. */
  lemma {:induction false} EvaluateWhereSound(c: Condition, nodeId: nat, bindings: Option<map<string, nat>>, env: MatchEnv)
    ensures var r := EvaluateWhere(c, nodeId, bindings, env);
      && (r.Success? ==> r.value == Eval(c, MatchLeafTruth(nodeId, bindings, env)))
      && ((forall l | l in Leaves(c) :: MatchLeafValue(l, nodeId, bindings, env).Success?) ==> r.Success?)
      && (r.Failure? ==> exists l | l in Leaves(c) :: MatchLeafValue(l, nodeId, bindings, env).Failure?)
  {
    match c
    case And(l, rt) =>
      EvaluateWhereSound(l, nodeId, bindings, env);
      EvaluateWhereSound(rt, nodeId, bindings, env);
    case Or(l, rt) =>
      EvaluateWhereSound(l, nodeId, bindings, env);
      EvaluateWhereSound(rt, nodeId, bindings, env);
    case Not(i) =>
      EvaluateWhereSound(i, nodeId, bindings, env);
    case Group(i) =>
      EvaluateWhereSound(i, nodeId, bindings, env);
    case _ =>
      assert c in Leaves(c);
  }

  /** A decided left operand hides any error of the right one. */
  lemma ShortCircuit(l: Condition, rt: Condition, nodeId: nat, bindings: Option<map<string, nat>>, env: MatchEnv)
    ensures EvaluateWhere(l, nodeId, bindings, env) == Success(false) ==>
      EvaluateWhere(And(l, rt), nodeId, bindings, env) == Success(false)
    ensures EvaluateWhere(l, nodeId, bindings, env) == Success(true) ==>
      EvaluateWhere(Or(l, rt), nodeId, bindings, env) == Success(true)
  {
  }
}
