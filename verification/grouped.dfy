/** GROUP BY aggregation: the group limit, HAVING filters over the
    per-group aggregates, the ordering of result values and the
    substitution of query parameters into the WHERE clause. */
module GroupedAggregation {
  import opened Wrappers
  import opened Seqs
  import opened Grouping
  import opened Json
  import opened VelesQL
  import opened AggregationCall

  /** The group limit when the WITH clause sets none. */
  const DEFAULT_MAX_GROUPS: nat := 10000

  /** The hard cap on a group limit set in the WITH clause. */
  const MAX_GROUPS_CAP: nat := 1000000

  /** `f64::EPSILON`, 2^-52. */
  const F64_EPSILON: real := 1.0 / 4503599627370496.0

  datatype AggregateArg = Wildcard | Column(name: string)

  /** `AggregateFunction`: `COUNT(*)`, `SUM(price)`, ... with an optional
      alias. */
  datatype AggregateFunction = AggregateFunction(kind: AggType, arg: AggregateArg, alias: Option<string>)

  /** `AggregateResult`: the finalised aggregates of one group, per
      column. */
  datatype AggregateResult = AggregateResult(
    count: nat,
    counts: map<string, nat>,
    sums: map<string, real>,
    avgs: map<string, real>,
    mins: map<string, real>,
    maxs: map<string, real>)

  /** The per-column table of finalised values an aggregation reads. */
  function Table(kind: AggType, result: AggregateResult): map<string, real> {
    match kind
    case Count => map c | c in result.counts :: result.counts[c] as real
    case Sum => result.sums
    case Avg => result.avgs
    case Min => result.mins
    case Max => result.maxs
  }

  /** `get_aggregate_value`: `COUNT(*)` is the group's row count; a column
      aggregate is the value recorded for that column, absent when the
      column never held a value; any other wildcard aggregate is absent. */
  function GetAggregateValue(agg: AggregateFunction, result: AggregateResult): (r: Option<real>)
    ensures agg.arg.Wildcard? ==> (r.Some? <==> agg.kind == Count)
    ensures agg.arg.Wildcard? && agg.kind == Count ==> r == Some(result.count as real)
    ensures agg.arg.Column? ==> (r.Some? <==> agg.arg.name in Table(agg.kind, result))
    ensures agg.arg.Column? && agg.kind == Count && agg.arg.name in result.counts ==>
      r == Some(result.counts[agg.arg.name] as real)
  {
    match agg.arg
    case Wildcard => if agg.kind == Count then Some(result.count as real) else None
    case Column(col) =>
      var t := Table(agg.kind, result);
      if col in t then Some(t[col]) else None
  }

  function Abs(x: real): (r: real)
    ensures r >= 0.0 && (r == x || r == -x)
  {
    if x < 0.0 then -x else x
  }

  function MaxReal(a: real, b: real): (r: real)
    ensures r >= a && r >= b && (r == a || r == b)
  {
    if a >= b then a else b
  }

  /** The tolerance of an equality test: `f64::EPSILON` scaled by the
      larger magnitude, and never below `f64::EPSILON`. */
  function RelativeEpsilon(agg: real, thresh: real): (r: real)
    ensures r >= F64_EPSILON
    ensures r >= F64_EPSILON * Abs(agg) && r >= F64_EPSILON * Abs(thresh)
  {
    F64_EPSILON * MaxReal(MaxReal(Abs(agg), Abs(thresh)), 1.0)
  }

  /** The number a HAVING threshold stands for; only integer and float
      literals are numbers. */
  function Threshold(v: Value): (r: Option<real>)
    ensures r.Some? <==> v.VInteger? || v.VFloat?
  {
    match v
    case VInteger(i) => Some(i as real)
    case VFloat(f) => Some(f)
    case _ => None
  }

  /** `compare_values`: a missing aggregate or a threshold that is not a
      number never matches; `=` and `!=` compare within the relative
      tolerance, the order operators exactly. */
  function CompareValues(agg: Option<real>, op: CompareOp, threshold: Value): (r: bool)
    ensures agg.None? || Threshold(threshold).None? ==> !r
    ensures agg.Some? && Threshold(threshold).Some? ==>
      var a := agg.value;
      var t := Threshold(threshold).value;
      match op
      case Eq => r <==> Abs(a - t) < RelativeEpsilon(a, t)
      case NotEq => r <==> Abs(a - t) >= RelativeEpsilon(a, t)
      case Gt => r <==> a > t
      case Gte => r <==> a >= t
      case Lt => r <==> a < t
      case Lte => r <==> a <= t
  {
    match (agg, Threshold(threshold))
    case (Some(a), Some(t)) =>
      var eps := RelativeEpsilon(a, t);
      (match op
       case Eq => Abs(a - t) < eps
       case NotEq => Abs(a - t) >= eps
       case Gt => a > t
       case Gte => a >= t
       case Lt => a < t
       case Lte => a <= t)
    case _ => false
  }

  /** For a present aggregate and a numeric threshold, `=` and `!=` are
      complementary, and an aggregate equal to the threshold satisfies
      `=`. */
  lemma CompareEqNotEq(a: real, threshold: Value)
    requires threshold.VInteger? || threshold.VFloat?
    ensures CompareValues(Some(a), Eq, threshold) != CompareValues(Some(a), NotEq, threshold)
    ensures a == Threshold(threshold).value ==> CompareValues(Some(a), Eq, threshold)
  {
  }

  /** Within the tolerance `=` holds even for values that are not equal. */
  lemma CompareEqTolerates()
    ensures CompareValues(Some(1.0 + F64_EPSILON / 2.0), Eq, VInteger(1))
    ensures !CompareValues(Some(1.0 + F64_EPSILON / 2.0), Gte, VFloat(1.0 + F64_EPSILON))
  {
  }

  datatype LogicalOp = LAnd | LOr

  /** One HAVING comparison: an aggregate, an operator and a literal. */
  datatype HavingCondition = HavingCondition(aggregate: AggregateFunction, op: CompareOp, value: Value)

  /** `HavingClause`: the comparisons and the connectives between
      neighbours; `operators[i]` joins comparison `i + 1` to what precedes
      it. */
  datatype HavingClause = HavingClause(conditions: seq<HavingCondition>, operators: seq<LogicalOp>)

  /** The connective before comparison `i + 1`: AND when the clause lists
      none. */
  function OperatorAt(ops: seq<LogicalOp>, i: nat): (r: LogicalOp)
    ensures i >= |ops| ==> r == LAnd
  {
    if i < |ops| then ops[i] else LAnd
  }

  function Combine(acc: bool, op: LogicalOp, b: bool): bool {
    match op
    case LAnd => acc && b
    case LOr => acc || b
  }

  /** The left fold of the truth values with the connectives, without
      precedence: `((v0 op0 v1) op1 v2) ...`. */
  function FoldLogical(vals: seq<bool>, ops: seq<LogicalOp>): bool
    requires |vals| > 0
  {
    if |vals| == 1 then vals[0]
    else Combine(FoldLogical(vals[..|vals| - 1], ops), OperatorAt(ops, |vals| - 2), vals[|vals| - 1])
  }

  /** The truth value of each HAVING comparison on one group. */
  function ConditionValues(h: HavingClause, result: AggregateResult): (r: seq<bool>)
    ensures |r| == |h.conditions|
  {
    seq(|h.conditions|, i requires 0 <= i < |h.conditions| =>
      CompareValues(GetAggregateValue(h.conditions[i].aggregate, result), h.conditions[i].op, h.conditions[i].value))
  }

  /** Folding one more value combines it with the fold so far. */
  lemma FoldStep(vals: seq<bool>, ops: seq<LogicalOp>, i: nat)
    requires 1 <= i < |vals|
    ensures FoldLogical(vals[..i + 1], ops) == Combine(FoldLogical(vals[..i], ops), OperatorAt(ops, i - 1), vals[i])
  {
    assert vals[..i + 1][..i] == vals[..i];
  }

  /** `evaluate_having`: an empty clause keeps every group; otherwise the
      comparisons are folded from the left with their connectives. */
  method EvaluateHaving(h: HavingClause, result: AggregateResult) returns (r: bool)
    ensures |h.conditions| == 0 ==> r
    ensures |h.conditions| > 0 ==> r == FoldLogical(ConditionValues(h, result), h.operators)
  {
    if |h.conditions| == 0 {
      return true;
    }
    var vals := ConditionValues(h, result);
    r := vals[0];
    assert vals[..1] == [vals[0]];
    for i := 1 to |h.conditions|
      invariant r == FoldLogical(vals[..i], h.operators)
    {
      var b := vals[i];
      var op := if i - 1 < |h.operators| then h.operators[i - 1] else LAnd;
      FoldStep(vals, h.operators, i);
      match op {
        case LAnd => r := r && b;
        case LOr => r := r || b;
      }
    }
    assert vals[..|h.conditions|] == vals;
  }

  /** With only AND connectives, or none listed, the fold holds exactly
      when every comparison holds. */
  lemma {:induction false} FoldAllAnd(vals: seq<bool>, ops: seq<LogicalOp>)
    requires |vals| > 0
    requires forall i | 0 <= i < |vals| - 1 :: OperatorAt(ops, i) == LAnd
    ensures FoldLogical(vals, ops) <==> forall i | 0 <= i < |vals| :: vals[i]
  {
    if |vals| > 1 {
      var p := vals[..|vals| - 1];
      FoldAllAnd(p, ops);
      assert forall i | 0 <= i < |p| :: p[i] == vals[i];
    }
  }

  /** With only OR connectives, the fold holds exactly when some
      comparison holds. */
  lemma {:induction false} FoldAllOr(vals: seq<bool>, ops: seq<LogicalOp>)
    requires |vals| > 0
    requires forall i | 0 <= i < |vals| - 1 :: OperatorAt(ops, i) == LOr
    ensures FoldLogical(vals, ops) <==> exists i | 0 <= i < |vals| :: vals[i]
  {
    if |vals| > 1 {
      var p := vals[..|vals| - 1];
      FoldAllOr(p, ops);
      assert forall i | 0 <= i < |p| :: p[i] == vals[i];
    }
  }

  /** The fold has no precedence, `a OR b AND c` being `(a OR b) AND c`,
      and a connective the clause does not list is AND. */
  lemma FoldLeftToRight()
    ensures !FoldLogical([true, true, false], [LOr, LAnd])
    ensures !FoldLogical([true, false, false], [LOr])
  {
    assert [true, true, false][..2] == [true, true];
    assert [true, true][..1] == [true];
    assert [true, false, false][..2] == [true, false];
    assert [true, false][..1] == [true];
  }

  /** `WithValue`: the literal of a WITH option. */
  datatype WithValue =
    | WString(s: string)
    | WInteger(i: int)
    | WFloat(f: real)
    | WBoolean(b: bool)
    | WIdentifier(name: string)

  datatype WithOption = WithOption(key: string, value: WithValue)

  datatype WithClause = WithClause(options: seq<WithOption>)

  /** An option that sets the group limit: named `max_groups` or
      `group_limit` and holding an integer. */
  predicate SetsGroupLimit(o: WithOption) {
    (o.key == "max_groups" || o.key == "group_limit") && o.value.WInteger?
  }

  /** A requested limit clamped into `[1, MAX_GROUPS_CAP]`. */
  function ClampGroupLimit(n: int): (r: nat)
    ensures 1 <= r <= MAX_GROUPS_CAP
    ensures 1 <= n <= MAX_GROUPS_CAP ==> r == n
    ensures n < 1 ==> r == 1
    ensures n > MAX_GROUPS_CAP ==> r == MAX_GROUPS_CAP
  {
    if n < 1 then 1 else if n > MAX_GROUPS_CAP then MAX_GROUPS_CAP else n
  }

  /** `extract_max_groups_limit`: the first option that sets the group
      limit decides it, clamped; options with those names but no integer
      are passed over; without such an option the limit is the default. */
  method ExtractMaxGroupsLimit(w: Option<WithClause>) returns (r: nat)
    ensures 1 <= r <= MAX_GROUPS_CAP
    ensures w.None? ==> r == DEFAULT_MAX_GROUPS
    ensures w.Some? && (forall i | 0 <= i < |w.value.options| :: !SetsGroupLimit(w.value.options[i])) ==>
      r == DEFAULT_MAX_GROUPS
    ensures w.Some? ==> forall i | 0 <= i < |w.value.options| ::
      SetsGroupLimit(w.value.options[i]) && (forall j | 0 <= j < i :: !SetsGroupLimit(w.value.options[j])) ==>
        r == ClampGroupLimit(w.value.options[i].value.i)
  {
    if w.None? {
      return DEFAULT_MAX_GROUPS;
    }
    var opts := w.value.options;
    for i := 0 to |opts|
      invariant forall j | 0 <= j < i :: !SetsGroupLimit(opts[j])
    {
      var o := opts[i];
      if o.key == "max_groups" || o.key == "group_limit" {
        if o.value.WInteger? {
          return ClampGroupLimit(o.value.i);
        }
      }
    }
    return DEFAULT_MAX_GROUPS;
  }

  /** The error of a query that opens more groups than its limit. */
  datatype GroupError = TooManyGroups(limit: nat)

  /** A prefix of a list has at most as many distinct elements. */
  lemma FirstAppearancesPrefix<T(!new)>(s: seq<T>, n: nat)
    requires n <= |s|
    ensures |FirstAppearances(s[..n])| <= |FirstAppearances(s)|
  {
    var a := FirstAppearances(s[..n]);
    var b := FirstAppearances(s);
    DistinctCard(a);
    DistinctCard(b);
    assert Elems(b) == Elems(a) + (Elems(b) - Elems(a));
  }

  /** The grouping state has one group per key in its order. */
  lemma GroupCount<T(!new), K(!new)>(xs: seq<T>, keyOf: T -> K, order: seq<K>, groups: map<K, seq<T>>)
    requires GroupsOf(xs, keyOf, order, groups)
    ensures |groups| == |order|
  {
    DistinctCard(order);
    assert groups.Keys == Elems(order);
  }

  /** A key not among the groups of a prefix adds one more distinct key to
      the whole list. */
  lemma NewKeyCounts<T(!new), K(!new)>(xs: seq<T>, i: nat, keyOf: T -> K, order: seq<K>, groups: map<K, seq<T>>)
    requires i < |xs|
    requires GroupsOf(xs[..i], keyOf, order, groups) && keyOf(xs[i]) !in groups
    ensures |FirstAppearances(KeysOf(xs, keyOf))| > |order|
  {
    var ks := KeysOf(xs, keyOf);
    KeysOfPrefix(xs, i, keyOf);
    assert order == FirstAppearances(ks[..i]);
    assert ks[i] !in order by {
      assert ks[i] == keyOf(xs[i]);
      assert groups.Keys == Elems(order);
    }
    var s := ks[..i + 1];
    assert s[..|s| - 1] == ks[..i];
    assert FirstAppearances(s) == order + [ks[i]];
    FirstAppearancesPrefix(ks, i + 1);
  }

  /** The keys of a prefix are the prefix of the keys. */
  lemma KeysOfPrefix<T, K>(xs: seq<T>, n: nat, keyOf: T -> K)
    requires n <= |xs|
    ensures KeysOf(xs[..n], keyOf) == KeysOf(xs, keyOf)[..n]
  {
  }

  /** One row taken under the group limit keeps the grouping state of the
      longer prefix, still within the limit. */
  lemma LimitedStep<T(!new), K(!new)>(xs: seq<T>, i: nat, keyOf: T -> K, order: seq<K>, groups: map<K, seq<T>>, maxGroups: nat)
    requires i < |xs| && GroupsOf(xs[..i], keyOf, order, groups) && |order| <= maxGroups
    requires keyOf(xs[i]) in groups || |groups| < maxGroups
    ensures var key := keyOf(xs[i]);
      var order' := if key in groups then order else order + [key];
      GroupsOf(xs[..i + 1], keyOf, order', groups[key := (if key in groups then groups[key] else []) + [xs[i]]])
      && |order'| <= maxGroups
  {
    var front, x := xs[..i], xs[i];
    assert xs[..i + 1] == front + [x];
    GroupCount(front, keyOf, order, groups);
    GroupStep(front, x, keyOf, order, groups);
  }

  /** The grouping loop of `execute_grouped_aggregate` with its group
      limit: it fails as soon as a new key arrives while `maxGroups`
      groups are open, so it fails exactly when the rows have more than
      `maxGroups` distinct keys, and otherwise it yields the grouping. */
  method GroupWithLimit<T(==,!new), K(==,!new)>(xs: seq<T>, keyOf: T -> K, maxGroups: nat)
    returns (r: Result<(seq<K>, map<K, seq<T>>), GroupError>)
    ensures r.Failure? <==> |FirstAppearances(KeysOf(xs, keyOf))| > maxGroups
    ensures r.Failure? ==> r.error == TooManyGroups(maxGroups)
    ensures r.Success? ==> GroupsOf(xs, keyOf, r.value.0, r.value.1)
  {
    var order: seq<K> := [];
    var groups: map<K, seq<T>> := map[];
    for i := 0 to |xs|
      invariant GroupsOf(xs[..i], keyOf, order, groups)
      invariant |order| <= maxGroups
    {
      var key := keyOf(xs[i]);
      GroupCount(xs[..i], keyOf, order, groups);
      if key !in groups && |groups| >= maxGroups {
        NewKeyCounts(xs, i, keyOf, order, groups);
        return Failure(TooManyGroups(maxGroups));
      }
      LimitedStep(xs, i, keyOf, order, groups, maxGroups);
      if key !in groups {
        order := order + [key];
      }
      groups := groups[key := (if key in groups then groups[key] else []) + [xs[i]]];
    }
    assert xs[..|xs|] == xs;
    return Success((order, groups));
  }

  /** `compare_json_values` of the ORDER BY over aggregation rows: a
      missing value first; two numbers by value; two strings
      lexicographically; any other pair by their serialised text, which
      `render` stands for. */
  function CompareRowValues(a: Option<Json>, b: Option<Json>, render: Json -> string): (r: Ordering)
    ensures a.None? ==> (r == Equal <==> b.None?)
    ensures a.None? && b.Some? ==> r == Less
    ensures a.Some? && b.Some? && a.value.JNum? && b.value.JNum? ==>
      r == CompareReal(AsF64(a.value).value, AsF64(b.value).value)
    ensures a.Some? && b.Some? && a.value.JStr? && b.value.JStr? ==>
      r == CompareString(a.value.s, b.value.s)
  {
    match (a, b)
    case (None, None) => Equal
    case (None, Some(_)) => Less
    case (Some(_), None) => Greater
    case (Some(va), Some(vb)) =>
      if AsF64(va).Some? && AsF64(vb).Some? then CompareReal(AsF64(va).value, AsF64(vb).value)
      else if AsStr(va).Some? && AsStr(vb).Some? then CompareString(va.s, vb.s)
      else CompareString(render(va), render(vb))
  }

  /** Swapping the operands reverses the outcome, whatever the
      serialisation. */
  lemma CompareRowValuesAntisymmetric(a: Option<Json>, b: Option<Json>, render: Json -> string)
    ensures CompareRowValues(b, a, render) == CompareRowValues(a, b, render).Reverse()
  {
    if a.Some? && b.Some? {
      var va, vb := a.value, b.value;
      if !(AsF64(va).Some? && AsF64(vb).Some?) {
        if AsStr(va).Some? && AsStr(vb).Some? {
          CompareStringAntisymmetric(va.s, vb.s);
        } else {
          CompareStringAntisymmetric(render(va), render(vb));
        }
      }
    }
  }

  /** A parameter value as a VelesQL literal: integers in the `i64` range
      stay integers, other numbers become floats, strings and booleans are
      kept, and anything else is null. */
  function JsonToValue(j: Json): (r: Value)
    ensures !r.VParameter?
  {
    match j
    case JNum(_) =>
      if AsI64(j).Some? then VInteger(AsI64(j).value)
      else VFloat(AsF64(j).value)
    case JStr(s) => VString(s)
    case JBool(b) => VBoolean(b)
    case _ => VNull
  }

  /** `resolve_value`: a `$name` placeholder becomes the bound parameter
      converted to a literal, or null when it is unbound; any other value is
      kept. */
  function ResolveValue(v: Value, params: Params): (r: Value)
    ensures !r.VParameter?
    ensures !v.VParameter? ==> r == v
    ensures v.VParameter? && v.name !in params ==> r == VNull
  {
    match v
    case VParameter(name) => if name in params then JsonToValue(params[name]) else VNull
    case _ => v
  }

  /** The JSON a literal is written as when passed as a parameter. */
  function ValueToJson(v: Value): Json
    requires !v.VParameter?
  {
    match v
    case VInteger(i) => JNum(NInt(i))
    case VFloat(f) => JNum(NFloat(f))
    case VString(s) => JStr(s)
    case VBoolean(b) => JBool(b)
    case VNull => JNull
  }

  /** Binding a literal to a parameter and resolving the placeholder gives
      the literal back, for integers in the `i64` range. */
  lemma ResolveValueRoundTrip(v: Value, name: string, params: Params)
    requires !v.VParameter?
    requires v.VInteger? ==> I64_MIN <= v.i <= I64_MAX
    ensures ResolveValue(VParameter(name), params[name := ValueToJson(v)]) == v
  {
  }

  /** No comparison value of the condition is a placeholder. */
  predicate NoParameters(c: Condition) {
    match c
    case Comparison(_, _, v) => !v.VParameter?
    case In(_, vs) => forall i | 0 <= i < |vs| :: !vs[i].VParameter?
    case Between(_, lo, hi) => !lo.VParameter? && !hi.VParameter?
    case And(l, r) => NoParameters(l) && NoParameters(r)
    case Or(l, r) => NoParameters(l) && NoParameters(r)
    case Not(i) => NoParameters(i)
    case Group(i) => NoParameters(i)
    case _ => true
  }

  /** Two conditions with the same connectives, the same leaf kinds,
      columns and operators and the same number of IN values, and equal
      leaves wherever no comparison value is involved: they differ at most
      in comparison values. */
  predicate SameShape(a: Condition, b: Condition) {
    match a
    case Comparison(col, op, _) => b.Comparison? && b.column == col && b.op == op
    case In(col, vs) => b.In? && b.column == col && |b.values| == |vs|
    case Between(col, _, _) => b.Between? && b.column == col
    case And(l, r) => b.And? && SameShape(l, b.left) && SameShape(r, b.right)
    case Or(l, r) => b.Or? && SameShape(l, b.left) && SameShape(r, b.right)
    case Not(i) => b.Not? && SameShape(i, b.inner)
    case Group(i) => b.Group? && SameShape(i, b.inner)
    case _ => b == a
  }

  /** `resolve_condition_params`: resolves the values of comparisons, IN
      lists and BETWEEN bounds throughout the tree, keeping its shape;
      other leaves are kept as they are. */
  function ResolveConditionParams(c: Condition, params: Params): (r: Condition)
    ensures SameShape(c, r)
  {
    match c
    case Comparison(col, op, v) => Comparison(col, op, ResolveValue(v, params))
    case In(col, vs) => In(col, seq(|vs|, i requires 0 <= i < |vs| => ResolveValue(vs[i], params)))
    case Between(col, lo, hi) => Between(col, ResolveValue(lo, params), ResolveValue(hi, params))
    case And(l, r) => And(ResolveConditionParams(l, params), ResolveConditionParams(r, params))
    case Or(l, r) => Or(ResolveConditionParams(l, params), ResolveConditionParams(r, params))
    case Not(i) => Not(ResolveConditionParams(i, params))
    case Group(i) => Group(ResolveConditionParams(i, params))
    case _ => c
  }

  /** After resolution no placeholder is left. */
  lemma {:induction false} ResolveLeavesNoParameters(c: Condition, params: Params)
    ensures NoParameters(ResolveConditionParams(c, params))
  {
    match c
    case And(l, r) => ResolveLeavesNoParameters(l, params); ResolveLeavesNoParameters(r, params);
    case Or(l, r) => ResolveLeavesNoParameters(l, params); ResolveLeavesNoParameters(r, params);
    case Not(i) => ResolveLeavesNoParameters(i, params);
    case Group(i) => ResolveLeavesNoParameters(i, params);
    case _ =>
  }

  /** A condition without placeholders is left unchanged, so resolving
      twice is resolving once. */
  lemma {:induction false} ResolveIdentity(c: Condition, params: Params)
    requires NoParameters(c)
    ensures ResolveConditionParams(c, params) == c
  {
    match c
    case And(l, r) => ResolveIdentity(l, params); ResolveIdentity(r, params);
    case Or(l, r) => ResolveIdentity(l, params); ResolveIdentity(r, params);
    case Not(i) => ResolveIdentity(i, params);
    case Group(i) => ResolveIdentity(i, params);
    case In(col, vs) =>
      assert seq(|vs|, i requires 0 <= i < |vs| => ResolveValue(vs[i], params)) == vs;
    case _ =>
  }

  /** Resolution is idempotent. */
  lemma ResolveIdempotent(c: Condition, params: Params)
    ensures ResolveConditionParams(ResolveConditionParams(c, params), params) == ResolveConditionParams(c, params)
  {
    ResolveLeavesNoParameters(c, params);
    ResolveIdentity(ResolveConditionParams(c, params), params);
  }
}
