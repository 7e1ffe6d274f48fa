/** The MATCH executor's pure parts: property paths, traversal depth,
    relationship types, inline property matching, projection of RETURN
    items, ordering and conversion of match results, and the path that
    returns start nodes of a pattern without relationships. */
module MatchExec {
  import opened Wrappers
  import opened Text
  import opened Json
  import opened VelesQL
  import opened Points
  import opened Sorting
  import opened MatchWhere

  /** `parse_property_path`: `alias.property` split at the first dot; the
      wildcard, function calls and paths without a dot or with a dot at
      either end of the alias part are rejected. */
  function ParsePropertyPath(e: string): (r: Option<(string, string)>)
    ensures r.Some? ==> && e == r.value.0 + "." + r.value.1
                        && r.value.0 != "" && r.value.1 != "" && '.' !in r.value.0
    ensures r.Some? ==> e != "*" && '(' !in e
    ensures '.' !in e ==> r.None?
  {
    if e == "*" || '(' in e then None
    else
      var dot :- FindChar(e, '.');
      if dot == 0 || dot == |e| - 1 then None
      else
        assert e == e[..dot] + "." + e[dot + 1..];
        Some((e[..dot], e[dot + 1..]))
  }

  /** Every well-formed `alias.property` is split back into its parts,
      however many dots the property holds. */
  lemma ParsePropertyPathInverse(alias: string, property: string)
    requires alias != "" && property != ""
    requires '.' !in alias && '(' !in alias && '(' !in property
    ensures ParsePropertyPath(alias + "." + property) == Some((alias, property))
  {
    var e := alias + "." + property;
    SplitOnceInverse(alias, property, '.');
    assert e != "*" by { assert |e| >= 3; }
    assert '(' !in e by {
      forall k | 0 <= k < |e| ensures e[k] != '(' {
        if k < |alias| { assert e[k] == alias[k]; }
        else if k > |alias| { assert e[k] == property[k - |alias| - 1]; }
      }
    }
  }

  /** A relationship of a pattern: its optional `*min..max` range and its
      type filter. */
  datatype Relationship = Relationship(range: Option<(nat, nat)>, types: seq<string>)

  /** The depth a relationship contributes: its range end capped at 10, or
      1 without a range. */
  function RelDepth(rel: Relationship): nat {
    if rel.range.Some? then Min(rel.range.value.1, 10) else 1
  }

  /** The uncapped total depth. */
  function DepthSum(rels: seq<Relationship>): nat
    decreases |rels|
  {
    if |rels| == 0 then 0 else DepthSum(rels[..|rels| - 1]) + RelDepth(rels[|rels| - 1])
  }

  /** `compute_max_depth`: the saturating `u32` sum of the relationship
      depths; a sum of 0 with relationships present falls back to the
      relationship count (10 if that overflows `u32`); the result is capped
      at 10. It is at least 1 whenever there is a relationship. */
  method ComputeMaxDepth(rels: seq<Relationship>) returns (r: nat)
    ensures |rels| == 0 ==> r == 0
    ensures |rels| > 0 ==> 1 <= r <= 10
    ensures |rels| > 0 && DepthSum(rels) > 0 ==> r == Min(DepthSum(rels), 10)
    ensures |rels| > 0 && DepthSum(rels) == 0 ==> r == Min(|rels|, 10)
  {
    var acc: nat := 0;
    var i := 0;
    while i < |rels|
      invariant 0 <= i <= |rels|
      invariant acc == Min(DepthSum(rels[..i]), U32_MAX)
    {
      assert rels[..i + 1][..i] == rels[..i];
      acc := SaturatingAddU32(acc, RelDepth(rels[i]));
      i := i + 1;
    }
    assert rels[..i] == rels;
    if acc == 0 && |rels| > 0 {
      acc := if |rels| <= U32_MAX then |rels| else 10;
    }
    r := Min(acc, 10);
  }

  /** `u32::saturating_add`. */
  function SaturatingAddU32(a: nat, b: nat): (r: nat)
    requires a <= U32_MAX
    ensures r == Min(a + b, U32_MAX)
  {
    if a + b > U32_MAX then U32_MAX else a + b
  }

  /** `extract_rel_types`: every relationship's types, in pattern order. */
  function ExtractRelTypes(rels: seq<Relationship>): (r: seq<string>)
    ensures forall t :: t in r <==> exists k | 0 <= k < |rels| :: t in rels[k].types
    decreases |rels|
  {
    if |rels| == 0 then []
    else
      var rest := ExtractRelTypes(rels[1..]);
      assert forall k | 1 <= k < |rels| :: rels[k] == rels[1..][k - 1];
      rels[0].types + rest
  }

  /** The type list of a concatenated pattern is the concatenation of the
      type lists. */
  lemma {:induction false} ExtractRelTypesAppend(a: seq<Relationship>, b: seq<Relationship>)
    ensures ExtractRelTypes(a + b) == ExtractRelTypes(a) + ExtractRelTypes(b)
    decreases |a|
  {
    if |a| > 0 {
      assert (a + b)[1..] == a[1..] + b;
      ExtractRelTypesAppend(a[1..], b);
    } else {
      assert a + b == b;
    }
  }

  /** `values_match`, the inline `{key: value}` property test of a node
      pattern: same kind, integers exact, floats within 0.001, null only
      against null. */
  function ValuesMatch(v: Value, j: Json): bool {
    match (v, j)
    case (VString(s), JStr(js)) => s == js
    case (VInteger(i), JNum(_)) => AsI64(j).Some? && AsI64(j).value == i
    case (VFloat(f), JNum(_)) =>
      var nf := AsF64(j).value;
      (if f >= nf then f - nf else nf - f) < 0.001
    case (VBoolean(b), JBool(jb)) => b == jb
    case (VNull, JNull) => true
    case _ => false
  }

  /** The inline property test is the WHERE equality test. */
  lemma ValuesMatchIsEquality(v: Value, j: Json)
    ensures ValuesMatch(v, j) == EvaluateComparison(Eq, j, v)
  {
  }

  /** A RETURN item: an expression and an optional `AS` alias. */
  datatype ReturnItem = ReturnItem(expression: string, alias: Option<string>)

  /** `MatchResult`. */
  datatype MatchResult = MatchResult(
    nodeId: nat,
    depth: nat,
    path: seq<nat>,
    bindings: map<string, nat>,
    score: Option<real>,
    projected: map<string, Json>)

  /** `get_nested_property`: at most 10 dot-separated parts; the first
      selects a payload field, the others descend into objects. */
  function GetNestedProperty(payload: map<string, Json>, path: string): (r: Option<Json>)
    ensures |Split(path, '.')| > 10 ==> r.None?
  {
    var parts := Split(path, '.');
    if |parts| > 10 then None
    else if parts[0] in payload then GetParts(payload[parts[0]], parts[1..])
    else None
  }

  /** Within the depth cap, a non-empty path reads the same value as the
      WHERE path lookup on the payload object. */
  lemma GetNestedPropertyIsPath(payload: map<string, Json>, path: string)
    requires path != "" && |Split(path, '.')| <= 10
    ensures GetNestedProperty(payload, path) == JsonGetPath(JObject(payload), path)
  {
  }

  /** The projection key of an item: its alias, else its expression. */
  function ProjectionKey(item: ReturnItem): string {
    if item.alias.Some? then item.alias.value else item.expression
  }

  /** The value an item projects, when its path resolves: the alias must
      be bound, the node's payload readable and an object, and the path
      present. */
  function ProjectItem(item: ReturnItem, bindings: map<string, nat>, payloads: nat -> Option<Json>): Option<Json> {
    var (alias, property) :- ParsePropertyPath(item.expression);
    if alias !in bindings then None
    else
      var payload :- payloads(bindings[alias]);
      if !payload.JObject? then None else GetNestedProperty(payload.fields, property)
  }

  /** The map built by inserting each item's resolved value under its key,
      in order, unresolved items skipped. */
  function ProjectionOf(items: seq<ReturnItem>, resolve: ReturnItem -> Option<Json>): map<string, Json>
    decreases |items|
  {
    if |items| == 0 then map[]
    else
      var last := items[|items| - 1];
      var m := ProjectionOf(items[..|items| - 1], resolve);
      if resolve(last).Some? then m[ProjectionKey(last) := resolve(last).value] else m
  }

  /** `project_properties`: the resolvable items by key, a later item
      overwriting an earlier one with the same key. */
  function ProjectProperties(items: seq<ReturnItem>, bindings: map<string, nat>, payloads: nat -> Option<Json>): map<string, Json> {
    ProjectionOf(items, (item: ReturnItem) => ProjectItem(item, bindings, payloads))
  }

  /** The position of the last item with key `key` that resolves. */
  function LastResolving(items: seq<ReturnItem>, key: string, resolve: ReturnItem -> Option<Json>): (r: Option<nat>)
    ensures r.Some? ==> && r.value < |items| && ProjectionKey(items[r.value]) == key && resolve(items[r.value]).Some?
                        && forall j | r.value < j < |items| :: ProjectionKey(items[j]) == key ==> resolve(items[j]).None?
    ensures r.None? ==> forall j | 0 <= j < |items| :: ProjectionKey(items[j]) == key ==> resolve(items[j]).None?
    decreases |items|
  {
    if |items| == 0 then None
    else
      var n := |items| - 1;
      if ProjectionKey(items[n]) == key && resolve(items[n]).Some? then Some(n)
      else
        assert forall j | 0 <= j < n :: items[..n][j] == items[j];
        LastResolving(items[..n], key, resolve)
  }

  lemma {:induction false} ProjectionOfSpec(items: seq<ReturnItem>, key: string, resolve: ReturnItem -> Option<Json>)
    ensures var r := ProjectionOf(items, resolve);
      var last := LastResolving(items, key, resolve);
      && (key in r <==> last.Some?)
      && (key in r ==> resolve(items[last.value]) == Some(r[key]))
    decreases |items|
  {
    if |items| > 0 {
      ProjectionOfSpec(items[..|items| - 1], key, resolve);
    }
  }

  /** A key is projected exactly when some item with that key resolves,
      and it holds the value of the last such item. */
  lemma ProjectPropertiesSpec(items: seq<ReturnItem>, key: string, bindings: map<string, nat>, payloads: nat -> Option<Json>)
    ensures var resolve := (item: ReturnItem) => ProjectItem(item, bindings, payloads);
      var r := ProjectProperties(items, bindings, payloads);
      var last := LastResolving(items, key, resolve);
      && (key in r <==> exists k | 0 <= k < |items| :: ProjectionKey(items[k]) == key && ProjectItem(items[k], bindings, payloads).Some?)
      && (key in r ==> ProjectItem(items[last.value], bindings, payloads) == Some(r[key]))
  {
    ProjectionOfSpec(items, key, (item: ReturnItem) => ProjectItem(item, bindings, payloads));
  }

  /** `order_match_results`: by score (a missing score counts as 0) for
      `similarity()`, by depth for `depth`, reversed when descending; any
      other key leaves the order alone. */
  function MatchOrderComparator(orderBy: string, descending: bool): (r: Option<(MatchResult, MatchResult) -> Ordering>)
    ensures r.Some? ==> TotalPreorder(r.value)
    ensures r.Some? <==> orderBy in {"similarity()", "similarity", "depth"}
  {
    var key := if orderBy == "depth" then ByReal((m: MatchResult) => m.depth as real)
               else ByReal((m: MatchResult) => m.score.GetOr(0.0));
    if orderBy != "similarity()" && orderBy != "similarity" && orderBy != "depth" then None
    else
      assert TotalPreorder(key) by {
        if orderBy == "depth" { ByRealTotalPreorder((m: MatchResult) => m.depth as real); }
        else { ByRealTotalPreorder((m: MatchResult) => m.score.GetOr(0.0)); }
      }
      if descending then FlipTotalPreorder(key); Some(Flip(key)) else Some(key)
  }

  function OrderMatchResults(results: seq<MatchResult>, orderBy: string, descending: bool): seq<MatchResult> {
    var cmp := MatchOrderComparator(orderBy, descending);
    if cmp.None? then results else SortBy(results, cmp.value)
  }

  /** The ordered list is a permutation of the input; by depth it runs from
      shallow to deep (deep to shallow when descending), by similarity from
      low to high score (high to low when descending); an unknown key
      changes nothing. */
  lemma OrderMatchResultsSpec(results: seq<MatchResult>, orderBy: string, descending: bool)
    ensures var r := OrderMatchResults(results, orderBy, descending);
      && multiset(r) == multiset(results)
      && (orderBy !in {"similarity()", "similarity", "depth"} ==> r == results)
      && (orderBy == "depth" ==> forall i, j | 0 <= i < j < |r| ::
            if descending then r[i].depth >= r[j].depth else r[i].depth <= r[j].depth)
      && (orderBy in {"similarity()", "similarity"} ==> forall i, j | 0 <= i < j < |r| ::
            if descending then r[i].score.GetOr(0.0) >= r[j].score.GetOr(0.0)
            else r[i].score.GetOr(0.0) <= r[j].score.GetOr(0.0))
  {
    var cmp := MatchOrderComparator(orderBy, descending);
    if cmp.Some? {
      SortBySorted(results, cmp.value);
    }
  }

  /** `match_results_to_search_results`: each match becomes a point with its
      vector (empty when absent; a read error aborts) and payload, scored by
      its similarity or else by 1/(depth+1). */
  function MatchResultsToSearchResults(mrs: seq<MatchResult>, vectors: nat -> Result<Option<seq<real>>, string>,
                                       payloads: nat -> Option<Json>): (r: Result<seq<SearchResult>, string>)
    ensures r.Success? <==> forall k | 0 <= k < |mrs| :: vectors(mrs[k].nodeId).Success?
    ensures r.Success? ==> |r.value| == |mrs| && forall k | 0 <= k < |mrs| ::
      && r.value[k].point.id == mrs[k].nodeId
      && r.value[k].point.payload == payloads(mrs[k].nodeId)
      && (mrs[k].score.Some? ==> r.value[k].score == mrs[k].score.value)
      && (mrs[k].score.None? ==> 0.0 < r.value[k].score <= 1.0)
    decreases |mrs|
  {
    if |mrs| == 0 then Success([])
    else
      var mr := mrs[0];
      assert forall k | 1 <= k < |mrs| :: mrs[k] == mrs[1..][k - 1];
      var v :- vectors(mr.nodeId);
      var rest :- MatchResultsToSearchResults(mrs[1..], vectors, payloads);
      var score := if mr.score.Some? then mr.score.value else 1.0 / (mr.depth as real + 1.0);
      Success([SearchResult(Point(mr.nodeId, v.GetOr([]), payloads(mr.nodeId)), score)] + rest)
  }

  /** The WHERE test of one start node; without a WHERE clause every node
      passes. The call site supplies no alias bindings. */
  function WhereKeeps(where: Option<Condition>, nodeId: nat, env: MatchEnv): Result<bool, string> {
    if where.None? then Success(true) else EvaluateWhere(where.value, nodeId, None, env)
  }

  /** The row a start node yields: depth 0, an empty path, its bindings and
      its projection. */
  function StartRow(start: (nat, map<string, nat>), items: seq<ReturnItem>, env: MatchEnv): MatchResult {
    MatchResult(start.0, 0, [], start.1, None, ProjectProperties(items, start.1, env.payloads))
  }

  /** `LIMIT`, 100 when absent. */
  function EffectiveLimit(limit: Option<nat>): nat {
    limit.GetOr(100)
  }

  /** The no-relationship path of `execute_match` as written: a passing
      node is pushed and only then is the count compared with the limit,
      `count` rows having been pushed before. */
  function StartNodesAsWritten(starts: seq<(nat, map<string, nat>)>, where: Option<Condition>, items: seq<ReturnItem>,
                               env: MatchEnv, limit: nat, count: nat): Result<seq<MatchResult>, string>
    decreases |starts|
  {
    if |starts| == 0 then Success([])
    else
      var keep :- WhereKeeps(where, starts[0].0, env);
      if !keep then StartNodesAsWritten(starts[1..], where, items, env, limit, count)
      else if count + 1 >= limit then Success([StartRow(starts[0], items, env)])
      else
        var rest :- StartNodesAsWritten(starts[1..], where, items, env, limit, count + 1);
        Success([StartRow(starts[0], items, env)] + rest)
  }

  /** `LIMIT 0` on a pattern without relationships still returns the first
      passing start node, while the traversal path returns nothing. */
  lemma StartNodesLimitZero(start: (nat, map<string, nat>), items: seq<ReturnItem>, env: MatchEnv)
    ensures StartNodesAsWritten([start], None, items, env, 0, 0) == Success([StartRow(start, items, env)])
  {
  }

  /** The same path with the limit checked before a node is taken, as the
      traversal path does. */
  function StartNodes(starts: seq<(nat, map<string, nat>)>, where: Option<Condition>, items: seq<ReturnItem>,
                      env: MatchEnv, limit: nat): Result<seq<MatchResult>, string>
    decreases |starts|
  {
    if limit == 0 || |starts| == 0 then Success([])
    else
      var keep :- WhereKeeps(where, starts[0].0, env);
      if !keep then StartNodes(starts[1..], where, items, env, limit)
      else
        var rest :- StartNodes(starts[1..], where, items, env, limit - 1);
        Success([StartRow(starts[0], items, env)] + rest)
  }

  /** The start nodes whose WHERE test is true, as rows. */
  function PassingRows(starts: seq<(nat, map<string, nat>)>, where: Option<Condition>, items: seq<ReturnItem>, env: MatchEnv): seq<MatchResult>
    decreases |starts|
  {
    if |starts| == 0 then []
    else
      var rest := PassingRows(starts[1..], where, items, env);
      if WhereKeeps(where, starts[0].0, env) == Success(true) then [StartRow(starts[0], items, env)] + rest else rest
  }

  /** The corrected path returns the first `limit` passing start nodes in
      scan order, WHERE applied before the limit, and succeeds when every
      WHERE test does. */
  lemma {:induction false} StartNodesSpec(starts: seq<(nat, map<string, nat>)>, where: Option<Condition>, items: seq<ReturnItem>,
                                          env: MatchEnv, limit: nat)
    ensures var r := StartNodes(starts, where, items, env, limit);
      var rows := PassingRows(starts, where, items, env);
      && (r.Success? ==> r.value == rows[..Min(limit, |rows|)])
      && ((forall k | 0 <= k < |starts| :: WhereKeeps(where, starts[k].0, env).Success?) ==> r.Success?)
    decreases |starts|
  {
    if limit > 0 && |starts| > 0 {
      assert forall k | 1 <= k < |starts| :: starts[k] == starts[1..][k - 1];
      var keep := WhereKeeps(where, starts[0].0, env);
      if keep.Success? {
        if keep.value {
          StartNodesSpec(starts[1..], where, items, env, limit - 1);
        } else {
          StartNodesSpec(starts[1..], where, items, env, limit);
        }
      }
    }
  }

  /** For any positive limit the code as written returns the same rows. */
  lemma {:induction false} StartNodesAsWrittenAgrees(starts: seq<(nat, map<string, nat>)>, where: Option<Condition>, items: seq<ReturnItem>,
                                                     env: MatchEnv, limit: nat, count: nat)
    requires count < limit
    ensures StartNodesAsWritten(starts, where, items, env, limit, count) == StartNodes(starts, where, items, env, limit - count)
    decreases |starts|
  {
    if |starts| > 0 {
      var keep := WhereKeeps(where, starts[0].0, env);
      if keep.Success? {
        if !keep.value {
          StartNodesAsWrittenAgrees(starts[1..], where, items, env, limit, count);
        } else if count + 1 < limit {
          StartNodesAsWrittenAgrees(starts[1..], where, items, env, limit, count + 1);
        } else {
          assert StartNodes(starts[1..], where, items, env, 0) == Success([]);
          assert [StartRow(starts[0], items, env)] + [] == [StartRow(starts[0], items, env)];
        }
      }
    }
  }
}
