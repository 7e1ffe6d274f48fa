/** ORDER BY on search results: the total order on optional JSON values
    and the multi-key stable sort. */
module JsonOrdering {
  import opened Wrappers
  import opened Json
  import opened VelesQL
  import opened Points
  import opened Sorting
  import opened Extraction

  /** Null 0, Bool 1, Number 2, String 3, Array 4, Object 5. */
  function TypeRank(j: Json): (r: nat)
    ensures r <= 5
  {
    match j
    case JNull => 0
    case JBool(_) => 1
    case JNum(_) => 2
    case JStr(_) => 3
    case JArray(_) => 4
    case JObject(_) => 5
  }

  /** `compare_json_values`: a missing value first, then by type rank, then
      numbers by value, strings lexicographically, `false` before `true`;
      two nulls, two arrays or two objects are equal. */
  function CompareJsonValues(a: Option<Json>, b: Option<Json>): (r: Ordering)
    ensures a.None? && b.Some? ==> r == Less
    ensures a.Some? && b.Some? && TypeRank(a.value) < TypeRank(b.value) ==> r == Less
    ensures a.Some? && b.Some? && a.value.JNum? && b.value.JNum? ==>
      r == CompareReal(AsF64(a.value).value, AsF64(b.value).value)
    ensures a.Some? && b.Some? && a.value.JBool? && b.value.JBool? ==>
      (r == Less <==> !a.value.b && b.value.b)
  {
    match (a, b)
    case (None, None) => Equal
    case (None, Some(_)) => Less
    case (Some(_), None) => Greater
    case (Some(va), Some(vb)) =>
      if TypeRank(va) != TypeRank(vb) then CompareInt(TypeRank(va), TypeRank(vb))
      else
        match (va, vb)
        case (JNum(_), JNum(_)) => CompareReal(AsF64(va).value, AsF64(vb).value)
        case (JStr(sa), JStr(sb)) => CompareString(sa, sb)
        case (JBool(ba), JBool(bb)) => CompareBool(ba, bb)
        case _ => Equal
  }

  /** Swapping the operands reverses the outcome. */
  lemma CompareJsonValuesAntisymmetric(a: Option<Json>, b: Option<Json>)
    ensures CompareJsonValues(b, a) == CompareJsonValues(a, b).Reverse()
  {
    if a.Some? && b.Some? && a.value.JStr? && b.value.JStr? {
      CompareStringAntisymmetric(a.value.s, b.value.s);
    }
  }

  /** "Not after" is transitive. */
  lemma CompareJsonValuesTransitive(a: Option<Json>, b: Option<Json>, c: Option<Json>)
    requires CompareJsonValues(a, b) != Greater && CompareJsonValues(b, c) != Greater
    ensures CompareJsonValues(a, c) != Greater
  {
    if a.Some? && b.Some? && c.Some? && a.value.JStr? && b.value.JStr? && c.value.JStr? {
      CompareStringTransitive(a.value.s, b.value.s, c.value.s);
    }
  }

  /** The comparison is a total preorder, so sorting by it is well defined. */
  lemma CompareJsonValuesTotalPreorder()
    ensures TotalPreorder(CompareJsonValues)
  {
    forall a, b
      ensures CompareJsonValues(b, a) == CompareJsonValues(a, b).Reverse()
    {
      CompareJsonValuesAntisymmetric(a, b);
    }
    forall a, b, c | CompareJsonValues(a, b) != Greater && CompareJsonValues(b, c) != Greater
      ensures CompareJsonValues(a, c) != Greater
    {
      CompareJsonValuesTransitive(a, b, c);
    }
  }

  /** `OrderByExpr`: a payload field or `similarity(field, vector)`. */
  datatype OrderExpr = Field(name: string) | SimilarityOf(vector: VectorExpr)

  /** `SelectOrderBy`. */
  datatype OrderBy = OrderBy(expr: OrderExpr, descending: bool)

  /** The vector of the first `similarity()` key, the one whose scores the
      source precomputes and uses for every similarity key. */
  function FirstSimilarity(keys: seq<OrderBy>): (r: Option<VectorExpr>)
    ensures r.Some? <==> exists k | 0 <= k < |keys| :: keys[k].expr.SimilarityOf?
  {
    if |keys| == 0 then None
    else if keys[0].expr.SimilarityOf? then Some(keys[0].expr.vector)
    else
      assert forall k | 1 <= k < |keys| :: keys[k] == keys[1..][k - 1];
      FirstSimilarity(keys[1..])
  }

  /** A similarity key is reversed relative to its scores when exactly one
      of "descending" and "the metric is a distance" holds. */
  predicate KeyReversed(ob: OrderBy, higherIsBetter: bool) {
    if ob.expr.SimilarityOf? && !higherIsBetter then !ob.descending else ob.descending
  }

  /** The undirected comparison of one key. */
  function KeyCompare(ob: OrderBy, sim: SearchResult -> real): (r: (SearchResult, SearchResult) -> Ordering)
  {
    match ob.expr
    case Field(name) => On(CompareJsonValues, (x: SearchResult) => PayloadField(x.point, name))
    case SimilarityOf(_) => ByReal(sim)
  }

  /** The comparison of one key with its direction applied. */
  function DirectedKey(ob: OrderBy, sim: SearchResult -> real, higherIsBetter: bool): (r: (SearchResult, SearchResult) -> Ordering)
    ensures TotalPreorder(r)
  {
    var k := KeyCompare(ob, sim);
    assert TotalPreorder(k) by {
      if ob.expr.Field? {
        CompareJsonValuesTotalPreorder();
        OnTotalPreorder(CompareJsonValues, (x: SearchResult) => PayloadField(x.point, ob.expr.name));
      } else {
        ByRealTotalPreorder(sim);
      }
    }
    if KeyReversed(ob, higherIsBetter) then FlipTotalPreorder(k); Flip(k) else k
  }

  /** The directed comparators of all keys, in ORDER BY order. */
  function DirectedKeys(keys: seq<OrderBy>, sim: SearchResult -> real, higherIsBetter: bool): (r: seq<(SearchResult, SearchResult) -> Ordering>)
    ensures |r| == |keys|
    ensures forall k | 0 <= k < |r| :: r[k] == DirectedKey(keys[k], sim, higherIsBetter)
  {
    seq(|keys|, k requires 0 <= k < |keys| => DirectedKey(keys[k], sim, higherIsBetter))
  }

  /** The comparator of `apply_order_by`: the keys in order, the first key
      that does not tie deciding. */
  function OrderComparator(keys: seq<OrderBy>, sim: SearchResult -> real, higherIsBetter: bool): (r: (SearchResult, SearchResult) -> Ordering)
    ensures TotalPreorder(r)
  {
    var cmps := DirectedKeys(keys, sim, higherIsBetter);
    LexTotalPreorder(cmps);
    Lex(cmps)
  }

  /** The similarity score of a result against the ORDER BY vector. */
  function SimScore(metric: (seq<real>, seq<real>) -> real, v: seq<real>): (r: SearchResult -> real)
  {
    (x: SearchResult) => MetricScore(metric, x.point.vector, v)
  }

  /** `apply_order_by`. With no keys the results are left alone. Otherwise
      they are stably sorted by the chained key comparator; when a
      similarity key is present its vector must resolve, and every result's
      score becomes its similarity score. The output is a permutation of the
      (re-scored) input, sorted by the comparator. */
  function ApplyOrderBy(results: seq<SearchResult>, keys: seq<OrderBy>, params: Params,
                        metric: (seq<real>, seq<real>) -> real, higherIsBetter: bool): (r: Result<seq<SearchResult>, string>)
    ensures |keys| == 0 ==> r == Success(results)
    ensures FirstSimilarity(keys).None? ==> r.Success? && multiset(r.value) == multiset(results)
    ensures FirstSimilarity(keys).Some? ==> (r.Failure? <==> ResolveVector(FirstSimilarity(keys).value, params).Failure?)
    ensures r.Success? && FirstSimilarity(keys).Some? ==>
      var sim := SimScore(metric, ResolveVector(FirstSimilarity(keys).value, params).value);
      multiset(r.value) == multiset(seq(|results|, i requires 0 <= i < |results| => results[i].(score := sim(results[i]))))
      && forall i | 0 <= i < |r.value| :: r.value[i].score == sim(r.value[i])
    ensures r.Success? && |keys| > 0 ==>
      var sim := if FirstSimilarity(keys).Some? then SimScore(metric, ResolveVector(FirstSimilarity(keys).value, params).value)
                 else (x: SearchResult) => 0.0;
      SortedBy(r.value, OrderComparator(keys, sim, higherIsBetter))
  {
    if |keys| == 0 then Success(results)
    else
      var first := FirstSimilarity(keys);
      if first.None? then
        var sim := (x: SearchResult) => 0.0;
        var cmp := OrderComparator(keys, sim, higherIsBetter);
        SortBySorted(results, cmp);
        Success(SortBy(results, cmp))
      else
        var v :- ResolveVector(first.value, params);
        var sim := SimScore(metric, v);
        var rescored := seq(|results|, i requires 0 <= i < |results| => results[i].(score := sim(results[i])));
        var cmp := OrderComparator(keys, sim, higherIsBetter);
        SortBySorted(rescored, cmp);
        var sorted := SortBy(rescored, cmp);
        assert forall i | 0 <= i < |sorted| :: sorted[i].score == sim(sorted[i]) by {
          forall i | 0 <= i < |sorted| ensures sorted[i].score == sim(sorted[i]) {
            assert sorted[i] in multiset(rescored);
            var j :| 0 <= j < |rescored| && rescored[j] == sorted[i];
          }
        }
        Success(sorted)
  }
}
