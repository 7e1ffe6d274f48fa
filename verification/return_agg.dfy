/** Recognising the aggregation functions COUNT, SUM, AVG, MIN and MAX in
    the expressions of a MATCH query's RETURN clause. */
module AggregationCall {
  import opened Wrappers
  import opened Text

  datatype AggType = Count | Sum | Avg | Min | Max

  /** The upper-case function name of an aggregation. */
  function AggName(t: AggType): string {
    match t
    case Count => "COUNT"
    case Sum => "SUM"
    case Avg => "AVG"
    case Min => "MIN"
    case Max => "MAX"
  }

  /** The aggregation an upper-cased function name denotes, if any. */
  function AggTypeOf(name: string): (r: Option<AggType>)
    ensures r.Some? ==> AggName(r.value) == name
    ensures r.None? ==> forall t: AggType :: AggName(t) != name
  {
    if name == "COUNT" then Some(Count)
    else if name == "SUM" then Some(Sum)
    else if name == "AVG" then Some(Avg)
    else if name == "MIN" then Some(Min)
    else if name == "MAX" then Some(Max)
    else None
  }

  /** The aggregation whose name is the upper case of `s`, if any. An
      upper case holding a character outside ASCII names none. */
  function NameAggregation(s: string): (r: Option<AggType>)
    ensures r.Some? ==> UpperName(s) == Some(AggName(r.value))
    ensures r.None? ==> UpperName(s).None? || forall t: AggType :: AggName(t) != UpperName(s).value
  {
    match UpperName(s)
    case None => None
    case Some(name) => AggTypeOf(name)
  }

  /** `parse_return_aggregation`: on the trimmed expression, the text
      before the first `(` (trimmed, upper-cased) must name an aggregation
      and the argument is the trimmed text up to the last `)`. An
      expression without parentheses, such as a property path, is not an
      aggregation. */
  function ParseReturnAggregation(expression: string): (r: Option<(AggType, string)>)
    ensures '(' !in expression || ')' !in expression ==> r.None?
    ensures r.Some? ==> Trim(r.value.1) == r.value.1
  {
    TrimInside(expression);
    ParseCall(Trim(expression))
  }

  /** The call parse of an already trimmed expression. */
  function ParseCall(t: string): (r: Option<(AggType, string)>)
    ensures '(' !in t || ')' !in t ==> r.None?
    ensures r.Some? ==> Trim(r.value.1) == r.value.1
  {
    match FindChar(t, '(')
    case None => None
    case Some(open) =>
      match RFindChar(t, ')')
      case None => None
      case Some(close) =>
        if close <= open then None else CallBetween(t, open, close)
  }

  /** The call parse once the first `(` and the last `)` are known. */
  function CallBetween(t: string, open: nat, close: nat): (r: Option<(AggType, string)>)
    requires open < close <= |t|
    ensures r.Some? ==> Trim(r.value.1) == r.value.1
  {
    match NameAggregation(Trim(t[..open]))
    case None => None
    case Some(kind) =>
      var arg := Trim(t[open + 1..close]);
      TrimTrimmed(arg);
      Some((kind, arg))
  }

  /** Every character of the trimmed text occurs in the text. */
  lemma TrimInside(s: string)
    ensures forall c :: c in Trim(s) ==> c in s
  {
    var a := TrimStart(s);
    var b := TrimEnd(a);
    TrimStartSuffix(s);
    assert forall c :: c in b ==> c in a;
    assert forall c :: c in a ==> c in s;
  }

  /** A word of ASCII letters has no white space and no parenthesis. */
  lemma LettersPlain(name: string)
    requires forall k | 0 <= k < |name| :: IsAsciiLetter(name[k])
    ensures forall k | 0 <= k < |name| :: !IsWhiteSpace(name[k]) && name[k] != '(' && name[k] != ')'
  {
  }

  /** In a call `name(arg)` whose name has no `(`, the first `(` follows
      the name. */
  lemma {:induction false} FirstParenAfterName(name: string, arg: string)
    requires '(' !in name
    ensures FindChar(name + "(" + arg + ")", '(') == Some(|name|)
  {
    var e := name + "(" + arg + ")";
    if |name| == 0 {
      assert e[0] == '(';
    } else {
      assert e[1..] == name[1..] + "(" + arg + ")";
      assert e[0] == name[0];
      FirstParenAfterName(name[1..], arg);
    }
  }

  /** A call of an aggregation function, spelt in any letter case, parses
      back to that aggregation and its trimmed argument, whatever the
      argument holds. */
  lemma ParseReturnAggregationInverse(name: string, t: AggType, arg: string)
    requires Upper(name) == AggName(t)
    requires forall k | 0 <= k < |name| :: IsAsciiLetter(name[k])
    ensures ParseReturnAggregation(name + "(" + arg + ")") == Some((t, Trim(arg)))
  {
    assert |name| > 0 by {
      assert |Upper(name)| == |name|;
      match t case _ =>
    }
    LettersPlain(name);
    assert NameAggregation(Trim(name)) == Some(t) by {
      TrimTrimmed(name);
      UpperNameAscii(name);
      AggTypeOfName(t);
    }
    ParseNamedCall(name, arg);
  }

  /** A call `name(arg)` whose name is free of white space and `(`
      parses exactly when the trimmed, upper-cased name denotes an
      aggregation, and then to it and to the trimmed argument. */
  lemma ParseNamedCall(name: string, arg: string)
    requires |name| > 0
    requires forall k | 0 <= k < |name| :: !IsWhiteSpace(name[k]) && name[k] != '('
    ensures NameAggregation(Trim(name)).None? ==> ParseReturnAggregation(name + "(" + arg + ")").None?
    ensures NameAggregation(Trim(name)).Some? ==>
      ParseReturnAggregation(name + "(" + arg + ")") == Some((NameAggregation(Trim(name)).value, Trim(arg)))
  {
    CallShape(name, arg);
    ParseCallAt(name + "(" + arg + ")", |name|, |name| + |arg| + 1, name, arg);
  }

  /** The text `name(arg)` of a non-empty name without white space or
      `(` is trimmed, its first `(` ends the name and its last `)` ends
      the text. */
  lemma CallShape(name: string, arg: string)
    requires |name| > 0
    requires forall k | 0 <= k < |name| :: !IsWhiteSpace(name[k]) && name[k] != '('
    ensures CallAt(name + "(" + arg + ")", |name|, |name| + |arg| + 1, name, arg)
  {
    var e := name + "(" + arg + ")";
    assert e[..|name|] == name;
    assert e[0] == name[0];
    assert e[|e| - 1] == ')';
    TrimTrimmed(e);
    assert e[|name| + 1..|e| - 1] == arg;
  }

  /** `e` is trimmed and is `name(arg)` with its first `(` at `open` and
      its last `)` at `close`. */
  predicate CallAt(e: string, open: nat, close: nat, name: string, arg: string) {
    && Trim(e) == e
    && open < close < |e|
    && e[open] == '(' && '(' !in e[..open]
    && e[close] == ')' && ')' !in e[close + 1..]
    && e[..open] == name && e[open + 1..close] == arg
  }

  /** A trimmed expression whose first `(` comes before its last `)`
      parses exactly when the text before the `(` names an aggregation,
      and then to it and to the trimmed text between the two. */
  lemma ParseCallAt(e: string, open: nat, close: nat, name: string, arg: string)
    requires CallAt(e, open, close, name, arg)
    ensures NameAggregation(Trim(name)).None? ==> ParseReturnAggregation(e).None?
    ensures NameAggregation(Trim(name)).Some? ==>
      ParseReturnAggregation(e) == Some((NameAggregation(Trim(name)).value, Trim(arg)))
  {
    FindCharAt(e, '(', open);
    RFindCharAt(e, ')', close);
    ParseCallFound(e, open, close);
    SameTrim(e[..open], name);
    SameTrim(e[open + 1..close], arg);
  }

  /** Equal texts trim alike. */
  lemma SameTrim(a: string, b: string)
    requires a == b
    ensures Trim(a) == Trim(b)
  {
  }

  /** Once the first `(` and the last `)` are found, the call parse is
      decided by the text between them and the text before. */
  lemma ParseCallFound(e: string, open: nat, close: nat)
    requires FindChar(e, '(') == Some(open) && RFindChar(e, ')') == Some(close)
    requires open < close <= |e|
    ensures ParseCall(e) == CallBetween(e, open, close)
  {
  }

  /** Each aggregation name denotes its aggregation. */
  lemma AggTypeOfName(t: AggType)
    ensures AggTypeOf(AggName(t)) == Some(t)
  {
    var n := AggName(t);
    match t
    case Count =>
    case Sum =>
      assert n != "COUNT" by { assert |n| == 3; }
    case Avg =>
      assert n != "COUNT" by { assert |n| == 3; }
      assert n != "SUM" by { assert n[0] == 'A'; }
    case Min =>
      assert n != "COUNT" by { assert |n| == 3; }
      assert n != "SUM" by { assert n[0] == 'M'; }
      assert n != "AVG" by { assert n[0] == 'M'; }
    case Max =>
      assert n != "COUNT" by { assert |n| == 3; }
      assert n != "SUM" by { assert n[0] == 'M'; }
      assert n != "AVG" by { assert n[0] == 'M'; }
      assert n != "MIN" by { assert n[1] == 'A'; }
  }

  /** White space before an expression does not change its parse. */
  lemma LeadingWhiteSpaceIgnored(w: string, e: string)
    requires forall k | 0 <= k < |w| :: IsWhiteSpace(w[k])
    ensures ParseReturnAggregation(w + e) == ParseReturnAggregation(e)
  {
    TrimWhiteSpacePrefix(w, e);
  }

  /** An aggregation's own name is upper-case ASCII letters. */
  lemma AggNameUpper(t: AggType)
    ensures Upper(AggName(t)) == AggName(t)
    ensures forall k | 0 <= k < |AggName(t)| :: IsAsciiLetter(AggName(t)[k])
  {
    match t
    case Count =>
    case Sum =>
    case Avg =>
    case Min =>
    case Max =>
  }

  /** Trimming strips Unicode white space: a no-break space before the
      call is ignored. */
  lemma NoBreakSpaceBeforeCall(arg: string)
    ensures ParseReturnAggregation("\U{00A0}COUNT(" + arg + ")") == Some((Count, Trim(arg)))
  {
    var call := "COUNT" + "(" + arg + ")";
    assert "\U{00A0}COUNT(" + arg + ")" == "\U{00A0}" + call;
    LeadingWhiteSpaceIgnored("\U{00A0}", call);
    AggNameUpper(Count);
    ParseReturnAggregationInverse(AggName(Count), Count, arg);
  }

  /** A no-break space opening the argument is trimmed with it. */
  lemma NoBreakSpaceInArgument(arg: string)
    ensures ParseReturnAggregation("COUNT(\U{00A0}" + arg + ")") == Some((Count, Trim(arg)))
  {
    var spaced := "\U{00A0}" + arg;
    assert "COUNT(\U{00A0}" + arg + ")" == AggName(Count) + "(" + spaced + ")";
    AggNameUpper(Count);
    ParseReturnAggregationInverse(AggName(Count), Count, spaced);
    TrimWhiteSpacePrefix("\U{00A0}", arg);
  }

  /** Upper-casing is Unicode's: the long s upper-cases to `S`, so `ſum`
      names SUM. */
  lemma LongSNamesSum(arg: string)
    ensures ParseReturnAggregation("\U{017F}um(" + arg + ")") == Some((Sum, Trim(arg)))
  {
    var name := "\U{017F}um";
    assert "\U{017F}um(" + arg + ")" == name + "(" + arg + ")";
    TrimTrimmed(name);
    assert UpperName(name) == Some("SUM") by {
      UpperFromAscii(name, 1);
      assert name[1..] == "um";
      assert Upper("um") == "UM";
      assert UpperToAscii(name[0]) == Some("S");
      assert "S" + "UM" == "SUM";
    }
    AggTypeOfName(Sum);
    ParseNamedCall(name, arg);
  }

  /** A name whose upper case leaves ASCII, such as `éum`, names no
      aggregation. */
  lemma AccentedNameNamesNone(arg: string)
    ensures ParseReturnAggregation("\U{00E9}um(" + arg + ")").None?
  {
    var name := "\U{00E9}um";
    assert "\U{00E9}um(" + arg + ")" == name + "(" + arg + ")";
    TrimTrimmed(name);
    assert UpperName(name).None?;
    ParseNamedCall(name, arg);
  }
}

/** RETURN aggregation for MATCH results: the implicit grouping by the
    items that are not aggregations, and the per-group aggregates. */
module ReturnAgg {
  import opened Wrappers
  import opened Seqs
  import opened Grouping
  import opened Text
  import opened Json
  import opened MatchWhere
  import opened MatchExec
  import opened AggregationCall

  /** A RETURN aggregation: its function, its argument column and the key
      of its value in the result row (the alias, else the expression). */
  datatype Aggregation = Aggregation(agg: AggType, column: string, resultKey: string)

  /** The aggregation a RETURN item denotes, if it is one. */
  function AggregationOf(item: ReturnItem): (r: Option<Aggregation>)
    ensures r.Some? <==> ParseReturnAggregation(item.expression).Some?
  {
    var p :- ParseReturnAggregation(item.expression);
    Some(Aggregation(p.0, p.1, ProjectionKey(item)))
  }

  /** `classify_return_items`: the items that are not aggregations become
      grouping keys, the others aggregations, both in RETURN order. */
  function Classify(items: seq<ReturnItem>): (r: (seq<ReturnItem>, seq<Aggregation>))
    ensures |r.0| + |r.1| == |items|
    ensures forall x :: x in r.0 <==> x in items && AggregationOf(x).None?
    ensures forall x :: x in items && AggregationOf(x).Some? ==> AggregationOf(x).value in r.1
    ensures |r.1| == 0 <==> forall x :: x in items ==> AggregationOf(x).None?
  {
    PartitionMembers(items, AggregationOf);
    Partition(items, AggregationOf)
  }

  /** Classifying a concatenation classifies each part and concatenates
      the results, so the relative order of items is kept. */
  lemma ClassifyAppend(a: seq<ReturnItem>, b: seq<ReturnItem>)
    ensures Classify(a + b).0 == Classify(a).0 + Classify(b).0
    ensures Classify(a + b).1 == Classify(a).1 + Classify(b).1
  {
    PartitionAppend(a, b, AggregationOf);
  }

  /** `resolve_column_value`: an `alias.property` column read from the
      payload of the node the alias is bound to. A column that is not a
      property path, an unbound alias, a missing or non-object payload and
      a missing property all give nothing. */
  function ResolveColumnValue(column: string, bindings: map<string, nat>, payloads: nat -> Option<Json>): (r: Option<Json>)
    ensures r.Some? ==> ParsePropertyPath(column).Some? && ParsePropertyPath(column).value.0 in bindings
    ensures r.Some? ==> var p := payloads(bindings[ParsePropertyPath(column).value.0]); p.Some? && p.value.JObject?
  {
    var (alias, property) :- ParsePropertyPath(column);
    if alias !in bindings then None
    else
      var payload :- payloads(bindings[alias]);
      if !payload.JObject? then None else GetNestedProperty(payload.fields, property)
  }

  /** Within the depth cap the column reads the same value as the WHERE
      path lookup on the bound node's payload. */
  lemma ResolveColumnValueIsPath(column: string, bindings: map<string, nat>, payloads: nat -> Option<Json>, alias: string, property: string)
    requires ParsePropertyPath(column) == Some((alias, property))
    requires alias in bindings
    requires payloads(bindings[alias]).Some? && payloads(bindings[alias]).value.JObject?
    requires |Split(property, '.')| <= 10
    ensures ResolveColumnValue(column, bindings, payloads) == JsonGetPath(payloads(bindings[alias]).value, property)
  {
    GetNestedPropertyIsPath(payloads(bindings[alias]).value.fields, property);
  }

  /** A column lookup over a result's bindings. */
  type Resolver = (string, map<string, nat>) -> Option<Json>

  /** The lookup of `resolve_column_value` over a payload store. */
  function PayloadResolver(payloads: nat -> Option<Json>): Resolver {
    (column: string, bindings: map<string, nat>) => ResolveColumnValue(column, bindings, payloads)
  }

  /** The value a RETURN item gives a result row, `null` when it does not
      resolve. */
  function ColumnOrNull(column: string, bindings: map<string, nat>, resolve: Resolver): Json {
    resolve(column, bindings).GetOr(JNull)
  }

  /** `build_group_key`: the grouping values of a result, one per grouping
      item. The source joins their JSON texts with a unit separator; JSON
      text escapes that control character, so distinct value lists give
      distinct keys and the list itself stands for the key. */
  function GroupKey(keys: seq<ReturnItem>, resolve: Resolver): (r: MatchResult -> seq<Json>)
  {
    (x: MatchResult) => seq(|keys|, k requires 0 <= k < |keys| => ColumnOrNull(keys[k].expression, x.bindings, resolve))
  }

  /** `filter_map(... as_f64)`: the numeric values of a column over the
      members, in order. */
  function Numbers(column: string, members: seq<MatchResult>, resolve: Resolver): (r: seq<real>)
    ensures |r| <= |members|
  {
    if |members| == 0 then []
    else
      var v := resolve(column, members[0].bindings);
      (if v.Some? && AsF64(v.value).Some? then [AsF64(v.value).value] else []) + Numbers(column, members[1..], resolve)
  }

  function SumOf(s: seq<real>): real {
    if |s| == 0 then 0.0 else s[0] + SumOf(s[1..])
  }

  /** The fold with `f64::min`. */
  function MinOf(s: seq<real>): (r: real)
    requires |s| > 0
    ensures r in s && forall k | 0 <= k < |s| :: r <= s[k]
  {
    if |s| == 1 then s[0]
    else
      var m := MinOf(s[1..]);
      assert forall k | 1 <= k < |s| :: s[k] == s[1..][k - 1];
      if s[0] <= m then s[0] else m
  }

  /** The fold with `f64::max`. */
  function MaxOf(s: seq<real>): (r: real)
    requires |s| > 0
    ensures r in s && forall k | 0 <= k < |s| :: s[k] <= r
  {
    if |s| == 1 then s[0]
    else
      var m := MaxOf(s[1..]);
      assert forall k | 1 <= k < |s| :: s[k] == s[1..][k - 1];
      if s[0] >= m then s[0] else m
  }

  /** A member whose column resolves to some value. */
  function Present(column: string, resolve: Resolver): MatchResult -> bool {
    (m: MatchResult) => resolve(column, m.bindings).Some?
  }

  /** A member whose column resolves to a value other than `null`. */
  function NonNull(column: string, resolve: Resolver): MatchResult -> bool {
    (m: MatchResult) => var v := resolve(column, m.bindings); v.Some? && v.value != JNull
  }

  /** COUNT(column) as the source computes it: members whose column
      resolves, a stored `null` included. */
  function CountColumnAsWritten(column: string, members: seq<MatchResult>, resolve: Resolver): (r: nat)
    ensures r <= |members|
  {
    |Filter(members, Present(column, resolve))|
  }

  /** COUNT(column): the members whose column holds a non-null value. */
  function CountColumn(column: string, members: seq<MatchResult>, resolve: Resolver): (r: nat)
    ensures r <= CountColumnAsWritten(column, members, resolve)
  {
    FilterWeaker(members, NonNull(column, resolve), Present(column, resolve));
    |Filter(members, NonNull(column, resolve))|
  }

  /** Where no member's column holds `null`, the source's count is the
      count of non-null values. */
  lemma {:induction false} CountColumnAgrees(column: string, members: seq<MatchResult>, resolve: Resolver)
    requires forall i | 0 <= i < |members| :: resolve(column, members[i].bindings) != Some(JNull)
    ensures CountColumn(column, members, resolve) == CountColumnAsWritten(column, members, resolve)
  {
    FilterSame(members, NonNull(column, resolve), Present(column, resolve));
  }

  /** Filters by predicates that agree on every element are equal. */
  lemma {:induction false} FilterSame(s: seq<MatchResult>, p: MatchResult -> bool, q: MatchResult -> bool)
    requires forall i | 0 <= i < |s| :: p(s[i]) == q(s[i])
    ensures Filter(s, p) == Filter(s, q)
  {
    if |s| > 0 {
      assert forall i | 0 <= i < |s[1..]| :: s[1..][i] == s[i + 1];
      FilterSame(s[1..], p, q);
    }
  }

  /** A single member whose property holds `null` is counted once by the
      source, where COUNT over a column counts only non-null values. */
  lemma CountColumnCountsNull(m: MatchResult, payloads: nat -> Option<Json>)
    requires "p" in m.bindings && payloads(m.bindings["p"]) == Some(JObject(map["x" := JNull]))
    ensures CountColumnAsWritten("p.x", [m], PayloadResolver(payloads)) == 1
    ensures CountColumn("p.x", [m], PayloadResolver(payloads)) == 0
  {
    assert "p" + "." + "x" == "p.x";
    ParsePropertyPathInverse("p", "x");
    assert Split("x", '.') == ["x"] by { SplitNoSeparator("x", '.'); }
    var fields := map["x" := JNull];
    assert GetParts(JNull, []) == Some(JNull);
    assert GetNestedProperty(fields, "x") == Some(JNull);
    assert ResolveColumnValue("p.x", m.bindings, payloads) == Some(JNull);
    assert [m][1..] == [];
  }

  /** A stricter filter keeps no more elements. */
  lemma {:induction false} FilterWeaker(s: seq<MatchResult>, p: MatchResult -> bool, q: MatchResult -> bool)
    requires forall x :: p(x) ==> q(x)
    ensures |Filter(s, p)| <= |Filter(s, q)|
  {
    if |s| > 0 {
      FilterWeaker(s[1..], p, q);
    }
  }

  /** `compute_aggregation`: COUNT(*) is the group size and COUNT(column)
      the number of non-null values; SUM adds the numeric values, AVG, MIN
      and MAX are `null` when there is none. */
  function ComputeAggregation(a: Aggregation, members: seq<MatchResult>, resolve: Resolver): (r: Json)
    ensures a.agg == Count && a.column == "*" ==> r == JNum(NInt(|members|))
    ensures a.agg == Count && a.column != "*" ==> r == JNum(NInt(CountColumn(a.column, members, resolve)))
    ensures a.agg == Sum ==> r == JNum(NFloat(SumOf(Numbers(a.column, members, resolve))))
    ensures a.agg.Avg? || a.agg.Min? || a.agg.Max? ==> (r == JNull <==> |Numbers(a.column, members, resolve)| == 0)
    ensures a.agg == Avg && r != JNull ==>
      var vs := Numbers(a.column, members, resolve);
      r.JNum? && r.n.NFloat? && r.n.f * (|vs| as real) == SumOf(vs)
    ensures a.agg == Min && r != JNull ==>
      var vs := Numbers(a.column, members, resolve);
      r.JNum? && r.n.NFloat? && r.n.f in vs && forall k | 0 <= k < |vs| :: r.n.f <= vs[k]
    ensures a.agg == Max && r != JNull ==>
      var vs := Numbers(a.column, members, resolve);
      r.JNum? && r.n.NFloat? && r.n.f in vs && forall k | 0 <= k < |vs| :: vs[k] <= r.n.f
  {
    var vs := Numbers(a.column, members, resolve);
    match a.agg
    case Count =>
      if a.column == "*" then JNum(NInt(|members|))
      else JNum(NInt(CountColumn(a.column, members, resolve)))
    case Sum => JNum(NFloat(SumOf(vs)))
    case Avg => if |vs| == 0 then JNull else JNum(NFloat(SumOf(vs) / (|vs| as real)))
    case Min => if |vs| == 0 then JNull else JNum(NFloat(MinOf(vs)))
    case Max => if |vs| == 0 then JNull else JNum(NFloat(MaxOf(vs)))
  }

  /** The grouping values a row projects, read from the representative. */
  function GroupingPairs(keys: seq<ReturnItem>, bindings: map<string, nat>, resolve: Resolver): (r: seq<(string, Json)>)
    ensures |r| == |keys|
    ensures forall k | 0 <= k < |keys| :: r[k] == (ProjectionKey(keys[k]), ColumnOrNull(keys[k].expression, bindings, resolve))
  {
    seq(|keys|, k requires 0 <= k < |keys| => (ProjectionKey(keys[k]), ColumnOrNull(keys[k].expression, bindings, resolve)))
  }

  /** The aggregate values a row projects. */
  function AggregatePairs(aggs: seq<Aggregation>, members: seq<MatchResult>, resolve: Resolver): (r: seq<(string, Json)>)
    ensures |r| == |aggs|
    ensures forall k | 0 <= k < |aggs| :: r[k] == (aggs[k].resultKey, ComputeAggregation(aggs[k], members, resolve))
  {
    seq(|aggs|, k requires 0 <= k < |aggs| => (aggs[k].resultKey, ComputeAggregation(aggs[k], members, resolve)))
  }

  /** The row of one group: the first member's node, depth and bindings,
      an empty path, the grouping values and then the aggregates. */
  function AggregateRow(keys: seq<ReturnItem>, aggs: seq<Aggregation>, members: seq<MatchResult>, resolve: Resolver): MatchResult
    requires |members| > 0
  {
    var rep := members[0];
    MatchResult(rep.nodeId, rep.depth, [], rep.bindings, None,
                FromPairs(GroupingPairs(keys, rep.bindings, resolve) + AggregatePairs(aggs, members, resolve)))
  }

  /** A group's row stands for the representative (the first member),
      with an empty path and no score, and holds every grouping and
      aggregate key. */
  lemma AggregateRowShape(keys: seq<ReturnItem>, aggs: seq<Aggregation>, members: seq<MatchResult>, resolve: Resolver)
    requires |members| > 0
    ensures var row := AggregateRow(keys, aggs, members, resolve);
      && row.nodeId == members[0].nodeId && row.depth == members[0].depth
      && row.bindings == members[0].bindings && row.path == [] && row.score.None?
      && (forall j | 0 <= j < |aggs| :: aggs[j].resultKey in row.projected)
      && (forall j | 0 <= j < |keys| :: ProjectionKey(keys[j]) in row.projected)
  {
    var g := GroupingPairs(keys, members[0].bindings, resolve);
    var a := AggregatePairs(aggs, members, resolve);
    var pairs := g + a;
    forall j | 0 <= j < |aggs|
      ensures aggs[j].resultKey in FromPairs(pairs)
    {
      assert pairs[|g| + j].0 == aggs[j].resultKey;
    }
    forall j | 0 <= j < |keys|
      ensures ProjectionKey(keys[j]) in FromPairs(pairs)
    {
      assert pairs[j].0 == ProjectionKey(keys[j]);
    }
  }

  /** An aggregate whose key no later aggregate reuses holds its value
      computed over the whole group. */
  lemma AggregateRowAggregate(keys: seq<ReturnItem>, aggs: seq<Aggregation>, members: seq<MatchResult>, resolve: Resolver, j: nat)
    requires |members| > 0 && j < |aggs|
    requires forall i | j < i < |aggs| :: aggs[i].resultKey != aggs[j].resultKey
    ensures var row := AggregateRow(keys, aggs, members, resolve);
      aggs[j].resultKey in row.projected && row.projected[aggs[j].resultKey] == ComputeAggregation(aggs[j], members, resolve)
  {
    var g := GroupingPairs(keys, members[0].bindings, resolve);
    var a := AggregatePairs(aggs, members, resolve);
    FromPairsSuffix(g, a, j);
  }

  /** A grouping item whose key neither a later item nor an aggregate
      reuses holds the representative's value, `null` when it does not
      resolve. */
  lemma AggregateRowGrouping(keys: seq<ReturnItem>, aggs: seq<Aggregation>, members: seq<MatchResult>, resolve: Resolver, j: nat)
    requires |members| > 0 && j < |keys|
    requires forall i | j < i < |keys| :: ProjectionKey(keys[i]) != ProjectionKey(keys[j])
    requires forall i | 0 <= i < |aggs| :: aggs[i].resultKey != ProjectionKey(keys[j])
    ensures var row := AggregateRow(keys, aggs, members, resolve);
      ProjectionKey(keys[j]) in row.projected
      && row.projected[ProjectionKey(keys[j])] == ColumnOrNull(keys[j].expression, members[0].bindings, resolve)
  {
    var g := GroupingPairs(keys, members[0].bindings, resolve);
    var a := AggregatePairs(aggs, members, resolve);
    FromPairsPrefix(g, a, j);
  }

  /** One aggregate row per grouping key, in the order given. */
  method GroupRows(keys: seq<ReturnItem>, aggs: seq<Aggregation>, order: seq<seq<Json>>,
                   groups: map<seq<Json>, seq<MatchResult>>, resolve: Resolver)
    returns (rows: seq<MatchResult>)
    requires forall i | 0 <= i < |order| :: order[i] in groups && |groups[order[i]]| > 0
    ensures |rows| == |order|
    ensures forall i | 0 <= i < |order| :: rows[i] == AggregateRow(keys, aggs, groups[order[i]], resolve)
  {
    rows := [];
    for i := 0 to |order|
      invariant |rows| == i
      invariant forall j | 0 <= j < i :: rows[j] == AggregateRow(keys, aggs, groups[order[j]], resolve)
    {
      rows := rows + [AggregateRow(keys, aggs, groups[order[i]], resolve)];
    }
  }

  /** The rows built from a grouping are the aggregate rows of the groups,
      in order of first appearance. */
  lemma RowsPerGroup(results: seq<MatchResult>, keys: seq<ReturnItem>, aggs: seq<Aggregation>,
                     keyOf: MatchResult -> seq<Json>, resolve: Resolver, order: seq<seq<Json>>,
                     groups: map<seq<Json>, seq<MatchResult>>, rows: seq<MatchResult>)
    requires order == FirstAppearances(KeysOf(results, keyOf)) && groups.Keys == Elems(order)
    requires forall key | key in groups :: groups[key] == Filter(results, WithKey(keyOf, key)) && |groups[key]| > 0
    requires |rows| == |order|
    requires forall i | 0 <= i < |order| :: order[i] in groups && rows[i] == AggregateRow(keys, aggs, groups[order[i]], resolve)
    ensures forall i | 0 <= i < |order| ::
      var members := Filter(results, WithKey(keyOf, order[i]));
      |members| > 0 && rows[i] == AggregateRow(keys, aggs, members, resolve)
  {
  }

  /** `aggregate_match_results`: nothing when the RETURN clause has no
      aggregation (the caller then projects normally); otherwise one row
      per distinct grouping key, in order of first appearance, built from
      the results sharing that key. */
  method AggregateMatchResults(results: seq<MatchResult>, items: seq<ReturnItem>, payloads: nat -> Option<Json>)
    returns (r: Option<seq<MatchResult>>)
    ensures r.None? <==> forall x :: x in items ==> AggregationOf(x).None?
    ensures r.Some? ==>
      var keys := Classify(items).0;
      var aggs := Classify(items).1;
      var keyOf := GroupKey(keys, PayloadResolver(payloads));
      var order := FirstAppearances(KeysOf(results, keyOf));
      && |r.value| == |order|
      && forall i | 0 <= i < |order| ::
           var members := Filter(results, WithKey(keyOf, order[i]));
           |members| > 0 && r.value[i] == AggregateRow(keys, aggs, members, PayloadResolver(payloads))
  {
    var keys := Classify(items).0;
    var aggs := Classify(items).1;
    if |aggs| == 0 {
      return None;
    }
    var resolve := PayloadResolver(payloads);
    var keyOf := GroupKey(keys, resolve);
    var order, groups := GroupBy(results, keyOf);
    assert forall i | 0 <= i < |order| :: order[i] in groups by {
      forall i | 0 <= i < |order|
        ensures order[i] in groups
      {
        assert order[i] in Elems(order);
      }
    }
    var rows := GroupRows(keys, aggs, order, groups, resolve);
    RowsPerGroup(results, keys, aggs, keyOf, resolve, order, groups, rows);
    return Some(rows);
  }
}
