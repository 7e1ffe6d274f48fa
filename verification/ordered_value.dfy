/** `OrderedValue`, the total order the property range indexes key their
    B-trees by. Null comes first, numbers compare by value, strings and
    booleans natively, and any other pair by their JSON text. The JSON
    text is `serde_json::to_string`, a parameter here; given only the
    first character of that text for each kind of value, the order works
    out as Null < String < Number < Array < Bool < Object. */
module OrderedValues {
  import opened Wrappers
  import opened Json
  import opened Sorting

  /** `Ord for OrderedValue`. */
  function OrderedCmp(a: Json, b: Json, render: Json -> string): (r: Ordering)
    ensures a.JNull? ==> r == (if b.JNull? then Equal else Less)
    ensures b.JNull? && !a.JNull? ==> r == Greater
    ensures a.JNum? && b.JNum? ==> r == CompareReal(AsF64(a).value, AsF64(b).value)
    ensures a.JStr? && b.JStr? ==> r == CompareString(a.s, b.s)
  {
    match (a, b)
    case (JNull, JNull) => Equal
    case (JNull, _) => Less
    case (_, JNull) => Greater
    case (JNum(_), JNum(_)) => CompareReal(AsF64(a).value, AsF64(b).value)
    case (JStr(sa), JStr(sb)) => CompareString(sa, sb)
    case (JBool(ba), JBool(bb)) => CompareBool(ba, bb)
    case _ => CompareString(render(a), render(b))
  }

  /** What `serde_json::to_string` is known to produce: text that starts
      with `"` for a string, with `-` or a digit for a number, with `[` for
      an array and `{` for an object, and `true`, `false` or `null`. */
  ghost predicate RendersJson(render: Json -> string) {
    forall j :: RenderShape(j, render(j))
  }

  predicate RenderShape(j: Json, text: string) {
    match j
    case JNull => text == "null"
    case JBool(b) => text == (if b then "true" else "false")
    case JNum(_) => |text| > 0 && (text[0] == '-' || '0' <= text[0] <= '9')
    case JStr(_) => |text| > 0 && text[0] == '"'
    case JArray(_) => |text| > 0 && text[0] == '['
    case JObject(_) => |text| > 0 && text[0] == '{'
  }

  /** The position of each kind of value in the order. */
  function KindRank(j: Json): (r: nat)
    ensures r <= 5
  {
    match j
    case JNull => 0
    case JStr(_) => 1
    case JNum(_) => 2
    case JArray(_) => 3
    case JBool(_) => 4
    case JObject(_) => 5
  }

  /** The order stated directly: by kind first, then within the kind. */
  function RankedCmp(a: Json, b: Json, render: Json -> string): (r: Ordering) {
    if KindRank(a) != KindRank(b) then CompareInt(KindRank(a), KindRank(b))
    else
      match (a, b)
      case (JNum(_), JNum(_)) => CompareReal(AsF64(a).value, AsF64(b).value)
      case (JStr(sa), JStr(sb)) => CompareString(sa, sb)
      case (JBool(ba), JBool(bb)) => CompareBool(ba, bb)
      case (JNull, JNull) => Equal
      case _ => CompareString(render(a), render(b))
  }

  /** Texts with different first characters compare by those. */
  lemma FirstCharDecides(s: string, t: string)
    requires |s| > 0 && |t| > 0 && s[0] != t[0]
    ensures CompareString(s, t) == (if s[0] < t[0] then Less else Greater)
  {
  }

  /** The first character of the text of a value that is neither null
      nor a string nor a number: `[`, `f`, `t` or `{`. */
  function LeadRank(c: char): nat {
    if c == '"' then 1
    else if c == '-' || '0' <= c <= '9' then 2
    else if c == '[' then 3
    else if c == 'f' || c == 't' then 4
    else 5
  }

  /** The kind of a rendered value can be read from its first character,
      and the order of the first characters follows the order of kinds. */
  lemma LeadRankOfRender(j: Json, text: string)
    requires !j.JNull? && RenderShape(j, text)
    ensures |text| > 0 && LeadRank(text[0]) == KindRank(j)
  {
  }

  /** Under the text shapes above, `OrderedValue` is the ranked order. */
  lemma OrderedIsRanked(a: Json, b: Json, render: Json -> string)
    requires RendersJson(render)
    ensures OrderedCmp(a, b, render) == RankedCmp(a, b, render)
  {
    if !a.JNull? && !b.JNull? && KindRank(a) != KindRank(b) {
      var s, t := render(a), render(b);
      assert RenderShape(a, s) && RenderShape(b, t);
      LeadRankOfRender(a, s);
      LeadRankOfRender(b, t);
      assert s[0] != t[0];
      FirstCharDecides(s, t);
      assert s[0] < t[0] <==> KindRank(a) < KindRank(b) by {
        LeadOrder(s[0], t[0]);
      }
    }
  }

  /** Among the leading characters, a lower rank means a smaller
      character. */
  lemma LeadOrder(c: char, d: char)
    requires c in "\"-0123456789[ft{" && d in "\"-0123456789[ft{"
    requires LeadRank(c) != LeadRank(d)
    ensures c < d <==> LeadRank(c) < LeadRank(d)
  {
  }

  lemma RankedAntisymmetric(a: Json, b: Json, render: Json -> string)
    ensures RankedCmp(b, a, render) == RankedCmp(a, b, render).Reverse()
  {
    if KindRank(a) == KindRank(b) {
      if a.JStr? {
        CompareStringAntisymmetric(a.s, b.s);
      } else if a.JArray? || a.JObject? {
        CompareStringAntisymmetric(render(a), render(b));
      }
    }
  }

  lemma RankedTransitive(a: Json, b: Json, c: Json, render: Json -> string)
    requires RankedCmp(a, b, render) != Greater && RankedCmp(b, c, render) != Greater
    ensures RankedCmp(a, c, render) != Greater
  {
    if KindRank(a) == KindRank(b) == KindRank(c) {
      if a.JStr? {
        CompareStringTransitive(a.s, b.s, c.s);
      } else if a.JArray? || a.JObject? {
        CompareStringTransitive(render(a), render(b), render(c));
      }
    }
  }

  /** `OrderedValue` is a total preorder, as `Ord` requires, whenever the
      JSON text has the shapes above. */
  lemma OrderedTotalPreorder(render: Json -> string)
    requires RendersJson(render)
    ensures TotalPreorder((a, b) => OrderedCmp(a, b, render))
  {
    var cmp := (a, b) => OrderedCmp(a, b, render);
    forall a, b
      ensures cmp(b, a) == cmp(a, b).Reverse()
    {
      OrderedIsRanked(a, b, render);
      OrderedIsRanked(b, a, render);
      RankedAntisymmetric(a, b, render);
    }
    forall a, b, c | cmp(a, b) != Greater && cmp(b, c) != Greater
      ensures cmp(a, c) != Greater
    {
      OrderedIsRanked(a, b, render);
      OrderedIsRanked(b, c, render);
      OrderedIsRanked(a, c, render);
      RankedTransitive(a, b, c, render);
    }
  }

  /** Kinds are ordered Null < String < Number < Array < Bool < Object:
      for instance every string sorts before every number. */
  lemma KindsOrdered(a: Json, b: Json, render: Json -> string)
    requires RendersJson(render)
    requires KindRank(a) < KindRank(b)
    ensures OrderedCmp(a, b, render) == Less
  {
    OrderedIsRanked(a, b, render);
  }

  /** An integer and a float of the same value are the same key. */
  lemma IntFloatSameKey(i: int, render: Json -> string)
    ensures OrderedCmp(JNum(NInt(i)), JNum(NFloat(i as real)), render) == Equal
  {
  }
}
