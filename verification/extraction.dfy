/** Pulling the pieces a query executor needs out of a WHERE tree: the
    full-text MATCH query, the metadata-only filter, and query vectors
    given literally or as parameters. */
module Extraction {
  import opened Wrappers
  import opened Json
  import opened VelesQL

  /** The leaves reachable through And and Group only, left to right. */
  function AndLeafList(c: Condition): (r: seq<Condition>) {
    match c
    case And(l, r) => AndLeafList(l) + AndLeafList(r)
    case Group(i) => AndLeafList(i)
    case _ => [c]
  }

  /** The query of the first Match leaf of a list. */
  function FirstMatchQuery(cs: seq<Condition>): (r: Option<string>)
    ensures r.Some? <==> exists k | 0 <= k < |cs| :: cs[k].Match?
    ensures r.Some? ==> exists k | 0 <= k < |cs| :: cs[k].Match? && cs[k].query == r.value
                                   && forall j | 0 <= j < k :: !cs[j].Match?
  {
    if |cs| == 0 then None
    else if cs[0].Match? then Some(cs[0].query)
    else
      var r := FirstMatchQuery(cs[1..]);
      assert forall k | 1 <= k < |cs| :: cs[k] == cs[1..][k - 1];
      r
  }

  lemma {:induction false} FirstMatchQueryAppend(a: seq<Condition>, b: seq<Condition>)
    ensures FirstMatchQuery(a + b) == if FirstMatchQuery(a).Some? then FirstMatchQuery(a) else FirstMatchQuery(b)
    decreases |a|
  {
    if |a| > 0 {
      assert (a + b)[1..] == a[1..] + b;
      FirstMatchQueryAppend(a[1..], b);
    } else {
      assert a + b == b;
    }
  }

  /** `extract_match_query`: the query of the first Match leaf in the
      left-to-right order of the leaves reachable through And and Group;
      Or and Not are not searched. */
  function ExtractMatchQuery(c: Condition): (r: Option<string>)
    ensures r == FirstMatchQuery(AndLeafList(c))
  {
    match c
    case Match(_, q) => Some(q)
    case And(l, rt) =>
      FirstMatchQueryAppend(AndLeafList(l), AndLeafList(rt));
      var left := ExtractMatchQuery(l);
      if left.Some? then left else ExtractMatchQuery(rt)
    case Group(i) => ExtractMatchQuery(i)
    case _ => None
  }

  /** No leaf of `c` needs vector evaluation. */
  predicate MetadataOnly(c: Condition) {
    forall l :: l in Leaves(c) ==> !IsVectorLeaf(l)
  }

  /** `extract_metadata_filter`: the condition with its vector leaves taken
      out. An And keeps whichever sides survive, an Or survives only when
      both sides do, Group and Not wrap a surviving inner condition. The
      result never holds a vector leaf and only uses leaves of the input. */
  function ExtractMetadataFilter(c: Condition): (r: Option<Condition>)
    ensures r.Some? ==> MetadataOnly(r.value)
    ensures r.Some? ==> Leaves(r.value) <= Leaves(c)
  {
    if IsVectorLeaf(c) then assert c in Leaves(c); None
    else if !IsConnective(c) then Some(c)
    else
      match c
      case And(l, rt) =>
        var lf := ExtractMetadataFilter(l);
        var rf := ExtractMetadataFilter(rt);
        if lf.Some? && rf.Some? then Some(And(lf.value, rf.value))
        else if lf.Some? then lf
        else if rf.Some? then rf
        else None
      case Or(l, rt) =>
        var lf := ExtractMetadataFilter(l);
        var rf := ExtractMetadataFilter(rt);
        if lf.Some? && rf.Some? then Some(Or(lf.value, rf.value)) else None
      case Group(i) =>
        var f := ExtractMetadataFilter(i);
        if f.Some? then Some(Group(f.value)) else None
      case Not(i) =>
        var f := ExtractMetadataFilter(i);
        if f.Some? then Some(Not(f.value)) else None
  }

  /** The extraction leaves a condition alone exactly when it has no
      vector leaf. */
  lemma {:induction false} ExtractMetadataFilterIdentity(c: Condition)
    ensures MetadataOnly(c) <==> ExtractMetadataFilter(c) == Some(c)
  {
    match c
    case Similarity(_, _, _, _) => assert c in Leaves(c);
    case VectorSearch(_) => assert c in Leaves(c);
    case VectorFusedSearch(_) => assert c in Leaves(c);
    case And(l, rt) =>
      ExtractMetadataFilterIdentity(l);
      ExtractMetadataFilterIdentity(rt);
    case Or(l, rt) =>
      ExtractMetadataFilterIdentity(l);
      ExtractMetadataFilterIdentity(rt);
    case Group(i) =>
      ExtractMetadataFilterIdentity(i);
    case Not(i) =>
      ExtractMetadataFilterIdentity(i);
    case _ =>
  }

  /** The numbers of a JSON array, or `None` if an element is not a
      number. */
  function NumbersOf(items: seq<Json>): (r: Option<seq<real>>)
    ensures r.Some? <==> forall k | 0 <= k < |items| :: items[k].JNum?
    ensures r.Some? ==> |r.value| == |items| && forall k | 0 <= k < |items| :: Some(r.value[k]) == AsF64(items[k])
  {
    if |items| == 0 then Some([])
    else
      var rest := NumbersOf(items[1..]);
      assert forall k | 1 <= k < |items| :: items[k] == items[1..][k - 1];
      if items[0].JNum? && rest.Some? then Some([AsF64(items[0]).value] + rest.value) else None
  }

  /** `resolve_vector`: a literal vector as written; a parameter must exist
      and be an array of numbers. */
  function ResolveVector(v: VectorExpr, params: Params): (r: Result<seq<real>, string>)
    ensures v.Literal? ==> r == Success(v.v)
    ensures v.Parameter? && v.name !in params ==> r.Failure?
    ensures v.Parameter? && v.name in params ==>
      (r.Success? <==> params[v.name].JArray? && NumbersOf(params[v.name].items).Some?)
    ensures v.Parameter? && r.Success? ==> r.value == NumbersOf(params[v.name].items).value
  {
    match v
    case Literal(vec) => Success(vec)
    case Parameter(name) =>
      if name !in params then Failure("Missing query parameter: $" + name)
      else if !params[name].JArray? then Failure("Invalid vector parameter $" + name + ": expected array")
      else
        var nums := NumbersOf(params[name].items);
        if nums.None? then Failure("Invalid vector parameter $" + name + ": expected numbers")
        else Success(nums.value)
  }
}
