/** `similarity() OR metadata` queries: splitting the WHERE tree into a
    similarity part, a metadata part and an outer AND filter, and merging
    the two result lists. */
module UnionQuery {
  import opened Wrappers
  import opened Seqs
  import opened VelesQL
  import opened Points
  import opened Sorting

  /** The number of Similarity leaves reachable through And, Or, Not and
      Group. `count_similarity_conditions` is not part of this model; it is
      taken to count these leaves. */
  function CountSimilarity(c: Condition): (r: nat)
    ensures r > 0 <==> exists l :: l in Leaves(c) && l.Similarity?
  {
    match c
    case Similarity(_, _, _, _) => assert c in Leaves(c); 1
    case And(l, rt) => CountSimilarity(l) + CountSimilarity(rt)
    case Or(l, rt) => CountSimilarity(l) + CountSimilarity(rt)
    case Not(i) => CountSimilarity(i)
    case Group(i) => CountSimilarity(i)
    case _ => 0
  }

  /** The truth of an optional condition, `absent` when there is none. */
  function EvalOpt(c: Option<Condition>, leaf: Condition -> bool, absent: bool): bool {
    if c.Some? then Eval(c.value, leaf) else absent
  }

  /** `split_or_condition_with_outer_filter`. `problematic` stands for
      `has_similarity_in_problematic_or`, which is not part of this model.
      The metadata part never holds a similarity leaf and at least one of
      the two parts is present. */
  function SplitOr(c: Condition, problematic: Condition -> bool): (r: (Option<Condition>, Option<Condition>, Option<Condition>))
    ensures r.0.Some? || r.1.Some?
    ensures r.1.Some? ==> CountSimilarity(r.1.value) == 0
  {
    match c
    case Or(l, rt) =>
      var lSim := CountSimilarity(l) > 0;
      var rSim := CountSimilarity(rt) > 0;
      if lSim && !rSim then (Some(l), Some(rt), None)
      else if !lSim && rSim then (Some(rt), Some(l), None)
      else (Some(c), None, None)
    case And(l, rt) =>
      var lp := problematic(l);
      var rp := problematic(rt);
      if lp && !rp then
        var (sim, meta, inner) := SplitOr(l, problematic);
        (sim, meta, if inner.Some? then Some(And(inner.value, rt)) else Some(rt))
      else if !lp && rp then
        var (sim, meta, inner) := SplitOr(rt, problematic);
        (sim, meta, if inner.Some? then Some(And(l, inner.value)) else Some(l))
      else if CountSimilarity(c) > 0 then (Some(c), None, None)
      else (None, Some(c), None)
    case Group(i) => SplitOr(i, problematic)
    case _ =>
      if CountSimilarity(c) > 0 then (Some(c), None, None) else (None, Some(c), None)
  }

  /** The split keeps the meaning of the WHERE clause: a record satisfies
      `c` exactly when it satisfies the similarity part or the metadata part,
      and the outer filter. This holds whatever `problematic` answers. */
  lemma {:induction false} SplitOrPreservesMeaning(c: Condition, problematic: Condition -> bool, leaf: Condition -> bool)
    ensures var r := SplitOr(c, problematic);
      Eval(c, leaf) == ((EvalOpt(r.0, leaf, false) || EvalOpt(r.1, leaf, false)) && EvalOpt(r.2, leaf, true))
  {
    match c
    case And(l, rt) =>
      SplitOrPreservesMeaning(l, problematic, leaf);
      SplitOrPreservesMeaning(rt, problematic, leaf);
    case Group(i) =>
      SplitOrPreservesMeaning(i, problematic, leaf);
    case _ =>
  }

  /** The ids of a list of results, in order. */
  function Ids(s: seq<SearchResult>): (r: seq<nat>)
    ensures |r| == |s| && forall k | 0 <= k < |s| :: r[k] == s[k].point.id
  {
    seq(|s|, k requires 0 <= k < |s| => s[k].point.id)
  }

  /** The last result with id `id`. */
  function LastWithId(s: seq<SearchResult>, id: nat): (r: Option<SearchResult>)
    ensures r.Some? ==> r.value in s && r.value.point.id == id
    ensures r.None? <==> id !in Ids(s)
  {
    if |s| == 0 then None
    else if s[|s| - 1].point.id == id then Some(s[|s| - 1])
    else
      var r := LastWithId(s[..|s| - 1], id);
      assert Ids(s) == Ids(s[..|s| - 1]) + [s[|s| - 1].point.id];
      r
  }

  /** The first result with id `id`. */
  function FirstWithId(s: seq<SearchResult>, id: nat): (r: Option<SearchResult>)
    ensures r.Some? ==> r.value in s && r.value.point.id == id
    ensures r.None? <==> id !in Ids(s)
  {
    if |s| == 0 then None
    else if s[0].point.id == id then Some(s[0])
    else
      var r := FirstWithId(s[1..], id);
      assert Ids(s) == [s[0].point.id] + Ids(s[1..]);
      r
  }

  /** Appending never changes an id's first occurrence that is already
      there. */
  lemma {:induction false} FirstWithIdAppend(a: seq<SearchResult>, b: seq<SearchResult>, id: nat)
    ensures FirstWithId(a + b, id) == if FirstWithId(a, id).Some? then FirstWithId(a, id) else FirstWithId(b, id)
    decreases |a|
  {
    if |a| > 0 {
      assert (a + b)[1..] == a[1..] + b;
      FirstWithIdAppend(a[1..], b, id);
    } else {
      assert a + b == b;
    }
  }

  /** The result the merged map holds for `id`: the last similarity result
      with that id, else the first metadata result with it. */
  function Winner(sim: seq<SearchResult>, meta: seq<SearchResult>, id: nat): Option<SearchResult> {
    var s := LastWithId(sim, id);
    if s.Some? then s else FirstWithId(meta, id)
  }

  /** The position of the entry with id `id`. */
  function IndexOfId(entries: seq<SearchResult>, id: nat): (r: Option<nat>)
    ensures r.Some? ==> r.value < |entries| && entries[r.value].point.id == id
    ensures r.None? ==> id !in Ids(entries)
  {
    if |entries| == 0 then None
    else if entries[|entries| - 1].point.id == id then Some(|entries| - 1)
    else
      assert Ids(entries) == Ids(entries[..|entries| - 1]) + [entries[|entries| - 1].point.id];
      IndexOfId(entries[..|entries| - 1], id)
  }

  /** `results_map.insert(id, result)` on a map kept as a list with one
      entry per id: overwrite the entry with that id, or add one. */
  function Upsert(entries: seq<SearchResult>, x: SearchResult): (r: seq<SearchResult>)
    requires Distinct(Ids(entries))
    ensures Distinct(Ids(r))
    ensures Elems(Ids(r)) == Elems(Ids(entries)) + {x.point.id}
    ensures forall y | y in r :: y == x || (y in entries && y.point.id != x.point.id)
  {
    var i := IndexOfId(entries, x.point.id);
    if i.Some? then
      var r := entries[i.value := x];
      assert Ids(r) == Ids(entries);
      forall y | y in r ensures y == x || (y in entries && y.point.id != x.point.id) {
        var k :| 0 <= k < |r| && r[k] == y;
        if k != i.value {
          assert Ids(entries)[k] != Ids(entries)[i.value];
        }
      }
      r
    else
      var r := entries + [x];
      assert Ids(r) == Ids(entries) + [x.point.id];
      AppendDistinct(Ids(entries), x.point.id);
      r
  }

  /** `results_map.entry(id).or_insert(result)`: add only if absent. */
  function InsertIfAbsent(entries: seq<SearchResult>, x: SearchResult): (r: seq<SearchResult>)
    requires Distinct(Ids(entries))
    ensures Distinct(Ids(r))
    ensures Elems(Ids(r)) == Elems(Ids(entries)) + {x.point.id}
    ensures x.point.id in Ids(entries) ==> r == entries
    ensures x.point.id !in Ids(entries) ==> r == entries + [x]
  {
    if x.point.id in Ids(entries) then entries
    else
      assert Ids(entries + [x]) == Ids(entries) + [x.point.id];
      AppendDistinct(Ids(entries), x.point.id);
      entries + [x]
  }

  /** The similarity phase: each result written over any earlier one with
      the same id. */
  function AddSimilarity(entries: seq<SearchResult>, sim: seq<SearchResult>): (r: seq<SearchResult>)
    requires Distinct(Ids(entries))
    ensures Distinct(Ids(r))
    ensures Elems(Ids(r)) == Elems(Ids(entries)) + Elems(Ids(sim))
    decreases |sim|
  {
    if |sim| == 0 then entries
    else
      var init := sim[..|sim| - 1];
      assert Ids(sim) == Ids(init) + [sim[|sim| - 1].point.id];
      Upsert(AddSimilarity(entries, init), sim[|sim| - 1])
  }

  /** After the similarity phase an id found by the search holds its last
      result and every other entry is untouched. */
  lemma {:induction false} AddSimilarityPicksLast(entries: seq<SearchResult>, sim: seq<SearchResult>)
    requires Distinct(Ids(entries))
    ensures forall y | y in AddSimilarity(entries, sim) ::
      if y.point.id in Ids(sim) then LastWithId(sim, y.point.id) == Some(y) else y in entries
    decreases |sim|
  {
    if |sim| > 0 {
      var init := sim[..|sim| - 1];
      var x := sim[|sim| - 1];
      assert Ids(sim) == Ids(init) + [x.point.id];
      AddSimilarityPicksLast(entries, init);
    }
  }

  /** The metadata phase: each result added unless its id is present. */
  function AddMetadata(entries: seq<SearchResult>, meta: seq<SearchResult>): (r: seq<SearchResult>)
    requires Distinct(Ids(entries))
    ensures Distinct(Ids(r))
    ensures Elems(Ids(r)) == Elems(Ids(entries)) + Elems(Ids(meta))
    decreases |meta|
  {
    if |meta| == 0 then entries
    else
      var init := meta[..|meta| - 1];
      assert Ids(meta) == Ids(init) + [meta[|meta| - 1].point.id];
      InsertIfAbsent(AddMetadata(entries, init), meta[|meta| - 1])
  }

  /** After the metadata phase an entry is either an earlier one or the
      first metadata result of an id that was absent. */
  lemma {:induction false} AddMetadataPicksFirst(entries: seq<SearchResult>, meta: seq<SearchResult>)
    requires Distinct(Ids(entries))
    ensures forall y | y in AddMetadata(entries, meta) ::
      y in entries || (y.point.id !in Ids(entries) && FirstWithId(meta, y.point.id) == Some(y))
    decreases |meta|
  {
    if |meta| > 0 {
      var init := meta[..|meta| - 1];
      var x := meta[|meta| - 1];
      assert meta == init + [x];
      assert Ids(meta) == Ids(init) + [x.point.id];
      AddMetadataPicksFirst(entries, init);
      var e := AddMetadata(entries, init);
      forall y | y in AddMetadata(entries, meta)
        ensures y in entries || (y.point.id !in Ids(entries) && FirstWithId(meta, y.point.id) == Some(y))
      {
        FirstWithIdAppend(init, [x], y.point.id);
        if y !in e {
          assert y == x && x.point.id !in Ids(e);
          assert x.point.id !in Elems(Ids(init));
        }
      }
    }
  }

  /** The merged list before the limit: one entry per id found by either
      search, the similarity result winning. */
  function Merged(sim: seq<SearchResult>, meta: seq<SearchResult>): (r: seq<SearchResult>)
    ensures Distinct(Ids(r))
    ensures Elems(Ids(r)) == Elems(Ids(sim)) + Elems(Ids(meta))
  {
    AddMetadata(AddSimilarity([], sim), meta)
  }

  /** Every merged entry is the winner for its id. */
  lemma MergedHoldsWinners(sim: seq<SearchResult>, meta: seq<SearchResult>)
    ensures forall y | y in Merged(sim, meta) :: Winner(sim, meta, y.point.id) == Some(y)
  {
    var s := AddSimilarity([], sim);
    AddSimilarityPicksLast([], sim);
    AddMetadataPicksFirst(s, meta);
    assert Elems(Ids(s)) == Elems(Ids(sim));
  }

  /** Entries with distinct ids are distinct. */
  lemma DistinctIdsDistinct(s: seq<SearchResult>)
    requires Distinct(Ids(s))
    ensures Distinct(s)
  {
    forall i, j | 0 <= i < j < |s| ensures s[i] != s[j] {
      assert Ids(s)[i] != Ids(s)[j];
    }
  }

  /** Reordering a list whose elements are each the winner of their id keeps
      the ids unique. */
  lemma WinnersPermutation(m: seq<SearchResult>, t: seq<SearchResult>, sim: seq<SearchResult>, meta: seq<SearchResult>)
    requires Distinct(Ids(m))
    requires forall y | y in m :: Winner(sim, meta, y.point.id) == Some(y)
    requires multiset(t) == multiset(m)
    ensures Distinct(Ids(t))
    ensures Elems(Ids(t)) == Elems(Ids(m))
    ensures forall y | y in t :: Winner(sim, meta, y.point.id) == Some(y)
  {
    assert forall y :: y in t <==> y in m by {
      forall y ensures y in t <==> y in m {
        assert y in t <==> y in multiset(t);
        assert y in m <==> y in multiset(m);
      }
    }
    DistinctIdsDistinct(m);
    DistinctPermutation(m, t);
    forall i, j | 0 <= i < j < |t| ensures Ids(t)[i] != Ids(t)[j] {
      assert t[i] in m && t[j] in m;
      assert Winner(sim, meta, t[i].point.id) == Some(t[i]);
      assert Winner(sim, meta, t[j].point.id) == Some(t[j]);
    }
    forall id ensures id in Elems(Ids(t)) <==> id in Elems(Ids(m)) {
      if id in Ids(m) {
        var j :| 0 <= j < |m| && Ids(m)[j] == id;
        assert m[j] in t;
        var k :| 0 <= k < |t| && t[k] == m[j];
        assert Ids(t)[k] == id;
      }
      if id in Ids(t) {
        var k :| 0 <= k < |t| && Ids(t)[k] == id;
        assert t[k] in m;
        var j :| 0 <= j < |m| && m[j] == t[k];
        assert Ids(m)[j] == id;
      }
    }
  }

  /** Highest score first. */
  function ByScoreDescending(): (r: (SearchResult, SearchResult) -> Ordering)
    ensures TotalPreorder(r)
    ensures forall a, b :: r(a, b) != Greater <==> a.score >= b.score
  {
    var k := (x: SearchResult) => x.score;
    ByRealTotalPreorder(k);
    FlipTotalPreorder(ByReal(k));
    Flip(ByReal(k))
  }

  /** In a list sorted by descending score, everything in a prefix scores at
      least as high as everything after it. */
  lemma PrefixDominates(s: seq<SearchResult>, n: nat)
    requires SortedBy(s, ByScoreDescending()) && n <= |s|
    ensures forall y, x | y in s[n..] && x in s[..n] :: x.score >= y.score
  {
    var cmp := ByScoreDescending();
    forall y, x | y in s[n..] && x in s[..n] ensures x.score >= y.score {
      var j :| n <= j < |s| && s[j] == y;
      var i :| 0 <= i < n && s[i] == x;
      assert cmp(s[i], s[j]) != Greater;
    }
  }

  /** The merge of `execute_union_query`: similarity results that pass the
      outer filter, then metadata results for ids not yet present, sorted by
      descending score and cut to `limit`. The map's iteration order is
      taken as insertion order. */
  function UnionMerge(sim: seq<SearchResult>, passesOuter: SearchResult -> bool, meta: seq<SearchResult>, limit: nat): seq<SearchResult>
  {
    var m := Merged(Filter(sim, passesOuter), meta);
    var sorted := SortBy(m, ByScoreDescending());
    sorted[..Min(limit, |sorted|)]
  }

  /** Ids in the merged result are unique, there are as many results as
      distinct ids up to the limit, each id keeps its last similarity result
      that passed the outer filter over any metadata result, the list runs
      from highest score down, and no result left out scores above one
      kept. */
  lemma UnionMergeSpec(sim: seq<SearchResult>, passesOuter: SearchResult -> bool, meta: seq<SearchResult>, limit: nat)
    ensures Distinct(Ids(UnionMerge(sim, passesOuter, meta, limit)))
    ensures |UnionMerge(sim, passesOuter, meta, limit)| == Min(limit, |Elems(Ids(Filter(sim, passesOuter))) + Elems(Ids(meta))|)
    ensures forall y | y in UnionMerge(sim, passesOuter, meta, limit) ::
      Winner(Filter(sim, passesOuter), meta, y.point.id) == Some(y)
    ensures SortedBy(UnionMerge(sim, passesOuter, meta, limit), ByScoreDescending())
    ensures forall y, x | y in Merged(Filter(sim, passesOuter), meta) && y !in UnionMerge(sim, passesOuter, meta, limit)
                          && x in UnionMerge(sim, passesOuter, meta, limit) :: x.score >= y.score
  {
    var simP := Filter(sim, passesOuter);
    var m := Merged(simP, meta);
    var cmp := ByScoreDescending();
    var sorted := SortBy(m, cmp);
    var n := Min(limit, |sorted|);
    var r := sorted[..n];
    assert r == UnionMerge(sim, passesOuter, meta, limit);
    SortBySorted(m, cmp);
    MergedHoldsWinners(simP, meta);
    WinnersPermutation(m, sorted, simP, meta);
    TakeKeepsIds(sorted, n);
    DistinctCard(Ids(m));
    PrefixDominates(sorted, n);
    forall y | y in m && y !in r ensures y in sorted[n..] {
      assert y in multiset(sorted);
      NotInTakeInDrop(sorted, n, y);
    }
  }

  lemma NotInTakeInDrop(s: seq<SearchResult>, n: nat, y: SearchResult)
    requires n <= |s| && y in s && y !in s[..n]
    ensures y in s[n..]
  {
    var j :| 0 <= j < |s| && s[j] == y;
    assert s[n..][j - n] == y;
  }

  /** A prefix of a list with unique ids has unique ids. */
  lemma TakeKeepsIds(s: seq<SearchResult>, n: nat)
    requires Distinct(Ids(s)) && n <= |s|
    ensures Distinct(Ids(s[..n]))
    ensures SortedBy(s, ByScoreDescending()) ==> SortedBy(s[..n], ByScoreDescending())
  {
    assert Ids(s[..n]) == Ids(s)[..n];
  }
}
