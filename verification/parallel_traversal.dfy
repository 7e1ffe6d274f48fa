/** Parallel BFS and DFS over many start nodes: each start node is
    traversed on its own (the parallel and the sequential paths compute the
    same per-start lists, collected in start order), the lists are
    concatenated, and the union is deduplicated by path signature, ordered
    by score then depth, and cut to the limit. The adjacency closure is a
    parameter returning `(neighbour, edge)` pairs. */
module ParallelTraversal {
  import opened Wrappers
  import opened Seqs
  import opened Sorting

  /** `TraversalResult`: one reached node and the edges that led there. */
  datatype TraversalResult = TraversalResult(
    startNode: nat, endNode: nat, path: seq<nat>, depth: nat, score: Option<real>)

  /** The entry for a start node: itself, at depth 0, by no edges. */
  function Origin(start: nat): TraversalResult {
    TraversalResult(start, start, [], 0, None)
  }

  /** `Fn(u64) -> Vec<(u64, u64)>`: neighbours with the connecting edge. */
  type Adjacency = nat -> seq<(nat, nat)>

  /** `ThreadConfig`. */
  datatype ThreadConfig = Auto | Fixed(n: nat)

  /** `effective_threads`: a fixed count as given; otherwise one less than
      the CPUs the system reports (1 when it reports none), but at least
      one. */
  function EffectiveThreads(t: ThreadConfig, cpus: nat): (r: nat)
    ensures t.Fixed? ==> r == t.n
    ensures t.Auto? ==> r >= 1 && (cpus >= 2 ==> r == cpus - 1) && (cpus <= 2 ==> r == 1)
  {
    match t
    case Fixed(n) => n
    case Auto =>
      var available := if cpus == 0 then 1 else cpus;
      if available - 1 >= 1 then available - 1 else 1
  }

  /** `ParallelConfig`. */
  datatype ParallelConfig = ParallelConfig(
    maxDepth: nat, parallelThreshold: nat, minFrontierForParallel: nat,
    limit: nat, relationshipTypes: seq<string>, threads: ThreadConfig)

  const DEFAULT_CONFIG := ParallelConfig(5, 100, 50, 1000, [], Auto)

  /** `child` extends `parent` by one edge leaving `parent`'s end node. */
  predicate Step(parent: TraversalResult, child: TraversalResult, adj: Adjacency) {
    |child.path| > 0
    && child.startNode == parent.startNode
    && child.depth == parent.depth + 1
    && child.path == parent.path + [child.path[|child.path| - 1]]
    && (child.endNode, child.path[|child.path| - 1]) in adj(parent.endNode)
    && child.score.None?
  }

  /** No node is reported twice. */
  predicate DistinctEnds(rs: seq<TraversalResult>) {
    forall i, j | 0 <= i < j < |rs| :: rs[i].endNode != rs[j].endNode
  }

  /** The nodes reported so far: the `visited` set. */
  function Ends(rs: seq<TraversalResult>): (r: set<nat>)
    ensures forall i | 0 <= i < |rs| :: rs[i].endNode in r
    ensures forall x | x in r :: exists i | 0 <= i < |rs| :: rs[i].endNode == x
  {
    set i | 0 <= i < |rs| :: rs[i].endNode
  }

  lemma EndsAppend(rs: seq<TraversalResult>, x: TraversalResult)
    ensures Ends(rs + [x]) == Ends(rs) + {x.endNode}
  {
    var r := rs + [x];
    assert forall i | 0 <= i < |rs| :: r[i] == rs[i];
    assert r[|rs|] == x;
  }

  /** The loop over one node's neighbours: each neighbour that `follow`
      admits and that was not seen before is reported one edge further
      out. */
  method Expand(rs: seq<TraversalResult>, visited: set<nat>, p: nat, adj: Adjacency, follow: nat -> bool)
    returns (after: seq<TraversalResult>, seen: set<nat>)
    requires p < |rs| && DistinctEnds(rs) && visited == Ends(rs)
    ensures |after| >= |rs| && after[..|rs|] == rs
    ensures DistinctEnds(after) && seen == Ends(after)
    ensures forall i | |rs| <= i < |after| :: Step(rs[p], after[i], adj) && follow(after[i].endNode)
  {
    after, seen := rs, visited;
    var node := rs[p];
    var neighbours := adj(node.endNode);
    for k := 0 to |neighbours|
      invariant |after| >= |rs| && after[..|rs|] == rs
      invariant DistinctEnds(after) && seen == Ends(after)
      invariant forall i | |rs| <= i < |after| :: Step(node, after[i], adj) && follow(after[i].endNode)
    {
      var (neighbour, edge) := neighbours[k];
      if follow(neighbour) && neighbour !in seen {
        var next := TraversalResult(node.startNode, neighbour, node.path + [edge], node.depth + 1, None);
        assert next.path[|next.path| - 1] == edge;
        EndsAppend(after, next);
        after := after + [next];
        seen := seen + {neighbour};
      }
    }
  }

  /** Result `i` extends an earlier result by an edge. */
  ghost predicate HasParent(rs: seq<TraversalResult>, i: nat, adj: Adjacency)
    requires i < |rs|
  {
    exists p | 0 <= p < i :: Step(rs[p], rs[i], adj)
  }

  /** Every result after the first extends an earlier one by an edge. */
  ghost predicate Walks(rs: seq<TraversalResult>, adj: Adjacency) {
    forall i | 0 < i < |rs| :: HasParent(rs, i, adj)
  }

  /** The shape every single-start traversal produces. */
  ghost predicate Traversal(rs: seq<TraversalResult>, start: nat, maxDepth: nat, adj: Adjacency) {
    |rs| > 0 && rs[0] == Origin(start) && DistinctEnds(rs) && Walks(rs, adj)
    && forall i | 0 <= i < |rs| :: rs[i].startNode == start && |rs[i].path| == rs[i].depth <= maxDepth
  }

  lemma WalksFromParents(rs: seq<TraversalResult>, adj: Adjacency, parent: seq<nat>)
    requires |parent| == |rs|
    requires forall i | 0 < i < |rs| :: parent[i] < i && Step(rs[parent[i]], rs[i], adj)
    ensures Walks(rs, adj)
  {
    forall i | 0 < i < |rs|
      ensures HasParent(rs, i, adj)
    {
      var p := parent[i];
      assert 0 <= p < i && Step(rs[p], rs[i], adj);
    }
  }

  /** The breadth-first loop of `bfs_single` and `bfs_single_shard`. The
      queue holds exactly the results not yet expanded, in order, so it is
      the suffix of the result list after a cursor. The loop stops at the
      first queued entry at `max_depth` or once `limit` results exist;
      `follow` says which neighbours may be entered. */
  method BfsFrom(start: nat, adj: Adjacency, maxDepth: nat, limit: nat, follow: nat -> bool)
    returns (rs: seq<TraversalResult>)
    ensures Traversal(rs, start, maxDepth, adj)
    ensures forall i | 0 < i < |rs| :: follow(rs[i].endNode)
    ensures forall i, j | 0 <= i < j < |rs| :: rs[i].depth <= rs[j].depth
  {
    rs := [Origin(start)];
    var visited := {start};
    var next := 0;
    ghost var parent: seq<nat> := [0];
    while next < |rs|
      invariant BfsState(rs, visited, next, parent, start, maxDepth, adj, follow)
      decreases if |rs| < limit then limit - |rs| else 0, |rs| - next
    {
      var node := rs[next];
      if node.depth >= maxDepth || |rs| >= limit {
        break;
      }
      rs, visited, parent := BfsStep(rs, visited, next, parent, start, maxDepth, adj, follow);
      next := next + 1;
    }
    WalksFromParents(rs, adj, parent);
  }

  /** The invariant of the breadth-first loop: the results form a
      duplicate-free list, rooted at the start, ordered by depth, each
      entered by an edge from an earlier one; the cursor is at most one
      level behind the end. */
  ghost predicate BfsState(rs: seq<TraversalResult>, visited: set<nat>, next: nat, parent: seq<nat>,
                           start: nat, maxDepth: nat, adj: Adjacency, follow: nat -> bool) {
    && next <= |rs| && |rs| > 0 && rs[0] == Origin(start)
    && DistinctEnds(rs) && visited == Ends(rs)
    && (forall i | 0 <= i < |rs| :: rs[i].startNode == start && |rs[i].path| == rs[i].depth <= maxDepth)
    && |parent| == |rs| && (forall i | 0 < i < |rs| :: parent[i] < i && Step(rs[parent[i]], rs[i], adj))
    && (forall i | 0 < i < |rs| :: follow(rs[i].endNode))
    && (forall i, j | 0 <= i < j < |rs| :: rs[i].depth <= rs[j].depth)
    && (next < |rs| ==> rs[|rs| - 1].depth <= rs[next].depth + 1)
  }

  /** One turn of the breadth-first loop: the entry under the cursor,
      below `max_depth`, is expanded and the cursor moves on. */
  method BfsStep(rs: seq<TraversalResult>, visited: set<nat>, next: nat, ghost parent: seq<nat>,
                 ghost start: nat, ghost maxDepth: nat, adj: Adjacency, follow: nat -> bool)
    returns (rs': seq<TraversalResult>, visited': set<nat>, ghost parent': seq<nat>)
    requires BfsState(rs, visited, next, parent, start, maxDepth, adj, follow)
    requires next < |rs| && rs[next].depth < maxDepth
    ensures BfsState(rs', visited', next + 1, parent', start, maxDepth, adj, follow)
    ensures |rs'| >= |rs| && rs'[..|rs|] == rs
  {
    rs', visited' := Expand(rs, visited, next, adj, follow);
    parent' := ExtendKeepsShape(rs, rs', next, parent, start, maxDepth, adj, follow);
    BfsOrderKept(rs, rs', next, adj);
    assert rs'[0] == rs[0];
  }

  /** Appending the children of an entry below `max_depth` keeps every
      result rooted at the start with as many edges as its depth, and
      records the entry as their parent. */
  ghost method ExtendKeepsShape(before: seq<TraversalResult>, after: seq<TraversalResult>, p: nat,
                                parent: seq<nat>, start: nat, maxDepth: nat, adj: Adjacency, follow: nat -> bool)
    returns (parent': seq<nat>)
    requires p < |before| <= |after| && after[..|before|] == before
    requires before[p].depth < maxDepth
    requires forall i | 0 <= i < |before| :: before[i].startNode == start && |before[i].path| == before[i].depth <= maxDepth
    requires |parent| == |before| && forall i | 0 < i < |before| :: parent[i] < i && Step(before[parent[i]], before[i], adj)
    requires forall i | 0 < i < |before| :: follow(before[i].endNode)
    requires forall i | |before| <= i < |after| :: Step(before[p], after[i], adj) && follow(after[i].endNode)
    ensures forall i | 0 <= i < |after| :: after[i].startNode == start && |after[i].path| == after[i].depth <= maxDepth
    ensures |parent'| == |after| && forall i | 0 < i < |after| :: parent'[i] < i && Step(after[parent'[i]], after[i], adj)
    ensures forall i | 0 < i < |after| :: follow(after[i].endNode)
  {
    assert forall i | 0 <= i < |before| :: after[i] == before[i];
    parent' := parent + seq(|after| - |before|, _ => p);
  }

  /** Appending the children of the entry under the cursor keeps the list
      ordered by depth. */
  lemma BfsOrderKept(before: seq<TraversalResult>, after: seq<TraversalResult>, cursor: nat, adj: Adjacency)
    requires cursor < |before| <= |after| && after[..|before|] == before
    requires forall i, j | 0 <= i < j < |before| :: before[i].depth <= before[j].depth
    requires before[|before| - 1].depth <= before[cursor].depth + 1
    requires forall i | |before| <= i < |after| :: Step(before[cursor], after[i], adj)
    ensures forall i, j | 0 <= i < j < |after| :: after[i].depth <= after[j].depth
    ensures cursor + 1 < |after| ==> after[|after| - 1].depth <= after[cursor + 1].depth + 1
  {
    assert forall i | 0 <= i < |before| :: after[i] == before[i];
    var d := before[cursor].depth;
    assert forall i | 0 <= i < |after| :: after[i].depth <= d + 1;
    assert forall i | cursor <= i < |after| :: d <= after[i].depth;
  }

  /** `bfs_single`: the start node at depth 0, then every node first met
      breadth-first, in order of depth, none twice, each by a walk of
      `depth` edges with `depth <= max_depth`. The limit is checked only
      when an entry is taken from the queue, so the list can end up longer
      than the limit; `merge_and_deduplicate` cuts it. */
  method BfsSingle(start: nat, adj: Adjacency, config: ParallelConfig) returns (rs: seq<TraversalResult>)
    ensures Traversal(rs, start, config.maxDepth, adj)
    ensures forall i, j | 0 <= i < j < |rs| :: rs[i].depth <= rs[j].depth
  {
    rs := BfsFrom(start, adj, config.maxDepth, config.limit, _ => true);
  }

  /** `dfs_single`: the same guarantees without the depth order. Entries
      at `max_depth`, or taken once `limit` results exist, are skipped
      rather than ending the loop. The stack holds positions in the result
      list, whose entries carry the node, path and depth the source
      stacks. */
  method DfsSingle(start: nat, adj: Adjacency, config: ParallelConfig) returns (rs: seq<TraversalResult>)
    ensures Traversal(rs, start, config.maxDepth, adj)
  {
    rs := [Origin(start)];
    var visited := {start};
    var stack: seq<nat> := [0];
    ghost var parent: seq<nat> := [0];
    while |stack| > 0
      invariant |rs| > 0 && rs[0] == Origin(start)
      invariant forall k | 0 <= k < |stack| :: stack[k] < |rs|
      invariant DistinctEnds(rs) && visited == Ends(rs)
      invariant forall i | 0 <= i < |rs| :: rs[i].startNode == start && |rs[i].path| == rs[i].depth <= config.maxDepth
      invariant |parent| == |rs| && forall i | 0 < i < |rs| :: parent[i] < i && Step(rs[parent[i]], rs[i], adj)
      decreases if |rs| < config.limit then config.limit - |rs| else 0, |stack|
    {
      var top := stack[|stack| - 1];
      stack := stack[..|stack| - 1];
      var node := rs[top];
      if node.depth >= config.maxDepth || |rs| >= config.limit {
        continue;
      }
      var before := rs;
      rs, visited := Expand(rs, visited, top, adj, _ => true);
      parent := ExtendKeepsShape(before, rs, top, parent, start, config.maxDepth, adj, _ => true);
      stack := stack + seq(|rs| - |before|, i => |before| + i);
    }
    WalksFromParents(rs, adj, parent);
  }

  /** `path_signature`: the FxHash of start node, end node and path, a
      parameter here. */
  type Hasher = (nat, nat, seq<nat>) -> nat

  function PathSig(r: TraversalResult, hash: Hasher): nat {
    hash(r.startNode, r.endNode, r.path)
  }

  /** The filter over a `seen` set: keeps each result whose signature has
      not been seen before it. */
  function DedupBy(rs: seq<TraversalResult>, hash: Hasher, seen: set<nat>): (r: seq<TraversalResult>)
    ensures |r| <= |rs|
    ensures forall x | x in r :: x in rs && PathSig(x, hash) !in seen
    decreases |rs|
  {
    if |rs| == 0 then []
    else if PathSig(rs[0], hash) in seen then DedupBy(rs[1..], hash, seen)
    else
      var rest := DedupBy(rs[1..], hash, seen + {PathSig(rs[0], hash)});
      assert forall x | x in rest :: x in rs;
      [rs[0]] + rest
  }

  /** Signatures of distinct positions differ. */
  predicate DistinctSigs(rs: seq<TraversalResult>, hash: Hasher) {
    forall i, j | 0 <= i < j < |rs| :: PathSig(rs[i], hash) != PathSig(rs[j], hash)
  }

  /** The signature of `x` is that of some member of `rs`. */
  predicate SigIn(x: TraversalResult, rs: seq<TraversalResult>, hash: Hasher) {
    exists y | y in rs :: PathSig(y, hash) == PathSig(x, hash)
  }

  lemma ConsDistinctSigs(x: TraversalResult, rest: seq<TraversalResult>, hash: Hasher, seen: set<nat>)
    requires DistinctSigs(rest, hash)
    requires forall y | y in rest :: PathSig(y, hash) !in seen
    requires PathSig(x, hash) in seen
    ensures DistinctSigs([x] + rest, hash)
  {
    var r := [x] + rest;
    forall i, j | 0 <= i < j < |r|
      ensures PathSig(r[i], hash) != PathSig(r[j], hash)
    {
      assert r[j] == rest[j - 1] && r[j] in rest;
      if i > 0 {
        assert r[i] == rest[i - 1];
      }
    }
  }

  /** No two kept results share a signature. */
  lemma {:induction false} DedupByDistinct(rs: seq<TraversalResult>, hash: Hasher, seen: set<nat>)
    ensures DistinctSigs(DedupBy(rs, hash, seen), hash)
    decreases |rs|
  {
    if |rs| > 0 {
      var first := PathSig(rs[0], hash);
      if first in seen {
        DedupByDistinct(rs[1..], hash, seen);
      } else {
        DedupByDistinct(rs[1..], hash, seen + {first});
        ConsDistinctSigs(rs[0], DedupBy(rs[1..], hash, seen + {first}), hash, seen + {first});
      }
    }
  }

  /** Every signature not seen before is kept. */
  lemma {:induction false} DedupByCovers(rs: seq<TraversalResult>, hash: Hasher, seen: set<nat>)
    ensures forall k | 0 <= k < |rs| && PathSig(rs[k], hash) !in seen :: SigIn(rs[k], DedupBy(rs, hash, seen), hash)
    decreases |rs|
  {
    if |rs| > 0 {
      var first := PathSig(rs[0], hash);
      if first in seen {
        DedupByCovers(rs[1..], hash, seen);
        assert DedupBy(rs, hash, seen) == DedupBy(rs[1..], hash, seen);
        assert forall k | 0 < k < |rs| :: rs[k] == rs[1..][k - 1];
      } else {
        DedupByCovers(rs[1..], hash, seen + {first});
        CoversCons(rs, hash, seen);
      }
    }
  }

  lemma CoversCons(rs: seq<TraversalResult>, hash: Hasher, seen: set<nat>)
    requires |rs| > 0 && PathSig(rs[0], hash) !in seen
    requires forall k | 0 <= k < |rs[1..]| && PathSig(rs[1..][k], hash) !in seen + {PathSig(rs[0], hash)} ::
      SigIn(rs[1..][k], DedupBy(rs[1..], hash, seen + {PathSig(rs[0], hash)}), hash)
    ensures forall k | 0 <= k < |rs| && PathSig(rs[k], hash) !in seen :: SigIn(rs[k], DedupBy(rs, hash, seen), hash)
  {
    var rest := DedupBy(rs[1..], hash, seen + {PathSig(rs[0], hash)});
    var r := DedupBy(rs, hash, seen);
    assert r == [rs[0]] + rest;
    forall k | 0 <= k < |rs| && PathSig(rs[k], hash) !in seen
      ensures SigIn(rs[k], r, hash)
    {
      if PathSig(rs[k], hash) == PathSig(rs[0], hash) {
        assert rs[0] in r;
      } else {
        var x := rs[1..][k - 1];
        assert x == rs[k];
        assert PathSig(x, hash) !in seen + {PathSig(rs[0], hash)};
        assert SigIn(x, rest, hash);
        var y :| y in rest && PathSig(y, hash) == PathSig(x, hash);
        assert y in r;
      }
    }
  }

  /** The sort key: a missing score counts as negative infinity. */
  function HasScore(r: TraversalResult): int {
    if r.score.Some? then 1 else 0
  }

  function ScoreOrZero(r: TraversalResult): real {
    if r.score.Some? then r.score.value else 0.0
  }

  function Depth(r: TraversalResult): int {
    r.depth
  }

  /** Score descending (`total_cmp` with a missing score as negative
      infinity), then depth ascending. */
  function ResultOrder(): (TraversalResult, TraversalResult) -> Ordering {
    Lex([Flip(ByInt(HasScore)), Flip(ByReal(ScoreOrZero)), ByInt(Depth)])
  }

  /** `a` ranks above `b` by score. */
  predicate ScoreAbove(a: TraversalResult, b: TraversalResult) {
    a.score.Some? && (b.score.None? || a.score.value > b.score.value)
  }

  /** The chained comparator puts the higher score first, and between
      equal scores (or two missing ones) the shallower result. */
  lemma ResultOrderMeaning(a: TraversalResult, b: TraversalResult)
    ensures ScoreAbove(a, b) ==> ResultOrder()(a, b) == Less
    ensures ScoreAbove(b, a) ==> ResultOrder()(a, b) == Greater
    ensures a.score == b.score ==> ResultOrder()(a, b) == CompareInt(a.depth, b.depth)
  {
    var cmps := [Flip(ByInt(HasScore)), Flip(ByReal(ScoreOrZero)), ByInt(Depth)];
    assert LexCompare(cmps[2..], a, b) == ByInt(Depth)(a, b).Then(LexCompare(cmps[3..], a, b));
    assert LexCompare(cmps[1..], a, b) == cmps[1](a, b).Then(LexCompare(cmps[2..], a, b));
  }

  lemma ResultOrderTotal()
    ensures TotalPreorder(ResultOrder())
  {
    ByIntTotalPreorder(HasScore);
    FlipTotalPreorder(ByInt(HasScore));
    ByRealTotalPreorder(ScoreOrZero);
    FlipTotalPreorder(ByReal(ScoreOrZero));
    ByIntTotalPreorder(Depth);
    LexTotalPreorder([Flip(ByInt(HasScore)), Flip(ByReal(ScoreOrZero)), ByInt(Depth)]);
  }

  /** Reordering a list whose signatures are distinct keeps them
      distinct. */
  lemma DistinctSigsPermutation(s: seq<TraversalResult>, t: seq<TraversalResult>, hash: Hasher)
    requires multiset(s) == multiset(t) && DistinctSigs(s, hash)
    ensures DistinctSigs(t, hash)
  {
    assert Distinct(s);
    DistinctPermutation(s, t);
    forall i, j | 0 <= i < j < |t|
      ensures PathSig(t[i], hash) != PathSig(t[j], hash)
    {
      assert t[i] in multiset(s) && t[j] in multiset(s);
      var p := IndexOf(s, t[i]);
      var q := IndexOf(s, t[j]);
      assert p != q;
    }
  }

  /** The results kept, in score-then-depth order, before the cut. */
  function SortedUnique(rs: seq<TraversalResult>, hash: Hasher): (r: seq<TraversalResult>)
    ensures forall x | x in r :: x in rs
  {
    var unique := DedupBy(rs, hash, {});
    var sorted := SortBy(unique, ResultOrder());
    assert forall x | x in sorted :: x in multiset(unique);
    sorted
  }

  lemma SortedUniqueSpec(rs: seq<TraversalResult>, hash: Hasher)
    ensures DistinctSigs(SortedUnique(rs, hash), hash)
    ensures SortedBy(SortedUnique(rs, hash), ResultOrder())
    ensures forall x | x in rs :: SigIn(x, SortedUnique(rs, hash), hash)
  {
    var unique := DedupBy(rs, hash, {});
    var sorted := SortBy(unique, ResultOrder());
    assert sorted == SortedUnique(rs, hash);
    DedupByDistinct(rs, hash, {});
    ResultOrderTotal();
    SortBySorted(unique, ResultOrder());
    DistinctSigsPermutation(unique, sorted, hash);
    DedupByCovers(rs, hash, {});
    forall x | x in rs
      ensures SigIn(x, sorted, hash)
    {
      var k :| 0 <= k < |rs| && rs[k] == x;
      assert SigIn(rs[k], unique, hash);
      var y :| y in unique && PathSig(y, hash) == PathSig(x, hash);
      assert y in multiset(sorted);
    }
  }

  /** `merge_and_deduplicate`: the first `limit` of the kept results. */
  function MergeAndDeduplicate(rs: seq<TraversalResult>, hash: Hasher, limit: nat): (r: seq<TraversalResult>)
    ensures |r| <= limit
    ensures forall x | x in r :: x in rs
  {
    var sorted := SortedUnique(rs, hash);
    var n := if limit < |sorted| then limit else |sorted|;
    assert forall x | x in sorted[..n] :: x in sorted;
    sorted[..n]
  }

  /** At most `limit` results, no two with the same signature, in
      score-then-depth order; below the limit every signature of the input
      is represented. */
  lemma MergeSpec(rs: seq<TraversalResult>, hash: Hasher, limit: nat)
    ensures DistinctSigs(MergeAndDeduplicate(rs, hash, limit), hash)
    ensures SortedBy(MergeAndDeduplicate(rs, hash, limit), ResultOrder())
    ensures |MergeAndDeduplicate(rs, hash, limit)| < limit ==>
      forall x | x in rs :: SigIn(x, MergeAndDeduplicate(rs, hash, limit), hash)
  {
    var sorted := SortedUnique(rs, hash);
    SortedUniqueSpec(rs, hash);
    var r := MergeAndDeduplicate(rs, hash, limit);
    assert forall i | 0 <= i < |r| :: r[i] == sorted[i];
    if |r| < limit {
      assert r == sorted;
    }
  }

  /** `TraversalStats`, without the relaxed atomic counters. */
  datatype TraversalStats = TraversalStats(startNodesCount: nat, rawResults: nat, deduplicatedResults: nat)

  /** `bfs_parallel` (`depthFirst` false) and `dfs_parallel` (true): one
      traversal per start node, concatenated in start order, then merged.
      Every result comes from one of the start nodes by a walk of at most
      `max_depth` edges. */
  method TraverseAll(starts: seq<nat>, adj: Adjacency, config: ParallelConfig, hash: Hasher, depthFirst: bool)
    returns (r: seq<TraversalResult>, stats: TraversalStats)
    ensures |r| <= config.limit && SortedBy(r, ResultOrder())
    ensures DistinctSigs(r, hash)
    ensures forall x | x in r :: x.startNode in starts && |x.path| == x.depth <= config.maxDepth
    ensures forall s | s in starts && |r| < config.limit :: SigIn(Origin(s), r, hash)
    ensures stats.startNodesCount == |starts| && stats.deduplicatedResults == |r|
    ensures stats.rawResults >= |starts|
  {
    var all: seq<TraversalResult> := [];
    for k := 0 to |starts|
      invariant forall x | x in all :: x.startNode in starts[..k] && |x.path| == x.depth <= config.maxDepth
      invariant forall s | s in starts[..k] :: Origin(s) in all
      invariant |all| >= k
    {
      var single;
      if depthFirst {
        single := DfsSingle(starts[k], adj, config);
      } else {
        single := BfsSingle(starts[k], adj, config);
      }
      assert single[0] in single;
      assert starts[..k + 1] == starts[..k] + [starts[k]];
      all := all + single;
    }
    assert starts[..|starts|] == starts;
    r := MergeAndDeduplicate(all, hash, config.limit);
    MergeSpec(all, hash, config.limit);
    stats := TraversalStats(|starts|, |all|, |r|);
  }
}
