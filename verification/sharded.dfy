/** The sharded traverser: node ids are assigned to shards by remainder,
    lists of ids are split by shard, a single-shard breadth-first search
    only enters nodes of its start node's shard, and `traverse_parallel`
    opens with one depth-0 result per start node. Node ids are `u64` cast
    to `usize`, the identity on the 64-bit targets the crate builds for. */
module ShardedTraversal {
  import opened Wrappers
  import opened Seqs
  import opened ParallelTraversal

  /** `ShardedTraverser`. */
  datatype ShardedTraverser = ShardedTraverser(config: ParallelConfig, numShards: nat)

  /** The constructors never build a traverser without shards. */
  predicate Valid(t: ShardedTraverser) {
    t.numShards >= 1
  }

  /** `new`: the default configuration; a shard count of 0 becomes 1. */
  function New(numShards: nat): (r: ShardedTraverser)
    ensures Valid(r) && r.config == DEFAULT_CONFIG
    ensures numShards >= 1 ==> r.numShards == numShards
    ensures numShards == 0 ==> r.numShards == 1
  {
    ShardedTraverser(DEFAULT_CONFIG, Max(numShards, 1))
  }

  /** `with_config`: as `new`, with the given configuration. */
  function WithConfig(numShards: nat, config: ParallelConfig): (r: ShardedTraverser)
    ensures Valid(r) && r.config == config
    ensures numShards >= 1 ==> r.numShards == numShards
    ensures numShards == 0 ==> r.numShards == 1
  {
    ShardedTraverser(config, Max(numShards, 1))
  }

  /** `shard_for_node`: the id modulo the shard count. */
  function ShardForNode(t: ShardedTraverser, node: nat): (r: nat)
    requires Valid(t)
    ensures r < t.numShards
  {
    node % t.numShards
  }

  /** The shard of `q * n + s`, for `s` below the shard count `n`, is `s`:
      ids one shard count apart share a shard, and the first `n` ids go
      to shards `0 .. n` in turn. */
  lemma ShardOfDecomposition(t: ShardedTraverser, q: nat, s: nat)
    requires Valid(t) && s < t.numShards
    ensures ShardForNode(t, q * t.numShards + s) == s
  {
    ModUnique(q * t.numShards + s, q, s, t.numShards);
  }

  lemma MulAtLeast(d: int, n: int)
    requires d >= 1 && n >= 1
    ensures d * n >= n
  {
  }

  /** The remainder is determined by any quotient-remainder split. */
  lemma ModUnique(x: int, q: int, r: int, n: int)
    requires n >= 1 && 0 <= r < n && x == q * n + r
    ensures x % n == r
  {
    var q', r' := x / n, x % n;
    assert x == q' * n + r';
    assert (q - q') * n == r' - r;
    if q - q' >= 1 {
      MulAtLeast(q - q', n);
    } else if q' - q >= 1 {
      MulAtLeast(q' - q, n);
    }
  }

  /** Membership in shard `k`, as a filter predicate. */
  function InShard(t: ShardedTraverser, k: nat): nat -> bool
    requires Valid(t)
  {
    (node: nat) => ShardForNode(t, node) == k
  }

  /** The total length of a list of lists. */
  function SumLengths(parts: seq<seq<nat>>): nat {
    if |parts| == 0 then 0 else |parts[0]| + SumLengths(parts[1..])
  }

  /** Appending one id to one list adds one to the total. */
  lemma {:induction false} SumLengthsPush(parts: seq<seq<nat>>, k: nat, x: nat)
    requires k < |parts|
    ensures SumLengths(parts[k := parts[k] + [x]]) == SumLengths(parts) + 1
  {
    var after := parts[k := parts[k] + [x]];
    if k == 0 {
      assert after[1..] == parts[1..];
    } else {
      assert after[1..] == parts[1..][k - 1 := parts[k] + [x]];
      SumLengthsPush(parts[1..], k - 1, x);
    }
  }

  /** `partition_by_shard`: one list per shard, holding that shard's ids in
      their input order; together the lists hold every id once. */
  method PartitionByShard(t: ShardedTraverser, nodes: seq<nat>) returns (parts: seq<seq<nat>>)
    requires Valid(t)
    ensures |parts| == t.numShards
    ensures forall k | 0 <= k < |parts| :: parts[k] == Filter(nodes, InShard(t, k))
    ensures forall k, x | 0 <= k < |parts| && x in parts[k] :: x in nodes && ShardForNode(t, x) == k
    ensures SumLengths(parts) == |nodes|
  {
    parts := seq(t.numShards, _ => []);
    assert SumLengths(parts) == 0 by {
      var empty := parts;
      ZeroSum(empty);
    }
    for i := 0 to |nodes|
      invariant |parts| == t.numShards
      invariant forall k | 0 <= k < |parts| :: parts[k] == Filter(nodes[..i], InShard(t, k))
      invariant SumLengths(parts) == i
    {
      var shard := ShardForNode(t, nodes[i]);
      PartitionStep(t, nodes, i, parts);
      parts := parts[shard := parts[shard] + [nodes[i]]];
    }
    assert nodes[..|nodes|] == nodes;
  }

  /** Appending the next id to its shard's list keeps the lists the
      shard filters of the longer prefix. */
  lemma PartitionStep(t: ShardedTraverser, nodes: seq<nat>, i: nat, parts: seq<seq<nat>>)
    requires Valid(t) && i < |nodes| && |parts| == t.numShards
    requires forall k | 0 <= k < |parts| :: parts[k] == Filter(nodes[..i], InShard(t, k))
    requires SumLengths(parts) == i
    ensures var shard := ShardForNode(t, nodes[i]);
      var next := parts[shard := parts[shard] + [nodes[i]]];
      && (forall k | 0 <= k < |next| :: next[k] == Filter(nodes[..i + 1], InShard(t, k)))
      && SumLengths(next) == i + 1
  {
    var front, node := nodes[..i], nodes[i];
    var shard := ShardForNode(t, node);
    assert nodes[..i + 1] == front + [node];
    SumLengthsPush(parts, shard, node);
    forall k | 0 <= k < |parts|
      ensures Filter(front + [node], InShard(t, k)) == Filter(front, InShard(t, k)) + (if k == shard then [node] else [])
    {
      FilterAppend(front, node, InShard(t, k));
    }
  }

  lemma {:induction false} ZeroSum(parts: seq<seq<nat>>)
    requires forall k | 0 <= k < |parts| :: parts[k] == []
    ensures SumLengths(parts) == 0
  {
    if |parts| > 0 {
      ZeroSum(parts[1..]);
    }
  }

  /** Whether a node is in the same shard as `start`. */
  function SameShard(t: ShardedTraverser, start: nat): nat -> bool
    requires Valid(t)
  {
    (node: nat) => ShardForNode(t, node) == ShardForNode(t, start)
  }

  /** `bfs_single_shard`: `bfs_single` restricted to neighbours in the
      start node's shard. Every result is rooted at the start, reached by
      `depth <= max_depth` edges, in the start node's shard, and reported
      once, in order of depth. */
  method BfsSingleShard(t: ShardedTraverser, start: nat, adj: Adjacency) returns (rs: seq<TraversalResult>)
    requires Valid(t)
    ensures Traversal(rs, start, t.config.maxDepth, adj)
    ensures forall i | 0 <= i < |rs| :: ShardForNode(t, rs[i].endNode) == ShardForNode(t, start)
    ensures forall i, j | 0 <= i < j < |rs| :: rs[i].depth <= rs[j].depth
  {
    rs := BfsFrom(start, adj, t.config.maxDepth, t.config.limit, SameShard(t, start));
  }

  /** The opening of `traverse_parallel` as written: every start node is
      added to the visited set and a depth-0 result is pushed for it,
      whether or not the set already held it. */
  function StartResultsAsWritten(starts: seq<nat>): (r: seq<TraversalResult>)
    ensures |r| == |starts|
    ensures forall i | 0 <= i < |r| :: r[i].endNode == starts[i] && r[i] == Origin(starts[i])
  {
    if |starts| == 0 then []
    else StartResultsAsWritten(starts[..|starts| - 1]) + [Origin(starts[|starts| - 1])]
  }

  /** A start node given twice is reported twice, although the visited set
      that should prevent repeats holds it, and the statistics call the
      list deduplicated. */
  lemma RepeatedStartReportedTwice()
    ensures StartResultsAsWritten([7, 7]) == [Origin(7), Origin(7)]
    ensures !DistinctEnds(StartResultsAsWritten([7, 7]))
  {
    assert [7, 7][..1] == [7];
    assert [7][..0] == [];
  }

  /** The opening as evidently intended: the depth-0 result is pushed only
      when the start node is newly inserted into the visited set. Every
      start node is reported exactly once. */
  function StartResults(starts: seq<nat>): (r: seq<TraversalResult>)
    ensures DistinctEnds(r)
    ensures forall x :: x in Ends(r) <==> x in starts
    ensures forall i | 0 <= i < |r| :: r[i] == Origin(r[i].endNode)
  {
    if |starts| == 0 then []
    else
      var front := starts[..|starts| - 1];
      var x := starts[|starts| - 1];
      var prev := StartResults(front);
      assert starts == front + [x];
      if x in front then prev
      else
        EndsAppend(prev, Origin(x));
        prev + [Origin(x)]
  }

  /** The results follow the order in which the start nodes first
      appear. */
  lemma {:induction false} StartResultsInFirstOrder(starts: seq<nat>)
    ensures |StartResults(starts)| == |FirstAppearances(starts)|
    ensures forall i | 0 <= i < |StartResults(starts)| ::
      StartResults(starts)[i] == Origin(FirstAppearances(starts)[i])
  {
    if |starts| > 0 {
      var front := starts[..|starts| - 1];
      var x := starts[|starts| - 1];
      StartResultsInFirstOrder(front);
      assert starts == front + [x];
      assert x in FirstAppearances(front) <==> x in front;
    }
  }

  /** Without repeated start nodes the two openings coincide. */
  lemma {:induction false} StartResultsAgree(starts: seq<nat>)
    requires Distinct(starts)
    ensures StartResults(starts) == StartResultsAsWritten(starts)
  {
    if |starts| > 0 {
      var front := starts[..|starts| - 1];
      var x := starts[|starts| - 1];
      assert Distinct(front);
      assert x !in front by {
        forall j | 0 <= j < |front|
          ensures front[j] != x
        {
          assert front[j] == starts[j];
        }
      }
      StartResultsAgree(front);
    }
  }
}
