/** The streaming breadth-first traversal of the Python graph store: from
    a start node, one result per outgoing edge (of an admitted label) of
    every node reached below `max_depth`, each node queued at most once,
    stopping as soon as `max_visited` results exist. The store's read lock
    and the Python conversion are left to the host. */
module StreamingBfs {
  import opened Wrappers
  import opened Seqs
  import opened EdgeStore

  /** `StreamingConfig`; `relationship_types` of `None` admits every
      label. */
  datatype StreamingConfig = StreamingConfig(maxDepth: nat, maxVisited: nat, relationshipTypes: Option<seq<string>>)

  /** `StreamingConfig::new` with its defaults. */
  const DEFAULT_STREAMING_CONFIG := StreamingConfig(3, 10000, None)

  /** The binding's `TraversalResult`: one traversed edge. */
  datatype StreamResult = StreamResult(depth: nat, source: nat, target: nat, lbl: string, edgeId: nat)

  /** The label filter. */
  predicate Admits(types: Option<seq<string>>, lbl: string) {
    types.None? || lbl in types.value
  }

  /** `r` reports an edge that `get_outgoing` returns for its source. */
  ghost predicate FromStore(store: EdgeStore, r: StreamResult) {
    exists e | e in GetOutgoing(store, r.source) :: e.id == r.edgeId && e.target == r.target && e.lbl == r.lbl
  }

  /** Some result reports edge `e` leaving `n`. */
  ghost predicate Emits(results: seq<StreamResult>, n: nat, e: GraphEdge) {
    exists j | 0 <= j < |results| ::
      results[j].source == n && results[j].edgeId == e.id && results[j].target == e.target && results[j].lbl == e.lbl
  }

  /** Every admitted outgoing edge of `n` has been reported. */
  ghost predicate Expanded(store: EdgeStore, types: Option<seq<string>>, results: seq<StreamResult>, n: nat) {
    forall e | e in GetOutgoing(store, n) && Admits(types, e.lbl) :: Emits(results, n, e)
  }

  /** Result `i` leaves the start node at depth 1, or leaves the target
      of an earlier result one level further out. */
  predicate ReachedFrom(results: seq<StreamResult>, i: nat, start: nat)
    requires i < |results|
  {
    (results[i].source == start && results[i].depth == 1)
    || exists j | 0 <= j < i :: results[j].target == results[i].source && results[j].depth + 1 == results[i].depth
  }

  /** A traversal that ran to the end: the start node and every node
      reached below `max_depth` had all their admitted edges reported. */
  ghost predicate Complete(store: EdgeStore, start: nat, config: StreamingConfig, results: seq<StreamResult>) {
    (config.maxDepth > 0 ==> Expanded(store, config.relationshipTypes, results, start))
    && forall i | 0 <= i < |results| && results[i].depth < config.maxDepth ::
         Expanded(store, config.relationshipTypes, results, results[i].target)
  }

  /** The nodes a traversal can reach: the start and every edge target. */
  function Reach(store: EdgeStore, start: nat): (r: set<nat>)
    ensures start in r
    ensures forall e | e in store.edges.Values :: e.target in r
  {
    {start} + set e | e in store.edges.Values :: e.target
  }

  /** The queue as pushed so far (`queue[head..]` is still waiting): the
      start first, no node twice, `visited` its nodes, depths at most
      `max_depth` and in order. */
  ghost predicate QueueShape(queue: seq<(nat, nat)>, visited: set<nat>, start: nat, maxDepth: nat) {
    0 < |queue| && queue[0] == (start, 0)
    && (forall a, b | 0 <= a < b < |queue| :: queue[a].0 != queue[b].0)
    && (forall x :: x in visited <==> exists a | 0 <= a < |queue| :: queue[a].0 == x)
    && (forall a | 0 <= a < |queue| :: queue[a].1 <= maxDepth)
    && (forall a, b | 0 <= a < b < |queue| :: queue[a].1 <= queue[b].1)
  }

  /** Result `i` was produced while expanding queue entry `owner[i]`, an
      entry already taken from the queue; owners never decrease. */
  ghost predicate Owned(store: EdgeStore, config: StreamingConfig, queue: seq<(nat, nat)>, head: nat,
                        results: seq<StreamResult>, owner: seq<nat>) {
    |owner| == |results| && head <= |queue|
    && (forall i, j | 0 <= i <= j < |owner| :: owner[i] <= owner[j])
    && forall i | 0 <= i < |results| ::
         owner[i] < head && queue[owner[i]].1 < config.maxDepth
         && results[i].source == queue[owner[i]].0 && results[i].depth == queue[owner[i]].1 + 1
         && Admits(config.relationshipTypes, results[i].lbl) && FromStore(store, results[i])
  }

  /** Every queued node after the start was queued as the target of a
      result produced before the node itself was expanded: `disc[a]` is
      that result for queue entry `a`. */
  ghost predicate Discovered(queue: seq<(nat, nat)>, results: seq<StreamResult>, owner: seq<nat>, disc: seq<nat>) {
    |disc| == |queue|
    && forall a | 0 < a < |queue| ::
         disc[a] < |results| && disc[a] < |owner| && results[disc[a]].target == queue[a].0
         && results[disc[a]].depth == queue[a].1 && owner[disc[a]] < a
  }

  /** Every reported target is queued at a depth no larger than the
      result's. */
  ghost predicate TargetsQueued(queue: seq<(nat, nat)>, results: seq<StreamResult>) {
    forall i | 0 <= i < |results| :: exists a | 0 <= a < |queue| :: queue[a].0 == results[i].target && queue[a].1 <= results[i].depth
  }

  /** Every entry taken from the queue below `max_depth` is expanded. */
  ghost predicate ExpandedUpTo(store: EdgeStore, config: StreamingConfig, queue: seq<(nat, nat)>, upto: nat,
                               results: seq<StreamResult>) {
    forall a | 0 <= a < upto && a < |queue| && queue[a].1 < config.maxDepth ::
      Expanded(store, config.relationshipTypes, results, queue[a].0)
  }

  /** The result for edge `e` leaving `node`, taken from the queue at
      `depth`. */
  function ResultFor(node: nat, depth: nat, e: GraphEdge): StreamResult {
    StreamResult(depth + 1, node, e.target, e.lbl, e.id)
  }

  /** No queued depth exceeds `d`. */
  predicate DepthsAtMost(queue: seq<(nat, nat)>, d: nat) {
    forall a | 0 <= a < |queue| :: queue[a].1 <= d
  }

  lemma EmitsGrow(results: seq<StreamResult>, r: StreamResult, n: nat, e: GraphEdge)
    requires Emits(results, n, e)
    ensures Emits(results + [r], n, e)
  {
    var j :| 0 <= j < |results| && results[j].source == n && results[j].edgeId == e.id
      && results[j].target == e.target && results[j].lbl == e.lbl;
    assert (results + [r])[j] == results[j];
  }

  lemma ExpandedUpToGrow(store: EdgeStore, config: StreamingConfig, queue: seq<(nat, nat)>, upto: nat,
                         results: seq<StreamResult>, r: StreamResult)
    requires ExpandedUpTo(store, config, queue, upto, results)
    ensures ExpandedUpTo(store, config, queue, upto, results + [r])
  {
    forall a, e | 0 <= a < upto && a < |queue| && queue[a].1 < config.maxDepth
        && e in GetOutgoing(store, queue[a].0) && Admits(config.relationshipTypes, e.lbl)
      ensures Emits(results + [r], queue[a].0, e)
    {
      EmitsGrow(results, r, queue[a].0, e);
    }
  }

  /** Pushing the result for an admitted edge of the entry under
      expansion keeps every result owned. */
  lemma OwnedPush(store: EdgeStore, config: StreamingConfig, queue: seq<(nat, nat)>, head: nat, cur: nat,
                  results: seq<StreamResult>, owner: seq<nat>, node: nat, depth: nat, e: GraphEdge)
    requires Owned(store, config, queue, head, results, owner)
    requires head == cur + 1 && head <= |queue| && queue[cur] == (node, depth) && depth < config.maxDepth
    requires e in GetOutgoing(store, node) && Admits(config.relationshipTypes, e.lbl)
    ensures Owned(store, config, queue, head, results + [ResultFor(node, depth, e)], owner + [cur])
  {
    var r := ResultFor(node, depth, e);
    var rs := results + [r];
    var os := owner + [cur];
    assert FromStore(store, r);
    assert forall i | 0 <= i < |results| :: rs[i] == results[i] && os[i] == owner[i];
    assert rs[|results|] == r && os[|results|] == cur;
  }

  lemma DiscoveredPush(queue: seq<(nat, nat)>, results: seq<StreamResult>, owner: seq<nat>, disc: seq<nat>, r: StreamResult, c: nat)
    requires Discovered(queue, results, owner, disc) && |owner| == |results|
    ensures Discovered(queue, results + [r], owner + [c], disc)
  {
    assert forall j | 0 <= j < |results| :: (results + [r])[j] == results[j] && (owner + [c])[j] == owner[j];
  }

  /** Pushing the result for edge `k` reports it. */
  lemma EmitsPushed(results: seq<StreamResult>, types: Option<seq<string>>, node: nat, depth: nat,
                    outgoing: seq<GraphEdge>, k: nat)
    requires k < |outgoing|
    requires forall m | 0 <= m < k && Admits(types, outgoing[m].lbl) :: Emits(results, node, outgoing[m])
    ensures forall m | 0 <= m < k + 1 && Admits(types, outgoing[m].lbl) ::
      Emits(results + [ResultFor(node, depth, outgoing[k])], node, outgoing[m])
  {
    var r := ResultFor(node, depth, outgoing[k]);
    forall m | 0 <= m < k + 1 && Admits(types, outgoing[m].lbl)
      ensures Emits(results + [r], node, outgoing[m])
    {
      if m < k {
        EmitsGrow(results, r, node, outgoing[m]);
      } else {
        assert (results + [r])[|results|] == r;
      }
    }
  }

  /** Queueing a node not yet visited, at a depth no smaller than any
      queued one, keeps the queue's shape. */
  lemma QueueShapePush(queue: seq<(nat, nat)>, visited: set<nat>, start: nat, maxDepth: nat, t: nat, d: nat)
    requires QueueShape(queue, visited, start, maxDepth) && t !in visited
    requires DepthsAtMost(queue, d) && d <= maxDepth
    ensures QueueShape(queue + [(t, d)], visited + {t}, start, maxDepth)
    ensures DepthsAtMost(queue + [(t, d)], d)
  {
    var q := queue + [(t, d)];
    assert forall a | 0 <= a < |queue| :: q[a] == queue[a];
    assert q[|queue|] == (t, d);
  }

  lemma OwnedQueuePush(store: EdgeStore, config: StreamingConfig, queue: seq<(nat, nat)>, head: nat,
                       results: seq<StreamResult>, owner: seq<nat>, x: (nat, nat))
    requires Owned(store, config, queue, head, results, owner)
    ensures Owned(store, config, queue + [x], head, results, owner)
  {
    assert forall a | 0 <= a < |queue| :: (queue + [x])[a] == queue[a];
  }

  /** The new entry is discovered by the last result. */
  lemma DiscoveredQueuePush(queue: seq<(nat, nat)>, results: seq<StreamResult>, owner: seq<nat>, disc: seq<nat>, t: nat, d: nat)
    requires Discovered(queue, results, owner, disc) && |owner| == |results| > 0
    requires results[|results| - 1].target == t && results[|results| - 1].depth == d && owner[|owner| - 1] < |queue|
    ensures Discovered(queue + [(t, d)], results, owner, disc + [(|results| - 1) as nat])
  {
    var q := queue + [(t, d)];
    var ds := disc + [(|results| - 1) as nat];
    assert forall a | 0 <= a < |queue| :: q[a] == queue[a] && ds[a] == disc[a];
    assert q[|queue|] == (t, d) && ds[|queue|] == |results| - 1;
  }

  /** The last result's target, newly queued at its depth. */
  lemma TargetsQueuedPush(queue: seq<(nat, nat)>, results: seq<StreamResult>, t: nat, d: nat)
    requires |results| > 0 && TargetsQueued(queue, results[..|results| - 1])
    requires results[|results| - 1].target == t && results[|results| - 1].depth == d
    ensures TargetsQueued(queue + [(t, d)], results)
  {
    var q := queue + [(t, d)];
    forall i | 0 <= i < |results|
      ensures exists a | 0 <= a < |q| :: q[a].0 == results[i].target && q[a].1 <= results[i].depth
    {
      if i < |results| - 1 {
        assert results[..|results| - 1][i] == results[i];
        var a :| 0 <= a < |queue| && queue[a].0 == results[i].target && queue[a].1 <= results[i].depth;
        assert q[a] == queue[a];
      } else {
        assert q[|queue|] == (t, d);
      }
    }
  }

  lemma ExpandedUpToQueuePush(store: EdgeStore, config: StreamingConfig, queue: seq<(nat, nat)>, upto: nat,
                              results: seq<StreamResult>, x: (nat, nat))
    requires upto <= |queue| && ExpandedUpTo(store, config, queue, upto, results)
    ensures ExpandedUpTo(store, config, queue + [x], upto, results)
  {
    assert forall a | 0 <= a < |queue| :: (queue + [x])[a] == queue[a];
  }

  /** Visiting a new reachable node shrinks what is left to visit. */
  lemma ReachShrinks(reach: set<nat>, visited: set<nat>, t: nat)
    requires t in reach && t !in visited
    ensures |reach - (visited + {t})| + 1 == |reach - visited|
  {
    assert (reach - visited) - {t} == reach - (visited + {t});
  }

  /** A target already queued is queued at a depth no larger than the new
      result's. */
  lemma TargetSeen(queue: seq<(nat, nat)>, visited: set<nat>, start: nat, maxDepth: nat,
                   results: seq<StreamResult>, depth: nat)
    requires QueueShape(queue, visited, start, maxDepth) && DepthsAtMost(queue, depth + 1)
    requires |results| > 0 && results[|results| - 1].depth == depth + 1 && results[|results| - 1].target in visited
    requires TargetsQueued(queue, results[..|results| - 1])
    ensures TargetsQueued(queue, results)
  {
    forall i | 0 <= i < |results|
      ensures exists a | 0 <= a < |queue| :: queue[a].0 == results[i].target && queue[a].1 <= results[i].depth
    {
      if i < |results| - 1 {
        assert results[..|results| - 1][i] == results[i];
      }
    }
  }

  /** Once every admitted edge of the entry under expansion is reported,
      that entry counts as expanded. */
  lemma EntryExpanded(store: EdgeStore, config: StreamingConfig, queue: seq<(nat, nat)>, cur: nat,
                      results: seq<StreamResult>, node: nat, outgoing: seq<GraphEdge>)
    requires cur < |queue| && queue[cur].0 == node && outgoing == GetOutgoing(store, node)
    requires ExpandedUpTo(store, config, queue, cur, results)
    requires forall m | 0 <= m < |outgoing| && Admits(config.relationshipTypes, outgoing[m].lbl) :: Emits(results, node, outgoing[m])
    ensures ExpandedUpTo(store, config, queue, cur + 1, results)
  {
    forall e | e in outgoing && Admits(config.relationshipTypes, e.lbl)
      ensures Emits(results, node, e)
    {
      var m :| 0 <= m < |outgoing| && outgoing[m] == e;
    }
  }

  /** What the invariants give about the results at any exit. */
  lemma Shape(store: EdgeStore, config: StreamingConfig, queue: seq<(nat, nat)>, visited: set<nat>, head: nat,
              start: nat, results: seq<StreamResult>, owner: seq<nat>, disc: seq<nat>)
    requires QueueShape(queue, visited, start, config.maxDepth)
    requires Owned(store, config, queue, head, results, owner) && Discovered(queue, results, owner, disc)
    ensures forall i | 0 <= i < |results| ::
      1 <= results[i].depth <= config.maxDepth && Admits(config.relationshipTypes, results[i].lbl)
    ensures forall i | 0 <= i < |results| :: FromStore(store, results[i])
    ensures forall i | 0 <= i < |results| :: ReachedFrom(results, i, start)
    ensures forall i, j | 0 <= i < j < |results| :: results[i].depth <= results[j].depth
    ensures forall i, j, k | 0 <= i < j < k < |results| && results[i].source == results[k].source ::
      results[j].source == results[i].source
  {
    forall i | 0 <= i < |results|
      ensures ReachedFrom(results, i, start)
    {
      var p := owner[i];
      if p > 0 {
        var j := disc[p];
        assert j < i by {
          assert forall l | i <= l < |owner| :: owner[i] <= owner[l];
        }
      }
    }
    forall i, j, k | 0 <= i < j < k < |results| && results[i].source == results[k].source
      ensures results[j].source == results[i].source
    {
      assert owner[i] == owner[k];
      assert owner[i] <= owner[j] <= owner[k];
    }
  }

  /** A run that empties the queue is complete. */
  lemma Completed(store: EdgeStore, config: StreamingConfig, queue: seq<(nat, nat)>, visited: set<nat>,
                  start: nat, results: seq<StreamResult>)
    requires QueueShape(queue, visited, start, config.maxDepth)
    requires TargetsQueued(queue, results)
    requires ExpandedUpTo(store, config, queue, |queue|, results)
    ensures Complete(store, start, config, results)
  {
    if config.maxDepth > 0 {
      assert queue[0].0 == start && queue[0].1 < config.maxDepth;
    }
    forall i | 0 <= i < |results| && results[i].depth < config.maxDepth
      ensures Expanded(store, config.relationshipTypes, results, results[i].target)
    {
      var a :| 0 <= a < |queue| && queue[a].0 == results[i].target && queue[a].1 <= results[i].depth;
    }
  }

  /** The state of the loop over the outgoing edges of queue entry `cur`
      (node `node` at `depth`) after its first `k` edges: the queue keeps
      its shape, every result is owned and every queued node discovered,
      the first `k` admitted edges are reported, and what is left to visit
      plus the queue length is still `measure`. */
  ghost predicate EntryInv(store: EdgeStore, config: StreamingConfig, start: nat, reach: set<nat>,
                           cur: nat, node: nat, depth: nat, outgoing: seq<GraphEdge>, queueLen: nat, measure: nat,
                           queue: seq<(nat, nat)>, visited: set<nat>, results: seq<StreamResult>,
                           owner: seq<nat>, disc: seq<nat>, k: nat) {
    reach == Reach(store, start) && outgoing == GetOutgoing(store, node)
    && EntryQueue(reach, start, config.maxDepth, cur, node, depth, queueLen, measure, queue, visited)
    && EntryResults(store, config, cur, node, outgoing, queue, results, owner, disc, k)
  }

  /** The queue part of `EntryInv`. */
  ghost predicate EntryQueue(reach: set<nat>, start: nat, maxDepth: nat, cur: nat, node: nat, depth: nat,
                             queueLen: nat, measure: nat, queue: seq<(nat, nat)>, visited: set<nat>) {
    QueueShape(queue, visited, start, maxDepth) && visited <= reach
    && |reach - visited| + |queue| == measure
    && cur < |queue| && queueLen <= |queue| && queue[cur] == (node, depth) && depth < maxDepth
    && DepthsAtMost(queue, depth + 1)
  }

  /** The results part of `EntryInv`. */
  ghost predicate EntryResults(store: EdgeStore, config: StreamingConfig, cur: nat, node: nat, outgoing: seq<GraphEdge>,
                               queue: seq<(nat, nat)>, results: seq<StreamResult>, owner: seq<nat>, disc: seq<nat>, k: nat) {
    Owned(store, config, queue, cur + 1, results, owner)
    && Discovered(queue, results, owner, disc) && TargetsQueued(queue, results)
    && ExpandedUpTo(store, config, queue, cur, results)
    && k <= |outgoing|
    && (forall m | 0 <= m < k && Admits(config.relationshipTypes, outgoing[m].lbl) ::
          Emits(results, node, outgoing[m]))
    && (|results| < config.maxVisited || results == [])
  }

  /** The state in which the memory bound stopped the traversal. */
  ghost predicate Stopped(store: EdgeStore, config: StreamingConfig, start: nat, queue: seq<(nat, nat)>,
                          visited: set<nat>, head: nat, results: seq<StreamResult>, owner: seq<nat>, disc: seq<nat>) {
    QueueShape(queue, visited, start, config.maxDepth)
    && Owned(store, config, queue, head, results, owner) && Discovered(queue, results, owner, disc)
    && (|results| <= config.maxVisited || (config.maxVisited == 0 && |results| == 1))
    && |results| >= config.maxVisited && |results| > 0
  }

  /** An edge of a label not admitted is passed over. */
  lemma EntrySkip(store: EdgeStore, config: StreamingConfig, start: nat, reach: set<nat>,
                  cur: nat, node: nat, depth: nat, outgoing: seq<GraphEdge>, queueLen: nat, measure: nat,
                  queue: seq<(nat, nat)>, visited: set<nat>, results: seq<StreamResult>, owner: seq<nat>, disc: seq<nat>, k: nat)
    requires EntryInv(store, config, start, reach, cur, node, depth, outgoing, queueLen, measure, queue, visited, results, owner, disc, k)
    requires k < |outgoing| && !Admits(config.relationshipTypes, outgoing[k].lbl)
    ensures EntryInv(store, config, start, reach, cur, node, depth, outgoing, queueLen, measure, queue, visited, results, owner, disc, k + 1)
  {
  }

  /** Pushing the result for an admitted edge: the parts that hold whether
      or not the traversal goes on. */
  lemma EntryPushed(store: EdgeStore, config: StreamingConfig, start: nat, reach: set<nat>,
                    cur: nat, node: nat, depth: nat, outgoing: seq<GraphEdge>, queueLen: nat, measure: nat,
                    queue: seq<(nat, nat)>, visited: set<nat>, results: seq<StreamResult>, owner: seq<nat>, disc: seq<nat>, k: nat)
    requires EntryInv(store, config, start, reach, cur, node, depth, outgoing, queueLen, measure, queue, visited, results, owner, disc, k)
    requires k < |outgoing| && Admits(config.relationshipTypes, outgoing[k].lbl)
    ensures var rs := results + [ResultFor(node, depth, outgoing[k])];
      Owned(store, config, queue, cur + 1, rs, owner + [cur]) && Discovered(queue, rs, owner + [cur], disc)
      && ExpandedUpTo(store, config, queue, cur, rs)
      && forall m | 0 <= m < k + 1 && Admits(config.relationshipTypes, outgoing[m].lbl) ::
           Emits(rs, node, outgoing[m])
  {
    var e := outgoing[k];
    var r := ResultFor(node, depth, e);
    assert e in outgoing;
    OwnedPush(store, config, queue, cur + 1, cur, results, owner, node, depth, e);
    DiscoveredPush(queue, results, owner, disc, r, cur);
    ExpandedUpToGrow(store, config, queue, cur, results, r);
    EmitsPushed(results, config.relationshipTypes, node, depth, outgoing, k);
  }

  /** The result that reaches `max_visited` stops the traversal. */
  lemma EntryStop(store: EdgeStore, config: StreamingConfig, start: nat, reach: set<nat>,
                  cur: nat, node: nat, depth: nat, outgoing: seq<GraphEdge>, queueLen: nat, measure: nat,
                  queue: seq<(nat, nat)>, visited: set<nat>, results: seq<StreamResult>, owner: seq<nat>, disc: seq<nat>, k: nat)
    requires EntryInv(store, config, start, reach, cur, node, depth, outgoing, queueLen, measure, queue, visited, results, owner, disc, k)
    requires k < |outgoing| && Admits(config.relationshipTypes, outgoing[k].lbl)
    requires |results| + 1 >= config.maxVisited
    ensures Stopped(store, config, start, queue, visited, cur + 1,
                    results + [ResultFor(node, depth, outgoing[k])], owner + [cur], disc)
  {
    EntryPushed(store, config, start, reach, cur, node, depth, outgoing, queueLen, measure, queue, visited, results, owner, disc, k);
  }

  /** Queueing a new node one level below the entry under expansion keeps
      the queue's shape. */
  lemma QueueNew(reach: set<nat>, start: nat, maxDepth: nat, depth: nat,
                 queue: seq<(nat, nat)>, visited: set<nat>, t: nat)
    requires QueueShape(queue, visited, start, maxDepth) && visited <= reach
    requires depth < maxDepth && DepthsAtMost(queue, depth + 1)
    requires t in reach && t !in visited
    ensures QueueShape(queue + [(t, (depth + 1) as nat)], visited + {t}, start, maxDepth)
    ensures visited + {t} <= reach
    ensures DepthsAtMost(queue + [(t, (depth + 1) as nat)], depth + 1)
  {
    QueueShapePush(queue, visited, start, maxDepth, t, depth + 1);
  }

  /** Queueing a new node keeps the entry under expansion in place and
      what is left to visit plus the queue length unchanged. */
  lemma QueueNewCount(reach: set<nat>, cur: nat, entry: (nat, nat), queueLen: nat, measure: nat,
                      queue: seq<(nat, nat)>, visited: set<nat>, x: (nat, nat))
    requires |reach - visited| + |queue| == measure
    requires cur < |queue| && queueLen <= |queue| && queue[cur] == entry
    requires x.0 in reach && x.0 !in visited
    ensures |reach - (visited + {x.0})| + |queue + [x]| == measure
    ensures cur < |queue + [x]| && queueLen <= |queue + [x]| && (queue + [x])[cur] == entry
  {
    ReachShrinks(reach, visited, x.0);
  }

  /** Queueing the last result's new target keeps every result owned,
      every queued node discovered and every target queued. */
  lemma ResultsNew(store: EdgeStore, config: StreamingConfig, cur: nat, queue: seq<(nat, nat)>,
                   results: seq<StreamResult>, owner: seq<nat>, disc: seq<nat>, t: nat, d: nat)
    requires Owned(store, config, queue, cur + 1, results, owner) && Discovered(queue, results, owner, disc)
    requires |results| > 0 && TargetsQueued(queue, results[..|results| - 1])
    requires results[|results| - 1].target == t && results[|results| - 1].depth == d
    requires ExpandedUpTo(store, config, queue, cur, results)
    ensures Owned(store, config, queue + [(t, d)], cur + 1, results, owner)
    ensures Discovered(queue + [(t, d)], results, owner, disc + [(|results| - 1) as nat]) && TargetsQueued(queue + [(t, d)], results)
    ensures ExpandedUpTo(store, config, queue + [(t, d)], cur, results)
  {
    OwnedQueuePush(store, config, queue, cur + 1, results, owner, (t, d));
    DiscoveredQueuePush(queue, results, owner, disc, t, d);
    TargetsQueuedPush(queue, results, t, d);
    ExpandedUpToQueuePush(store, config, queue, cur, results, (t, d));
  }

  /** The result for an edge to a node not yet visited queues that node. */
  lemma EntryPushNew(store: EdgeStore, config: StreamingConfig, start: nat, reach: set<nat>,
                     cur: nat, node: nat, depth: nat, outgoing: seq<GraphEdge>, queueLen: nat, measure: nat,
                     queue: seq<(nat, nat)>, visited: set<nat>, results: seq<StreamResult>, owner: seq<nat>, disc: seq<nat>, k: nat,
                     e: GraphEdge)
    requires EntryInv(store, config, start, reach, cur, node, depth, outgoing, queueLen, measure, queue, visited, results, owner, disc, k)
    requires k < |outgoing| && e == outgoing[k] && Admits(config.relationshipTypes, e.lbl)
    requires |results| + 1 < config.maxVisited && e.target !in visited
    ensures EntryInv(store, config, start, reach, cur, node, depth, outgoing, queueLen, measure,
                     queue + [(e.target, (depth + 1) as nat)], visited + {e.target},
                     results + [ResultFor(node, depth, e)], owner + [cur], disc + [|results| as nat], k + 1)
  {
    var rs := results + [ResultFor(node, depth, e)];
    assert e in outgoing && e in store.edges.Values;
    EntryPushed(store, config, start, reach, cur, node, depth, outgoing, queueLen, measure, queue, visited, results, owner, disc, k);
    assert rs[..|rs| - 1] == results;
    QueueNew(reach, start, config.maxDepth, depth, queue, visited, e.target);
    QueueNewCount(reach, cur, (node, depth), queueLen, measure, queue, visited, (e.target, (depth + 1) as nat));
    ResultsNew(store, config, cur, queue, rs, owner + [cur], disc, e.target, depth + 1);
  }

  /** The result for an edge to a node already visited queues nothing. */
  lemma EntryPushSeen(store: EdgeStore, config: StreamingConfig, start: nat, reach: set<nat>,
                      cur: nat, node: nat, depth: nat, outgoing: seq<GraphEdge>, queueLen: nat, measure: nat,
                      queue: seq<(nat, nat)>, visited: set<nat>, results: seq<StreamResult>, owner: seq<nat>, disc: seq<nat>, k: nat)
    requires EntryInv(store, config, start, reach, cur, node, depth, outgoing, queueLen, measure, queue, visited, results, owner, disc, k)
    requires k < |outgoing| && Admits(config.relationshipTypes, outgoing[k].lbl)
    requires |results| + 1 < config.maxVisited && outgoing[k].target in visited
    ensures EntryInv(store, config, start, reach, cur, node, depth, outgoing, queueLen, measure, queue, visited,
                     results + [ResultFor(node, depth, outgoing[k])], owner + [cur], disc, k + 1)
  {
    var rs := results + [ResultFor(node, depth, outgoing[k])];
    EntryPushed(store, config, start, reach, cur, node, depth, outgoing, queueLen, measure, queue, visited, results, owner, disc, k);
    assert rs[..|rs| - 1] == results;
    TargetSeen(queue, visited, start, config.maxDepth, rs, depth);
  }

  /** The state of the loop over the queue before entry `head`. */
  ghost predicate OuterInv(store: EdgeStore, config: StreamingConfig, start: nat, reach: set<nat>,
                           queue: seq<(nat, nat)>, visited: set<nat>, head: nat,
                           results: seq<StreamResult>, owner: seq<nat>, disc: seq<nat>) {
    reach == Reach(store, start) && QueueShape(queue, visited, start, config.maxDepth) && visited <= reach
    && (head < |queue| ==> DepthsAtMost(queue, queue[head].1 + 1))
    && Owned(store, config, queue, head, results, owner)
    && Discovered(queue, results, owner, disc) && TargetsQueued(queue, results)
    && ExpandedUpTo(store, config, queue, head, results)
    && (|results| < config.maxVisited || results == [])
  }

  /** An entry at `max_depth` is taken from the queue and not expanded. */
  lemma OuterSkip(store: EdgeStore, config: StreamingConfig, start: nat, reach: set<nat>,
                  queue: seq<(nat, nat)>, visited: set<nat>, head: nat, results: seq<StreamResult>, owner: seq<nat>, disc: seq<nat>)
    requires OuterInv(store, config, start, reach, queue, visited, head, results, owner, disc)
    requires head < |queue| && queue[head].1 >= config.maxDepth
    ensures OuterInv(store, config, start, reach, queue, visited, head + 1, results, owner, disc)
  {
    if head + 1 < |queue| {
      assert queue[head].1 <= queue[head + 1].1;
    }
  }

  /** Taking an entry below `max_depth` from the queue starts its
      expansion. */
  lemma OuterEnter(store: EdgeStore, config: StreamingConfig, start: nat, reach: set<nat>,
                   queue: seq<(nat, nat)>, visited: set<nat>, head: nat, results: seq<StreamResult>, owner: seq<nat>, disc: seq<nat>)
    requires OuterInv(store, config, start, reach, queue, visited, head, results, owner, disc)
    requires head < |queue| && queue[head].1 < config.maxDepth
    ensures EntryInv(store, config, start, reach, head, queue[head].0, queue[head].1, GetOutgoing(store, queue[head].0), |queue|,
                     |reach - visited| + |queue|, queue, visited, results, owner, disc, 0)
  {
  }

  /** Once every edge of the entry is handled, the loop over the queue
      moves on to the next entry. */
  lemma OuterResume(store: EdgeStore, config: StreamingConfig, start: nat, reach: set<nat>,
                    cur: nat, node: nat, depth: nat, outgoing: seq<GraphEdge>, queueLen: nat, measure: nat,
                    queue: seq<(nat, nat)>, visited: set<nat>, results: seq<StreamResult>, owner: seq<nat>, disc: seq<nat>)
    requires EntryInv(store, config, start, reach, cur, node, depth, outgoing, queueLen, measure, queue, visited, results, owner, disc,
                      |outgoing|)
    ensures OuterInv(store, config, start, reach, queue, visited, cur + 1, results, owner, disc)
  {
    EntryExpanded(store, config, queue, cur, results, node, outgoing);
    if cur + 1 < |queue| {
      assert queue[cur].1 <= queue[cur + 1].1;
    }
  }

  /** One outgoing edge of the entry under expansion: a label not
      admitted is passed over; otherwise a result is pushed, the target is
      queued when new, and the traversal stops once the results reach
      `max_visited`. */
  method ExpandEdge(store: EdgeStore, config: StreamingConfig, start: nat, node: nat, depth: nat, outgoing: seq<GraphEdge>, k: nat,
                    queue: seq<(nat, nat)>, visited: set<nat>, results: seq<StreamResult>,
                    ghost cur: nat, ghost owner: seq<nat>, ghost disc: seq<nat>, ghost reach: set<nat>,
                    ghost queueLen: nat, ghost measure: nat)
    returns (queue': seq<(nat, nat)>, visited': set<nat>, results': seq<StreamResult>, stopped: bool,
             ghost owner': seq<nat>, ghost disc': seq<nat>)
    requires k < |outgoing|
    requires EntryInv(store, config, start, reach, cur, node, depth, outgoing, queueLen, measure, queue, visited, results, owner, disc, k)
    ensures stopped ==> Stopped(store, config, start, queue', visited', cur + 1, results', owner', disc')
    ensures !stopped ==> EntryInv(store, config, start, reach, cur, node, depth, outgoing, queueLen, measure,
                                  queue', visited', results', owner', disc', k + 1)
    ensures queue <= queue' && visited <= visited'
    ensures !Admits(config.relationshipTypes, outgoing[k].lbl) ==> !stopped && results' == results
    ensures Admits(config.relationshipTypes, outgoing[k].lbl) ==> results' == results + [ResultFor(node, depth, outgoing[k])]
    ensures stopped ==> |results'| >= config.maxVisited
  {
    queue', visited', results', owner', disc' := queue, visited, results, owner, disc;
    stopped := false;
    var e := outgoing[k];
    if !Admits(config.relationshipTypes, e.lbl) {
      EntrySkip(store, config, start, reach, cur, node, depth, outgoing, queueLen, measure, queue, visited, results, owner, disc, k);
      return;
    }
    if |results| + 1 >= config.maxVisited {
      EntryStop(store, config, start, reach, cur, node, depth, outgoing, queueLen, measure, queue, visited, results, owner, disc, k);
      stopped := true;
    } else if e.target !in visited {
      EntryPushNew(store, config, start, reach, cur, node, depth, outgoing, queueLen, measure, queue, visited, results, owner, disc, k, e);
      visited' := visited + {e.target};
      queue' := queue + [(e.target, (depth + 1) as nat)];
      disc' := disc + [|results| as nat];
    } else {
      EntryPushSeen(store, config, start, reach, cur, node, depth, outgoing, queueLen, measure, queue, visited, results, owner, disc, k);
    }
    results' := results + [ResultFor(node, depth, e)];
    owner' := owner + [cur];
  }

  /** The loop over the outgoing edges of the entry just taken from the
      queue: a result per admitted edge, the target queued when new, and
      a stop as soon as the results reach `max_visited`. */
  method ExpandEntry(store: EdgeStore, config: StreamingConfig, start: nat, node: nat, depth: nat,
                     queue: seq<(nat, nat)>, visited: set<nat>, results: seq<StreamResult>,
                     ghost cur: nat, ghost owner: seq<nat>, ghost disc: seq<nat>, ghost reach: set<nat>)
    returns (queue': seq<(nat, nat)>, visited': set<nat>, results': seq<StreamResult>, stopped: bool,
             ghost owner': seq<nat>, ghost disc': seq<nat>)
    requires EntryInv(store, config, start, reach, cur, node, depth, GetOutgoing(store, node), |queue|, |reach - visited| + |queue|,
                      queue, visited, results, owner, disc, 0)
    ensures stopped ==> Stopped(store, config, start, queue', visited', cur + 1, results', owner', disc')
    ensures !stopped ==> EntryInv(store, config, start, reach, cur, node, depth, GetOutgoing(store, node), |queue|, |reach - visited| + |queue|,
                                  queue', visited', results', owner', disc', |GetOutgoing(store, node)|)
    ensures queue <= queue' && visited <= visited' && results <= results'
    ensures stopped ==> |results'| >= config.maxVisited
  {
    queue', visited', results', owner', disc' := queue, visited, results, owner, disc;
    stopped := false;
    ghost var queueLen, measure := |queue|, |reach - visited| + |queue|;
    var outgoing := GetOutgoing(store, node);
    var k := 0;
    while k < |outgoing| && !stopped
      invariant k <= |outgoing|
      invariant stopped ==> Stopped(store, config, start, queue', visited', cur + 1, results', owner', disc')
      invariant !stopped ==> EntryInv(store, config, start, reach, cur, node, depth, outgoing, queueLen, measure,
                                      queue', visited', results', owner', disc', k)
      invariant queue <= queue' && visited <= visited' && results <= results'
      invariant stopped ==> |results'| >= config.maxVisited
    {
      queue', visited', results', stopped, owner', disc' :=
        ExpandEdge(store, config, start, node, depth, outgoing, k, queue', visited', results', cur, owner', disc', reach, queueLen, measure);
      k := k + 1;
    }
  }

  /** The entry at `head`, below `max_depth`, taken from the queue and
      expanded. Unless the memory bound stops the traversal, the loop over
      the queue goes on with the next entry, and what is left to visit
      plus the queue length stays the same. */
  method ProcessEntry(store: EdgeStore, config: StreamingConfig, start: nat,
                      queue: seq<(nat, nat)>, visited: set<nat>, results: seq<StreamResult>, head: nat,
                      ghost owner: seq<nat>, ghost disc: seq<nat>, ghost reach: set<nat>)
    returns (queue': seq<(nat, nat)>, visited': set<nat>, results': seq<StreamResult>, stopped: bool,
             ghost owner': seq<nat>, ghost disc': seq<nat>)
    requires OuterInv(store, config, start, reach, queue, visited, head, results, owner, disc)
    requires head < |queue| && queue[head].1 < config.maxDepth
    ensures stopped ==> Stopped(store, config, start, queue', visited', head + 1, results', owner', disc')
    ensures !stopped ==> OuterInv(store, config, start, reach, queue', visited', head + 1, results', owner', disc')
    ensures !stopped ==> |reach - visited'| + |queue'| == |reach - visited| + |queue| && |queue'| >= |queue|
  {
    var (node, depth) := queue[head];
    OuterEnter(store, config, start, reach, queue, visited, head, results, owner, disc);
    queue', visited', results', stopped, owner', disc' := ExpandEntry(store, config, start, node, depth, queue, visited, results, head, owner, disc, reach);
    if !stopped {
      OuterResume(store, config, start, reach, head, node, depth, GetOutgoing(store, node), |queue|, |reach - visited| + |queue|,
                  queue', visited', results', owner', disc');
    }
  }

  /** `traverse_bfs_streaming`. The memory bound is checked right after a
      result is pushed, so `max_visited` of 0 still yields one result. */
  method TraverseBfsStreaming(store: EdgeStore, start: nat, config: StreamingConfig) returns (results: seq<StreamResult>)
    ensures |results| <= config.maxVisited || (config.maxVisited == 0 && |results| == 1)
    ensures forall i | 0 <= i < |results| ::
      1 <= results[i].depth <= config.maxDepth && Admits(config.relationshipTypes, results[i].lbl)
    ensures forall i | 0 <= i < |results| :: FromStore(store, results[i])
    ensures forall i | 0 <= i < |results| :: ReachedFrom(results, i, start)
    ensures forall i, j | 0 <= i < j < |results| :: results[i].depth <= results[j].depth
    ensures forall i, j, k | 0 <= i < j < k < |results| && results[i].source == results[k].source ::
      results[j].source == results[i].source
    ensures |results| < config.maxVisited || results == [] ==> Complete(store, start, config, results)
  {
    results := [];
    var visited := {start};
    var queue: seq<(nat, nat)> := [(start, 0)];
    var head := 0;
    ghost var owner: seq<nat> := [];
    ghost var disc: seq<nat> := [0];
    ghost var reach := Reach(store, start);
    while head < |queue|
      invariant head <= |queue|
      invariant OuterInv(store, config, start, reach, queue, visited, head, results, owner, disc)
      decreases |reach - visited|, |queue| - head
    {
      var (node, depth) := queue[head];
      if depth >= config.maxDepth {
        OuterSkip(store, config, start, reach, queue, visited, head, results, owner, disc);
        head := head + 1;
        continue;
      }
      var stopped;
      queue, visited, results, stopped, owner, disc := ProcessEntry(store, config, start, queue, visited, results, head, owner, disc, reach);
      if stopped {
        Shape(store, config, queue, visited, head + 1, start, results, owner, disc);
        return;
      }
      head := head + 1;
    }
    Shape(store, config, queue, visited, head, start, results, owner, disc);
    Completed(store, config, queue, visited, start, results);
  }
}
