/** `InMemoryEdgeStore`: graph nodes and edges by id, with four edge
    indices (outgoing by source, incoming by target, by label, and by
    source and label) kept in step by every operation. */
module EdgeStore {
  import opened Wrappers
  import opened Seqs

  /** A graph node; its properties play no part in the store's logic. */
  datatype GraphNode = GraphNode(id: nat, lbl: string)

  datatype GraphEdge = GraphEdge(id: nat, source: nat, target: nat, lbl: string)

  datatype StoreError = NodeExists(node: nat) | EdgeExists(edge: nat)

  datatype EdgeStore = EdgeStore(
    nodes: map<nat, GraphNode>,
    edges: map<nat, GraphEdge>,
    outgoing: map<nat, seq<nat>>,
    incoming: map<nat, seq<nat>>,
    byLabel: map<string, seq<nat>>,
    outByLabel: map<(nat, string), seq<nat>>)

  /** `new()`, and `with_capacity`, whose capacities are only hints. */
  function Empty(): (r: EdgeStore)
    ensures |r.nodes| == 0 && |r.edges| == 0 && Indexed(r)
  {
    EdgeStore(map[], map[], map[], map[], map[], map[])
  }

  // ---------------------------------------------------------------------
  // The index invariant, once for all four indices
  // ---------------------------------------------------------------------

  function SourceKey(e: GraphEdge): nat { e.source }
  function TargetKey(e: GraphEdge): nat { e.target }
  function LabelKey(e: GraphEdge): string { e.lbl }
  function SourceLabelKey(e: GraphEdge): (nat, string) { (e.source, e.lbl) }

  /** Every list of the index is duplicate-free and holds only ids of
      stored edges filed under their own key. */
  predicate Sound<K>(edges: map<nat, GraphEdge>, idx: map<K, seq<nat>>, key: GraphEdge -> K) {
    forall k | k in idx :: Distinct(idx[k]) && forall id | id in idx[k] :: id in edges && key(edges[id]) == k
  }

  /** Every stored edge whose key is not in `skip` is listed under its key. */
  predicate Listed<K>(edges: map<nat, GraphEdge>, idx: map<K, seq<nat>>, key: GraphEdge -> K, skip: set<K>) {
    forall id | id in edges && key(edges[id]) !in skip :: key(edges[id]) in idx && id in idx[key(edges[id])]
  }

  /** The index lists exactly the stored edges under their keys. */
  predicate Indexes<K>(edges: map<nat, GraphEdge>, idx: map<K, seq<nat>>, key: GraphEdge -> K) {
    Sound(edges, idx, key) && Listed(edges, idx, key, {})
  }

  /** The four indices agree with the edge map. */
  predicate Indexed(s: EdgeStore) {
    Indexes(s.edges, s.outgoing, SourceKey) &&
    Indexes(s.edges, s.incoming, TargetKey) &&
    Indexes(s.edges, s.byLabel, LabelKey) &&
    Indexes(s.edges, s.outByLabel, SourceLabelKey)
  }

  /** `entry(k).or_default().push(id)`. */
  function Push<K>(idx: map<K, seq<nat>>, k: K, id: nat): map<K, seq<nat>> {
    idx[k := (if k in idx then idx[k] else []) + [id]]
  }

  /** `if let Some(ids) = idx.get_mut(&k) { ids.retain(|&x| x != id) }`. */
  function RetainAt<K>(idx: map<K, seq<nat>>, k: K, id: nat): map<K, seq<nat>> {
    if k in idx then idx[k := RemoveAll(idx[k], id)] else idx
  }

  /** Filing a new edge under its key keeps the index sound. */
  lemma PushSound<K>(edges: map<nat, GraphEdge>, idx: map<K, seq<nat>>, key: GraphEdge -> K, e: GraphEdge)
    requires Sound(edges, idx, key) && e.id !in edges
    ensures Sound(edges[e.id := e], Push(idx, key(e), e.id), key)
  {
    var edges' := edges[e.id := e];
    var idx' := Push(idx, key(e), e.id);
    forall k | k in idx'
      ensures Distinct(idx'[k]) && forall id | id in idx'[k] :: id in edges' && key(edges'[id]) == key(edges'[id])
    {
      if k == key(e) && k in idx {
        AppendDistinct(idx[k], e.id);
      }
    }
  }

  /** ... and keeps every other edge listed. */
  lemma PushListed<K>(edges: map<nat, GraphEdge>, idx: map<K, seq<nat>>, key: GraphEdge -> K, skip: set<K>, e: GraphEdge)
    requires Listed(edges, idx, key, skip)
    ensures Listed(edges[e.id := e], Push(idx, key(e), e.id), key, skip)
  {
  }

  /** Removing an edge from the map and from the list under its key keeps
      the index sound ... */
  lemma RetainSound<K>(edges: map<nat, GraphEdge>, idx: map<K, seq<nat>>, key: GraphEdge -> K, id: nat)
    requires Sound(edges, idx, key) && id in edges
    ensures Sound(edges - {id}, RetainAt(idx, key(edges[id]), id), key)
  {
    var idx' := RetainAt(idx, key(edges[id]), id);
    forall k | k in idx'
      ensures Distinct(idx'[k]) && id !in idx'[k]
    {
      if k == key(edges[id]) {
        RemoveAllDistinct(idx[k], id);
      }
    }
  }

  /** ... keeps the other edges listed ... */
  lemma RetainListed<K>(edges: map<nat, GraphEdge>, idx: map<K, seq<nat>>, key: GraphEdge -> K, skip: set<K>, id: nat)
    requires Listed(edges, idx, key, skip) && id in edges
    ensures Listed(edges - {id}, RetainAt(idx, key(edges[id]), id), key, skip)
  {
  }

  /** ... and leaves the id in no list of the index. */
  lemma RetainUnlists<K>(edges: map<nat, GraphEdge>, idx: map<K, seq<nat>>, key: GraphEdge -> K, id: nat)
    requires Sound(edges, idx, key) && id in edges
    ensures forall k | k in RetainAt(idx, key(edges[id]), id) :: id !in RetainAt(idx, key(edges[id]), id)[k]
  {
  }

  /** Dropping an edge whose key has no list leaves the index sound. */
  lemma DropUnfiledSound<K>(edges: map<nat, GraphEdge>, idx: map<K, seq<nat>>, key: GraphEdge -> K, id: nat)
    requires Sound(edges, idx, key) && id in edges && key(edges[id]) !in idx
    ensures Sound(edges - {id}, idx, key)
  {
  }

  /** Dropping the list under `k` keeps the index sound and every edge
      with another key listed. */
  lemma DropKey<K>(edges: map<nat, GraphEdge>, idx: map<K, seq<nat>>, key: GraphEdge -> K, k: K)
    requires Indexes(edges, idx, key)
    ensures Sound(edges, idx - {k}, key) && Listed(edges, idx - {k}, key, {k})
  {
  }

  /** Once no edge has key `k`, skipping `k` is no exception. */
  lemma Unskip<K>(edges: map<nat, GraphEdge>, idx: map<K, seq<nat>>, key: GraphEdge -> K, k: K)
    requires Listed(edges, idx, key, {k})
    requires forall id | id in edges :: key(edges[id]) != k
    ensures Listed(edges, idx, key, {})
  {
  }

  // ---------------------------------------------------------------------
  // Nodes
  // ---------------------------------------------------------------------

  /** `add_node`: a duplicate id is an error and leaves the store as it
      was. */
  function AddNode(s: EdgeStore, node: GraphNode): (r: Result<EdgeStore, StoreError>)
    ensures node.id in s.nodes <==> r == Failure(NodeExists(node.id))
    ensures r.Success? ==> r.value == s.(nodes := s.nodes[node.id := node])
  {
    if node.id in s.nodes then Failure(NodeExists(node.id))
    else Success(s.(nodes := s.nodes[node.id := node]))
  }

  function GetNode(s: EdgeStore, id: nat): (r: Option<GraphNode>)
    ensures r.Some? <==> HasNode(s, id)
  {
    if id in s.nodes then Some(s.nodes[id]) else None
  }

  predicate HasNode(s: EdgeStore, id: nat) {
    id in s.nodes
  }

  function NodeCount(s: EdgeStore): nat {
    |s.nodes|
  }

  /** `get_nodes_by_label`, as the set of matching nodes (the source lists
      them in hash-map order). */
  function NodesByLabel(s: EdgeStore, lbl: string): (r: set<GraphNode>)
    ensures forall n :: n in r <==> n in s.nodes.Values && n.lbl == lbl
  {
    set n | n in s.nodes.Values && n.lbl == lbl
  }

  /** `remove_node`: an absent node gives `None` and changes nothing;
      otherwise the node goes, with every edge at either end of it. */
  function RemoveNode(s: EdgeStore, id: nat): (r: (EdgeStore, Option<GraphNode>))
    ensures r.1.Some? <==> id in s.nodes
    ensures r.1.None? ==> r.0 == s
    ensures r.1.Some? ==> r.1.value == s.nodes[id] && r.0.nodes == s.nodes - {id}
  {
    if id !in s.nodes then (s, None)
    else (RemoveNodeEdges(s.(nodes := s.nodes - {id}), id), Some(s.nodes[id]))
  }

  // ---------------------------------------------------------------------
  // Edges
  // ---------------------------------------------------------------------

  /** `add_edge`: a duplicate id is an error; otherwise the edge is stored
      and its id appended to the four indices. Its end nodes need not
      exist. */
  function AddEdge(s: EdgeStore, e: GraphEdge): (r: Result<EdgeStore, StoreError>)
    ensures e.id in s.edges <==> r == Failure(EdgeExists(e.id))
    ensures r.Success? ==> r.value.nodes == s.nodes && r.value.edges == s.edges[e.id := e]
    ensures r.Success? ==>
              e.source in r.value.outgoing && e.id in r.value.outgoing[e.source] &&
              e.target in r.value.incoming && e.id in r.value.incoming[e.target] &&
              e.lbl in r.value.byLabel && e.id in r.value.byLabel[e.lbl] &&
              (e.source, e.lbl) in r.value.outByLabel && e.id in r.value.outByLabel[(e.source, e.lbl)]
  {
    if e.id in s.edges then Failure(EdgeExists(e.id))
    else Success(EdgeStore(
      s.nodes,
      s.edges[e.id := e],
      Push(s.outgoing, e.source, e.id),
      Push(s.incoming, e.target, e.id),
      Push(s.byLabel, e.lbl, e.id),
      Push(s.outByLabel, (e.source, e.lbl), e.id)))
  }

  function GetEdge(s: EdgeStore, id: nat): (r: Option<GraphEdge>)
    ensures r.Some? <==> HasEdge(s, id)
  {
    if id in s.edges then Some(s.edges[id]) else None
  }

  predicate HasEdge(s: EdgeStore, id: nat) {
    id in s.edges
  }

  function EdgeCount(s: EdgeStore): nat {
    |s.edges|
  }

  /** `ids.iter().filter_map(|id| edges.get(id))`: the stored edges of a
      list, in list order. */
  function EdgesOf(edges: map<nat, GraphEdge>, ids: seq<nat>): (r: seq<GraphEdge>)
    ensures |r| <= |ids|
    ensures forall e | e in r :: e in edges.Values
  {
    if |ids| == 0 then []
    else if ids[0] in edges then [edges[ids[0]]] + EdgesOf(edges, ids[1..])
    else EdgesOf(edges, ids[1..])
  }

  /** The list under `k`, or the empty list. */
  function ListAt<K>(idx: map<K, seq<nat>>, k: K): seq<nat> {
    if k in idx then idx[k] else []
  }

  function GetOutgoing(s: EdgeStore, n: nat): seq<GraphEdge> {
    EdgesOf(s.edges, ListAt(s.outgoing, n))
  }

  function GetIncoming(s: EdgeStore, n: nat): seq<GraphEdge> {
    EdgesOf(s.edges, ListAt(s.incoming, n))
  }

  function GetOutgoingByLabel(s: EdgeStore, n: nat, lbl: string): seq<GraphEdge> {
    EdgesOf(s.edges, ListAt(s.outByLabel, (n, lbl)))
  }

  function GetEdgesByLabel(s: EdgeStore, lbl: string): seq<GraphEdge> {
    EdgesOf(s.edges, ListAt(s.byLabel, lbl))
  }

  /** `out_degree`: the length of the outgoing list, 0 when there is none. */
  function OutDegree(s: EdgeStore, n: nat): nat {
    |ListAt(s.outgoing, n)|
  }

  /** `in_degree`. */
  function InDegree(s: EdgeStore, n: nat): nat {
    |ListAt(s.incoming, n)|
  }

  /** `remove_edge`: an absent edge gives `None` and changes nothing;
      otherwise the edge leaves the map and the list under its key in each
      index. */
  function RemoveEdge(s: EdgeStore, id: nat): (r: (EdgeStore, Option<GraphEdge>))
    ensures r.1.Some? <==> id in s.edges
    ensures r.1.None? ==> r.0 == s
    ensures r.1.Some? ==> r.1.value == s.edges[id] && r.0.edges == s.edges - {id} && r.0.nodes == s.nodes
  {
    if id !in s.edges then (s, None)
    else
      var e := s.edges[id];
      (EdgeStore(
        s.nodes,
        s.edges - {id},
        RetainAt(s.outgoing, e.source, id),
        RetainAt(s.incoming, e.target, id),
        RetainAt(s.byLabel, e.lbl, id),
        RetainAt(s.outByLabel, (e.source, e.lbl), id)), Some(e))
  }

  /** `clear`. */
  function Clear(s: EdgeStore): (r: EdgeStore)
    ensures |r.nodes| == 0 && |r.edges| == 0
    ensures |r.outgoing| == 0 && |r.incoming| == 0 && |r.byLabel| == 0 && |r.outByLabel| == 0
    ensures Indexed(r)
  {
    Empty()
  }

  // ---------------------------------------------------------------------
  // Cascade delete
  // ---------------------------------------------------------------------

  /** One turn of the first loop of `remove_node_edges`: a still-stored
      edge leaves the map, its target's incoming list, its label list and
      the node's list for that label. */
  function OutNext(s: EdgeStore, node: nat, id: nat): (r: EdgeStore)
    ensures r.nodes == s.nodes && r.outgoing == s.outgoing
    ensures r.edges == s.edges - {id}
  {
    if id !in s.edges then s
    else
      var e := s.edges[id];
      s.(edges := s.edges - {id},
         incoming := RetainAt(s.incoming, e.target, id),
         byLabel := RetainAt(s.byLabel, e.lbl, id),
         outByLabel := RetainAt(s.outByLabel, (node, e.lbl), id))
  }

  /** The first loop, over the node's former outgoing list. */
  function DropOutgoing(s: EdgeStore, node: nat, ids: seq<nat>): (r: EdgeStore)
    ensures r.nodes == s.nodes
    decreases |ids|
  {
    if |ids| == 0 then s else DropOutgoing(OutNext(s, node, ids[0]), node, ids[1..])
  }

  /** One turn of the second loop: a still-stored edge leaves the map, its
      source's outgoing list, its label list and its source's list for
      that label. */
  function InNext(s: EdgeStore, id: nat): (r: EdgeStore)
    ensures r.nodes == s.nodes && r.incoming == s.incoming
    ensures r.edges == s.edges - {id}
  {
    if id !in s.edges then s
    else
      var e := s.edges[id];
      s.(edges := s.edges - {id},
         outgoing := RetainAt(s.outgoing, e.source, id),
         byLabel := RetainAt(s.byLabel, e.lbl, id),
         outByLabel := RetainAt(s.outByLabel, (e.source, e.lbl), id))
  }

  /** The second loop, over the node's former incoming list. */
  function DropIncoming(s: EdgeStore, ids: seq<nat>): (r: EdgeStore)
    ensures r.nodes == s.nodes
    decreases |ids|
  {
    if |ids| == 0 then s else DropIncoming(InNext(s, ids[0]), ids[1..])
  }

  /** `remove_node_edges`: take the node's outgoing and incoming lists out
      of their indices, then run the two loops. */
  function RemoveNodeEdges(s: EdgeStore, node: nat): (r: EdgeStore)
    ensures r.nodes == s.nodes
  {
    var outIds := ListAt(s.outgoing, node);
    var inIds := ListAt(s.incoming, node);
    var s1 := s.(outgoing := s.outgoing - {node}, incoming := s.incoming - {node});
    DropIncoming(DropOutgoing(s1, node, outIds), inIds)
  }

  /** The edges that touch neither end at `node`. */
  function EdgesAvoiding(edges: map<nat, GraphEdge>, node: nat): map<nat, GraphEdge> {
    map id | id in edges && edges[id].source != node && edges[id].target != node :: edges[id]
  }

  /** The invariant of the first loop: the node's two lists are gone, the
      other indices are exact, and the edges still leaving the node are
      among the ids left to visit. */
  predicate OutPhase(s: EdgeStore, node: nat, ids: seq<nat>) {
    node !in s.outgoing && node !in s.incoming &&
    Sound(s.edges, s.outgoing, SourceKey) && Listed(s.edges, s.outgoing, SourceKey, {node}) &&
    Sound(s.edges, s.incoming, TargetKey) && Listed(s.edges, s.incoming, TargetKey, {node}) &&
    Indexes(s.edges, s.byLabel, LabelKey) && Indexes(s.edges, s.outByLabel, SourceLabelKey) &&
    (forall id | id in ids && id in s.edges :: s.edges[id].source == node) &&
    (forall id | id in s.edges && s.edges[id].source == node :: id in ids)
  }

  /** The invariant of the second loop: no edge leaves the node any more,
      and the edges still entering it are among the ids left to visit. */
  predicate InPhase(s: EdgeStore, node: nat, ids: seq<nat>) {
    node !in s.incoming &&
    Indexes(s.edges, s.outgoing, SourceKey) &&
    Sound(s.edges, s.incoming, TargetKey) && Listed(s.edges, s.incoming, TargetKey, {node}) &&
    Indexes(s.edges, s.byLabel, LabelKey) && Indexes(s.edges, s.outByLabel, SourceLabelKey) &&
    (forall id | id in s.edges :: s.edges[id].source != node) &&
    (forall id | id in ids && id in s.edges :: s.edges[id].target == node) &&
    (forall id | id in s.edges && s.edges[id].target == node :: id in ids)
  }

  /** One turn of the first loop keeps its invariant. */
  lemma OutStep(s: EdgeStore, node: nat, ids: seq<nat>)
    requires |ids| > 0 && OutPhase(s, node, ids)
    ensures OutPhase(OutNext(s, node, ids[0]), node, ids[1..])
  {
    var id := ids[0];
    if id in s.edges {
      var e := s.edges[id];
      assert SourceLabelKey(e) == (node, e.lbl);
      DropUnfiledSound(s.edges, s.outgoing, SourceKey, id);
      RetainSound(s.edges, s.incoming, TargetKey, id);
      RetainListed(s.edges, s.incoming, TargetKey, {node}, id);
      RetainSound(s.edges, s.byLabel, LabelKey, id);
      RetainListed(s.edges, s.byLabel, LabelKey, {}, id);
      RetainSound(s.edges, s.outByLabel, SourceLabelKey, id);
      RetainListed(s.edges, s.outByLabel, SourceLabelKey, {}, id);
    }
    assert forall x | x in ids && x != id :: x in ids[1..];
  }

  /** One turn of the second loop keeps its invariant. */
  lemma InStep(s: EdgeStore, node: nat, ids: seq<nat>)
    requires |ids| > 0 && InPhase(s, node, ids)
    ensures InPhase(InNext(s, ids[0]), node, ids[1..])
  {
    var id := ids[0];
    if id in s.edges {
      var e := s.edges[id];
      assert TargetKey(e) == node;
      DropUnfiledSound(s.edges, s.incoming, TargetKey, id);
      RetainSound(s.edges, s.outgoing, SourceKey, id);
      RetainListed(s.edges, s.outgoing, SourceKey, {}, id);
      RetainSound(s.edges, s.byLabel, LabelKey, id);
      RetainListed(s.edges, s.byLabel, LabelKey, {}, id);
      RetainSound(s.edges, s.outByLabel, SourceLabelKey, id);
      RetainListed(s.edges, s.outByLabel, SourceLabelKey, {}, id);
    }
    assert forall x | x in ids && x != id :: x in ids[1..];
  }

  /** The first loop keeps its invariant to the end, where no edge leaves
      the node. */
  lemma {:induction false} DropOutgoingPhase(s: EdgeStore, node: nat, ids: seq<nat>)
    requires OutPhase(s, node, ids)
    ensures OutPhase(DropOutgoing(s, node, ids), node, [])
    decreases |ids|
  {
    if |ids| > 0 {
      OutStep(s, node, ids);
      DropOutgoingPhase(OutNext(s, node, ids[0]), node, ids[1..]);
    }
  }

  /** The first loop drops only edges listed in `ids`. */
  lemma {:induction false} DropOutgoingKeeps(s: EdgeStore, node: nat, ids: seq<nat>)
    ensures var r := DropOutgoing(s, node, ids);
            forall id | id in s.edges && id !in ids :: id in r.edges && r.edges[id] == s.edges[id]
    ensures var r := DropOutgoing(s, node, ids);
            forall id | id in r.edges :: id in s.edges && r.edges[id] == s.edges[id]
    decreases |ids|
  {
    if |ids| > 0 {
      DropOutgoingKeeps(OutNext(s, node, ids[0]), node, ids[1..]);
    }
  }

  /** The second loop keeps its invariant to the end, where no edge enters
      the node. */
  lemma {:induction false} DropIncomingPhase(s: EdgeStore, node: nat, ids: seq<nat>)
    requires InPhase(s, node, ids)
    ensures InPhase(DropIncoming(s, ids), node, [])
    decreases |ids|
  {
    if |ids| > 0 {
      InStep(s, node, ids);
      DropIncomingPhase(InNext(s, ids[0]), node, ids[1..]);
    }
  }

  /** The second loop drops only edges listed in `ids`. */
  lemma {:induction false} DropIncomingKeeps(s: EdgeStore, ids: seq<nat>)
    ensures var r := DropIncoming(s, ids);
            forall id | id in s.edges && id !in ids :: id in r.edges && r.edges[id] == s.edges[id]
    ensures var r := DropIncoming(s, ids);
            forall id | id in r.edges :: id in s.edges && r.edges[id] == s.edges[id]
    decreases |ids|
  {
    if |ids| > 0 {
      DropIncomingKeeps(InNext(s, ids[0]), ids[1..]);
    }
  }

  /** The first loop starts with its invariant: the node's outgoing list
      holds exactly the edges leaving it. */
  lemma OutPhaseStarts(s: EdgeStore, node: nat)
    requires Indexed(s)
    ensures OutPhase(s.(outgoing := s.outgoing - {node}, incoming := s.incoming - {node}), node, ListAt(s.outgoing, node))
  {
    DropKey(s.edges, s.outgoing, SourceKey, node);
    DropKey(s.edges, s.incoming, TargetKey, node);
  }

  /** Between the loops: with no edge left leaving the node, the second
      loop starts with its invariant. */
  lemma InPhaseStarts(s: EdgeStore, s2: EdgeStore, node: nat)
    requires Indexed(s) && OutPhase(s2, node, [])
    requires forall id | id in s2.edges :: id in s.edges && s2.edges[id] == s.edges[id]
    ensures InPhase(s2, node, ListAt(s.incoming, node))
  {
    Unskip(s2.edges, s2.outgoing, SourceKey, node);
  }

  /** Cascade delete keeps the four indices exact. */
  lemma RemoveNodeEdgesIndexed(s: EdgeStore, node: nat)
    requires Indexed(s)
    ensures Indexed(RemoveNodeEdges(s, node))
  {
    var outIds := ListAt(s.outgoing, node);
    var inIds := ListAt(s.incoming, node);
    var s1 := s.(outgoing := s.outgoing - {node}, incoming := s.incoming - {node});
    OutPhaseStarts(s, node);
    DropOutgoingPhase(s1, node, outIds);
    DropOutgoingKeeps(s1, node, outIds);
    var s2 := DropOutgoing(s1, node, outIds);
    InPhaseStarts(s, s2, node);
    DropIncomingPhase(s2, node, inIds);
    var s3 := DropIncoming(s2, inIds);
    Unskip(s3.edges, s3.incoming, TargetKey, node);
  }

  /** After cascade delete no stored edge touches the node. */
  lemma RemoveNodeEdgesAvoids(s: EdgeStore, node: nat)
    requires Indexed(s)
    ensures forall id | id in RemoveNodeEdges(s, node).edges ::
              RemoveNodeEdges(s, node).edges[id].source != node && RemoveNodeEdges(s, node).edges[id].target != node
  {
    var outIds := ListAt(s.outgoing, node);
    var inIds := ListAt(s.incoming, node);
    var s1 := s.(outgoing := s.outgoing - {node}, incoming := s.incoming - {node});
    OutPhaseStarts(s, node);
    DropOutgoingPhase(s1, node, outIds);
    DropOutgoingKeeps(s1, node, outIds);
    var s2 := DropOutgoing(s1, node, outIds);
    InPhaseStarts(s, s2, node);
    DropIncomingPhase(s2, node, inIds);
  }

  /** Cascade delete keeps, unchanged, every edge that does not touch the
      node, and adds none. */
  lemma RemoveNodeEdgesKeeps(s: EdgeStore, node: nat)
    requires Indexed(s)
    ensures var r := RemoveNodeEdges(s, node);
            forall id | id in r.edges :: id in s.edges && r.edges[id] == s.edges[id]
    ensures var r := RemoveNodeEdges(s, node);
            forall id | id in s.edges && s.edges[id].source != node && s.edges[id].target != node :: id in r.edges
  {
    var outIds := ListAt(s.outgoing, node);
    var inIds := ListAt(s.incoming, node);
    var s1 := s.(outgoing := s.outgoing - {node}, incoming := s.incoming - {node});
    DropOutgoingKeeps(s1, node, outIds);
    var s2 := DropOutgoing(s1, node, outIds);
    DropIncomingKeeps(s2, inIds);
    assert forall id | id in s.edges && id in outIds :: s.edges[id].source == node;
    assert forall id | id in s.edges && id in inIds :: s.edges[id].target == node;
  }

  /** Cascade delete keeps exactly the edges that touch neither end at the
      node. */
  lemma RemoveNodeEdgesDropsIncident(s: EdgeStore, node: nat)
    requires Indexed(s)
    ensures RemoveNodeEdges(s, node).edges == EdgesAvoiding(s.edges, node)
  {
    RemoveNodeEdgesAvoids(s, node);
    RemoveNodeEdgesKeeps(s, node);
    var r := RemoveNodeEdges(s, node).edges;
    assert r.Keys == EdgesAvoiding(s.edges, node).Keys;
  }

  /** `remove_node` of a stored node removes it with every edge at either
      end of it, and keeps the indices exact. */
  lemma RemoveNodeCascades(s: EdgeStore, node: nat)
    requires Indexed(s) && node in s.nodes
    ensures var r := RemoveNode(s, node).0;
            Indexed(r) && r.nodes == s.nodes - {node} && r.edges == EdgesAvoiding(s.edges, node)
  {
    var s0 := s.(nodes := s.nodes - {node});
    RemoveNodeEdgesIndexed(s0, node);
    RemoveNodeEdgesDropsIncident(s0, node);
  }

  /** `add_edge` of a new id keeps the four indices exact. */
  lemma AddEdgeKeepsIndexed(s: EdgeStore, e: GraphEdge)
    requires Indexed(s) && e.id !in s.edges
    ensures AddEdge(s, e).Success? && Indexed(AddEdge(s, e).value)
  {
    PushSound(s.edges, s.outgoing, SourceKey, e);
    PushListed(s.edges, s.outgoing, SourceKey, {}, e);
    PushSound(s.edges, s.incoming, TargetKey, e);
    PushListed(s.edges, s.incoming, TargetKey, {}, e);
    PushSound(s.edges, s.byLabel, LabelKey, e);
    PushListed(s.edges, s.byLabel, LabelKey, {}, e);
    PushSound(s.edges, s.outByLabel, SourceLabelKey, e);
    PushListed(s.edges, s.outByLabel, SourceLabelKey, {}, e);
  }

  /** `remove_edge` of a stored edge keeps the four indices exact. */
  lemma RemoveEdgeKeepsIndexed(s: EdgeStore, id: nat)
    requires Indexed(s)
    ensures Indexed(RemoveEdge(s, id).0)
  {
    if id in s.edges {
      RetainSound(s.edges, s.outgoing, SourceKey, id);
      RetainListed(s.edges, s.outgoing, SourceKey, {}, id);
      RetainSound(s.edges, s.incoming, TargetKey, id);
      RetainListed(s.edges, s.incoming, TargetKey, {}, id);
      RetainSound(s.edges, s.byLabel, LabelKey, id);
      RetainListed(s.edges, s.byLabel, LabelKey, {}, id);
      RetainSound(s.edges, s.outByLabel, SourceLabelKey, id);
      RetainListed(s.edges, s.outByLabel, SourceLabelKey, {}, id);
    }
  }

  /** After `remove_edge` the id is in none of the four indices. */
  lemma RemoveEdgeUnlists(s: EdgeStore, id: nat)
    requires Indexed(s)
    ensures var r := RemoveEdge(s, id).0;
            (forall k | k in r.outgoing :: id !in r.outgoing[k]) &&
            (forall k | k in r.incoming :: id !in r.incoming[k]) &&
            (forall k | k in r.byLabel :: id !in r.byLabel[k]) &&
            (forall k | k in r.outByLabel :: id !in r.outByLabel[k])
  {
    if id in s.edges {
      RetainUnlists(s.edges, s.outgoing, SourceKey, id);
      RetainUnlists(s.edges, s.incoming, TargetKey, id);
      RetainUnlists(s.edges, s.byLabel, LabelKey, id);
      RetainUnlists(s.edges, s.outByLabel, SourceLabelKey, id);
    }
  }

  /** The stored edges with key `k`. */
  function EdgesWithKey<K(==)>(edges: map<nat, GraphEdge>, key: GraphEdge -> K, k: K): set<nat> {
    set id | id in edges && key(edges[id]) == k
  }

  /** An exact index lists, under `k`, every edge with key `k` once. */
  lemma ListCountsKey<K>(edges: map<nat, GraphEdge>, idx: map<K, seq<nat>>, key: GraphEdge -> K, k: K)
    requires Indexes(edges, idx, key)
    ensures |ListAt(idx, k)| == |EdgesWithKey(edges, key, k)|
  {
    var l := ListAt(idx, k);
    assert Elems(l) == EdgesWithKey(edges, key, k);
    if k in idx {
      DistinctCard(l);
    }
  }

  /** `out_degree` counts the stored edges leaving the node. */
  lemma OutDegreeCountsEdges(s: EdgeStore, n: nat)
    requires Indexed(s)
    ensures OutDegree(s, n) == |set id | id in s.edges && s.edges[id].source == n|
  {
    ListCountsKey(s.edges, s.outgoing, SourceKey, n);
    assert EdgesWithKey(s.edges, SourceKey, n) == set id | id in s.edges && s.edges[id].source == n;
  }

  /** `in_degree` counts the stored edges entering the node. */
  lemma InDegreeCountsEdges(s: EdgeStore, n: nat)
    requires Indexed(s)
    ensures InDegree(s, n) == |set id | id in s.edges && s.edges[id].target == n|
  {
    ListCountsKey(s.edges, s.incoming, TargetKey, n);
    assert EdgesWithKey(s.edges, TargetKey, n) == set id | id in s.edges && s.edges[id].target == n;
  }

  /** When every listed id is stored, `filter_map` drops nothing. */
  lemma {:induction false} EdgesOfAllStored(edges: map<nat, GraphEdge>, ids: seq<nat>)
    requires forall id | id in ids :: id in edges
    ensures |EdgesOf(edges, ids)| == |ids|
    ensures forall i | 0 <= i < |ids| :: EdgesOf(edges, ids)[i] == edges[ids[i]]
  {
    if |ids| > 0 {
      EdgesOfAllStored(edges, ids[1..]);
    }
  }

  /** `get_outgoing` returns one stored edge per outgoing entry, each
      leaving the node. */
  lemma GetOutgoingLeaves(s: EdgeStore, n: nat)
    requires Indexed(s)
    ensures |GetOutgoing(s, n)| == OutDegree(s, n)
    ensures forall e | e in GetOutgoing(s, n) :: e.source == n && e in s.edges.Values
  {
    EdgesOfAllStored(s.edges, ListAt(s.outgoing, n));
  }

  /** `get_incoming` returns one stored edge per incoming entry, each
      entering the node. */
  lemma GetIncomingEnters(s: EdgeStore, n: nat)
    requires Indexed(s)
    ensures |GetIncoming(s, n)| == InDegree(s, n)
    ensures forall e | e in GetIncoming(s, n) :: e.target == n && e in s.edges.Values
  {
    EdgesOfAllStored(s.edges, ListAt(s.incoming, n));
  }

  /** `get_outgoing_by_label` returns the stored edges leaving the node
      with that label. */
  lemma GetOutgoingByLabelMatches(s: EdgeStore, n: nat, lbl: string)
    requires Indexed(s)
    ensures forall e | e in GetOutgoingByLabel(s, n, lbl) :: e.source == n && e.lbl == lbl && e in s.edges.Values
    ensures |GetOutgoingByLabel(s, n, lbl)| == |EdgesWithKey(s.edges, SourceLabelKey, (n, lbl))|
  {
    EdgesOfAllStored(s.edges, ListAt(s.outByLabel, (n, lbl)));
    ListCountsKey(s.edges, s.outByLabel, SourceLabelKey, (n, lbl));
  }

  /** `get_edges_by_label` returns the stored edges with that label, one
      per edge. */
  lemma GetEdgesByLabelMatches(s: EdgeStore, lbl: string)
    requires Indexed(s)
    ensures forall e | e in GetEdgesByLabel(s, lbl) :: e.lbl == lbl && e in s.edges.Values
    ensures |GetEdgesByLabel(s, lbl)| == |EdgesWithKey(s.edges, LabelKey, lbl)|
  {
    EdgesOfAllStored(s.edges, ListAt(s.byLabel, lbl));
    ListCountsKey(s.edges, s.byLabel, LabelKey, lbl);
  }
}
