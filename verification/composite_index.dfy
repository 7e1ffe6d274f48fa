/** Composite graph indexes: hash indexes on a label and an ordered list
    of properties, keyed by a 64-bit hash of the property values, and the
    manager that keeps them by name and updates them as nodes come and go.
    The hash (`DefaultHasher` over each value's JSON text) is a parameter;
    values whose hashes collide share one list of node ids. */
module CompositeIndex {
  import opened Wrappers
  import opened Seqs
  import opened Json

  /** `hash_values`: the hash of a list of property values. */
  type Hasher = seq<Json> -> nat

  /** `CompositeIndexType`: recorded, not acted on. */
  datatype IndexType = Hash | Range

  /** `CompositeGraphIndex`: node ids by the hash of their values. */
  datatype CompositeGraphIndex = CompositeGraphIndex(
    nodeLabel: string, properties: seq<string>, indexType: IndexType, buckets: map<nat, seq<nat>>)

  /** No hash maps to an empty list: `remove` drops lists that empty. */
  predicate ValidComposite(idx: CompositeGraphIndex) {
    forall k | k in idx.buckets :: |idx.buckets[k]| > 0
  }

  /** `new`: an index with no entries. */
  function NewComposite(nodeLabel: string, properties: seq<string>, indexType: IndexType): (r: CompositeGraphIndex)
    ensures ValidComposite(r) && Cardinality(r) == 0
    ensures r.nodeLabel == nodeLabel && r.properties == properties
  {
    CompositeGraphIndex(nodeLabel, properties, indexType, map[])
  }

  /** `cardinality`: the number of distinct hashes. */
  function Cardinality(idx: CompositeGraphIndex): nat {
    |idx.buckets|
  }

  /** Whether a list of values has one value per indexed property. */
  predicate Arity(idx: CompositeGraphIndex, values: seq<Json>) {
    |values| == |idx.properties|
  }

  /** `covers`: the label matches and every requested property is one of
      the indexed properties, in any order. */
  predicate Covers(idx: CompositeGraphIndex, nodeLabel: string, properties: seq<string>) {
    idx.nodeLabel == nodeLabel && forall p | p in properties :: p in idx.properties
  }

  /** An index covers its own properties, any part of them, in any order,
      and nothing under another label. */
  lemma CoversSubsets(idx: CompositeGraphIndex, nodeLabel: string, properties: seq<string>)
    ensures Covers(idx, idx.nodeLabel, idx.properties)
    ensures Covers(idx, idx.nodeLabel, [])
    ensures nodeLabel != idx.nodeLabel ==> !Covers(idx, nodeLabel, properties)
    ensures (forall p | p in properties :: p in idx.properties) ==> Covers(idx, idx.nodeLabel, properties)
  {
  }

  /** `lookup`: the ids under the values' hash; none for a list of the
      wrong length. */
  function Lookup(idx: CompositeGraphIndex, values: seq<Json>, hash: Hasher): (r: seq<nat>)
    ensures !Arity(idx, values) ==> r == []
    ensures ValidComposite(idx) && Arity(idx, values) ==> (r == [] <==> hash(values) !in idx.buckets)
  {
    if !Arity(idx, values) then []
    else
      var key := hash(values);
      if key in idx.buckets then idx.buckets[key] else []
  }

  /** `insert`: appends the id to the list under the values' hash; a list
      of the wrong length is ignored. */
  function Insert(idx: CompositeGraphIndex, id: nat, values: seq<Json>, hash: Hasher): (r: CompositeGraphIndex)
    ensures ValidComposite(idx) ==> ValidComposite(r)
    ensures r.nodeLabel == idx.nodeLabel && r.properties == idx.properties && r.indexType == idx.indexType
    ensures !Arity(idx, values) ==> r == idx
    ensures Arity(idx, values) ==> forall probe | Arity(idx, probe) ::
      Lookup(r, probe, hash) == Lookup(idx, probe, hash) + (if hash(probe) == hash(values) then [id] else [])
    ensures Arity(idx, values) ==>
      Cardinality(r) == Cardinality(idx) + (if hash(values) in idx.buckets then 0 else 1)
  {
    if !Arity(idx, values) then idx
    else
      var key := hash(values);
      var list := if key in idx.buckets then idx.buckets[key] else [];
      idx.(buckets := idx.buckets[key := list + [id]])
  }

  /** The first occurrence of an id taken out of a list by
      `swap_remove`. */
  function TakeOut(list: seq<nat>, id: nat): (r: seq<nat>)
    requires id in list
    ensures multiset(r) == multiset(list) - multiset{id}
    ensures |r| == |list| - 1
  {
    SwapRemove(list, IndexOf(list, id))
  }

  /** An id appended to a list that lacked it is the one taken out, and
      `swap_remove` of the last element just pops it. */
  lemma TakeOutAppended(list: seq<nat>, id: nat)
    requires id !in list
    ensures TakeOut(list + [id], id) == list
  {
    var s := list + [id];
    var pos := IndexOf(s, id);
    assert forall i | 0 <= i < |list| :: s[i] == list[i];
    assert pos == |list|;
    assert s[..|s| - 1] == list;
  }

  /** `remove`: takes the id out of the list under the values' hash,
      dropping the list when it empties; reports whether the id was
      there. */
  function Remove(idx: CompositeGraphIndex, id: nat, values: seq<Json>, hash: Hasher): (r: (CompositeGraphIndex, bool))
    requires ValidComposite(idx)
    ensures ValidComposite(r.0)
    ensures r.0.nodeLabel == idx.nodeLabel && r.0.properties == idx.properties && r.0.indexType == idx.indexType
    ensures r.1 <==> id in Lookup(idx, values, hash)
    ensures !r.1 ==> r.0 == idx
  {
    if !Arity(idx, values) then (idx, false)
    else
      var key := hash(values);
      if key !in idx.buckets || id !in idx.buckets[key] then (idx, false)
      else
        var list := TakeOut(idx.buckets[key], id);
        if |list| == 0 then (idx.(buckets := idx.buckets - {key}), true)
        else (idx.(buckets := idx.buckets[key := list]), true)
  }

  /** A removal changes only the list under the values' hash: one
      occurrence of the id leaves it, and the hash goes when the id was
      its last id. */
  lemma RemoveLookups(idx: CompositeGraphIndex, id: nat, values: seq<Json>, hash: Hasher)
    requires ValidComposite(idx)
    ensures forall probe | hash(probe) != hash(values) ::
      Lookup(Remove(idx, id, values, hash).0, probe, hash) == Lookup(idx, probe, hash)
    ensures Remove(idx, id, values, hash).1 ==>
      multiset(Lookup(Remove(idx, id, values, hash).0, values, hash))
        == multiset(Lookup(idx, values, hash)) - multiset{id}
    ensures Remove(idx, id, values, hash).1 ==>
      (hash(values) in Remove(idx, id, values, hash).0.buckets <==> |Lookup(idx, values, hash)| > 1)
  {
  }

  /** Values whose hashes collide read the same list, so a lookup can
      return ids inserted under other values. */
  lemma CollisionSharesList(idx: CompositeGraphIndex, a: seq<Json>, b: seq<Json>, hash: Hasher)
    requires Arity(idx, a) && Arity(idx, b) && hash(a) == hash(b)
    ensures Lookup(idx, a, hash) == Lookup(idx, b, hash)
  {
  }

  /** Removing an id just inserted, that was not there before, restores
      the index exactly: the id sits last, so `swap_remove` pops it. */
  lemma InsertRemoveRoundTrip(idx: CompositeGraphIndex, id: nat, values: seq<Json>, hash: Hasher)
    requires ValidComposite(idx) && Arity(idx, values)
    requires id !in Lookup(idx, values, hash)
    ensures Remove(Insert(idx, id, values, hash), id, values, hash) == (idx, true)
  {
    var key := hash(values);
    var list := if key in idx.buckets then idx.buckets[key] else [];
    var after := idx.(buckets := idx.buckets[key := list + [id]]);
    assert Insert(idx, id, values, hash) == after;
    assert id !in list;
    RemoveAppended(after, id, values, hash, list);
    var restored := if |list| == 0 then after.buckets - {key} else after.buckets[key := list];
    assert restored == idx.buckets by {
      if key in idx.buckets {
        assert |list| > 0;
        BucketRestored(idx.buckets, key, list + [id]);
      } else {
        assert |list| == 0;
        assert forall k | k in restored :: k in idx.buckets;
      }
    }
  }

  /** Overwriting a present key and then writing its old value back gives
      the map that was there. */
  lemma BucketRestored(m: map<nat, seq<nat>>, key: nat, v: seq<nat>)
    requires key in m
    ensures m[key := v][key := m[key]] == m
  {
  }

  /** Removing an id that sits last in its list, and nowhere before. */
  lemma RemoveAppended(idx: CompositeGraphIndex, id: nat, values: seq<Json>, hash: Hasher, list: seq<nat>)
    requires ValidComposite(idx) && Arity(idx, values)
    requires hash(values) in idx.buckets && idx.buckets[hash(values)] == list + [id] && id !in list
    ensures Remove(idx, id, values, hash) == (idx.(buckets :=
      if |list| == 0 then idx.buckets - {hash(values)} else idx.buckets[hash(values) := list]), true)
  {
    TakeOutAppended(list, id);
  }

  /** `clear`: no entries, same label and properties. */
  function Clear(idx: CompositeGraphIndex): (r: CompositeGraphIndex)
    ensures ValidComposite(r) && Cardinality(r) == 0
    ensures r.nodeLabel == idx.nodeLabel && r.properties == idx.properties && r.indexType == idx.indexType
    ensures forall probe, hash: Hasher :: Lookup(r, probe, hash) == []
  {
    idx.(buckets := map[])
  }

  /** `CompositeIndexManager`: indexes by name. */
  datatype Manager = Manager(indexes: map<string, CompositeGraphIndex>)

  predicate ValidManager(m: Manager) {
    forall n | n in m.indexes :: ValidComposite(m.indexes[n])
  }

  const NEW_MANAGER := Manager(map[])

  /** `create_index`: fails, changing nothing, when the name is taken;
      otherwise adds an empty index under it and leaves the others
      alone. */
  function CreateIndex(m: Manager, name: string, nodeLabel: string, properties: seq<string>, indexType: IndexType): (r: (Manager, bool))
    ensures ValidManager(m) ==> ValidManager(r.0)
    ensures r.1 <==> name !in m.indexes
    ensures !r.1 ==> r.0 == m
    ensures r.0.indexes.Keys == m.indexes.Keys + {name}
    ensures forall n | n in m.indexes :: r.0.indexes[n] == m.indexes[n]
    ensures r.1 ==> (Cardinality(r.0.indexes[name]) == 0
      && r.0.indexes[name].nodeLabel == nodeLabel && r.0.indexes[name].properties == properties)
  {
    if name in m.indexes then (m, false)
    else (Manager(m.indexes[name := NewComposite(nodeLabel, properties, indexType)]), true)
  }

  /** `get`. */
  function Get(m: Manager, name: string): (r: Option<CompositeGraphIndex>)
    ensures r.Some? <==> name in m.indexes
    ensures r.Some? ==> r.value == m.indexes[name]
  {
    if name in m.indexes then Some(m.indexes[name]) else None
  }

  /** `drop_index`: removes the name, reporting whether it was there. */
  function DropIndex(m: Manager, name: string): (r: (Manager, bool))
    ensures ValidManager(m) ==> ValidManager(r.0)
    ensures r.1 <==> name in m.indexes
    ensures r.0.indexes.Keys == m.indexes.Keys - {name}
    ensures forall n | n in r.0.indexes :: r.0.indexes[n] == m.indexes[n]
  {
    (Manager(m.indexes - {name}), name in m.indexes)
  }

  /** `find_covering_indexes`, as a set: the iteration order of the name
      map is unspecified. */
  function FindCovering(m: Manager, nodeLabel: string, properties: seq<string>): (r: set<string>)
    ensures forall n :: n in r <==> n in m.indexes && Covers(m.indexes[n], nodeLabel, properties)
  {
    set n | n in m.indexes && Covers(m.indexes[n], nodeLabel, properties)
  }

  /** `list_indexes`, as a set. */
  function ListIndexes(m: Manager): (r: set<string>)
    ensures forall n :: n in r <==> n in m.indexes
  {
    m.indexes.Keys
  }

  /** A name just created is listed and covers its own label and
      properties; creating it again fails. */
  lemma CreateThenFind(m: Manager, name: string, nodeLabel: string, properties: seq<string>, indexType: IndexType)
    requires name !in m.indexes
    ensures var m2 := CreateIndex(m, name, nodeLabel, properties, indexType).0;
      name in ListIndexes(m2) && name in FindCovering(m2, nodeLabel, properties)
      && !CreateIndex(m2, name, nodeLabel, properties, indexType).1
  {
    var m2 := CreateIndex(m, name, nodeLabel, properties, indexType).0;
    CoversSubsets(m2.indexes[name], nodeLabel, properties);
  }

  /** The values an index takes from a node's properties, in the index's
      property order, `Null` for a missing property. */
  function ExtractValues(indexProperties: seq<string>, props: map<string, Json>): (r: seq<Json>)
    ensures |r| == |indexProperties|
    ensures forall i | 0 <= i < |r| ::
      r[i] == (if indexProperties[i] in props then props[indexProperties[i]] else JNull)
  {
    seq(|indexProperties|, i requires 0 <= i < |indexProperties| =>
      if indexProperties[i] in props then props[indexProperties[i]] else JNull)
  }

  /** `on_add_node`: every index on the node's label takes the node. */
  function OnAddNode(m: Manager, nodeLabel: string, id: nat, props: map<string, Json>, hash: Hasher): (r: Manager)
    ensures ValidManager(m) ==> ValidManager(r)
    ensures r.indexes.Keys == m.indexes.Keys
  {
    Manager(map n | n in m.indexes ::
      var idx := m.indexes[n];
      if idx.nodeLabel == nodeLabel then Insert(idx, id, ExtractValues(idx.properties, props), hash) else idx)
  }

  /** `on_remove_node`: every index on the node's label drops the node. */
  function OnRemoveNode(m: Manager, nodeLabel: string, id: nat, props: map<string, Json>, hash: Hasher): (r: Manager)
    requires ValidManager(m)
    ensures ValidManager(r)
    ensures r.indexes.Keys == m.indexes.Keys
  {
    Manager(map n | n in m.indexes ::
      var idx := m.indexes[n];
      if idx.nodeLabel == nodeLabel then Remove(idx, id, ExtractValues(idx.properties, props), hash).0 else idx)
  }

  /** After `on_add_node` every index on the label finds the node under
      its values, and indexes on other labels are untouched. */
  lemma OnAddNodeIndexes(m: Manager, nodeLabel: string, id: nat, props: map<string, Json>, hash: Hasher)
    ensures forall n | n in m.indexes && m.indexes[n].nodeLabel == nodeLabel ::
      id in Lookup(OnAddNode(m, nodeLabel, id, props, hash).indexes[n],
        ExtractValues(m.indexes[n].properties, props), hash)
    ensures forall n | n in m.indexes && m.indexes[n].nodeLabel != nodeLabel ::
      OnAddNode(m, nodeLabel, id, props, hash).indexes[n] == m.indexes[n]
  {
    var r := OnAddNode(m, nodeLabel, id, props, hash);
    forall n | n in m.indexes && m.indexes[n].nodeLabel == nodeLabel
      ensures id in Lookup(r.indexes[n], ExtractValues(m.indexes[n].properties, props), hash)
    {
      var values := ExtractValues(m.indexes[n].properties, props);
      assert Lookup(r.indexes[n], values, hash) == Lookup(m.indexes[n], values, hash) + [id];
    }
  }

  /** Removing a node just added, that no index on its label held under
      its values, gives back the manager unchanged. */
  lemma AddRemoveRoundTrip(m: Manager, nodeLabel: string, id: nat, props: map<string, Json>, hash: Hasher)
    requires ValidManager(m)
    requires forall n | n in m.indexes && m.indexes[n].nodeLabel == nodeLabel ::
      id !in Lookup(m.indexes[n], ExtractValues(m.indexes[n].properties, props), hash)
    ensures OnRemoveNode(OnAddNode(m, nodeLabel, id, props, hash), nodeLabel, id, props, hash) == m
  {
    var added := OnAddNode(m, nodeLabel, id, props, hash);
    var back := OnRemoveNode(added, nodeLabel, id, props, hash);
    forall n | n in m.indexes
      ensures back.indexes[n] == m.indexes[n]
    {
      if m.indexes[n].nodeLabel == nodeLabel {
        InsertRemoveRoundTrip(m.indexes[n], id, ExtractValues(m.indexes[n].properties, props), hash);
      }
    }
    assert back.indexes == m.indexes;
  }
}
