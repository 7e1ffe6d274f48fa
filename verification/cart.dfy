/** The nodes of the compressed adaptive radix tree (C-ART) that stores a
    high-degree vertex's neighbour ids: `search`, `insert`, `remove`,
    `collect_all` and the growth steps Node4 → Node16 → Node48 → Node256.

    An internal node consumes one key byte per level; a leaf holds a sorted
    run of values and ignores the rest of the key. Node4 and Node16 are
    modelled by their first `num_children` key/child pairs: the slots past
    `num_children` are never read before they are written. Node48 and
    Node256 keep their full slot arrays, because Node48's free slots can lie
    anywhere. */
module Cart {
  import opened Wrappers
  import opened Seqs

  /** A live key byte and its child in a Node4 or Node16. */
  datatype Slot = Slot(key: Byte, child: Node)

  datatype Node =
    | Leaf(entries: seq<nat>)
    | Node4(slots: seq<Slot>)
    | Node16(slots: seq<Slot>)
      /** `index[b]` is the child slot of key byte `b`, or 255. */
    | Node48(num: nat, index: seq<Byte>, children: seq<Option<Node>>)
    | Node256(num: nat, children: seq<Option<Node>>)

  /** The Node48 index value for "no child". */
  const NO_SLOT: Byte := 255
  const NODE4_CAPACITY: nat := 4
  const NODE16_CAPACITY: nat := 16
  const NODE48_CAPACITY: nat := 48
  const FANOUT: nat := 256

  // ---------------------------------------------------------------------
  // Sorted runs and key lists
  // ---------------------------------------------------------------------

  predicate StrictlySorted(s: seq<nat>) {
    forall i, j | 0 <= i < j < |s| :: s[i] < s[j]
  }

  /** How many leading elements are below `v`: for a sorted run, the
      insertion point `binary_search` reports. */
  function LowerBound(s: seq<nat>, v: nat): (r: nat)
    ensures r <= |s|
    ensures forall i | 0 <= i < r :: s[i] < v
    ensures r < |s| ==> s[r] >= v
  {
    if |s| == 0 || s[0] >= v then 0 else 1 + LowerBound(s[1..], v)
  }

  /** The position of the first slot with key `b`, or the slot count. */
  function KeyIndex(slots: seq<Slot>, b: Byte): (r: nat)
    ensures r <= |slots|
    ensures r < |slots| ==> slots[r].key == b
    ensures forall j | 0 <= j < r :: slots[j].key != b
  {
    if |slots| == 0 || slots[0].key == b then 0 else 1 + KeyIndex(slots[1..], b)
  }

  /** How many leading slots have a key below `b`. */
  function SlotLowerBound(slots: seq<Slot>, b: Byte): (r: nat)
    ensures r <= |slots|
    ensures forall i | 0 <= i < r :: slots[i].key < b
    ensures r < |slots| ==> slots[r].key >= b
  {
    if |slots| == 0 || slots[0].key >= b then 0 else 1 + SlotLowerBound(slots[1..], b)
  }

  predicate DistinctKeys(slots: seq<Slot>) {
    forall i, j | 0 <= i < j < |slots| :: slots[i].key != slots[j].key
  }

  predicate SortedKeys(slots: seq<Slot>) {
    forall i, j | 0 <= i < j < |slots| :: slots[i].key < slots[j].key
  }

  /** The child filed under `b` in a Node4 or Node16. */
  function Lookup(slots: seq<Slot>, b: Byte): Option<Node> {
    var i := KeyIndex(slots, b);
    if i < |slots| then Some(slots[i].child) else None
  }

  /** The occupied slots. */
  function SomeSlots(c: seq<Option<Node>>): set<int> {
    set i | 0 <= i < |c| && c[i].Some?
  }

  /** How many slots hold a child. */
  function CountSome(c: seq<Option<Node>>): nat {
    |SomeSlots(c)|
  }

  /** The first free slot, or the slot count. */
  function FirstFree(c: seq<Option<Node>>): (r: nat)
    ensures r <= |c|
    ensures r < |c| ==> c[r].None?
    ensures forall j | 0 <= j < r :: c[j].Some?
  {
    if |c| == 0 || c[0].None? then 0 else 1 + FirstFree(c[1..])
  }

  /** No more children than slots. */
  lemma CountSomeBound(c: seq<Option<Node>>)
    ensures CountSome(c) <= |c|
  {
    var all := Range(|c|);
    assert SomeSlots(c) <= all;
    assert all == SomeSlots(c) + (all - SomeSlots(c));
  }

  /** A slot array with fewer children than slots has a free slot. */
  lemma FreeSlotExists(c: seq<Option<Node>>)
    requires CountSome(c) < |c|
    ensures FirstFree(c) < |c|
  {
    if FirstFree(c) == |c| {
      FullSlots(c);
    }
  }

  /** A slot array with every slot occupied has as many children as slots. */
  lemma FullSlots(c: seq<Option<Node>>)
    requires forall j | 0 <= j < |c| :: c[j].Some?
    ensures CountSome(c) == |c|
  {
    assert SomeSlots(c) == Range(|c|);
  }

  /** An occupied slot counts. */
  lemma Occupied(c: seq<Option<Node>>, s: nat)
    requires s < |c| && c[s].Some?
    ensures CountSome(c) >= 1
  {
    assert s in SomeSlots(c);
  }

  /** Filling a free slot adds one child. */
  lemma CountSomeFill(c: seq<Option<Node>>, s: nat, x: Node)
    requires s < |c| && c[s].None?
    ensures CountSome(c[s := Some(x)]) == CountSome(c) + 1
  {
    assert SomeSlots(c[s := Some(x)]) == SomeSlots(c) + {s};
  }

  /** Replacing a child keeps the count. */
  lemma CountSomeReplace(c: seq<Option<Node>>, s: nat, x: Node)
    requires s < |c| && c[s].Some?
    ensures CountSome(c[s := Some(x)]) == CountSome(c) >= 1
  {
    assert s in SomeSlots(c);
    assert SomeSlots(c[s := Some(x)]) == SomeSlots(c);
  }

  /** Emptying an occupied slot drops one child. */
  lemma CountSomeClear(c: seq<Option<Node>>, s: nat)
    requires s < |c| && c[s].Some?
    ensures CountSome(c) >= 1
    ensures CountSome(c[s := None]) == CountSome(c) - 1
  {
    assert s in SomeSlots(c);
    assert SomeSlots(c[s := None]) == SomeSlots(c) - {s};
  }

  // ---------------------------------------------------------------------
  // Well-formed nodes
  // ---------------------------------------------------------------------

  /** `is_empty`. */
  predicate IsEmpty(n: Node) {
    match n
    case Leaf(entries) => |entries| == 0
    case Node4(slots) => |slots| == 0
    case Node16(slots) => |slots| == 0
    case Node48(num, _, _) => num == 0
    case Node256(num, _) => num == 0
  }

  /** The invariants the node operations keep: leaves sorted without
      duplicates; Node4 keys distinct and Node16 keys strictly sorted;
      every Node48 index entry free or naming an occupied slot, no two
      bytes sharing a slot, and every occupied slot named; the child counts
      of Node48 and Node256 equal to their occupied slots; and every child
      well-formed and non-empty. */
  predicate WF(n: Node) {
    match n
    case Leaf(entries) => StrictlySorted(entries)
    case Node4(slots) =>
      |slots| <= NODE4_CAPACITY && DistinctKeys(slots) &&
      forall i | 0 <= i < |slots| :: WF(slots[i].child) && !IsEmpty(slots[i].child)
    case Node16(slots) =>
      |slots| <= NODE16_CAPACITY && SortedKeys(slots) &&
      forall i | 0 <= i < |slots| :: WF(slots[i].child) && !IsEmpty(slots[i].child)
    case Node48(num, index, children) =>
      |index| == FANOUT && |children| == NODE48_CAPACITY && num == CountSome(children) &&
      (forall b | 0 <= b < FANOUT :: index[b] == NO_SLOT || (index[b] < NODE48_CAPACITY && children[index[b]].Some?)) &&
      (forall b, c | 0 <= b < c < FANOUT && index[b] != NO_SLOT :: index[b] != index[c]) &&
      (forall s | 0 <= s < NODE48_CAPACITY && children[s].Some? ::
         s in index && WF(children[s].value) && !IsEmpty(children[s].value))
    case Node256(num, children) =>
      |children| == FANOUT && num == CountSome(children) &&
      forall b | 0 <= b < FANOUT && children[b].Some? :: WF(children[b].value) && !IsEmpty(children[b].value)
  }

  /** `new_leaf`. */
  function NewLeaf(v: nat): (r: Node)
    ensures WF(r) && !IsEmpty(r)
  {
    Leaf([v])
  }

  // ---------------------------------------------------------------------
  // Search
  // ---------------------------------------------------------------------

  /** The child an internal node descends into for key byte `b`. */
  function Step(n: Node, b: Byte): (r: Option<Node>)
    requires WF(n) && !n.Leaf?
    ensures r.Some? ==> WF(r.value) && !IsEmpty(r.value)
  {
    match n
    case Node4(slots) => Lookup(slots, b)
    case Node16(slots) => Lookup(slots, b)
    case Node48(_, index, children) => if index[b] != NO_SLOT then children[index[b]] else None
    case Node256(_, children) => children[b]
  }

  /** `search`: an internal node needs a key byte and a child for it; a
      leaf looks the value up and ignores the rest of the key. */
  function Search(n: Node, key: seq<Byte>, v: nat): bool
    requires WF(n)
    decreases |key|
  {
    if n.Leaf? then v in n.entries
    else |key| > 0 && Step(n, key[0]).Some? && Search(Step(n, key[0]).value, key[1..], v)
  }

  // ---------------------------------------------------------------------
  // Leaves
  // ---------------------------------------------------------------------

  /** The leaf arm of `insert`: `binary_search`, then insert at the
      reported position unless the value is there. */
  function LeafInsert(entries: seq<nat>, v: nat): (r: (seq<nat>, bool))
    requires StrictlySorted(entries)
    ensures StrictlySorted(r.0)
    ensures r.1 <==> v !in entries
    ensures forall x :: x in r.0 <==> x in entries || x == v
  {
    if v in entries then (entries, false)
    else
      var pos := LowerBound(entries, v);
      InsertAtElems(entries, pos, v);
      SortedAfterInsert(entries, v, pos);
      (InsertAt(entries, pos, v), true)
  }

  lemma SortedAfterInsert(s: seq<nat>, v: nat, pos: nat)
    requires StrictlySorted(s) && v !in s && pos == LowerBound(s, v)
    ensures StrictlySorted(InsertAt(s, pos, v))
  {
    var r := InsertAt(s, pos, v);
    forall i, j | 0 <= i < j < |r|
      ensures r[i] < r[j]
    {
      if i == pos {
        assert s[pos] >= v;
      }
    }
  }

  /** The leaf arm of `remove`: `binary_search`, then remove at the found
      position. */
  function LeafRemove(entries: seq<nat>, v: nat): (r: (seq<nat>, bool))
    requires StrictlySorted(entries)
    ensures StrictlySorted(r.0)
    ensures r.1 <==> v in entries
    ensures forall x :: x in r.0 <==> x in entries && x != v
  {
    if v !in entries then (entries, false)
    else
      var pos := LowerBound(entries, v);
      RemoveAtElems(entries, pos);
      SortedRemoveAt(entries, pos);
      (RemoveAt(entries, pos), true)
  }

  /** Removing position `pos` of a strictly sorted run removes exactly its
      element. */
  lemma SortedRemoveAt(s: seq<nat>, pos: nat)
    requires StrictlySorted(s) && pos < |s|
    ensures StrictlySorted(RemoveAt(s, pos))
    ensures s[pos] !in RemoveAt(s, pos)
  {
  }

  // ---------------------------------------------------------------------
  // Growth
  // ---------------------------------------------------------------------

  /** Inserts a slot after every slot whose key is not above its own (one
      step of the stable `sort_by_key`). */
  function InsertByKey(sorted: seq<Slot>, s: Slot): (r: seq<Slot>)
    ensures |r| == |sorted| + 1
    ensures multiset(r) == multiset(sorted) + multiset{s}
  {
    if |sorted| == 0 then [s]
    else if s.key < sorted[0].key then [s] + sorted
    else
      assert sorted == [sorted[0]] + sorted[1..];
      [sorted[0]] + InsertByKey(sorted[1..], s)
  }

  /** `indices.sort_by_key(|&i| keys[i])` applied to the slots. */
  function SortByKey(slots: seq<Slot>): (r: seq<Slot>)
    ensures |r| == |slots|
    ensures multiset(r) == multiset(slots)
  {
    if |slots| == 0 then []
    else
      assert slots == slots[..|slots| - 1] + [slots[|slots| - 1]];
      InsertByKey(SortByKey(slots[..|slots| - 1]), slots[|slots| - 1])
  }

  /** `grow_to_node16`: the same pairs, sorted by key. */
  function Grow16(slots: seq<Slot>): Node {
    Node16(SortByKey(slots))
  }

  /** The Node48 index `grow_to_node48` builds from the first `n` slots:
      byte `keys[i]` maps to slot `i`. */
  function IndexOfSlots(slots: seq<Slot>, n: nat): (r: seq<Byte>)
    requires n <= |slots| <= NODE16_CAPACITY
    ensures |r| == FANOUT
  {
    if n == 0 then seq(FANOUT, _ => NO_SLOT)
    else IndexOfSlots(slots, n - 1)[slots[n - 1].key := n - 1]
  }

  /** `grow_to_node48`: child `i` moves to slot `i`. */
  function Grow48(slots: seq<Slot>): Node
    requires |slots| <= NODE16_CAPACITY
  {
    Node48(|slots|, IndexOfSlots(slots, |slots|),
           seq(NODE48_CAPACITY, i requires 0 <= i < NODE48_CAPACITY => if i < |slots| then Some(slots[i].child) else None))
  }

  /** `grow_to_node256`: the child of each indexed byte moves to that
      byte's position. */
  function Grow256(num: nat, index: seq<Byte>, children: seq<Option<Node>>): Node
    requires |index| == FANOUT && |children| == NODE48_CAPACITY
    requires forall b | 0 <= b < FANOUT :: index[b] == NO_SLOT || index[b] < NODE48_CAPACITY
  {
    Node256(num, seq(FANOUT, b requires 0 <= b < FANOUT => if index[b] != NO_SLOT then children[index[b]] else None))
  }

  /** The order in which `insert` grows a full node before retrying. */
  function Rank(n: Node): nat {
    match n
    case Node4(_) => 3
    case Node16(_) => 2
    case Node48(_, _, _) => 1
    case _ => 0
  }

  // ---------------------------------------------------------------------
  // Slot lists
  // ---------------------------------------------------------------------

  /** With distinct keys, the child filed under a slot's key is that slot's. */
  lemma LookupFinds(slots: seq<Slot>, i: nat)
    requires DistinctKeys(slots) && i < |slots|
    ensures Lookup(slots, slots[i].key) == Some(slots[i].child)
  {
  }

  /** No slot with the key, no child. */
  lemma LookupMisses(slots: seq<Slot>, b: Byte)
    requires forall i | 0 <= i < |slots| :: slots[i].key != b
    ensures Lookup(slots, b) == None
  {
  }

  /** Strictly sorted keys are distinct. */
  lemma SortedDistinct(slots: seq<Slot>)
    requires SortedKeys(slots)
    ensures DistinctKeys(slots)
  {
  }

  /** The Node16 insertion: the new slot goes where `binary_search` says. */
  function InsertSlot(slots: seq<Slot>, x: Slot): (r: seq<Slot>)
    requires SortedKeys(slots) && forall i | 0 <= i < |slots| :: slots[i].key != x.key
    ensures |r| == |slots| + 1
    ensures SortedKeys(r)
    ensures forall y :: y in r <==> y in slots || y == x
  {
    var pos := SlotLowerBound(slots, x.key);
    InsertAtElems(slots, pos, x);
    InsertAt(slots, pos, x)
  }

  /** The removal of slot `i`, shifting the rest down. */
  function RemoveSlot(slots: seq<Slot>, i: nat): (r: seq<Slot>)
    requires i < |slots|
  {
    RemoveAt(slots, i)
  }

  /** Removing a slot keeps keys distinct, or sorted. */
  lemma RemoveSlotKeys(slots: seq<Slot>, i: nat)
    requires i < |slots|
    ensures DistinctKeys(slots) ==> DistinctKeys(RemoveSlot(slots, i))
    ensures SortedKeys(slots) ==> SortedKeys(RemoveSlot(slots, i))
  {
    var r := RemoveSlot(slots, i);
    forall j, k | 0 <= j < k < |r|
      ensures r[j] == slots[if j < i then j else j + 1] && r[k] == slots[if k < i then k else k + 1]
    {
    }
  }

  // ---------------------------------------------------------------------
  // Growth keeps the children
  // ---------------------------------------------------------------------

  lemma {:induction false} InsertByKeySorted(sorted: seq<Slot>, s: Slot)
    requires SortedKeys(sorted) && forall i | 0 <= i < |sorted| :: sorted[i].key != s.key
    ensures SortedKeys(InsertByKey(sorted, s))
  {
    if |sorted| > 0 && s.key >= sorted[0].key {
      var t := sorted[1..];
      InsertByKeySorted(t, s);
      var r := InsertByKey(t, s);
      forall i | 0 <= i < |r|
        ensures sorted[0].key < r[i].key
      {
        assert r[i] in multiset(r);
        assert r[i] in multiset(t) + multiset{s};
        if r[i] != s {
          assert r[i] in t;
        }
      }
    }
  }

  lemma {:induction false} SortByKeySorted(slots: seq<Slot>)
    requires DistinctKeys(slots)
    ensures SortedKeys(SortByKey(slots))
  {
    if |slots| > 0 {
      var init := slots[..|slots| - 1];
      var last := slots[|slots| - 1];
      SortByKeySorted(init);
      var sorted := SortByKey(init);
      forall i | 0 <= i < |sorted|
        ensures sorted[i].key != last.key
      {
        assert sorted[i] in multiset(sorted);
        assert sorted[i] in init;
      }
      InsertByKeySorted(sorted, last);
    }
  }

  /** `grow_to_node16` keeps the pairs and sorts them. */
  lemma Grow16Slots(slots: seq<Slot>)
    requires DistinctKeys(slots)
    ensures SortedKeys(Grow16(slots).slots)
    ensures forall i | 0 <= i < |Grow16(slots).slots| :: Grow16(slots).slots[i] in slots
    ensures forall i | 0 <= i < |slots| :: slots[i] in Grow16(slots).slots
  {
    SortByKeySorted(slots);
    var r := SortByKey(slots);
    forall i | 0 <= i < |r|
      ensures r[i] in slots
    {
      assert r[i] in multiset(r);
    }
    forall i | 0 <= i < |slots|
      ensures slots[i] in r
    {
      assert slots[i] in multiset(slots);
    }
  }

  /** The index `grow_to_node48` builds names slot `i` under key `i`. */
  lemma {:induction false} IndexOfSlotsNames(slots: seq<Slot>, n: nat)
    requires n <= |slots| <= NODE16_CAPACITY && DistinctKeys(slots)
    ensures forall i | 0 <= i < n :: IndexOfSlots(slots, n)[slots[i].key] == i
    ensures forall b | 0 <= b < FANOUT && IndexOfSlots(slots, n)[b] != NO_SLOT ::
              IndexOfSlots(slots, n)[b] < n && slots[IndexOfSlots(slots, n)[b]].key == b
  {
    if n > 0 {
      IndexOfSlotsNames(slots, n - 1);
    }
  }

  lemma Grow16WF(slots: seq<Slot>)
    requires WF(Node4(slots))
    ensures WF(Grow16(slots))
  {
    Grow16Slots(slots);
  }

  /** The index `grow_to_node48` builds names occupied slots only, one
      byte per slot, and every slot below the child count. */
  lemma Grow48Index(slots: seq<Slot>)
    requires |slots| <= NODE16_CAPACITY && DistinctKeys(slots)
    ensures forall b | 0 <= b < FANOUT :: IndexOfSlots(slots, |slots|)[b] == NO_SLOT || IndexOfSlots(slots, |slots|)[b] < |slots|
    ensures forall b, c | 0 <= b < c < FANOUT && IndexOfSlots(slots, |slots|)[b] != NO_SLOT ::
              IndexOfSlots(slots, |slots|)[b] != IndexOfSlots(slots, |slots|)[c]
    ensures forall s | 0 <= s < |slots| :: s in IndexOfSlots(slots, |slots|)
  {
    IndexOfSlotsNames(slots, |slots|);
    var index := IndexOfSlots(slots, |slots|);
    forall s | 0 <= s < |slots|
      ensures s in index
    {
      assert index[slots[s].key] == s;
    }
  }

  /** `grow_to_node48` has a child in exactly the first slots. */
  lemma Grow48Children(slots: seq<Slot>)
    requires |slots| <= NODE16_CAPACITY
    ensures forall s | 0 <= s < NODE48_CAPACITY :: Grow48(slots).children[s].Some? <==> s < |slots|
    ensures forall s | 0 <= s < |slots| :: Grow48(slots).children[s] == Some(slots[s].child)
    ensures CountSome(Grow48(slots).children) == |slots|
  {
    assert SomeSlots(Grow48(slots).children) == Range(|slots|);
  }

  lemma Grow48WF(slots: seq<Slot>)
    requires WF(Node16(slots))
    ensures WF(Grow48(slots))
  {
    SortedDistinct(slots);
    Grow48Index(slots);
    Grow48Children(slots);
  }

  /** The key bytes below `n` that a Node48 index names a slot for. */
  function NamedBelow(index: seq<Byte>, n: nat): set<int>
    requires n <= |index|
  {
    set b | 0 <= b < n && index[b] != NO_SLOT
  }

  /** The slots those bytes name. */
  function SlotsNamedBelow(index: seq<Byte>, n: nat): set<int>
    requires n <= |index|
  {
    set b | 0 <= b < n && index[b] != NO_SLOT :: index[b] as int
  }

  /** An index naming no slot twice names as many slots as bytes. */
  lemma {:induction false} NamedCard(index: seq<Byte>, n: nat)
    requires n <= |index|
    requires forall b, c | 0 <= b < c < |index| && index[b] != NO_SLOT :: index[b] != index[c]
    ensures |SlotsNamedBelow(index, n)| == |NamedBelow(index, n)|
  {
    if n > 0 {
      NamedCard(index, n - 1);
      NamedBelowStep(index, n);
      SlotsNamedBelowStep(index, n);
    }
  }

  lemma NamedBelowStep(index: seq<Byte>, n: nat)
    requires 0 < n <= |index|
    ensures |NamedBelow(index, n)| == |NamedBelow(index, n - 1)| + (if index[n - 1] != NO_SLOT then 1 else 0)
  {
    if index[n - 1] != NO_SLOT {
      assert NamedBelow(index, n) == NamedBelow(index, n - 1) + {n - 1};
    } else {
      assert NamedBelow(index, n) == NamedBelow(index, n - 1);
    }
  }

  lemma SlotsNamedBelowStep(index: seq<Byte>, n: nat)
    requires 0 < n <= |index|
    requires forall b | 0 <= b < n - 1 && index[b] != NO_SLOT :: index[b] != index[n - 1]
    ensures |SlotsNamedBelow(index, n)| == |SlotsNamedBelow(index, n - 1)| + (if index[n - 1] != NO_SLOT then 1 else 0)
  {
    if index[n - 1] != NO_SLOT {
      assert index[n - 1] as int !in SlotsNamedBelow(index, n - 1);
      assert SlotsNamedBelow(index, n) == SlotsNamedBelow(index, n - 1) + {index[n - 1] as int};
    } else {
      assert SlotsNamedBelow(index, n) == SlotsNamedBelow(index, n - 1);
    }
  }

  lemma Grow256WF(num: nat, index: seq<Byte>, children: seq<Option<Node>>)
    requires WF(Node48(num, index, children))
    ensures WF(Grow256(num, index, children))
  {
    var g := Grow256(num, index, children);
    assert SomeSlots(g.children) == NamedBelow(index, FANOUT);
    NamedCard(index, FANOUT);
    assert SlotsNamedBelow(index, FANOUT) == SomeSlots(children) by {
      forall s | s in SomeSlots(children)
        ensures s in SlotsNamedBelow(index, FANOUT)
      {
        assert s in index;
        var b :| 0 <= b < |index| && index[b] == s;
        assert index[b] as int in SlotsNamedBelow(index, FANOUT);
      }
    }
  }

  // ---------------------------------------------------------------------
  // Node48 slot updates and growth keep the children reachable
  // ---------------------------------------------------------------------

  /** Replacing a Node48 child keeps the node well-formed. */
  lemma Node48Replace(num: nat, index: seq<Byte>, children: seq<Option<Node>>, slot: nat, c: Node)
    requires WF(Node48(num, index, children))
    requires slot < NODE48_CAPACITY && children[slot].Some? && WF(c) && !IsEmpty(c)
    ensures num >= 1
    ensures WF(Node48(num, index, children[slot := Some(c)]))
  {
    CountSomeReplace(children, slot, c);
    var next := children[slot := Some(c)];
    forall s | 0 <= s < NODE48_CAPACITY && next[s].Some?
      ensures s in index && WF(next[s].value) && !IsEmpty(next[s].value)
    {
      assert children[s].Some?;
    }
  }

  /** Filing a new child in a free slot under a byte with no slot keeps
      the node well-formed. */
  lemma Node48Fill(num: nat, index: seq<Byte>, children: seq<Option<Node>>, b: Byte, free: nat, c: Node)
    requires WF(Node48(num, index, children))
    requires index[b] == NO_SLOT && free < NODE48_CAPACITY && children[free].None? && WF(c) && !IsEmpty(c)
    ensures WF(Node48(num + 1, index[b := free], children[free := Some(c)]))
  {
    CountSomeFill(children, free, c);
    var index' := index[b := free];
    var next := children[free := Some(c)];
    forall s | 0 <= s < NODE48_CAPACITY && next[s].Some?
      ensures s in index'
    {
      if s == free {
        assert index'[b] == s;
      } else {
        assert s in index;
        var x :| 0 <= x < |index| && index[x] == s;
        assert index'[x] == s;
      }
    }
  }

  /** Dropping the child filed under `b` keeps the node well-formed. */
  lemma Node48Clear(num: nat, index: seq<Byte>, children: seq<Option<Node>>, b: Byte)
    requires WF(Node48(num, index, children)) && index[b] != NO_SLOT
    ensures num >= 1
    ensures WF(Node48(num - 1, index[b := NO_SLOT], children[index[b] := None]))
  {
    var slot := index[b];
    CountSomeClear(children, slot);
    var index' := index[b := NO_SLOT];
    var next := children[slot := None];
    forall s | 0 <= s < NODE48_CAPACITY && next[s].Some?
      ensures s in index'
    {
      assert s in index;
      var x :| 0 <= x < |index| && index[x] == s;
      assert x != b;
      assert index'[x] == s;
    }
  }

  /** `grow_to_node16` files the same children under the same bytes. */
  lemma Grow16Steps(slots: seq<Slot>, b: Byte)
    requires WF(Node4(slots))
    ensures WF(Grow16(slots))
    ensures Step(Grow16(slots), b) == Lookup(slots, b)
  {
    Grow16WF(slots);
    Grow16Slots(slots);
    var sorted := Grow16(slots).slots;
    SortedDistinct(sorted);
    var i := KeyIndex(slots, b);
    if i < |slots| {
      var j :| 0 <= j < |sorted| && sorted[j] == slots[i];
      LookupFinds(sorted, j);
    } else {
      LookupMisses(sorted, b);
    }
  }

  /** `grow_to_node48` files the same children under the same bytes. */
  lemma Grow48Steps(slots: seq<Slot>, b: Byte)
    requires WF(Node16(slots))
    ensures WF(Grow48(slots))
    ensures Step(Grow48(slots), b) == Lookup(slots, b)
  {
    Grow48WF(slots);
    SortedDistinct(slots);
    IndexOfSlotsNames(slots, |slots|);
    Grow48Children(slots);
    var i := KeyIndex(slots, b);
    if i < |slots| {
      LookupFinds(slots, i);
    } else {
      LookupMisses(slots, b);
    }
  }

  /** `grow_to_node256` files the same children under the same bytes. */
  lemma Grow256Steps(num: nat, index: seq<Byte>, children: seq<Option<Node>>, b: Byte)
    requires WF(Node48(num, index, children))
    ensures WF(Grow256(num, index, children))
    ensures Step(Grow256(num, index, children), b) == Step(Node48(num, index, children), b)
  {
    Grow256WF(num, index, children);
  }

  // ---------------------------------------------------------------------
  // Insert and remove
  // ---------------------------------------------------------------------

  /** `insert`: descends along the key, adds a new leaf under a missing key
      byte, and grows a full node before retrying. Returns the updated node
      and whether the value was new. */
  function Insert(n: Node, key: seq<Byte>, v: nat): (r: (Node, bool))
    requires WF(n)
    ensures WF(r.0)
    ensures !r.1 ==> r.0 == n
    ensures r.1 || !IsEmpty(n) ==> !IsEmpty(r.0)
    ensures !n.Leaf? && |key| > 0 && Step(n, key[0]).None? ==> r.1
    ensures !n.Leaf? && |key| == 0 ==> !r.1
    ensures r.0.Leaf? == n.Leaf?
    decreases |key|, Rank(n), 1
  {
    match n
    case Leaf(entries) =>
      var e := LeafInsert(entries, v);
      (Leaf(e.0), e.1)
    case Node4(slots) => Insert4(slots, key, v)
    case Node16(slots) => Insert16(slots, key, v)
    case Node48(num, index, children) => Insert48(num, index, children, key, v)
    case Node256(num, children) => Insert256(num, children, key, v)
  }

  /** The Node4 arm of `insert`: a new child goes after the others. */
  function Insert4(slots: seq<Slot>, key: seq<Byte>, v: nat): (r: (Node, bool))
    requires WF(Node4(slots))
    ensures WF(r.0)
    ensures !r.1 ==> r.0 == Node4(slots)
    ensures r.1 || |slots| > 0 ==> !IsEmpty(r.0)
    ensures |key| > 0 && Lookup(slots, key[0]).None? ==> r.1
    ensures |key| == 0 ==> !r.1
    ensures !r.0.Leaf?
    decreases |key|, 3, 0
  {
    if |key| == 0 then (Node4(slots), false)
    else
      var i := KeyIndex(slots, key[0]);
      if i < |slots| then
        var c := Insert(slots[i].child, key[1..], v);
        (Node4(slots[i := Slot(key[0], c.0)]), c.1)
      else if |slots| < NODE4_CAPACITY then
        (Node4(slots + [Slot(key[0], NewLeaf(v))]), true)
      else
        Grow16Steps(slots, key[0]);
        Insert(Grow16(slots), key, v)
  }

  /** The Node16 arm of `insert`: a new child goes where `binary_search`
      says, keeping the keys sorted. */
  function Insert16(slots: seq<Slot>, key: seq<Byte>, v: nat): (r: (Node, bool))
    requires WF(Node16(slots))
    ensures WF(r.0)
    ensures !r.1 ==> r.0 == Node16(slots)
    ensures r.1 || |slots| > 0 ==> !IsEmpty(r.0)
    ensures |key| > 0 && Lookup(slots, key[0]).None? ==> r.1
    ensures |key| == 0 ==> !r.1
    ensures !r.0.Leaf?
    decreases |key|, 2, 0
  {
    if |key| == 0 then (Node16(slots), false)
    else
      var i := KeyIndex(slots, key[0]);
      if i < |slots| then
        var c := Insert(slots[i].child, key[1..], v);
        Node16Replace(slots, i, c.0);
        (Node16(slots[i := Slot(key[0], c.0)]), c.1)
      else if |slots| < NODE16_CAPACITY then
        Node16Add(slots, Slot(key[0], NewLeaf(v)));
        (Node16(InsertSlot(slots, Slot(key[0], NewLeaf(v)))), true)
      else
        Grow48Steps(slots, key[0]);
        Insert(Grow48(slots), key, v)
  }

  /** Replacing the child of an occupied Node16 slot by a well-formed,
      non-empty node keeps the node well-formed. */
  lemma Node16Replace(slots: seq<Slot>, i: nat, c: Node)
    requires WF(Node16(slots)) && i < |slots| && WF(c) && !IsEmpty(c)
    ensures WF(Node16(slots[i := Slot(slots[i].key, c)]))
  {
    var next := slots[i := Slot(slots[i].key, c)];
    assert forall j | 0 <= j < |next| :: next[j].key == slots[j].key;
  }

  /** Adding a slot under a new key to a Node16 with room keeps it
      well-formed. */
  lemma Node16Add(slots: seq<Slot>, x: Slot)
    requires WF(Node16(slots)) && |slots| < NODE16_CAPACITY
    requires forall i | 0 <= i < |slots| :: slots[i].key != x.key
    requires WF(x.child) && !IsEmpty(x.child)
    ensures WF(Node16(InsertSlot(slots, x)))
  {
    var r := InsertSlot(slots, x);
    forall i | 0 <= i < |r|
      ensures WF(r[i].child) && !IsEmpty(r[i].child)
    {
      assert r[i] in r;
      if r[i] != x {
        var j :| 0 <= j < |slots| && slots[j] == r[i];
      }
    }
  }

  /** The Node48 arm of `insert`: a new child goes in the first free slot. */
  function Insert48(num: nat, index: seq<Byte>, children: seq<Option<Node>>, key: seq<Byte>, v: nat): (r: (Node, bool))
    requires WF(Node48(num, index, children))
    ensures WF(r.0)
    ensures !r.1 ==> r.0 == Node48(num, index, children)
    ensures r.1 || num > 0 ==> !IsEmpty(r.0)
    ensures |key| > 0 && Step(Node48(num, index, children), key[0]).None? ==> r.1
    ensures |key| == 0 ==> !r.1
    ensures !r.0.Leaf?
    decreases |key|, 1, 0
  {
    if |key| == 0 then (Node48(num, index, children), false)
    else
      var slot := index[key[0]];
      if slot != NO_SLOT && children[slot].Some? then
        var c := Insert(children[slot].value, key[1..], v);
        Node48Replace(num, index, children, slot, c.0);
        (Node48(num, index, children[slot := Some(c.0)]), c.1)
      else if num < NODE48_CAPACITY then
        FreeSlotExists(children);
        var free := FirstFree(children);
        Node48Fill(num, index, children, key[0], free, NewLeaf(v));
        (Node48(num + 1, index[key[0] := free], children[free := Some(NewLeaf(v))]), true)
      else
        Grow256Steps(num, index, children, key[0]);
        Insert(Grow256(num, index, children), key, v)
  }

  /** The Node256 arm of `insert`. */
  function Insert256(num: nat, children: seq<Option<Node>>, key: seq<Byte>, v: nat): (r: (Node, bool))
    requires WF(Node256(num, children))
    ensures WF(r.0)
    ensures !r.1 ==> r.0 == Node256(num, children)
    ensures r.1 || num > 0 ==> !IsEmpty(r.0)
    ensures |key| > 0 && children[key[0]].None? ==> r.1
    ensures |key| == 0 ==> !r.1
    ensures !r.0.Leaf?
    decreases |key|, 0, 0
  {
    if |key| == 0 then (Node256(num, children), false)
    else if children[key[0]].Some? then
      var c := Insert(children[key[0]].value, key[1..], v);
      CountSomeReplace(children, key[0], c.0);
      (Node256(num, children[key[0] := Some(c.0)]), c.1)
    else
      CountSomeFill(children, key[0], NewLeaf(v));
      (Node256(num + 1, children[key[0] := Some(NewLeaf(v))]), true)
  }

  /** `remove`: descends along the key, removes the value from the leaf
      it reaches, and drops a child the removal emptied. Returns the updated
      node and whether the value was there. */
  function Remove(n: Node, key: seq<Byte>, v: nat): (r: (Node, bool))
    requires WF(n)
    ensures WF(r.0)
    ensures !r.1 ==> r.0 == n
    ensures r.0.Leaf? == n.Leaf?
    ensures !n.Leaf? && |key| == 0 ==> !r.1
    decreases |key|, 1
  {
    match n
    case Leaf(entries) =>
      var e := LeafRemove(entries, v);
      (Leaf(e.0), e.1)
    case Node4(slots) =>
      var r := RemoveFromSlots(slots, key, v);
      (Node4(r.0), r.1)
    case Node16(slots) =>
      var r := RemoveFromSlots(slots, key, v);
      (Node16(r.0), r.1)
    case Node48(num, index, children) => Remove48(num, index, children, key, v)
    case Node256(num, children) => Remove256(num, children, key, v)
  }

  /** The Node4 and Node16 arms of `remove`: an emptied child's slot is
      removed and the later slots shift down. */
  function RemoveFromSlots(slots: seq<Slot>, key: seq<Byte>, v: nat): (r: (seq<Slot>, bool))
    requires forall i | 0 <= i < |slots| :: WF(slots[i].child) && !IsEmpty(slots[i].child)
    ensures forall i | 0 <= i < |r.0| :: WF(r.0[i].child) && !IsEmpty(r.0[i].child)
    ensures !r.1 ==> r.0 == slots
    ensures |r.0| <= |slots|
    ensures DistinctKeys(slots) ==> DistinctKeys(r.0)
    ensures SortedKeys(slots) ==> SortedKeys(r.0)
    decreases |key|, 0
  {
    if |key| == 0 then (slots, false)
    else
      var i := KeyIndex(slots, key[0]);
      if i < |slots| then
        var c := Remove(slots[i].child, key[1..], v);
        if c.1 && IsEmpty(c.0) then
          RemoveSlotKeys(slots, i);
          (RemoveSlot(slots, i), true)
        else (slots[i := Slot(key[0], c.0)], c.1)
      else (slots, false)
  }

  /** The Node48 arm of `remove`: an emptied child's slot is freed and its
      byte unmapped. */
  function Remove48(num: nat, index: seq<Byte>, children: seq<Option<Node>>, key: seq<Byte>, v: nat): (r: (Node, bool))
    requires WF(Node48(num, index, children))
    ensures WF(r.0)
    ensures !r.1 ==> r.0 == Node48(num, index, children)
    ensures !r.0.Leaf?
    decreases |key|, 0
  {
    if |key| == 0 then (Node48(num, index, children), false)
    else
      var slot := index[key[0]];
      if slot != NO_SLOT && children[slot].Some? then
        var c := Remove(children[slot].value, key[1..], v);
        if c.1 && IsEmpty(c.0) then
          Node48Clear(num, index, children, key[0]);
          (Node48(num - 1, index[key[0] := NO_SLOT], children[slot := None]), true)
        else
          Node48Replace(num, index, children, slot, c.0);
          (Node48(num, index, children[slot := Some(c.0)]), c.1)
      else (Node48(num, index, children), false)
  }

  /** The Node256 arm of `remove`. */
  function Remove256(num: nat, children: seq<Option<Node>>, key: seq<Byte>, v: nat): (r: (Node, bool))
    requires WF(Node256(num, children))
    ensures WF(r.0)
    ensures !r.1 ==> r.0 == Node256(num, children)
    ensures !r.0.Leaf?
    decreases |key|, 0
  {
    if |key| == 0 then (Node256(num, children), false)
    else if children[key[0]].Some? then
      var c := Remove(children[key[0]].value, key[1..], v);
      if c.1 && IsEmpty(c.0) then
        CountSomeClear(children, key[0]);
        (Node256(num - 1, children[key[0] := None]), true)
      else
        CountSomeReplace(children, key[0], c.0);
        (Node256(num, children[key[0] := Some(c.0)]), c.1)
    else (Node256(num, children), false)
  }

  /** Whether `insert` reaches a leaf along `key`, or a node missing the
      next key byte, before the key runs out. */
  predicate Routes(n: Node, key: seq<Byte>)
    requires WF(n)
    decreases |key|
  {
    n.Leaf? || (|key| > 0 && (Step(n, key[0]).None? || Routes(Step(n, key[0]).value, key[1..])))
  }

  // ---------------------------------------------------------------------
  // Collecting
  // ---------------------------------------------------------------------

  /** How many child positions an internal node scans. */
  function Width(n: Node): nat {
    match n
    case Leaf(_) => 0
    case Node4(slots) => |slots|
    case Node16(slots) => |slots|
    case Node48(_, _, children) => |children|
    case Node256(_, children) => |children|
  }

  /** The child at scan position `i`, if any. */
  function Kid(n: Node, i: nat): Option<Node>
    requires i < Width(n)
  {
    match n
    case Node4(slots) => Some(slots[i].child)
    case Node16(slots) => Some(slots[i].child)
    case Node48(_, _, children) => children[i]
    case Node256(_, children) => children[i]
  }

  /** `collect_all`: the leaves' entries, children in scan order. */
  function CollectAll(n: Node): seq<nat>
    decreases n, 1
  {
    if n.Leaf? then n.entries else CollectFrom(n, 0)
  }

  /** The values under the children at scan positions `i` onwards. */
  function CollectFrom(n: Node, i: nat): seq<nat>
    decreases n, 0, Width(n) - i
  {
    if i >= Width(n) then []
    else
      match n
      case Node4(slots) => CollectAll(slots[i].child) + CollectFrom(n, i + 1)
      case Node16(slots) => CollectAll(slots[i].child) + CollectFrom(n, i + 1)
      case Node48(_, _, children) =>
        (if children[i].Some? then CollectAll(children[i].value) else []) + CollectFrom(n, i + 1)
      case Node256(_, children) =>
        (if children[i].Some? then CollectAll(children[i].value) else []) + CollectFrom(n, i + 1)
  }

  /** One scan position of `collect_all`, for any kind of node. */
  lemma CollectFromUnfold(n: Node, i: nat)
    ensures i < Width(n) ==> CollectFrom(n, i) == (if Kid(n, i).Some? then CollectAll(Kid(n, i).value) else []) + CollectFrom(n, i + 1)
    ensures i >= Width(n) ==> CollectFrom(n, i) == []
  {
  }

  // ---------------------------------------------------------------------
  // The Node48 arm of `insert` as the source writes it
  // ---------------------------------------------------------------------

  /** The Node48 arm of `insert` with the new child placed at slot
      `num_children`, as written. After a removal has freed a lower slot,
      slot `num_children` can hold a live child, which is overwritten while
      its key byte still names the slot. */
  function Insert48AsWritten(num: nat, index: seq<Byte>, children: seq<Option<Node>>, key: seq<Byte>, v: nat): (r: (Node, bool))
    requires WF(Node48(num, index, children))
    ensures |key| > 0 && Step(Node48(num, index, children), key[0]).None? && num < NODE48_CAPACITY ==>
              r.1 && r.0.Node48? && |r.0.index| == FANOUT && |r.0.children| == NODE48_CAPACITY &&
              r.0.index[key[0]] == num && r.0.children[num] == Some(NewLeaf(v))
  {
    if |key| == 0 then (Node48(num, index, children), false)
    else
      var slot := index[key[0]];
      if slot != NO_SLOT && children[slot].Some? then
        var c := Insert(children[slot].value, key[1..], v);
        (Node48(num, index, children[slot := Some(c.0)]), c.1)
      else if num < NODE48_CAPACITY then
        (Node48(num + 1, index[key[0] := num], children[num := Some(NewLeaf(v))]), true)
      else
        Grow256Steps(num, index, children, key[0]);
        Insert(Grow256(num, index, children), key, v)
  }

  /** While the children are packed into the first `num_children` slots,
      as they are until a removal frees a lower slot, slot `num_children`
      is the first free one and the source's insertion is the corrected
      one. */
  lemma Insert48Agrees(num: nat, index: seq<Byte>, children: seq<Option<Node>>, key: seq<Byte>, v: nat)
    requires WF(Node48(num, index, children))
    requires forall j | 0 <= j < num && j < |children| :: children[j].Some?
    requires num < NODE48_CAPACITY ==> children[num].None?
    ensures Insert48AsWritten(num, index, children, key, v) == Insert48(num, index, children, key, v)
  {
    if |key| > 0 && num < NODE48_CAPACITY {
      assert FirstFree(children) == num;
    }
  }
}
