/** What the C-ART node operations mean: `search` finds exactly the
    values inserted and not removed along a key, `collect_all` lists
    exactly the values `search` can find, and the counts `insert` and
    `remove` report are right. */
module CartProofs {
  import opened Wrappers
  import opened Seqs
  import opened Cart

  // ---------------------------------------------------------------------
  // Slot lists
  // ---------------------------------------------------------------------

  lemma LookupReplace(slots: seq<Slot>, i: nat, c: Node, b: Byte)
    requires DistinctKeys(slots) && i < |slots|
    ensures Lookup(slots[i := Slot(slots[i].key, c)], b) == if b == slots[i].key then Some(c) else Lookup(slots, b)
  {
    var t := slots[i := Slot(slots[i].key, c)];
    assert DistinctKeys(t);
    if b == slots[i].key {
      LookupFinds(t, i);
    } else {
      var j := KeyIndex(slots, b);
      if j < |slots| {
        LookupFinds(slots, j);
        LookupFinds(t, j);
      } else {
        LookupMisses(t, b);
      }
    }
  }

  lemma LookupAppend(slots: seq<Slot>, x: Slot, b: Byte)
    requires DistinctKeys(slots) && forall i | 0 <= i < |slots| :: slots[i].key != x.key
    ensures Lookup(slots + [x], b) == if b == x.key then Some(x.child) else Lookup(slots, b)
  {
    var t := slots + [x];
    assert DistinctKeys(t);
    if b == x.key {
      LookupFinds(t, |slots|);
    } else {
      var j := KeyIndex(slots, b);
      if j < |slots| {
        LookupFinds(slots, j);
        LookupFinds(t, j);
      } else {
        LookupMisses(t, b);
      }
    }
  }

  lemma LookupInsertSlot(slots: seq<Slot>, x: Slot, b: Byte)
    requires SortedKeys(slots) && forall i | 0 <= i < |slots| :: slots[i].key != x.key
    ensures Lookup(InsertSlot(slots, x), b) == if b == x.key then Some(x.child) else Lookup(slots, b)
  {
    var t := InsertSlot(slots, x);
    SortedDistinct(t);
    SortedDistinct(slots);
    if b == x.key {
      assert x in t;
      var k :| 0 <= k < |t| && t[k] == x;
      LookupFinds(t, k);
    } else {
      var j := KeyIndex(slots, b);
      if j < |slots| {
        assert slots[j] in t;
        var k :| 0 <= k < |t| && t[k] == slots[j];
        LookupFinds(slots, j);
        LookupFinds(t, k);
      } else {
        forall k | 0 <= k < |t|
          ensures t[k].key != b
        {
          assert t[k] == x || t[k] in slots;
        }
        LookupMisses(t, b);
      }
    }
  }

  lemma LookupRemoveSlot(slots: seq<Slot>, i: nat, b: Byte)
    requires DistinctKeys(slots) && i < |slots|
    ensures Lookup(RemoveSlot(slots, i), b) == if b == slots[i].key then None else Lookup(slots, b)
  {
    var t := RemoveSlot(slots, i);
    RemoveSlotKeys(slots, i);
    if b == slots[i].key {
      LookupMisses(t, b);
    } else {
      var j := KeyIndex(slots, b);
      if j < |slots| {
        LookupFinds(slots, j);
        LookupFinds(t, if j < i then j else j - 1);
      } else {
        LookupMisses(t, b);
      }
    }
  }

  // ---------------------------------------------------------------------
  // One insert, one level down
  // ---------------------------------------------------------------------

  /** `m` is internal node `n` after inserting `v` along `key`: every other
      byte keeps its child, and the key byte's child is the old child after
      the insert one level down, or a new leaf holding `v`. */
  predicate InsertedBelow(n: Node, m: Node, key: seq<Byte>, v: nat)
    requires WF(n) && WF(m) && !n.Leaf? && !m.Leaf? && |key| > 0
  {
    (forall b: Byte | b != key[0] :: Step(m, b) == Step(n, b)) &&
    if Step(n, key[0]).Some? then Step(m, key[0]) == Some(Insert(Step(n, key[0]).value, key[1..], v).0)
    else Step(m, key[0]) == Some(NewLeaf(v))
  }

  /** The flag `insert` returns at an internal node is the one returned one
      level down, or true for a new leaf. */
  predicate InsertFlagBelow(n: Node, added: bool, key: seq<Byte>, v: nat)
    requires WF(n) && !n.Leaf? && |key| > 0
  {
    added == if Step(n, key[0]).Some? then Insert(Step(n, key[0]).value, key[1..], v).1 else true
  }

  lemma InsertSteps(n: Node, key: seq<Byte>, v: nat)
    requires WF(n) && !n.Leaf? && |key| > 0
    ensures InsertedBelow(n, Insert(n, key, v).0, key, v)
    ensures InsertFlagBelow(n, Insert(n, key, v).1, key, v)
    decreases Rank(n), 1
  {
    match n
    case Node4(slots) => InsertSteps4(slots, key, v);
    case Node16(slots) => InsertSteps16(slots, key, v);
    case Node48(num, index, children) => InsertSteps48(num, index, children, key, v);
    case Node256(num, children) =>
  }

  lemma InsertSteps4(slots: seq<Slot>, key: seq<Byte>, v: nat)
    requires WF(Node4(slots)) && |key| > 0
    ensures InsertedBelow(Node4(slots), Insert(Node4(slots), key, v).0, key, v)
    ensures InsertFlagBelow(Node4(slots), Insert(Node4(slots), key, v).1, key, v)
    decreases 3, 0
  {
    var n := Node4(slots);
    var m := Insert(n, key, v).0;
    assert Insert(n, key, v) == Insert4(slots, key, v);
    var i := KeyIndex(slots, key[0]);
    if i < |slots| {
      var c := Insert(slots[i].child, key[1..], v).0;
      var t := slots[i := Slot(slots[i].key, c)];
      assert m == Node4(t);
      forall b: Byte
        ensures Step(m, b) == if b == key[0] then Some(c) else Step(n, b)
      {
        LookupReplace(slots, i, c, b);
        assert Step(m, b) == Lookup(t, b);
      }
    } else if |slots| < NODE4_CAPACITY {
      var x := Slot(key[0], NewLeaf(v));
      assert m == Node4(slots + [x]);
      forall b: Byte
        ensures Step(m, b) == if b == key[0] then Some(NewLeaf(v)) else Step(n, b)
      {
        LookupAppend(slots, x, b);
        assert Step(m, b) == Lookup(slots + [x], b);
      }
    } else {
      var g := Grow16(slots);
      Grow16WF(slots);
      forall b: Byte
        ensures Step(g, b) == Step(n, b)
      {
        Grow16Steps(slots, b);
      }
      InsertSteps(g, key, v);
    }
  }

  lemma InsertSteps16(slots: seq<Slot>, key: seq<Byte>, v: nat)
    requires WF(Node16(slots)) && |key| > 0
    ensures InsertedBelow(Node16(slots), Insert(Node16(slots), key, v).0, key, v)
    ensures InsertFlagBelow(Node16(slots), Insert(Node16(slots), key, v).1, key, v)
    decreases 2, 0
  {
    var n := Node16(slots);
    assert Insert(n, key, v) == Insert16(slots, key, v);
    var m := Insert(n, key, v).0;
    var i := KeyIndex(slots, key[0]);
    SortedDistinct(slots);
    if i < |slots| {
      var c := Insert(slots[i].child, key[1..], v).0;
      assert m == Node16(slots[i := Slot(key[0], c)]);
      forall b: Byte
        ensures Step(m, b) == if b == key[0] then Some(c) else Step(n, b)
      {
        LookupReplace(slots, i, c, b);
      }
    } else if |slots| < NODE16_CAPACITY {
      forall b: Byte
        ensures Step(m, b) == if b == key[0] then Some(NewLeaf(v)) else Step(n, b)
      {
        LookupInsertSlot(slots, Slot(key[0], NewLeaf(v)), b);
      }
    } else {
      var g := Grow48(slots);
      Grow48WF(slots);
      forall b: Byte
        ensures Step(g, b) == Step(n, b)
      {
        Grow48Steps(slots, b);
      }
      InsertSteps(g, key, v);
    }
  }

  lemma InsertSteps48(num: nat, index: seq<Byte>, children: seq<Option<Node>>, key: seq<Byte>, v: nat)
    requires WF(Node48(num, index, children)) && |key| > 0
    ensures InsertedBelow(Node48(num, index, children), Insert(Node48(num, index, children), key, v).0, key, v)
    ensures InsertFlagBelow(Node48(num, index, children), Insert(Node48(num, index, children), key, v).1, key, v)
    decreases 1, 0
  {
    var n := Node48(num, index, children);
    var slot := index[key[0]];
    if slot != NO_SLOT && children[slot].Some? {
    } else if num < NODE48_CAPACITY {
      FreeSlotExists(children);
      var free := FirstFree(children);
      assert forall b | 0 <= b < FANOUT && index[b] != NO_SLOT :: index[b] != free;
    } else {
      var g := Grow256(num, index, children);
      Grow256WF(num, index, children);
      InsertSteps(g, key, v);
    }
  }

  // ---------------------------------------------------------------------
  // One remove, one level down
  // ---------------------------------------------------------------------

  /** `m` is internal node `n` after removing `v` along `key`: every other
      byte keeps its child, and the key byte's child is the old child after
      the removal one level down, dropped if that emptied it. */
  predicate RemovedBelow(n: Node, m: Node, removed: bool, key: seq<Byte>, v: nat)
    requires WF(n) && WF(m) && !n.Leaf? && !m.Leaf? && |key| > 0
  {
    (forall b: Byte | b != key[0] :: Step(m, b) == Step(n, b)) &&
    if Step(n, key[0]).Some? then
      var c := Remove(Step(n, key[0]).value, key[1..], v);
      removed == c.1 && Step(m, key[0]) == (if c.1 && IsEmpty(c.0) then None else Some(c.0))
    else !removed && m == n
  }

  lemma RemoveSteps(n: Node, key: seq<Byte>, v: nat)
    requires WF(n) && !n.Leaf? && |key| > 0
    ensures RemovedBelow(n, Remove(n, key, v).0, Remove(n, key, v).1, key, v)
  {
    match n
    case Node4(slots) => RemoveSteps4(slots, key, v);
    case Node16(slots) => RemoveSteps16(slots, key, v);
    case Node48(num, index, children) => RemoveSteps48(num, index, children, key, v);
    case Node256(num, children) => RemoveSteps256(num, children, key, v);
  }

  lemma RemoveSteps4(slots: seq<Slot>, key: seq<Byte>, v: nat)
    requires WF(Node4(slots)) && |key| > 0
    ensures RemovedBelow(Node4(slots), Remove(Node4(slots), key, v).0, Remove(Node4(slots), key, v).1, key, v)
  {
    RemoveStepsSlots(slots, key, v);
  }

  lemma RemoveSteps16(slots: seq<Slot>, key: seq<Byte>, v: nat)
    requires WF(Node16(slots)) && |key| > 0
    ensures RemovedBelow(Node16(slots), Remove(Node16(slots), key, v).0, Remove(Node16(slots), key, v).1, key, v)
  {
    SortedDistinct(slots);
    RemoveStepsSlots(slots, key, v);
  }

  lemma RemoveSteps48(num: nat, index: seq<Byte>, children: seq<Option<Node>>, key: seq<Byte>, v: nat)
    requires WF(Node48(num, index, children)) && |key| > 0
    ensures RemovedBelow(Node48(num, index, children), Remove(Node48(num, index, children), key, v).0,
                         Remove(Node48(num, index, children), key, v).1, key, v)
  {
  }

  lemma RemoveSteps256(num: nat, children: seq<Option<Node>>, key: seq<Byte>, v: nat)
    requires WF(Node256(num, children)) && |key| > 0
    ensures RemovedBelow(Node256(num, children), Remove(Node256(num, children), key, v).0,
                         Remove(Node256(num, children), key, v).1, key, v)
  {
  }

  /** The Node4 and Node16 arms of `remove`, one level down. */
  lemma RemoveStepsSlots(slots: seq<Slot>, key: seq<Byte>, v: nat)
    requires DistinctKeys(slots) && |key| > 0
    requires forall i | 0 <= i < |slots| :: WF(slots[i].child) && !IsEmpty(slots[i].child)
    ensures forall b: Byte | b != key[0] :: Lookup(RemoveFromSlots(slots, key, v).0, b) == Lookup(slots, b)
    ensures Lookup(slots, key[0]).None? ==> RemoveFromSlots(slots, key, v) == (slots, false)
    ensures Lookup(slots, key[0]).Some? ==>
              var c := Remove(Lookup(slots, key[0]).value, key[1..], v);
              RemoveFromSlots(slots, key, v).1 == c.1 &&
              Lookup(RemoveFromSlots(slots, key, v).0, key[0]) == (if c.1 && IsEmpty(c.0) then None else Some(c.0))
  {
    var r := RemoveFromSlots(slots, key, v);
    var i := KeyIndex(slots, key[0]);
    if i < |slots| {
      var c := Remove(slots[i].child, key[1..], v);
      forall b: Byte
        ensures Lookup(r.0, b) == if b != key[0] then Lookup(slots, b) else if c.1 && IsEmpty(c.0) then None else Some(c.0)
      {
        if c.1 && IsEmpty(c.0) {
          LookupRemoveSlot(slots, i, b);
        } else {
          LookupReplace(slots, i, c.0, b);
        }
      }
    }
  }

  // ---------------------------------------------------------------------
  // Empty nodes
  // ---------------------------------------------------------------------

  /** A well-formed node that `is_empty` finds nothing. */
  lemma EmptyFindsNothing(n: Node, key: seq<Byte>, v: nat)
    requires WF(n) && IsEmpty(n)
    ensures !Search(n, key, v)
  {
    if !n.Leaf? && |key| > 0 {
      match n
      case Node4(_) =>
      case Node16(_) =>
      case Node48(num, index, children) =>
        if index[key[0]] != NO_SLOT {
          Occupied(children, index[key[0]]);
        }
      case Node256(num, children) =>
        if children[key[0]].Some? {
          Occupied(children, key[0]);
        }
    }
  }

  // ---------------------------------------------------------------------
  // Insert
  // ---------------------------------------------------------------------

  /** `insert` keeps every value `search` found before and adds no value
      but the inserted one. */
  lemma {:induction false} InsertKeeps(n: Node, key: seq<Byte>, v: nat, k2: seq<Byte>, v2: nat)
    requires WF(n)
    ensures Search(n, k2, v2) ==> Search(Insert(n, key, v).0, k2, v2)
    ensures Search(Insert(n, key, v).0, k2, v2) ==> Search(n, k2, v2) || v2 == v
    decreases |key|
  {
    var m := Insert(n, key, v).0;
    if !n.Leaf? && |key| > 0 && |k2| > 0 {
      InsertSteps(n, key, v);
      if k2[0] != key[0] {
        assert Step(m, k2[0]) == Step(n, k2[0]);
      } else if Step(n, key[0]).Some? {
        InsertKeeps(Step(n, key[0]).value, key[1..], v, k2[1..], v2);
      } else {
        assert Step(m, k2[0]) == Some(Leaf([v]));
        assert Search(m, k2, v2) == (v2 in [v]);
      }
    }
  }

  /** After `insert`, `search` finds the value along the key whenever the
      key was long enough to reach a leaf or a missing child. */
  lemma {:induction false} InsertFinds(n: Node, key: seq<Byte>, v: nat)
    requires WF(n) && Routes(n, key)
    ensures Search(Insert(n, key, v).0, key, v)
    decreases |key|
  {
    if !n.Leaf? {
      InsertSteps(n, key, v);
      if Step(n, key[0]).Some? {
        InsertFinds(Step(n, key[0]).value, key[1..], v);
      }
    }
  }

  /** `insert` reports true exactly when the key reaches a leaf or a missing
      child and the value was not found there. */
  lemma {:induction false} InsertReportsNew(n: Node, key: seq<Byte>, v: nat)
    requires WF(n)
    ensures Insert(n, key, v).1 <==> Routes(n, key) && !Search(n, key, v)
    decreases |key|
  {
    if !n.Leaf? && |key| > 0 {
      InsertSteps(n, key, v);
      if Step(n, key[0]).Some? {
        InsertReportsNew(Step(n, key[0]).value, key[1..], v);
      }
    }
  }

  // ---------------------------------------------------------------------
  // Remove
  // ---------------------------------------------------------------------

  /** `remove` adds nothing and keeps every other value `search` found. */
  lemma {:induction false} RemoveKeeps(n: Node, key: seq<Byte>, v: nat, k2: seq<Byte>, v2: nat)
    requires WF(n)
    ensures Search(Remove(n, key, v).0, k2, v2) ==> Search(n, k2, v2)
    ensures Search(n, k2, v2) && v2 != v ==> Search(Remove(n, key, v).0, k2, v2)
    decreases |key|
  {
    if !n.Leaf? && |key| > 0 && |k2| > 0 {
      RemoveSteps(n, key, v);
      if k2[0] == key[0] && Step(n, key[0]).Some? {
        var c := Remove(Step(n, key[0]).value, key[1..], v);
        RemoveKeeps(Step(n, key[0]).value, key[1..], v, k2[1..], v2);
        if c.1 && IsEmpty(c.0) {
          EmptyFindsNothing(c.0, k2[1..], v2);
        }
      }
    }
  }

  /** After `remove`, `search` no longer finds the value along the key. */
  lemma {:induction false} RemoveDeletes(n: Node, key: seq<Byte>, v: nat)
    requires WF(n)
    ensures !Search(Remove(n, key, v).0, key, v)
    decreases |key|
  {
    if !n.Leaf? && |key| > 0 {
      RemoveSteps(n, key, v);
      if Step(n, key[0]).Some? {
        RemoveDeletes(Step(n, key[0]).value, key[1..], v);
      }
    }
  }

  /** `remove` reports true exactly when `search` found the value. */
  lemma {:induction false} RemoveReportsFound(n: Node, key: seq<Byte>, v: nat)
    requires WF(n)
    ensures Remove(n, key, v).1 <==> Search(n, key, v)
    decreases |key|
  {
    if !n.Leaf? && |key| > 0 {
      RemoveSteps(n, key, v);
      if Step(n, key[0]).Some? {
        RemoveReportsFound(Step(n, key[0]).value, key[1..], v);
      }
    }
  }

  // ---------------------------------------------------------------------
  // Collecting
  // ---------------------------------------------------------------------

  /** The values under the child at scan position `i` are among those
      collected from any position up to `i`. */
  lemma {:induction false} CollectFromIncludes(n: Node, j: nat, i: nat, v: nat)
    requires j <= i < Width(n) && Kid(n, i).Some? && v in CollectAll(Kid(n, i).value)
    ensures v in CollectFrom(n, j)
    decreases i - j
  {
    CollectFromUnfold(n, j);
    if j < i {
      CollectFromIncludes(n, j + 1, i, v);
    }
  }

  /** A value collected from position `j` on sits under one child there. */
  lemma {:induction false} CollectFromMember(n: Node, j: nat, v: nat) returns (i: nat)
    requires v in CollectFrom(n, j)
    ensures j <= i < Width(n) && Kid(n, i).Some? && v in CollectAll(Kid(n, i).value)
    decreases Width(n) - j
  {
    CollectFromUnfold(n, j);
    if Kid(n, j).Some? && v in CollectAll(Kid(n, j).value) {
      i := j;
    } else {
      i := CollectFromMember(n, j + 1, v);
    }
  }

  /** The child `search` descends into for a byte is scanned by
      `collect_all`. */
  lemma StepKid(n: Node, b: Byte) returns (i: nat)
    requires WF(n) && !n.Leaf? && Step(n, b).Some?
    ensures i < Width(n) && Kid(n, i) == Step(n, b)
  {
    match n
    case Node4(slots) => i := KeyIndex(slots, b);
    case Node16(slots) => i := KeyIndex(slots, b);
    case Node48(_, index, _) => i := index[b];
    case Node256(_, _) => i := b;
  }

  /** Every child `collect_all` scans is the one `search` descends into for
      some byte. */
  lemma KidStep(n: Node, i: nat) returns (b: Byte)
    requires WF(n) && !n.Leaf? && i < Width(n) && Kid(n, i).Some?
    ensures Step(n, b) == Kid(n, i)
  {
    match n
    case Node4(slots) =>
      b := slots[i].key;
      LookupFinds(slots, i);
    case Node16(slots) =>
      b := slots[i].key;
      SortedDistinct(slots);
      LookupFinds(slots, i);
    case Node48(_, index, _) =>
      assert i in index;
      var x :| 0 <= x < |index| && index[x] == i;
      b := x;
    case Node256(_, _) =>
      b := i;
  }

  /** `collect_all` lists every value `search` finds. */
  lemma {:induction false} CollectComplete(n: Node, key: seq<Byte>, v: nat)
    requires WF(n) && Search(n, key, v)
    ensures v in CollectAll(n)
    decreases |key|
  {
    if !n.Leaf? {
      CollectComplete(Step(n, key[0]).value, key[1..], v);
      var i := StepKid(n, key[0]);
      CollectFromIncludes(n, 0, i, v);
    }
  }

  /** `search` finds every value `collect_all` lists, along some key. */
  lemma {:induction false} CollectSound(n: Node, v: nat) returns (key: seq<Byte>)
    requires WF(n) && v in CollectAll(n)
    ensures Search(n, key, v)
    decreases n
  {
    if n.Leaf? {
      key := [];
    } else {
      var i := CollectFromMember(n, 0, v);
      var b := KidStep(n, i);
      var rest: seq<Byte>;
      match n {
        case Node4(slots) => rest := CollectSound(slots[i].child, v);
        case Node16(slots) => rest := CollectSound(slots[i].child, v);
        case Node48(_, _, children) => rest := CollectSound(children[i].value, v);
        case Node256(_, children) => rest := CollectSound(children[i].value, v);
      }
      key := [b] + rest;
      assert key[1..] == rest;
    }
  }

  // ---------------------------------------------------------------------
  // The Node48 insert as written
  // ---------------------------------------------------------------------

  /** Collecting from positions that hold no child yields nothing. */
  lemma {:induction false} CollectFromNone(n: Node, j: nat)
    requires forall i | j <= i < Width(n) :: Kid(n, i).None?
    ensures CollectFrom(n, j) == []
    decreases Width(n) - j
  {
    CollectFromUnfold(n, j);
    if j < Width(n) {
      CollectFromNone(n, j + 1);
    }
  }

  /** A Node48 holding 7 under byte 1 in slot 1, slot 0 having been freed
      by a removal, is well-formed. */
  lemma FreedSlotNode(index: seq<Byte>, children: seq<Option<Node>>)
    requires index == seq(FANOUT, b requires 0 <= b < FANOUT => if b == 1 then 1 else NO_SLOT)
    requires children == seq(NODE48_CAPACITY, s requires 0 <= s < NODE48_CAPACITY => if s == 1 then Some(Leaf([7])) else None)
    ensures WF(Node48(1, index, children)) && Search(Node48(1, index, children), [1], 7)
  {
    assert SomeSlots(children) == {1};
    assert index[1] == 1;
  }

  /** On that node, the written insert of 9 under byte 2 files the new leaf
      at slot `num_children` = 1, so bytes 1 and 2 share a slot and 7 is
      gone, though the insert reports success. */
  lemma Node48InsertLosesValue(index: seq<Byte>, children: seq<Option<Node>>)
    requires index == seq(FANOUT, b requires 0 <= b < FANOUT => if b == 1 then 1 else NO_SLOT)
    requires children == seq(NODE48_CAPACITY, s requires 0 <= s < NODE48_CAPACITY => if s == 1 then Some(Leaf([7])) else None)
    ensures WF(Node48(1, index, children)) && Search(Node48(1, index, children), [1], 7)
    ensures Insert48AsWritten(1, index, children, [2], 9).1
    ensures Insert48AsWritten(1, index, children, [2], 9).0.index[1] == Insert48AsWritten(1, index, children, [2], 9).0.index[2]
    ensures CollectAll(Insert48AsWritten(1, index, children, [2], 9).0) == [9]
  {
    FreedSlotNode(index, children);
    var r := Insert48AsWritten(1, index, children, [2], 9).0;
    CollectFromUnfold(r, 0);
    CollectFromUnfold(r, 1);
    CollectFromNone(r, 2);
  }

  /** On the same node, the insert that uses the first free slot keeps 7
      under byte 1. */
  lemma Node48InsertKeepsValue(index: seq<Byte>, children: seq<Option<Node>>)
    requires index == seq(FANOUT, b requires 0 <= b < FANOUT => if b == 1 then 1 else NO_SLOT)
    requires children == seq(NODE48_CAPACITY, s requires 0 <= s < NODE48_CAPACITY => if s == 1 then Some(Leaf([7])) else None)
    ensures WF(Node48(1, index, children))
    ensures Search(Insert(Node48(1, index, children), [2], 9).0, [1], 7)
    ensures Search(Insert(Node48(1, index, children), [2], 9).0, [2], 9)
  {
    FreedSlotNode(index, children);
    InsertKeeps(Node48(1, index, children), [2], 9, [1], 7);
    InsertFinds(Node48(1, index, children), [2], 9);
  }
}
