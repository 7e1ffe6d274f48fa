/** The property range indexes: a B-tree from property value to the ids
    carrying it, as `CompositeRangeIndex` keeps for node properties and
    `EdgePropertyIndex` for edge properties (the two share their code).
    The `BTreeMap` is modelled as its in-order entry list, strictly
    increasing under the key order, with a non-empty id list per entry;
    two keys the order calls `Equal` are the same entry. */
module RangeIndex {
  import opened Wrappers
  import opened Seqs
  import opened Sorting
  import opened Json
  import opened OrderedValues

  /** Strictly increasing keys, no empty id list. */
  predicate ValidEntries<K>(e: seq<(K, seq<nat>)>, cmp: (K, K) -> Ordering) {
    && (forall i, j | 0 <= i < j < |e| :: cmp(e[i].0, e[j].0) == Less)
    && (forall i | 0 <= i < |e| :: |e[i].1| > 0)
  }

  /** The entry whose key the order calls equal to `k`. */
  function Find<K>(e: seq<(K, seq<nat>)>, k: K, cmp: (K, K) -> Ordering): (r: Option<nat>)
    ensures r.Some? ==> r.value < |e| && cmp(e[r.value].0, k) == Equal
    ensures r.Some? ==> forall i | 0 <= i < r.value :: cmp(e[i].0, k) != Equal
    ensures r.None? ==> forall i | 0 <= i < |e| :: cmp(e[i].0, k) != Equal
  {
    if |e| == 0 then None
    else if cmp(e[0].0, k) == Equal then Some(0)
    else
      var f := Find(e[1..], k, cmp);
      if f.Some? then Some(f.value + 1) else None
  }

  /** Keys the order calls equal compare alike against any other key. */
  lemma EqualSubst<K(!new)>(cmp: (K, K) -> Ordering, a: K, b: K, c: K)
    requires TotalPreorder(cmp) && cmp(a, b) == Equal
    ensures cmp(a, c) == cmp(b, c) && cmp(c, a) == cmp(c, b)
  {
    assert cmp(b, a) == Equal;
    assert cmp(c, a) == cmp(a, c).Reverse() && cmp(c, b) == cmp(b, c).Reverse();
  }

  /** In a valid entry list at most one entry matches a key. */
  lemma FindOnly<K(!new)>(e: seq<(K, seq<nat>)>, k: K, cmp: (K, K) -> Ordering, i: nat)
    requires TotalPreorder(cmp) && ValidEntries(e, cmp)
    requires i < |e| && cmp(e[i].0, k) == Equal
    ensures Find(e, k, cmp) == Some(i)
  {
    forall j | 0 <= j < i
      ensures cmp(e[j].0, k) == Less
    {
      EqualSubst(cmp, e[i].0, k, e[j].0);
    }
  }

  /** When no entry matches, `Find` says so. */
  lemma FindAbsent<K(!new)>(e: seq<(K, seq<nat>)>, k: K, cmp: (K, K) -> Ordering)
    requires forall i | 0 <= i < |e| :: cmp(e[i].0, k) != Equal
    ensures Find(e, k, cmp) == None
  {
  }

  /** `lookup_exact`: the ids of the matching entry, none when absent. */
  function Bucket<K>(e: seq<(K, seq<nat>)>, k: K, cmp: (K, K) -> Ordering): (r: seq<nat>)
    ensures Find(e, k, cmp).None? ==> r == []
    ensures Find(e, k, cmp).Some? ==> r == e[Find(e, k, cmp).value].1
  {
    var f := Find(e, k, cmp);
    if f.Some? then e[f.value].1 else []
  }

  /** The number of entries with a key before `k`. */
  function InsertPos<K>(e: seq<(K, seq<nat>)>, k: K, cmp: (K, K) -> Ordering): (r: nat)
    ensures r <= |e|
    ensures forall i | 0 <= i < r :: cmp(e[i].0, k) == Less
    ensures r < |e| ==> cmp(e[r].0, k) != Less
  {
    if |e| == 0 || cmp(e[0].0, k) != Less then 0
    else 1 + InsertPos(e[1..], k, cmp)
  }

  /** `entry(key).or_default().push(id)`: the id is appended to the
      matching entry, or a new entry is placed at its key's position. */
  function Insert<K>(e: seq<(K, seq<nat>)>, k: K, id: nat, cmp: (K, K) -> Ordering): (r: seq<(K, seq<nat>)>)
  {
    var f := Find(e, k, cmp);
    if f.Some? then e[f.value := (e[f.value].0, e[f.value].1 + [id])]
    else
      var p := InsertPos(e, k, cmp);
      e[..p] + [(k, [id])] + e[p..]
  }

  /** Insertion keeps the entries valid, appends the id to the bucket of
      the key, and leaves every other bucket as it was. */
  lemma InsertSpec<K(!new)>(e: seq<(K, seq<nat>)>, k: K, id: nat, cmp: (K, K) -> Ordering, q: K)
    requires TotalPreorder(cmp) && ValidEntries(e, cmp)
    ensures ValidEntries(Insert(e, k, id, cmp), cmp)
    ensures Bucket(Insert(e, k, id, cmp), q, cmp)
      == Bucket(e, q, cmp) + (if cmp(q, k) == Equal then [id] else [])
  {
    var r := Insert(e, k, id, cmp);
    var f := Find(e, k, cmp);
    if f.Some? {
      assert |r| == |e| && forall i | 0 <= i < |e| :: r[i].0 == e[i].0;
      assert ValidEntries(r, cmp);
      var fq := Find(e, q, cmp);
      if cmp(q, k) == Equal {
        assert cmp(e[f.value].0, q) == Equal by {
          assert cmp(k, q) == Equal;
        }
        FindOnly(e, q, cmp, f.value);
        FindOnly(r, q, cmp, f.value);
      } else {
        assert cmp(e[f.value].0, q) != Equal by {
          EqualSubst(cmp, e[f.value].0, k, q);
          assert cmp(k, q) == cmp(q, k).Reverse();
        }
        if fq.Some? {
          FindOnly(r, q, cmp, fq.value);
        } else {
          FindAbsent(r, q, cmp);
        }
      }
    } else {
      var p := InsertPos(e, k, cmp);
      InsertNewSpec(e, k, id, cmp, p);
      InsertNewBucket(e, k, id, cmp, p, q);
    }
  }

  /** Insertion, for every key at once. */
  lemma InsertSpecAll<K(!new)>(e: seq<(K, seq<nat>)>, k: K, id: nat, cmp: (K, K) -> Ordering)
    requires TotalPreorder(cmp) && ValidEntries(e, cmp)
    ensures ValidEntries(Insert(e, k, id, cmp), cmp)
    ensures forall q ::
      Bucket(Insert(e, k, id, cmp), q, cmp) == Bucket(e, q, cmp) + (if cmp(q, k) == Equal then [id] else [])
  {
    InsertSpec(e, k, id, cmp, k);
    forall q
      ensures Bucket(Insert(e, k, id, cmp), q, cmp)
        == Bucket(e, q, cmp) + (if cmp(q, k) == Equal then [id] else [])
    {
      InsertSpec(e, k, id, cmp, q);
    }
  }

  /** A new entry at the insertion position keeps the keys increasing. */
  lemma InsertNewSpec<K(!new)>(e: seq<(K, seq<nat>)>, k: K, id: nat, cmp: (K, K) -> Ordering, p: nat)
    requires TotalPreorder(cmp) && ValidEntries(e, cmp)
    requires Find(e, k, cmp).None? && p == InsertPos(e, k, cmp)
    ensures ValidEntries(e[..p] + [(k, [id])] + e[p..], cmp)
  {
    NewKeyBetween(e, k, cmp, p);
    PlaceBetween(e, (k, [id]), cmp, p);
  }

  /** A key no entry matches lies above the entries before its insertion
      position and below those from it on. */
  lemma NewKeyBetween<K(!new)>(e: seq<(K, seq<nat>)>, k: K, cmp: (K, K) -> Ordering, p: nat)
    requires TotalPreorder(cmp) && ValidEntries(e, cmp)
    requires Find(e, k, cmp).None? && p == InsertPos(e, k, cmp)
    ensures forall j | p <= j < |e| :: cmp(k, e[j].0) == Less
  {
    if p < |e| {
      assert cmp(e[p].0, k) == Greater;
      assert cmp(k, e[p].0) == Less;
      forall j | p < j < |e|
        ensures cmp(k, e[j].0) == Less
      {
        assert cmp(e[p].0, e[j].0) == Less;
        StrictThenWeak(cmp, k, e[p].0, e[j].0);
      }
    }
  }

  /** An entry whose key lies strictly between its neighbours keeps the
      keys increasing. */
  lemma PlaceBetween<K(!new)>(e: seq<(K, seq<nat>)>, x: (K, seq<nat>), cmp: (K, K) -> Ordering, p: nat)
    requires TotalPreorder(cmp) && ValidEntries(e, cmp) && |x.1| > 0 && p <= |e|
    requires forall i | 0 <= i < p :: cmp(e[i].0, x.0) == Less
    requires forall j | p <= j < |e| :: cmp(x.0, e[j].0) == Less
    ensures ValidEntries(e[..p] + [x] + e[p..], cmp)
  {
    var r := e[..p] + [x] + e[p..];
    forall i, j | 0 <= i < j < |r|
      ensures cmp(r[i].0, r[j].0) == Less
    {
      if i < p && j == p {
        assert r[i] == e[i];
      } else if i < p && j > p {
        assert r[i] == e[i] && r[j] == e[j - 1];
        StrictThenWeak(cmp, r[i].0, x.0, r[j].0);
      } else if i == p {
        assert r[j] == e[j - 1];
      } else if i > p {
        assert r[i] == e[i - 1] && r[j] == e[j - 1];
      }
    }
  }

  /** The buckets after placing a new entry. */
  lemma InsertNewBucket<K(!new)>(e: seq<(K, seq<nat>)>, k: K, id: nat, cmp: (K, K) -> Ordering, p: nat, q: K)
    requires TotalPreorder(cmp) && ValidEntries(e, cmp)
    requires Find(e, k, cmp).None? && p == InsertPos(e, k, cmp)
    requires ValidEntries(e[..p] + [(k, [id])] + e[p..], cmp)
    ensures Bucket(e[..p] + [(k, [id])] + e[p..], q, cmp)
      == Bucket(e, q, cmp) + (if cmp(q, k) == Equal then [id] else [])
  {
    if cmp(q, k) == Equal {
      NewBucketOfKey(e, k, id, cmp, p, q);
    } else {
      NewBucketOfOther(e, k, id, cmp, p, q);
    }
  }

  /** A key equal to the new one finds the new entry, which it did not
      find before. */
  lemma NewBucketOfKey<K(!new)>(e: seq<(K, seq<nat>)>, k: K, id: nat, cmp: (K, K) -> Ordering, p: nat, q: K)
    requires TotalPreorder(cmp) && ValidEntries(e, cmp)
    requires Find(e, k, cmp).None? && p == InsertPos(e, k, cmp)
    requires ValidEntries(e[..p] + [(k, [id])] + e[p..], cmp)
    requires cmp(q, k) == Equal
    ensures Bucket(e[..p] + [(k, [id])] + e[p..], q, cmp) == [id]
    ensures Bucket(e, q, cmp) == []
  {
    var r := e[..p] + [(k, [id])] + e[p..];
    assert r[p] == (k, [id]);
    assert cmp(k, q) == Equal;
    FindOnly(r, q, cmp, p);
    forall j | 0 <= j < |e|
      ensures cmp(e[j].0, q) != Equal
    {
      EqualSubst(cmp, q, k, e[j].0);
    }
    FindAbsent(e, q, cmp);
  }

  /** Any other key finds what it found before. */
  lemma NewBucketOfOther<K(!new)>(e: seq<(K, seq<nat>)>, k: K, id: nat, cmp: (K, K) -> Ordering, p: nat, q: K)
    requires TotalPreorder(cmp) && ValidEntries(e, cmp)
    requires p == InsertPos(e, k, cmp)
    requires ValidEntries(e[..p] + [(k, [id])] + e[p..], cmp)
    requires cmp(q, k) != Equal
    ensures Bucket(e[..p] + [(k, [id])] + e[p..], q, cmp) == Bucket(e, q, cmp)
  {
    assert cmp(k, q) != Equal by {
      assert cmp(k, q) == cmp(q, k).Reverse();
    }
    var fq := Find(e, q, cmp);
    if fq.Some? {
      OtherFoundShifted(e, k, id, cmp, p, q, fq.value);
    } else {
      OtherStillAbsent(e, k, id, cmp, p, q);
    }
  }

  /** An entry found before the insertion is found at its new place. */
  lemma OtherFoundShifted<K(!new)>(e: seq<(K, seq<nat>)>, k: K, id: nat, cmp: (K, K) -> Ordering, p: nat, q: K, j: nat)
    requires TotalPreorder(cmp) && p <= |e|
    requires ValidEntries(e[..p] + [(k, [id])] + e[p..], cmp)
    requires j < |e| && cmp(e[j].0, q) == Equal
    ensures var r := e[..p] + [(k, [id])] + e[p..];
      Find(r, q, cmp) == Some(if j < p then j else j + 1) && r[Find(r, q, cmp).value] == e[j]
  {
    var r := e[..p] + [(k, [id])] + e[p..];
    if j < p {
      assert r[j] == e[j];
      FindOnly(r, q, cmp, j);
    } else {
      assert r[j + 1] == e[j];
      FindOnly(r, q, cmp, j + 1);
    }
  }

  /** A key no entry matched, and not equal to the new key, still matches
      none. */
  lemma OtherStillAbsent<K(!new)>(e: seq<(K, seq<nat>)>, k: K, id: nat, cmp: (K, K) -> Ordering, p: nat, q: K)
    requires p <= |e| && cmp(k, q) != Equal
    requires forall i | 0 <= i < |e| :: cmp(e[i].0, q) != Equal
    ensures Find(e[..p] + [(k, [id])] + e[p..], q, cmp) == None
  {
    var r := e[..p] + [(k, [id])] + e[p..];
    forall i | 0 <= i < |r|
      ensures cmp(r[i].0, q) != Equal
    {
      if i < p { assert r[i] == e[i]; }
      else if i > p { assert r[i] == e[i - 1]; }
    }
    FindAbsent(r, q, cmp);
  }

  /** `remove`: takes one occurrence of the id out of the matching
      entry's list, dropping the entry when its list empties; reports
      whether the id was there. */
  function Remove<K>(e: seq<(K, seq<nat>)>, k: K, id: nat, cmp: (K, K) -> Ordering): (r: (seq<(K, seq<nat>)>, bool))
  {
    var f := Find(e, k, cmp);
    if f.None? || id !in e[f.value].1 then (e, false)
    else
      var ids := SwapRemove(e[f.value].1, IndexOf(e[f.value].1, id));
      if |ids| == 0 then (e[..f.value] + e[f.value + 1..], true)
      else (e[f.value := (e[f.value].0, ids)], true)
  }

  /** Removal keeps the entries valid, succeeds exactly when the id is in
      the key's bucket, then takes one occurrence of it out of that bucket
      and changes no other bucket. */
  lemma RemoveSpec<K(!new)>(e: seq<(K, seq<nat>)>, k: K, id: nat, cmp: (K, K) -> Ordering, q: K)
    requires TotalPreorder(cmp) && ValidEntries(e, cmp)
    ensures ValidEntries(Remove(e, k, id, cmp).0, cmp)
    ensures Remove(e, k, id, cmp).1 <==> id in Bucket(e, k, cmp)
    ensures !Remove(e, k, id, cmp).1 ==> Remove(e, k, id, cmp).0 == e
    ensures cmp(q, k) != Equal ==> Bucket(Remove(e, k, id, cmp).0, q, cmp) == Bucket(e, q, cmp)
    ensures cmp(q, k) == Equal ==>
      multiset(Bucket(Remove(e, k, id, cmp).0, q, cmp))
        == multiset(Bucket(e, q, cmp)) - multiset{id}
  {
    var f := Find(e, k, cmp);
    if f.Some? && id in e[f.value].1 {
      var i := f.value;
      var ids := SwapRemove(e[i].1, IndexOf(e[i].1, id));
      var r := Remove(e, k, id, cmp).0;
      var fq := Find(e, q, cmp);
      var same := cmp(q, k) == Equal;
      assert same <==> cmp(e[i].0, q) == Equal by {
        EqualSubst(cmp, e[i].0, k, q);
        assert cmp(k, q) == cmp(q, k).Reverse();
      }
      if same {
        FindOnly(e, q, cmp, i);
      }
      if |ids| == 0 {
        RemoveEntrySpec(e, i, cmp, q);
      } else {
        assert r == e[i := (e[i].0, ids)];
        ReplaceListSpec(e, i, ids, cmp, q);
      }
    } else if f.None? {
      if cmp(q, k) == Equal {
        forall j | 0 <= j < |e|
          ensures cmp(e[j].0, q) != Equal
        {
          EqualSubst(cmp, q, k, e[j].0);
        }
        FindAbsent(e, q, cmp);
      }
    } else {
      if cmp(q, k) == Equal {
        assert cmp(e[f.value].0, q) == Equal by { assert cmp(k, q) == Equal; }
        FindOnly(e, q, cmp, f.value);
      }
    }
  }

  /** Replacing the list of entry `i` by a non-empty one keeps the
      entries valid and changes only the bucket of that entry's key. */
  lemma ReplaceListSpec<K(!new)>(e: seq<(K, seq<nat>)>, i: nat, ids: seq<nat>, cmp: (K, K) -> Ordering, q: K)
    requires TotalPreorder(cmp) && ValidEntries(e, cmp) && i < |e| && |ids| > 0
    ensures ValidEntries(e[i := (e[i].0, ids)], cmp)
    ensures Bucket(e[i := (e[i].0, ids)], q, cmp) == if cmp(e[i].0, q) == Equal then ids else Bucket(e, q, cmp)
  {
    var r := e[i := (e[i].0, ids)];
    assert |r| == |e| && forall j | 0 <= j < |e| :: r[j].0 == e[j].0;
    assert ValidEntries(r, cmp);
    var fq := Find(e, q, cmp);
    if cmp(e[i].0, q) == Equal {
      FindOnly(r, q, cmp, i);
    } else if fq.Some? {
      FindOnly(r, q, cmp, fq.value);
    } else {
      FindAbsent(r, q, cmp);
    }
  }

  /** Removal, for every key at once. */
  lemma RemoveSpecAll<K(!new)>(e: seq<(K, seq<nat>)>, k: K, id: nat, cmp: (K, K) -> Ordering)
    requires TotalPreorder(cmp) && ValidEntries(e, cmp)
    ensures ValidEntries(Remove(e, k, id, cmp).0, cmp)
    ensures Remove(e, k, id, cmp).1 <==> id in Bucket(e, k, cmp)
    ensures forall q | cmp(q, k) != Equal :: Bucket(Remove(e, k, id, cmp).0, q, cmp) == Bucket(e, q, cmp)
    ensures forall q | cmp(q, k) == Equal ::
      multiset(Bucket(Remove(e, k, id, cmp).0, q, cmp)) == multiset(Bucket(e, q, cmp)) - multiset{id}
  {
    RemoveSpec(e, k, id, cmp, k);
    forall q
      ensures cmp(q, k) != Equal ==> Bucket(Remove(e, k, id, cmp).0, q, cmp) == Bucket(e, q, cmp)
      ensures cmp(q, k) == Equal ==>
        multiset(Bucket(Remove(e, k, id, cmp).0, q, cmp)) == multiset(Bucket(e, q, cmp)) - multiset{id}
    {
      RemoveSpec(e, k, id, cmp, q);
    }
  }

  /** The entries without entry `i`: the earlier ones in place, the later
      ones one step down, still valid. */
  lemma DropEntry<K>(e: seq<(K, seq<nat>)>, i: nat, cmp: (K, K) -> Ordering)
    requires ValidEntries(e, cmp) && i < |e|
    ensures var r := e[..i] + e[i + 1..];
      |r| == |e| - 1
      && (forall j | 0 <= j < |r| :: r[j] == (if j < i then e[j] else e[j + 1]))
      && ValidEntries(r, cmp)
  {
    var r := e[..i] + e[i + 1..];
    assert forall j | 0 <= j < |r| :: r[j] == (if j < i then e[j] else e[j + 1]);
    forall a, b | 0 <= a < b < |r|
      ensures cmp(r[a].0, r[b].0) == Less
    {
      var a', b' := if a < i then a else a + 1, if b < i then b else b + 1;
      assert r[a] == e[a'] && r[b] == e[b'];
    }
  }

  /** Dropping entry `i` keeps the entries valid; the buckets of keys
      other than its own stay, and its own key's bucket empties. */
  lemma RemoveEntrySpec<K(!new)>(e: seq<(K, seq<nat>)>, i: nat, cmp: (K, K) -> Ordering, q: K)
    requires TotalPreorder(cmp) && ValidEntries(e, cmp) && i < |e|
    ensures ValidEntries(e[..i] + e[i + 1..], cmp)
    ensures cmp(e[i].0, q) != Equal ==> Bucket(e[..i] + e[i + 1..], q, cmp) == Bucket(e, q, cmp)
    ensures cmp(e[i].0, q) == Equal ==> Bucket(e[..i] + e[i + 1..], q, cmp) == []
  {
    var r := e[..i] + e[i + 1..];
    DropEntry(e, i, cmp);
    var fq := Find(e, q, cmp);
    if cmp(e[i].0, q) == Equal {
      FindOnly(e, q, cmp, i);
      forall j | 0 <= j < |r|
        ensures cmp(r[j].0, q) != Equal
      {
        var o := if j < i then j else j + 1;
        assert r[j] == e[o];
      }
      FindAbsent(r, q, cmp);
    } else if fq.Some? {
      var j := fq.value;
      assert j != i;
      if j < i {
        FindOnly(r, q, cmp, j);
      } else {
        assert r[j - 1] == e[j];
        FindOnly(r, q, cmp, j - 1);
      }
    } else {
      FindAbsent(r, q, cmp);
    }
  }

  /** A range end: `Bound::Included`, `Bound::Excluded` or
      `Bound::Unbounded`. */
  datatype Bound<K> = Included(key: K) | Excluded(key: K) | Unbounded

  predicate AboveLower<K>(k: K, lower: Bound<K>, cmp: (K, K) -> Ordering) {
    match lower
    case Included(l) => cmp(l, k) != Greater
    case Excluded(l) => cmp(l, k) == Less
    case Unbounded => true
  }

  predicate BelowUpper<K>(k: K, upper: Bound<K>, cmp: (K, K) -> Ordering) {
    match upper
    case Included(u) => cmp(k, u) != Greater
    case Excluded(u) => cmp(k, u) == Less
    case Unbounded => true
  }

  predicate InRange<K>(k: K, lower: Bound<K>, upper: Bound<K>, cmp: (K, K) -> Ordering) {
    AboveLower(k, lower, cmp) && BelowUpper(k, upper, cmp)
  }

  /** `range((lower, upper)).flat_map(ids)`: the ids of the entries in
      range, entry by entry in key order. */
  function RangeIds<K>(e: seq<(K, seq<nat>)>, lower: Bound<K>, upper: Bound<K>, cmp: (K, K) -> Ordering): (r: seq<nat>)
    ensures forall x :: x in r <==>
      exists i | 0 <= i < |e| :: InRange(e[i].0, lower, upper, cmp) && x in e[i].1
  {
    if |e| == 0 then []
    else
      var front := e[..|e| - 1];
      var rest := RangeIds(front, lower, upper, cmp);
      var last := e[|e| - 1];
      assert forall i | 0 <= i < |front| :: front[i] == e[i];
      rest + (if InRange(last.0, lower, upper, cmp) then last.1 else [])
  }

  /** The ids listed by a range lookup add up to the buckets of the keys
      in range, and a key in range contributes its whole bucket. */
  lemma {:induction false} RangeIdsCount<K(!new)>(e: seq<(K, seq<nat>)>, lower: Bound<K>, upper: Bound<K>, cmp: (K, K) -> Ordering, i: nat)
    requires i < |e| && InRange(e[i].0, lower, upper, cmp)
    ensures multiset(e[i].1) <= multiset(RangeIds(e, lower, upper, cmp))
  {
    var front := e[..|e| - 1];
    if i < |e| - 1 {
      assert front[i] == e[i];
      RangeIdsCount(front, lower, upper, cmp, i);
    }
  }

  /** A node-property or edge-property range index: the label or
      relationship type, the property, and the B-tree. */
  datatype PropertyRangeIndex = PropertyRangeIndex(owner: string, property: string, entries: seq<(Json, seq<nat>)>)

  function KeyOrder(render: Json -> string): (K: (Json, Json) -> Ordering)
    ensures forall a, b :: K(a, b) == OrderedCmp(a, b, render)
  {
    (a, b) => OrderedCmp(a, b, render)
  }

  /** `new`: no entry. */
  function NewIndex(owner: string, property: string): (r: PropertyRangeIndex)
    ensures r.entries == [] && r.owner == owner && r.property == property
  {
    PropertyRangeIndex(owner, property, [])
  }

  predicate ValidIndex(idx: PropertyRangeIndex, render: Json -> string) {
    ValidEntries(idx.entries, KeyOrder(render))
  }

  /** `insert(id, value)`. */
  function IndexInsert(idx: PropertyRangeIndex, id: nat, value: Json, render: Json -> string): (r: PropertyRangeIndex)
    requires RendersJson(render) && ValidIndex(idx, render)
    ensures ValidIndex(r, render) && r.owner == idx.owner && r.property == idx.property
    ensures LookupExact(r, value, render) == LookupExact(idx, value, render) + [id]
    ensures forall probe | OrderedCmp(probe, value, render) != Equal ::
      LookupExact(r, probe, render) == LookupExact(idx, probe, render)
  {
    IndexInsertBuckets(idx, id, value, render);
    idx.(entries := Insert(idx.entries, value, id, KeyOrder(render)))
  }

  lemma IndexInsertBuckets(idx: PropertyRangeIndex, id: nat, value: Json, render: Json -> string)
    requires RendersJson(render) && ValidIndex(idx, render)
    ensures ValidIndex(idx.(entries := Insert(idx.entries, value, id, KeyOrder(render))), render)
    ensures LookupExact(idx.(entries := Insert(idx.entries, value, id, KeyOrder(render))), value, render)
      == LookupExact(idx, value, render) + [id]
    ensures forall probe | OrderedCmp(probe, value, render) != Equal ::
      LookupExact(idx.(entries := Insert(idx.entries, value, id, KeyOrder(render))), probe, render)
        == LookupExact(idx, probe, render)
  {
    var cmp := KeyOrder(render);
    OrderedTotalPreorder(render);
    InsertSpecAll(idx.entries, value, id, cmp);
    assert cmp(value, value) == Equal;
  }

  /** `remove(id, value)`: true exactly when the id was indexed under the
      value, and then one occurrence of it is gone. */
  function IndexRemove(idx: PropertyRangeIndex, id: nat, value: Json, render: Json -> string): (r: (PropertyRangeIndex, bool))
    requires RendersJson(render) && ValidIndex(idx, render)
    ensures ValidIndex(r.0, render)
    ensures r.1 <==> id in LookupExact(idx, value, render)
    ensures !r.1 ==> r.0 == idx
    ensures multiset(LookupExact(r.0, value, render)) == multiset(LookupExact(idx, value, render)) - multiset{id}
    ensures forall probe | OrderedCmp(probe, value, render) != Equal ::
      LookupExact(r.0, probe, render) == LookupExact(idx, probe, render)
  {
    OrderedTotalPreorder(render);
    RemoveSpecAll(idx.entries, value, id, KeyOrder(render));
    RemoveSpec(idx.entries, value, id, KeyOrder(render), value);
    var (entries, ok) := Remove(idx.entries, value, id, KeyOrder(render));
    (idx.(entries := entries), ok)
  }

  /** `lookup_exact`. */
  function LookupExact(idx: PropertyRangeIndex, value: Json, render: Json -> string): (r: seq<nat>)
  {
    Bucket(idx.entries, value, KeyOrder(render))
  }

  /** Why a range scan aborts: `BTreeMap::range` panics when the start
      bound lies above the end bound. */
  datatype RangePanic = StartAboveEnd

  /** `lookup_range(lower, upper)`: inclusive at both ends, open where a
      bound is missing. With both bounds given and the lower one above the
      upper one in the key order, the scan panics instead of answering. */
  function LookupRange(idx: PropertyRangeIndex, lower: Option<Json>, upper: Option<Json>, render: Json -> string): (r: Result<seq<nat>, RangePanic>)
    ensures r.Failure? <==> lower.Some? && upper.Some? && OrderedCmp(lower.value, upper.value, render) == Greater
    ensures r.Success? ==> forall x :: x in r.value <==>
      exists i | 0 <= i < |idx.entries| ::
        && (lower.Some? ==> OrderedCmp(lower.value, idx.entries[i].0, render) != Greater)
        && (upper.Some? ==> OrderedCmp(idx.entries[i].0, upper.value, render) != Greater)
        && x in idx.entries[i].1
  {
    if lower.Some? && upper.Some? && OrderedCmp(lower.value, upper.value, render) == Greater then
      Failure(StartAboveEnd)
    else
      Success(RangeIds(idx.entries,
                       if lower.Some? then Included(lower.value) else Unbounded,
                       if upper.Some? then Included(upper.value) else Unbounded,
                       KeyOrder(render)))
  }

  /** `lookup_gt`: strictly above the value. */
  function LookupGt(idx: PropertyRangeIndex, value: Json, render: Json -> string): (r: seq<nat>)
    ensures forall x :: x in r <==>
      exists i | 0 <= i < |idx.entries| ::
        OrderedCmp(value, idx.entries[i].0, render) == Less && x in idx.entries[i].1
  {
    RangeIds(idx.entries, Excluded(value), Unbounded, KeyOrder(render))
  }

  /** `lookup_lt`: strictly below the value. */
  function LookupLt(idx: PropertyRangeIndex, value: Json, render: Json -> string): (r: seq<nat>)
    ensures forall x :: x in r <==>
      exists i | 0 <= i < |idx.entries| ::
        OrderedCmp(idx.entries[i].0, value, render) == Less && x in idx.entries[i].1
  {
    RangeIds(idx.entries, Unbounded, Excluded(value), KeyOrder(render))
  }

  /** An id indexed under a value is found by every range that contains
      the value, and by an exact lookup of any value the order equates
      with it. */
  lemma IndexedIsFound(idx: PropertyRangeIndex, id: nat, value: Json, probe: Json,
                       lower: Option<Json>, upper: Option<Json>, render: Json -> string)
    requires RendersJson(render) && ValidIndex(idx, render)
    requires id in LookupExact(idx, value, render)
    requires lower.Some? ==> OrderedCmp(lower.value, value, render) != Greater
    requires upper.Some? ==> OrderedCmp(value, upper.value, render) != Greater
    requires OrderedCmp(probe, value, render) == Equal
    ensures LookupRange(idx, lower, upper, render).Success?
    ensures id in LookupRange(idx, lower, upper, render).value
    ensures id in LookupExact(idx, probe, render)
  {
    var cmp := KeyOrder(render);
    OrderedTotalPreorder(render);
    if lower.Some? && upper.Some? {
      assert cmp(lower.value, value) != Greater && cmp(value, upper.value) != Greater;
      assert cmp(lower.value, upper.value) != Greater;
    }
    var i := Find(idx.entries, value, cmp).value;
    var key := idx.entries[i].0;
    assert cmp(key, value) == Equal && cmp(value, key) == Equal;
    assert cmp(key, probe) == Equal by {
      assert cmp(value, probe) == Equal;
    }
    FindOnly(idx.entries, probe, cmp, i);
  }
}
