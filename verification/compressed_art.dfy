/** `CompressedART`, the set of `u64` values the degree router keeps for
    hub nodes, and its `CARTEdgeIndex` wrapper. The tree starts from a
    single leaf and leaves never split, so every root the public API
    builds is a leaf; the invariant says so and the contracts rest on it. */
module CompressedArt {
  import opened Wrappers
  import opened Seqs
  import opened Cart

  /** The `n` low base-256 digits of `v`, most significant first
      (`to_be_bytes` for `n` = 8). */
  function BigEndian(v: nat, n: nat): (r: seq<Byte>)
    ensures |r| == n
  {
    if n == 0 then [] else BigEndian(v / 256, n - 1) + [v % 256]
  }

  /** Reads base-256 digits back, most significant first. */
  function FromBigEndian(bytes: seq<Byte>): (r: nat)
  {
    if |bytes| == 0 then 0 else FromBigEndian(bytes[..|bytes| - 1]) * 256 + bytes[|bytes| - 1]
  }

  function Pow256(n: nat): (r: nat)
    ensures r >= 1
  {
    if n == 0 then 1 else 256 * Pow256(n - 1)
  }

  /** The key bytes are a faithful encoding of every value that fits. */
  lemma {:induction false} BigEndianRoundTrip(v: nat, n: nat)
    requires v < Pow256(n)
    ensures FromBigEndian(BigEndian(v, n)) == v
  {
    if n > 0 {
      var r := BigEndian(v, n);
      assert r[..|r| - 1] == BigEndian(v / 256, n - 1);
      BigEndianRoundTrip(v / 256, n - 1);
    }
  }

  /** `value.to_be_bytes()`. */
  function KeyOf(v: nat): (r: seq<Byte>)
    ensures |r| == 8
  {
    BigEndian(v, 8)
  }

  /** `CompressedART { root, len }`. */
  datatype Tree = Tree(root: Option<Node>, len: nat)

  /** An absent root with length 0, or a non-empty leaf root whose entry
      count is the length. */
  predicate Inv(t: Tree) {
    match t.root
    case None => t.len == 0
    case Some(n) => n.Leaf? && WF(n) && !IsEmpty(n) && t.len == |n.entries|
  }

  /** The values the tree holds. */
  function Values(t: Tree): (r: set<nat>)
    requires Inv(t)
    ensures t.root.None? ==> r == {}
  {
    if t.root.None? then {} else Elems(t.root.value.entries)
  }

  /** A strictly ascending list has no duplicates. */
  lemma SortedNoDuplicates(s: seq<nat>)
    requires StrictlySorted(s)
    ensures Distinct(s)
  {
  }

  /** `len` counts the values. */
  lemma LenCountsValues(t: Tree)
    requires Inv(t)
    ensures t.len == |Values(t)|
  {
    if t.root.Some? {
      SortedNoDuplicates(t.root.value.entries);
      DistinctCard(t.root.value.entries);
    }
  }

  /** `CompressedART::new`. */
  function Empty(): (r: Tree)
    ensures Inv(r) && Values(r) == {} && r.len == 0
  {
    Tree(None, 0)
  }

  /** `contains`: searches the root along the value's key bytes. */
  function Contains(t: Tree, v: nat): (r: bool)
    requires Inv(t)
    ensures r <==> v in Values(t)
  {
    match t.root
    case None => false
    case Some(n) => Search(n, KeyOf(v), v)
  }

  /** `insert`: false, with nothing changed, when the value is already
      there; otherwise a first value becomes a leaf root and later ones go
      through the root's `insert`, bumping `len`. */
  function Insert(t: Tree, v: nat): (r: (Tree, bool))
    requires Inv(t)
    ensures Inv(r.0)
    ensures r.1 <==> v !in Values(t)
    ensures Values(r.0) == Values(t) + {v}
    ensures !r.1 ==> r.0 == t
  {
    if Contains(t, v) then (t, false)
    else
      match t.root
      case None => (Tree(Some(NewLeaf(v)), 1), true)
      case Some(n) =>
        var ins := Cart.Insert(n, KeyOf(v), v);
        if ins.1 then (Tree(Some(ins.0), t.len + 1), true)
        else (Tree(Some(ins.0), t.len), false)
  }

  /** `remove`: the root's `remove`; on success `len` drops by one and an
      emptied root is dropped. */
  function Remove(t: Tree, v: nat): (r: (Tree, bool))
    requires Inv(t)
    ensures Inv(r.0)
    ensures r.1 <==> v in Values(t)
    ensures Values(r.0) == Values(t) - {v}
    ensures !r.1 ==> r.0 == t
  {
    match t.root
    case None => (t, false)
    case Some(n) =>
      var rem := Cart.Remove(n, KeyOf(v), v);
      if rem.1 then
        if IsEmpty(rem.0) then (Tree(None, t.len - 1), true)
        else (Tree(Some(rem.0), t.len - 1), true)
      else (Tree(Some(rem.0), t.len), false)
  }

  /** `scan`: `collect_all` from the root. On the leaf roots the public
      API builds it lists every value once, in ascending order. */
  function Scan(t: Tree): (r: seq<nat>)
    requires Inv(t)
    ensures StrictlySorted(r)
    ensures |r| == t.len
    ensures forall x :: x in r <==> x in Values(t)
  {
    match t.root
    case None => []
    case Some(n) => CollectAll(n)
  }

  /** The loop of `CARTEdgeIndex::from_targets` from `t` on. */
  function InsertAll(t: Tree, targets: seq<nat>): (r: Tree)
    requires Inv(t)
    ensures Inv(r)
    ensures Values(r) == Values(t) + Elems(targets)
    decreases |targets|
  {
    if |targets| == 0 then t
    else
      assert Elems(targets) == {targets[0]} + Elems(targets[1..]) by {
        assert targets == [targets[0]] + targets[1..];
      }
      InsertAll(Insert(t, targets[0]).0, targets[1..])
  }

  /** `CARTEdgeIndex::from_targets`. */
  function FromTargets(targets: seq<nat>): (r: Tree)
    ensures Inv(r)
    ensures Values(r) == Elems(targets)
  {
    InsertAll(Empty(), targets)
  }
}
