/** `MemoryPool<T>`: a free-list pool of slots grown one chunk at a time.
    Chunk memory is not modelled; the pool is its chunk count, its
    capacity, the free list and the values stored so far. */
module MemoryPool {
  import opened Wrappers
  import opened Seqs

  const DEFAULT_CHUNK_SIZE: nat := 1024

  /** `chunks.len()`, `total_allocated`, `free_indices`, and the
      `initialized` slots with the values stored in them. */
  datatype Pool<T> = Pool(chunkSize: nat, chunks: nat, total: nat, free: seq<nat>, init: map<nat, T>)

  /** A chunk size of at least 1; a capacity of whole chunks; free
      indices below the capacity, listed once; initialized slots below the
      capacity and not free. */
  predicate Inv<T>(p: Pool<T>) {
    p.chunkSize >= 1 && p.total == p.chunks * p.chunkSize &&
    Distinct(p.free) &&
    (forall k | 0 <= k < |p.free| :: p.free[k] < p.total && p.free[k] !in p.init) &&
    (forall i | i in p.init :: i < p.total)
  }

  /** `MemoryPool::new`: the chunk size is raised to at least 1. */
  function New<T>(chunkSize: nat): (r: Pool<T>)
    ensures Inv(r)
    ensures r.chunkSize == Max(chunkSize, 1) && r.total == 0 && AllocatedCount(r) == 0
  {
    Pool(Max(chunkSize, 1), 0, 0, [], map[])
  }

  /** `capacity`. */
  function Capacity<T>(p: Pool<T>): nat {
    p.total
  }

  /** The free list fits in the capacity. */
  lemma FreeFits<T>(p: Pool<T>)
    requires Inv(p)
    ensures Elems(p.free) <= Range(p.total)
    ensures |p.free| <= p.total
  {
    DistinctCard(p.free);
    var all := Range(p.total);
    assert all == Elems(p.free) + (all - Elems(p.free));
  }

  /** `allocated_count`: capacity less the free list. */
  function AllocatedCount<T>(p: Pool<T>): (r: nat)
    requires Inv(p)
    ensures r <= p.total
  {
    FreeFits(p);
    p.total - |p.free|
  }

  /** The allocated count is the number of slots below the capacity that
      are not free. */
  lemma AllocatedCountCounts<T>(p: Pool<T>)
    requires Inv(p)
    ensures AllocatedCount(p) == |Range(p.total) - Elems(p.free)|
  {
    FreeFits(p);
    DistinctCard(p.free);
    var all := Range(p.total);
    assert all == Elems(p.free) + (all - Elems(p.free));
  }

  /** `index_to_chunk_slot`. */
  function ChunkSlot<T>(p: Pool<T>, i: nat): (r: (nat, nat))
    requires p.chunkSize >= 1
    ensures r.0 * p.chunkSize + r.1 == i && r.1 < p.chunkSize
  {
    (i / p.chunkSize, i % p.chunkSize)
  }

  /** The chunk of an index exists exactly when the index is below the
      capacity. */
  lemma ChunkInRange<T>(p: Pool<T>, i: nat)
    requires Inv(p)
    ensures ChunkSlot(p, i).0 < p.chunks <==> i < p.total
  {
    var c := ChunkSlot(p, i).0;
    if c < p.chunks {
      assert c + 1 <= p.chunks;
      assert (c + 1) * p.chunkSize <= p.chunks * p.chunkSize;
    } else {
      assert c * p.chunkSize >= p.chunks * p.chunkSize;
    }
  }

  /** `get`: the stored value, when the index's chunk exists and the slot
      was initialized. */
  function Get<T>(p: Pool<T>, i: nat): (r: Option<T>)
    requires Inv(p)
    ensures r.Some? <==> i in p.init
    ensures r.Some? ==> r.value == p.init[i]
  {
    ChunkInRange(p, i);
    if ChunkSlot(p, i).0 < p.chunks && i in p.init then Some(p.init[i]) else None
  }

  /** `store`: writes the value, replacing any earlier one. Its safety
      note requires an index handed out by `allocate` and not yet
      deallocated; an index past the capacity panics on the chunk lookup. */
  function Store<T>(p: Pool<T>, i: nat, v: T): (r: Pool<T>)
    requires Inv(p)
    requires i < p.total && i !in p.free
    ensures Inv(r)
    ensures Get(r, i) == Some(v)
    ensures forall j | j != i :: Get(r, j) == Get(p, j)
    ensures AllocatedCount(r) == AllocatedCount(p) && r.free == p.free && r.total == p.total
  {
    p.(init := p.init[i := v])
  }

  /** `deallocate`: an index past the capacity is ignored; otherwise the
      value is dropped and the index goes back on the free list. Its
      safety note forbids deallocating an index twice. */
  function Deallocate<T>(p: Pool<T>, i: nat): (r: Pool<T>)
    requires Inv(p)
    requires i !in p.free
    ensures Inv(r)
    ensures Get(r, i) == None
    ensures forall j | j != i :: Get(r, j) == Get(p, j)
    ensures r.total == p.total
    ensures AllocatedCount(r) == AllocatedCount(p) - (if i < p.total then 1 else 0)
  {
    ChunkInRange(p, i);
    if ChunkSlot(p, i).0 < p.chunks then
      AppendDistinct(p.free, i);
      FreeFits(p);
      p.(init := p.init - {i}, free := p.free + [i])
    else p
  }

  /** `lo, lo + 1, ..., hi - 1`. */
  function Span(lo: nat, hi: nat): (r: seq<nat>)
    requires lo <= hi
    ensures |r| == hi - lo
    ensures forall k | 0 <= k < |r| :: r[k] == lo + k
    ensures Distinct(r)
  {
    seq(hi - lo, k requires 0 <= k => lo + k)
  }

  /** `grow`: adds a chunk and frees all its slots but the last, which the
      caller hands out. */
  function Grow<T>(p: Pool<T>): (r: Pool<T>)
    requires Inv(p)
    ensures r.total == p.total + p.chunkSize && r.chunks == p.chunks + 1
    ensures r.free == p.free + Span(p.total, r.total - 1)
    ensures r.init == p.init && r.chunkSize == p.chunkSize
  {
    var total := p.total + p.chunkSize;
    p.(chunks := p.chunks + 1, total := total, free := p.free + Span(p.total, total - 1))
  }

  /** `grow_for_batch`: adds a chunk and frees all its slots. */
  function GrowForBatch<T>(p: Pool<T>): (r: Pool<T>)
    requires Inv(p)
    ensures Inv(r)
    ensures r.total == p.total + p.chunkSize && r.chunks == p.chunks + 1
    ensures r.free == p.free + Span(p.total, r.total)
    ensures r.init == p.init && r.chunkSize == p.chunkSize
  {
    var total := p.total + p.chunkSize;
    var r := p.(chunks := p.chunks + 1, total := total, free := p.free + Span(p.total, total));
    FreshAppendDistinct(p, Span(p.total, total));
    r
  }

  /** Appending indices at or above the capacity keeps the free list
      duplicate-free. */
  lemma FreshAppendDistinct<T>(p: Pool<T>, s: seq<nat>)
    requires Inv(p) && Distinct(s)
    requires forall k | 0 <= k < |s| :: s[k] >= p.total
    ensures Distinct(p.free + s)
  {
    var f := p.free + s;
    forall i, j | 0 <= i < j < |f|
      ensures f[i] != f[j]
    {
      if j >= |p.free| && i < |p.free| {
        assert f[i] == p.free[i] && f[j] == s[j - |p.free|];
      } else if i >= |p.free| {
        assert f[i] == s[i - |p.free|] && f[j] == s[j - |p.free|];
      } else {
        assert f[i] == p.free[i] && f[j] == p.free[j];
      }
    }
  }

  /** `allocate`: pops the free list, or grows by one chunk and hands out
      its last slot. */
  function Allocate<T>(p: Pool<T>): (r: (Pool<T>, nat))
    requires Inv(p)
    ensures Inv(r.0)
    ensures r.1 < r.0.total && r.1 !in r.0.free && Get(r.0, r.1) == None
    ensures r.1 in p.free || r.1 >= p.total
    ensures |p.free| > 0 ==> r.0.total == p.total && r.1 == p.free[|p.free| - 1]
    ensures |p.free| == 0 ==> r.0.total == p.total + p.chunkSize
    ensures forall j :: Get(r.0, j) == Get(p, j)
    ensures AllocatedCount(r.0) == AllocatedCount(p) + 1
  {
    if |p.free| > 0 then
      var f := p.free[..|p.free| - 1];
      var i := p.free[|p.free| - 1];
      assert p.free == f + [i];
      assert Distinct(f);
      assert i !in f;
      (p.(free := f), i)
    else
      var g := Grow(p);
      FreshAppendDistinct(p, g.free[|p.free|..]);
      assert g.free == p.free + g.free[|p.free|..];
      (g, g.total - 1)
  }

  /** The last `n` entries of a list, last first: what `n` pops return. */
  function PopOrder(s: seq<nat>, n: nat): (r: seq<nat>)
    requires n <= |s|
    ensures |r| == n
    ensures forall k | 0 <= k < n :: r[k] == s[|s| - 1 - k]
  {
    seq(n, k requires 0 <= k < n => s[|s| - 1 - k])
  }

  /** Popping from a duplicate-free list returns distinct entries that are
      no longer listed. */
  lemma PopOrderFacts(s: seq<nat>, n: nat)
    requires n <= |s| && Distinct(s)
    ensures Distinct(PopOrder(s, n))
    ensures Distinct(s[..|s| - n])
    ensures forall k | 0 <= k < n :: PopOrder(s, n)[k] in s && PopOrder(s, n)[k] !in s[..|s| - n]
  {
    var r := PopOrder(s, n);
    forall k | 0 <= k < n
      ensures r[k] !in s[..|s| - n]
    {
      assert r[k] == s[|s| - 1 - k];
    }
  }

  /** `grow_for_batch` run `k` times. */
  function GrowTimes<T>(p: Pool<T>, k: nat): (r: Pool<T>)
    requires Inv(p)
    ensures Inv(r)
    ensures r.total == p.total + k * p.chunkSize && r.chunks == p.chunks + k
    ensures r.free == p.free + Span(p.total, r.total)
    ensures r.init == p.init && r.chunkSize == p.chunkSize
    decreases k
  {
    if k == 0 then
      assert p.free + Span(p.total, p.total) == p.free;
      p
    else
      var q := GrowTimes(p, k - 1);
      var r := GrowForBatch(q);
      assert Span(p.total, q.total) + Span(q.total, r.total) == Span(p.total, r.total);
      r
  }

  /** `count.div_ceil(chunk_size)`. */
  function DivCeil(a: nat, b: nat): (r: nat)
    requires b >= 1
    ensures r * b >= a && (r == 0 || (r - 1) * b < a)
  {
    (a + b - 1) / b
  }

  /** The first loop of `allocate_batch`: `n` pops of the free list. */
  function TakeFree<T>(p: Pool<T>, n: nat): (r: (Pool<T>, seq<nat>))
    requires Inv(p) && n <= |p.free|
    ensures Inv(r.0)
    ensures |r.1| == n && Distinct(r.1) && |r.0.free| == |p.free| - n
    ensures forall k | 0 <= k < n :: r.1[k] in p.free && r.1[k] !in r.0.free
    ensures r.0.total == p.total && r.0.chunks == p.chunks && r.0.chunkSize == p.chunkSize && r.0.init == p.init
    ensures forall j :: Get(r.0, j) == Get(p, j)
    ensures AllocatedCount(r.0) == AllocatedCount(p) + n
  {
    PopOrderFacts(p.free, n);
    (p.(free := p.free[..|p.free| - n]), PopOrder(p.free, n))
  }

  /** The second half of `allocate_batch`, reached with an empty free
      list: grows by whole chunks until `n` slots are free, then pops `n`. */
  function GrowAndTake<T>(p: Pool<T>, n: nat): (r: (Pool<T>, seq<nat>))
    requires Inv(p) && |p.free| == 0 && n > 0
    ensures Inv(r.0)
    ensures |r.1| == n && Distinct(r.1)
    ensures forall k | 0 <= k < n :: p.total <= r.1[k] < r.0.total && r.1[k] !in r.0.free
    ensures r.0.total >= p.total && forall k | 0 <= k < |r.0.free| :: r.0.free[k] >= p.total
    ensures forall j :: Get(r.0, j) == Get(p, j)
    ensures AllocatedCount(r.0) == AllocatedCount(p) + n
  {
    var p2 := GrowTimes(p, DivCeil(n, p.chunkSize));
    TakeFree(p2, n)
  }

  /** `allocate_batch`: takes up to `count` indices from the free list,
      then grows by as many whole chunks as the rest needs and pops the
      rest. */
  function AllocateBatch<T>(p: Pool<T>, count: nat): (r: (Pool<T>, seq<nat>))
    requires Inv(p)
    ensures Inv(r.0)
    ensures |r.1| == count && Distinct(r.1)
    ensures forall k | 0 <= k < |r.1| :: r.1[k] < r.0.total && r.1[k] !in r.0.free && (r.1[k] in p.free || r.1[k] >= p.total)
    ensures forall j :: Get(r.0, j) == Get(p, j)
    ensures AllocatedCount(r.0) == AllocatedCount(p) + count
    ensures count <= |p.free| ==> r.0.total == p.total
  {
    if count == 0 then (p, [])
    else
      var first := TakeFree(p, Min(count, |p.free|));
      var remaining := count - Min(count, |p.free|);
      if remaining > 0 then
        var second := GrowAndTake(first.0, remaining);
        JoinBatch(p, second.0, first.1, second.1);
        var all := first.1 + second.1;
        (second.0, all)
      else
        first
  }

  /** Indices taken from the free list and indices past the old capacity
      never coincide, and neither is free in the final pool. */
  lemma JoinBatch<T>(p: Pool<T>, q: Pool<T>, taken: seq<nat>, more: seq<nat>)
    requires Inv(p) && Distinct(taken) && Distinct(more) && q.total >= p.total
    requires forall k | 0 <= k < |taken| :: taken[k] in p.free
    requires forall k | 0 <= k < |more| :: p.total <= more[k] < q.total && more[k] !in q.free
    requires forall k | 0 <= k < |q.free| :: q.free[k] >= p.total
    ensures Distinct(taken + more)
    ensures forall k | 0 <= k < |taken + more| ::
              (taken + more)[k] < q.total && (taken + more)[k] !in q.free &&
              ((taken + more)[k] in p.free || (taken + more)[k] >= p.total)
  {
    var f := taken + more;
    assert forall k | 0 <= k < |taken| :: taken[k] < p.total;
    forall i, j | 0 <= i < j < |f|
      ensures f[i] != f[j]
    {
      if i < |taken| && j >= |taken| {
        assert f[i] == taken[i] && f[j] == more[j - |taken|];
      } else if i >= |taken| {
        assert f[i] == more[i - |taken|] && f[j] == more[j - |taken|];
      } else {
        assert f[i] == taken[i] && f[j] == taken[j];
      }
    }
    forall k | 0 <= k < |f|
      ensures f[k] < q.total && f[k] !in q.free && (f[k] in p.free || f[k] >= p.total)
    {
      if k < |taken| {
        assert f[k] == taken[k];
      } else {
        assert f[k] == more[k - |taken|];
      }
    }
  }
}
