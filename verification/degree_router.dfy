/** The degree-adaptive adjacency list: a duplicate-free vector for
    low-degree nodes, a hash set above a threshold, and a C-ART above
    1000 targets, behind a router that promotes storage as targets are
    added and counts its promotions. */
module DegreeRouter {
  import opened Wrappers
  import opened Seqs
  import CompressedArt

  const DEFAULT_DEGREE_THRESHOLD: nat := 100
  const CART_THRESHOLD: nat := 1000

  // ---------------------------------------------------------------------
  // VecEdgeIndex
  // ---------------------------------------------------------------------

  /** `VecEdgeIndex::insert`: appends the target unless it is there. */
  function VecInsert(ts: seq<nat>, x: nat): (r: seq<nat>)
    ensures Distinct(ts) ==> Distinct(r)
    ensures forall y :: y in r <==> y in ts || y == x
    ensures |r| == |ts| + (if x in ts then 0 else 1)
  {
    if x in ts then ts
    else
      AppendDistinctIfDistinct(ts, x);
      ts + [x]
  }

  lemma AppendDistinctIfDistinct(ts: seq<nat>, x: nat)
    requires x !in ts
    ensures Distinct(ts) ==> Distinct(ts + [x])
  {
    if Distinct(ts) {
      AppendDistinct(ts, x);
    }
  }

  /** Inserting the same target twice is inserting it once. */
  lemma VecInsertIdempotent(ts: seq<nat>, x: nat)
    ensures VecInsert(VecInsert(ts, x), x) == VecInsert(ts, x)
  {
    assert x in VecInsert(ts, x);
  }

  /** `iter().position(|&t| t == x)`: the first index holding `x`, or the
      length. */
  function Position(ts: seq<nat>, x: nat): (r: nat)
    ensures r <= |ts|
    ensures forall i | 0 <= i < r :: ts[i] != x
    ensures r < |ts| ==> ts[r] == x
    ensures r == |ts| <==> x !in ts
  {
    if |ts| == 0 then 0
    else if ts[0] == x then 0
    else 1 + Position(ts[1..], x)
  }

  /** `Vec::swap_remove(pos)`: the last element takes position `pos`. */
  function SwapRemove(ts: seq<nat>, pos: nat): (r: seq<nat>)
    requires pos < |ts|
    ensures |r| == |ts| - 1
    ensures forall i | 0 <= i < |r| :: r[i] == (if i == pos then ts[|ts| - 1] else ts[i])
  {
    ts[pos := ts[|ts| - 1]][..|ts| - 1]
  }

  /** `VecEdgeIndex::remove`: swap-removes the first occurrence. */
  function VecRemove(ts: seq<nat>, x: nat): (r: (seq<nat>, bool))
    ensures r.1 <==> x in ts
    ensures |r.0| == |ts| - (if r.1 then 1 else 0)
    ensures !r.1 ==> r.0 == ts
  {
    var pos := Position(ts, x);
    if pos < |ts| then (SwapRemove(ts, pos), true) else (ts, false)
  }

  /** On a duplicate-free list, removal takes out exactly the target and
      keeps the list duplicate-free, so `contains` is false afterwards. */
  lemma VecRemoveExact(ts: seq<nat>, x: nat)
    requires Distinct(ts)
    ensures Distinct(VecRemove(ts, x).0)
    ensures forall y :: y in VecRemove(ts, x).0 <==> y in ts && y != x
  {
    var pos := Position(ts, x);
    if pos < |ts| {
      var r := SwapRemove(ts, pos);
      forall y
        ensures y in r <==> y in ts && y != x
      {
        if y in r {
          var i :| 0 <= i < |r| && r[i] == y;
          if i == pos {
            assert y == ts[|ts| - 1] && |ts| - 1 != pos;
          } else {
            assert y == ts[i] && i != pos;
          }
        }
        if y in ts && y != x {
          var j :| 0 <= j < |ts| && ts[j] == y;
          if j == |ts| - 1 {
            assert r[pos] == y;
          } else {
            assert r[j] == y;
          }
        }
      }
      forall i, j | 0 <= i < j < |r|
        ensures r[i] != r[j]
      {
        if i == pos {
          assert r[i] == ts[|ts| - 1] && r[j] == ts[j];
        } else if j == pos {
          assert r[i] == ts[i] && r[j] == ts[|ts| - 1];
        } else {
          assert r[i] == ts[i] && r[j] == ts[j];
        }
      }
    }
  }

  // ---------------------------------------------------------------------
  // HashSetEdgeIndex
  // ---------------------------------------------------------------------

  /** A hash set of targets, listed without duplicates. The list order
      stands for the hash set's unspecified iteration order; no contract
      depends on it. */
  function HashInsert(h: seq<nat>, x: nat): (r: seq<nat>)
    ensures Distinct(h) ==> Distinct(r)
    ensures forall y :: y in r <==> y in h || y == x
  {
    VecInsert(h, x)
  }

  /** `HashSet::remove`. */
  function HashRemove(h: seq<nat>, x: nat): (r: (seq<nat>, bool))
    ensures r.1 <==> x in h
    ensures forall y :: y in r.0 <==> y in h && y != x
    ensures Distinct(h) ==> Distinct(r.0)
  {
    RemoveAllDistinctIfDistinct(h, x);
    (RemoveAll(h, x), x in h)
  }

  lemma RemoveAllDistinctIfDistinct(h: seq<nat>, x: nat)
    ensures Distinct(h) ==> Distinct(RemoveAll(h, x))
  {
    if Distinct(h) {
      RemoveAllDistinct(h, x);
    }
  }

  // ---------------------------------------------------------------------
  // DegreeAdaptiveStorage
  // ---------------------------------------------------------------------

  datatype Storage =
    | LowDegree(vec: seq<nat>)
    | HighDegree(hash: seq<nat>)
    | VeryHighDegree(cart: CompressedArt.Tree)

  /** The vector and hash set hold no duplicates; the tree keeps its own
      invariant. */
  predicate StorageInv(s: Storage) {
    match s
    case LowDegree(v) => Distinct(v)
    case HighDegree(h) => Distinct(h)
    case VeryHighDegree(t) => CompressedArt.Inv(t)
  }

  /** The targets the storage holds. */
  function View(s: Storage): (r: set<nat>)
    requires StorageInv(s)
  {
    match s
    case LowDegree(v) => Elems(v)
    case HighDegree(h) => Elems(h)
    case VeryHighDegree(t) => CompressedArt.Values(t)
  }

  /** 0 for the vector, 1 for the hash set, 2 for the C-ART. */
  function Level(s: Storage): nat {
    match s
    case LowDegree(_) => 0
    case HighDegree(_) => 1
    case VeryHighDegree(_) => 2
  }

  /** `is_high_degree`. */
  predicate IsHighDegree(s: Storage) {
    s.HighDegree? || s.VeryHighDegree?
  }

  /** `insert` on whichever storage is in use. */
  function StorageInsert(s: Storage, x: nat): (r: Storage)
    requires StorageInv(s)
    ensures StorageInv(r)
    ensures View(r) == View(s) + {x}
    ensures Level(r) == Level(s)
  {
    match s
    case LowDegree(v) => LowDegree(VecInsert(v, x))
    case HighDegree(h) => HighDegree(HashInsert(h, x))
    case VeryHighDegree(t) => VeryHighDegree(CompressedArt.Insert(t, x).0)
  }

  /** `remove` on whichever storage is in use. */
  function StorageRemove(s: Storage, x: nat): (r: (Storage, bool))
    requires StorageInv(s)
    ensures StorageInv(r.0)
    ensures r.1 <==> x in View(s)
    ensures View(r.0) == View(s) - {x}
    ensures Level(r.0) == Level(s)
  {
    match s
    case LowDegree(v) =>
      VecRemoveExact(v, x);
      var rem := VecRemove(v, x);
      (LowDegree(rem.0), rem.1)
    case HighDegree(h) =>
      var rem := HashRemove(h, x);
      (HighDegree(rem.0), rem.1)
    case VeryHighDegree(t) =>
      var rem := CompressedArt.Remove(t, x);
      (VeryHighDegree(rem.0), rem.1)
  }

  /** `contains`. */
  function StorageContains(s: Storage, x: nat): (r: bool)
    requires StorageInv(s)
    ensures r <==> x in View(s)
  {
    match s
    case LowDegree(v) => x in v
    case HighDegree(h) => x in h
    case VeryHighDegree(t) => CompressedArt.Contains(t, x)
  }

  /** `len`. */
  function StorageLen(s: Storage): (r: nat)
    requires StorageInv(s)
    ensures r == |View(s)|
  {
    match s
    case LowDegree(v) => DistinctCard(v); |v|
    case HighDegree(h) => DistinctCard(h); |h|
    case VeryHighDegree(t) => CompressedArt.LenCountsValues(t); t.len
  }

  /** `targets`: every target once. */
  function StorageTargets(s: Storage): (r: seq<nat>)
    requires StorageInv(s)
    ensures Distinct(r)
    ensures forall x :: x in r <==> x in View(s)
  {
    match s
    case LowDegree(v) => v
    case HighDegree(h) => h
    case VeryHighDegree(t) =>
      var l := CompressedArt.Scan(t);
      CompressedArt.SortedNoDuplicates(l);
      l
  }

  /** `promote_to_high_degree`: a vector becomes a hash set of the same
      targets; other storage is left alone. */
  function PromoteToHighDegree(s: Storage): (r: Storage)
    requires StorageInv(s)
    ensures StorageInv(r)
    ensures View(r) == View(s)
    ensures Level(r) == (if s.LowDegree? then 1 else Level(s))
  {
    match s
    case LowDegree(v) => HighDegree(v)
    case _ => s
  }

  /** `promote_to_cart`: a hash set becomes a C-ART of the same targets;
      other storage is left alone. */
  function PromoteToCart(s: Storage): (r: Storage)
    requires StorageInv(s)
    ensures StorageInv(r)
    ensures View(r) == View(s)
    ensures Level(r) == (if s.HighDegree? then 2 else Level(s))
  {
    match s
    case HighDegree(h) => VeryHighDegree(CompressedArt.FromTargets(h))
    case _ => s
  }

  // ---------------------------------------------------------------------
  // DegreeRouter
  // ---------------------------------------------------------------------

  datatype Router = Router(threshold: nat, storage: Storage, promotions: nat)

  /** What every router keeps: a threshold of at least 1 and storage that
      keeps its own invariant. */
  predicate RouterInv(r: Router) {
    r.threshold >= 1 && StorageInv(r.storage)
  }

  /** `DegreeRouter::with_threshold`: the threshold is raised to at least 1;
      storage starts as an empty vector. */
  function WithThreshold(threshold: nat): (r: Router)
    ensures RouterInv(r)
    ensures r.threshold == Max(threshold, 1)
    ensures r.storage.LowDegree? && View(r.storage) == {} && r.promotions == 0
  {
    Router(Max(threshold, 1), LowDegree([]), 0)
  }

  /** `DegreeRouter::new`. */
  function NewRouter(): (r: Router)
    ensures RouterInv(r) && r.threshold == DEFAULT_DEGREE_THRESHOLD && View(r.storage) == {}
  {
    WithThreshold(DEFAULT_DEGREE_THRESHOLD)
  }

  /** The promotion steps `insert` runs after adding a target, counting a
      promotion only when the storage actually changes. */
  function Promote(threshold: nat, s: Storage, promotions: nat): (r: (Storage, nat))
    requires StorageInv(s)
    ensures StorageInv(r.0)
    ensures View(r.0) == View(s)
    ensures Level(r.0) >= Level(s)
    ensures r.1 == promotions + (Level(r.0) - Level(s))
    ensures !IsHighDegree(s) && StorageLen(s) > threshold ==> IsHighDegree(r.0)
    ensures StorageLen(s) > CART_THRESHOLD && IsHighDegree(r.0) ==> r.0.VeryHighDegree?
  {
    var s1 := if !IsHighDegree(s) && StorageLen(s) > threshold then PromoteToHighDegree(s) else s;
    var p1 := promotions + (Level(s1) - Level(s));
    var s2 := if !s1.VeryHighDegree? && StorageLen(s1) > CART_THRESHOLD then PromoteToCart(s1) else s1;
    (s2, p1 + (Level(s2) - Level(s1)))
  }

  /** `DegreeRouter::insert`, counting only promotions that happen. */
  function RouterInsert(r: Router, x: nat): (r': Router)
    requires RouterInv(r)
    ensures RouterInv(r')
    ensures View(r'.storage) == View(r.storage) + {x}
    ensures r'.threshold == r.threshold
    ensures Level(r'.storage) >= Level(r.storage)
    ensures r'.promotions == r.promotions + (Level(r'.storage) - Level(r.storage))
    ensures StorageLen(r'.storage) > r.threshold ==> IsHighDegree(r'.storage)
  {
    var s := StorageInsert(r.storage, x);
    var p := Promote(r.threshold, s, r.promotions);
    Router(r.threshold, p.0, p.1)
  }

  /** `DegreeRouter::remove`: never demotes storage. */
  function RouterRemove(r: Router, x: nat): (r': (Router, bool))
    requires RouterInv(r)
    ensures RouterInv(r'.0)
    ensures r'.1 <==> x in View(r.storage)
    ensures View(r'.0.storage) == View(r.storage) - {x}
    ensures r'.0.threshold == r.threshold && r'.0.promotions == r.promotions
    ensures Level(r'.0.storage) == Level(r.storage)
  {
    var rem := StorageRemove(r.storage, x);
    (Router(r.threshold, rem.0, r.promotions), rem.1)
  }

  /** The promotion count of a router equals the storage level it has
      reached, starting from an empty vector. */
  predicate CountsPromotions(r: Router) {
    r.promotions == Level(r.storage)
  }

  /** Insertion and removal keep the promotion count equal to the number
      of promotions. */
  lemma RouterKeepsCount(r: Router, x: nat)
    requires RouterInv(r) && CountsPromotions(r)
    ensures CountsPromotions(RouterInsert(r, x))
    ensures CountsPromotions(RouterRemove(r, x).0)
  {
  }

  // ---------------------------------------------------------------------
  // `insert` as the source writes it
  // ---------------------------------------------------------------------

  /** `DegreeRouter::insert` as written: the second check adds one to the
      count whenever the storage is not yet a C-ART and holds more than
      1000 targets, even when `promote_to_cart` leaves a vector alone. */
  function RouterInsertAsWritten(r: Router, x: nat): (r': Router)
    requires RouterInv(r)
    ensures RouterInv(r')
    ensures View(r'.storage) == View(r.storage) + {x}
    ensures r'.threshold == r.threshold
    // one count per check that fires, both judged on the storage after
    // the target went in
    ensures var s := StorageInsert(r.storage, x);
            r'.promotions == r.promotions
              + (if s.LowDegree? && StorageLen(s) > r.threshold then 1 else 0)
              + (if !s.VeryHighDegree? && StorageLen(s) > CART_THRESHOLD then 1 else 0)
    // the storage is the one the corrected insert builds; the count is
    // one too high exactly when a vector passes 1000 targets without
    // passing the threshold
    ensures var s := StorageInsert(r.storage, x);
            r'.storage == RouterInsert(r, x).storage &&
            r'.promotions == RouterInsert(r, x).promotions
              + (if s.LowDegree? && CART_THRESHOLD < StorageLen(s) <= r.threshold then 1 else 0)
  {
    var s := StorageInsert(r.storage, x);
    var promote1 := !IsHighDegree(s) && StorageLen(s) > r.threshold;
    var s1 := if promote1 then PromoteToHighDegree(s) else s;
    var p1 := r.promotions + (if promote1 then 1 else 0);
    var promote2 := !s1.VeryHighDegree? && StorageLen(s1) > CART_THRESHOLD;
    var s2 := if promote2 then PromoteToCart(s1) else s1;
    Router(r.threshold, s2, p1 + (if promote2 then 1 else 0))
  }

  /** With a threshold no higher than 1000 the second check only fires on
      a hash set, so the code as written counts exactly the promotions
      that happen. */
  lemma RouterInsertAgrees(r: Router, x: nat)
    requires RouterInv(r) && r.threshold <= CART_THRESHOLD
    ensures RouterInsertAsWritten(r, x) == RouterInsert(r, x)
  {
  }

  /** The list 0, 1, ..., n - 1. */
  function Upto(n: nat): (r: seq<nat>)
    ensures |r| == n && Distinct(r)
    ensures forall i | 0 <= i < n :: r[i] == i
  {
    seq(n, i requires 0 <= i => i)
  }

  /** With threshold 2000, adding a 1001st target to a vector counts a
      promotion though the storage stays a vector; adding a target that is
      already there counts another. */
  lemma PromotionCountWithoutPromotion()
    ensures var r := Router(2000, LowDegree(Upto(1000)), 0);
            RouterInv(r) &&
            RouterInsertAsWritten(r, 1000).storage.LowDegree? &&
            RouterInsertAsWritten(r, 1000).promotions == 1 &&
            RouterInsertAsWritten(RouterInsertAsWritten(r, 1000), 0).promotions == 2
  {
    var r := Router(2000, LowDegree(Upto(1000)), 0);
    DistinctCard(Upto(1000));
    var r1 := RouterInsertAsWritten(r, 1000);
    assert |r1.storage.vec| == 1001;
    assert 0 in r1.storage.vec by {
      assert Upto(1000)[0] == 0;
    }
    DistinctCard(r1.storage.vec);
  }

  /** On the same router the corrected insert counts nothing. */
  lemma PromotionCountCorrected()
    ensures var r := Router(2000, LowDegree(Upto(1000)), 0);
            RouterInv(r) &&
            RouterInsert(r, 1000).storage.LowDegree? &&
            RouterInsert(r, 1000).promotions == 0
  {
    DistinctCard(Upto(1000));
  }
}
