/** `slice::sort_by` with a three-way comparator. Rust's sort is stable, and
    for a comparator that is a total preorder the stable sorted permutation
    of a list is unique, so a stable insertion sort computes the same list. */
module Sorting {
  import opened Wrappers

  /** Swapping the operands reverses the outcome. */
  ghost predicate Antisymmetric<T(!new)>(cmp: (T, T) -> Ordering) {
    forall a, b :: cmp(b, a) == cmp(a, b).Reverse()
  }

  /** "Not after" is transitive. */
  ghost predicate Transitive<T(!new)>(cmp: (T, T) -> Ordering) {
    forall a, b, c :: cmp(a, b) != Greater && cmp(b, c) != Greater ==> cmp(a, c) != Greater
  }

  ghost predicate TotalPreorder<T(!new)>(cmp: (T, T) -> Ordering) {
    Antisymmetric(cmp) && Transitive(cmp)
  }

  /** No element is ordered after a later one. */
  predicate SortedBy<T>(s: seq<T>, cmp: (T, T) -> Ordering) {
    forall i, j | 0 <= i < j < |s| :: cmp(s[i], s[j]) != Greater
  }

  /** Places `x` in front of the first element it is not after. */
  function InsertSorted<T>(x: T, s: seq<T>, cmp: (T, T) -> Ordering): (r: seq<T>)
    ensures multiset(r) == multiset(s) + multiset{x}
    ensures |r| == |s| + 1
  {
    if |s| == 0 then [x]
    else if cmp(x, s[0]) != Greater then [x] + s
    else
      assert s == [s[0]] + s[1..];
      [s[0]] + InsertSorted(x, s[1..], cmp)
  }

  /** Stable insertion sort: each element goes in front of the later
      elements it is not after, so equal elements keep their order. */
  function SortBy<T>(s: seq<T>, cmp: (T, T) -> Ordering): (r: seq<T>)
    ensures multiset(r) == multiset(s)
    ensures |r| == |s|
  {
    if |s| == 0 then []
    else
      assert s == [s[0]] + s[1..];
      InsertSorted(s[0], SortBy(s[1..], cmp), cmp)
  }

  lemma {:induction false} InsertSortedKeepsSorted<T(!new)>(x: T, s: seq<T>, cmp: (T, T) -> Ordering)
    requires TotalPreorder(cmp)
    requires SortedBy(s, cmp)
    ensures SortedBy(InsertSorted(x, s, cmp), cmp)
  {
    if |s| > 0 {
      if cmp(x, s[0]) != Greater {
        var r := [x] + s;
        forall i, j | 0 <= i < j < |r|
          ensures cmp(r[i], r[j]) != Greater
        {
          if i == 0 && j > 1 {
            assert cmp(s[0], s[j - 1]) != Greater;
          }
        }
      } else {
        assert cmp(s[0], x) == Less;
        var t := s[1..];
        assert SortedBy(t, cmp);
        InsertSortedKeepsSorted(x, t, cmp);
        var ins := InsertSorted(x, t, cmp);
        var r := [s[0]] + ins;
        forall i, j | 0 <= i < j < |r|
          ensures cmp(r[i], r[j]) != Greater
        {
          if i == 0 {
            assert r[j] in multiset(ins);
            assert r[j] in multiset(t) + multiset{x};
            if r[j] != x {
              assert r[j] in t;
              var k :| 0 <= k < |t| && t[k] == r[j];
              assert s[k + 1] == r[j];
            }
          }
        }
      }
    }
  }

  /** Under a total preorder the result is sorted. */
  lemma {:induction false} SortBySorted<T(!new)>(s: seq<T>, cmp: (T, T) -> Ordering)
    requires TotalPreorder(cmp)
    ensures SortedBy(SortBy(s, cmp), cmp)
  {
    if |s| > 0 {
      SortBySorted(s[1..], cmp);
      InsertSortedKeepsSorted(s[0], SortBy(s[1..], cmp), cmp);
    }
  }

  /** A comparator with the operands swapped: `cmp(a, b).reverse()`. */
  function Flip<T(!new)>(cmp: (T, T) -> Ordering): (r: (T, T) -> Ordering)
    ensures forall a, b :: r(a, b) == cmp(a, b).Reverse()
  {
    (a, b) => cmp(a, b).Reverse()
  }

  /** Reversing a total preorder gives a total preorder. */
  lemma FlipTotalPreorder<T(!new)>(cmp: (T, T) -> Ordering)
    requires TotalPreorder(cmp)
    ensures TotalPreorder(Flip(cmp))
  {
    var f := Flip(cmp);
    forall a, b, c | f(a, b) != Greater && f(b, c) != Greater
      ensures f(a, c) != Greater
    {
      assert cmp(b, a) != Greater && cmp(c, b) != Greater;
    }
  }

  /** Ordering by an integer key. */
  function ByInt<T(!new)>(key: T -> int): (r: (T, T) -> Ordering)
    ensures forall a, b :: r(a, b) == CompareInt(key(a), key(b))
  {
    (a, b) => CompareInt(key(a), key(b))
  }

  /** Ordering by a real key. */
  function ByReal<T(!new)>(key: T -> real): (r: (T, T) -> Ordering)
    ensures forall a, b :: r(a, b) == CompareReal(key(a), key(b))
  {
    (a, b) => CompareReal(key(a), key(b))
  }

  lemma ByIntTotalPreorder<T(!new)>(key: T -> int)
    ensures TotalPreorder(ByInt(key))
  {
  }

  lemma ByRealTotalPreorder<T(!new)>(key: T -> real)
    ensures TotalPreorder(ByReal(key))
  {
  }

  /** When every pair compares `Equal` the sort leaves the list as it is. */
  lemma {:induction false} SortByAllEqual<T(!new)>(s: seq<T>, cmp: (T, T) -> Ordering)
    requires forall a, b :: cmp(a, b) == Equal
    ensures SortBy(s, cmp) == s
  {
    if |s| > 0 {
      SortByAllEqual(s[1..], cmp);
      assert [s[0]] + s[1..] == s;
    }
  }

  /** Comparing by a projection: `cmp(f(a), f(b))`. */
  function On<T(!new), U(!new)>(cmp: (U, U) -> Ordering, f: T -> U): (r: (T, T) -> Ordering)
    ensures forall a, b :: r(a, b) == cmp(f(a), f(b))
  {
    (a, b) => cmp(f(a), f(b))
  }

  lemma OnTotalPreorder<T(!new), U(!new)>(cmp: (U, U) -> Ordering, f: T -> U)
    requires TotalPreorder(cmp)
    ensures TotalPreorder(On(cmp, f))
  {
    var o := On(cmp, f);
    forall a, b, c | o(a, b) != Greater && o(b, c) != Greater
      ensures o(a, c) != Greater
    {
      assert cmp(f(a), f(b)) != Greater && cmp(f(b), f(c)) != Greater;
    }
    forall a, b
      ensures o(b, a) == o(a, b).Reverse()
    {
      assert cmp(f(b), f(a)) == cmp(f(a), f(b)).Reverse();
    }
  }

  /** Chained comparison: the first comparator that does not answer
      `Equal` decides (`Ordering::then` down the list). */
  function LexCompare<T>(cmps: seq<(T, T) -> Ordering>, a: T, b: T): (r: Ordering)
    decreases |cmps|
  {
    if |cmps| == 0 then Equal else cmps[0](a, b).Then(LexCompare(cmps[1..], a, b))
  }

  /** The chained result is `Equal` exactly when every comparator says
      `Equal`, and otherwise it is the answer of the first comparator that
      does not. */
  lemma {:induction false} LexCompareFirstDecides<T>(cmps: seq<(T, T) -> Ordering>, a: T, b: T)
    ensures LexCompare(cmps, a, b) == Equal <==> forall k | 0 <= k < |cmps| :: cmps[k](a, b) == Equal
    ensures LexCompare(cmps, a, b) != Equal ==>
      exists k | 0 <= k < |cmps| :: LexCompare(cmps, a, b) == cmps[k](a, b)
        && forall j | 0 <= j < k :: cmps[j](a, b) == Equal
    decreases |cmps|
  {
    if |cmps| > 0 {
      LexCompareFirstDecides(cmps[1..], a, b);
      var r := LexCompare(cmps, a, b);
      if cmps[0](a, b) == Equal {
        assert forall k | 1 <= k < |cmps| :: cmps[k] == cmps[1..][k - 1];
        if r != Equal {
          var k :| 0 <= k < |cmps[1..]| && LexCompare(cmps[1..], a, b) == cmps[1..][k](a, b)
            && forall j | 0 <= j < k :: cmps[1..][j](a, b) == Equal;
          assert forall j | 0 <= j < k + 1 :: cmps[j](a, b) == Equal by {
            forall j | 0 <= j < k + 1 ensures cmps[j](a, b) == Equal {
              if j > 0 { assert cmps[j] == cmps[1..][j - 1]; }
            }
          }
        }
      }
    }
  }

  function Lex<T(!new)>(cmps: seq<(T, T) -> Ordering>): (r: (T, T) -> Ordering)
    ensures forall a, b :: r(a, b) == LexCompare(cmps, a, b)
  {
    (a, b) => LexCompare(cmps, a, b)
  }

  lemma StrictThenWeak<T(!new)>(cmp: (T, T) -> Ordering, a: T, b: T, c: T)
    requires TotalPreorder(cmp)
    requires cmp(a, b) == Less && cmp(b, c) != Greater
    ensures cmp(a, c) == Less
  {
    assert cmp(c, a) != Greater ==> cmp(b, a) != Greater;
  }

  lemma WeakThenStrict<T(!new)>(cmp: (T, T) -> Ordering, a: T, b: T, c: T)
    requires TotalPreorder(cmp)
    requires cmp(a, b) != Greater && cmp(b, c) == Less
    ensures cmp(a, c) == Less
  {
    assert cmp(c, a) != Greater ==> cmp(c, b) != Greater;
  }

  lemma {:induction false} LexAntisymmetric<T(!new)>(cmps: seq<(T, T) -> Ordering>, a: T, b: T)
    requires forall k | 0 <= k < |cmps| :: TotalPreorder(cmps[k])
    ensures LexCompare(cmps, b, a) == LexCompare(cmps, a, b).Reverse()
    decreases |cmps|
  {
    if |cmps| > 0 {
      assert TotalPreorder(cmps[0]);
      assert forall k | 0 <= k < |cmps[1..]| :: cmps[1..][k] == cmps[k + 1];
      LexAntisymmetric(cmps[1..], a, b);
    }
  }

  lemma {:induction false} LexTransitive<T(!new)>(cmps: seq<(T, T) -> Ordering>, a: T, b: T, c: T)
    requires forall k | 0 <= k < |cmps| :: TotalPreorder(cmps[k])
    requires LexCompare(cmps, a, b) != Greater && LexCompare(cmps, b, c) != Greater
    ensures LexCompare(cmps, a, c) != Greater
    decreases |cmps|
  {
    if |cmps| > 0 {
      var k0 := cmps[0];
      assert TotalPreorder(k0);
      if k0(a, b) == Less {
        StrictThenWeak(k0, a, b, c);
      } else if k0(b, c) == Less {
        WeakThenStrict(k0, a, b, c);
      } else {
        assert k0(a, c) == Equal by {
          assert k0(b, a) != Greater && k0(c, b) != Greater;
        }
        assert forall k | 0 <= k < |cmps[1..]| :: cmps[1..][k] == cmps[k + 1];
        LexTransitive(cmps[1..], a, b, c);
      }
    }
  }

  /** Chaining total preorders gives a total preorder. */
  lemma LexTotalPreorder<T(!new)>(cmps: seq<(T, T) -> Ordering>)
    requires forall k | 0 <= k < |cmps| :: TotalPreorder(cmps[k])
    ensures TotalPreorder(Lex(cmps))
  {
    var l := Lex(cmps);
    forall a, b
      ensures l(b, a) == l(a, b).Reverse()
    {
      LexAntisymmetric(cmps, a, b);
    }
    forall a, b, c | l(a, b) != Greater && l(b, c) != Greater
      ensures l(a, c) != Greater
    {
      LexTransitive(cmps, a, b, c);
    }
  }
}
