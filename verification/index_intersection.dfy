/** `IndexIntersection`: combining the id lists several property indexes
    return for one query. Bitmaps hold 32-bit ids, so ids above
    `u32::MAX` do not survive `intersect_vecs`; `intersect_two` works on
    the lists themselves. */
module IndexIntersection {
  import opened Wrappers
  import opened Seqs

  /** `x` is in every set of the list. */
  predicate InAll(sets: seq<set<nat>>, x: nat) {
    forall i | 0 <= i < |sets| :: x in sets[i]
  }

  /** The intersection of a list of sets, folded from the front; no sets
      intersect to the empty set. */
  function Meet(sets: seq<set<nat>>): (r: set<nat>)
    ensures |sets| > 0 ==> forall x :: x in r <==> InAll(sets, x)
    ensures |sets| == 0 ==> r == {}
  {
    if |sets| == 0 then {}
    else if |sets| == 1 then sets[0]
    else
      var front := sets[..|sets| - 1];
      assert forall i | 0 <= i < |front| :: front[i] == sets[i];
      Meet(front) * sets[|sets| - 1]
  }

  /** `intersect_bitmaps`: starts from the first set, intersects the rest
      in turn and stops as soon as the running result is empty. */
  method IntersectBitmaps(sets: seq<set<nat>>) returns (r: set<nat>)
    ensures |sets| > 0 ==> forall x :: x in r <==> InAll(sets, x)
    ensures |sets| == 0 ==> r == {}
  {
    if |sets| == 0 {
      return {};
    }
    r := sets[0];
    var k := 1;
    while k < |sets|
      invariant 1 <= k <= |sets|
      invariant forall x :: x in r <==> InAll(sets[..k], x)
    {
      r := r * sets[k];
      assert forall x :: InAll(sets[..k + 1], x) <==> InAll(sets[..k], x) && x in sets[k] by {
        assert forall i | 0 <= i < k :: sets[..k + 1][i] == sets[..k][i];
      }
      k := k + 1;
      if r == {} {
        assert forall x :: InAll(sets, x) ==> InAll(sets[..k], x) by {
          assert forall i | 0 <= i < k :: sets[..k][i] == sets[i];
        }
        return;
      }
    }
    assert sets[..k] == sets;
  }

  /** The early exit changes nothing: the method computes the fold. */
  lemma IntersectBitmapsIsMeet(sets: seq<set<nat>>, r: set<nat>)
    requires |sets| > 0 ==> forall x :: x in r <==> InAll(sets, x)
    requires |sets| == 0 ==> r == {}
    ensures r == Meet(sets)
  {
  }

  /** `x` is the least element of `s`. */
  predicate IsLeast(s: set<nat>, x: nat) {
    x in s && forall y | y in s :: x <= y
  }

  lemma {:induction false} LeastExists(s: set<nat>)
    requires s != {}
    ensures exists x :: IsLeast(s, x)
    decreases |s|
  {
    var x :| x in s;
    if s == {x} {
      assert IsLeast(s, x);
    } else {
      var rest := s - {x};
      assert forall y | y in s :: y == x || y in rest;
      LeastExists(rest);
      var m :| IsLeast(rest, m);
      if m <= x {
        assert IsLeast(s, m);
      } else {
        assert IsLeast(s, x);
      }
    }
  }

  function Least(s: set<nat>): (r: nat)
    requires s != {}
    ensures IsLeast(s, r)
  {
    LeastExists(s);
    var x :| IsLeast(s, x);
    x
  }

  predicate StrictlyAscending(s: seq<nat>) {
    forall i, j | 0 <= i < j < |s| :: s[i] < s[j]
  }

  /** A bitmap's `iter()`: its ids in ascending order. */
  function Ascending(s: set<nat>): (r: seq<nat>)
    ensures forall x :: x in r <==> x in s
    ensures StrictlyAscending(r) && |r| == |s|
    decreases |s|
  {
    if s == {} then []
    else
      var m := Least(s);
      var tail := Ascending(s - {m});
      assert forall j | 0 <= j < |tail| :: m < tail[j] by {
        forall j | 0 <= j < |tail|
          ensures m < tail[j]
        {
          assert tail[j] in s - {m};
        }
      }
      AscendingCons(m, tail);
      [m] + tail
  }

  lemma AscendingCons(m: nat, tail: seq<nat>)
    requires StrictlyAscending(tail)
    requires forall j | 0 <= j < |tail| :: m < tail[j]
    ensures StrictlyAscending([m] + tail)
  {
    var r := [m] + tail;
    forall i, j | 0 <= i < j < |r|
      ensures r[i] < r[j]
    {
      assert r[j] == tail[j - 1];
      if i > 0 {
        assert r[i] == tail[i - 1];
      }
    }
  }

  /** An id a 32-bit bitmap can hold. */
  predicate FitsU32(id: nat) {
    id <= U32_MAX
  }

  /** `intersect_vecs`: each list becomes a bitmap of its ids that fit in
      32 bits (the others are dropped), the bitmaps are intersected, and
      the result is read back in ascending order. */
  function IntersectVecs(sets: seq<seq<nat>>): (r: seq<nat>)
    ensures StrictlyAscending(r)
    ensures forall x :: x in r <==>
      (|sets| > 0 && FitsU32(x) && forall i | 0 <= i < |sets| :: x in sets[i])
  {
    if |sets| == 0 then []
    else
      var bitmaps := seq(|sets|, i requires 0 <= i < |sets| => set id | id in sets[i] && FitsU32(id));
      assert forall x :: InAll(bitmaps, x) <==> FitsU32(x) && forall i | 0 <= i < |sets| :: x in sets[i] by {
        forall x
          ensures InAll(bitmaps, x) <==> FitsU32(x) && forall i | 0 <= i < |sets| :: x in sets[i]
        {
          forall i | 0 <= i < |sets|
            ensures x in bitmaps[i] <==> x in sets[i] && FitsU32(x)
          {
            assert bitmaps[i] == set id | id in sets[i] && FitsU32(id);
          }
          assert |bitmaps| == |sets| > 0;
          assert InAll(bitmaps, x) ==> x in bitmaps[0];
        }
      }
      Ascending(Meet(bitmaps))
  }

  /** Membership in a list, as a filter predicate. */
  function InList(s: seq<nat>): nat -> bool {
    x => x in s
  }

  /** `intersect_two`: keeps, in order, the entries of the shorter list
      (the second one when the lengths are equal) that occur in the
      other. */
  function IntersectTwo(a: seq<nat>, b: seq<nat>): (r: seq<nat>)
    ensures forall x :: x in r <==> x in a && x in b
    ensures |r| <= |a| && |r| <= |b|
  {
    if |a| < |b| then Filter(a, InList(b)) else Filter(b, InList(a))
  }

  lemma {:induction false} FilterDistinct(s: seq<nat>, p: nat -> bool)
    requires Distinct(s)
    ensures Distinct(Filter(s, p))
  {
    if |s| > 0 {
      assert Distinct(s[1..]) by {
        forall i, j | 0 <= i < j < |s[1..]|
          ensures s[1..][i] != s[1..][j]
        {
          assert s[1..][i] == s[i + 1] && s[1..][j] == s[j + 1];
        }
      }
      FilterDistinct(s[1..], p);
      var rest := Filter(s[1..], p);
      assert s[0] !in s[1..] by {
        forall j | 0 <= j < |s[1..]|
          ensures s[1..][j] != s[0]
        {
          assert s[1..][j] == s[j + 1];
        }
      }
      assert s[0] !in rest;
      var r := Filter(s, p);
      forall i, j | 0 <= i < j < |r|
        ensures r[i] != r[j]
      {
        if p(s[0]) && i == 0 {
          assert r[j] == rest[j - 1];
        } else if p(s[0]) {
          assert r[i] == rest[i - 1] && r[j] == rest[j - 1];
        } else {
          assert r[i] == rest[i] && r[j] == rest[j];
        }
      }
    }
  }

  /** Lists without repeated ids intersect to a list without repeated ids. */
  lemma IntersectTwoDistinct(a: seq<nat>, b: seq<nat>)
    requires Distinct(a) && Distinct(b)
    ensures Distinct(IntersectTwo(a, b))
  {
    if |a| < |b| {
      FilterDistinct(a, InList(b));
    } else {
      FilterDistinct(b, InList(a));
    }
  }

  /** On ids that fit in 32 bits both routes find the same ids. */
  lemma VecsAgreeWithTwo(a: seq<nat>, b: seq<nat>)
    requires forall x | x in a :: FitsU32(x)
    ensures forall x :: x in IntersectVecs([a, b]) <==> x in IntersectTwo(a, b)
  {
    var sets := [a, b];
    assert sets[0] == a && sets[1] == b;
    assert forall x :: (forall i | 0 <= i < |sets| :: x in sets[i]) <==> x in a && x in b;
  }

  /** An id above `u32::MAX` that both lists hold is lost by
      `intersect_vecs` and kept by `intersect_two`. */
  lemma WideIdDropped()
    ensures IntersectVecs([[U32_MAX + 1], [U32_MAX + 1]]) == []
    ensures IntersectTwo([U32_MAX + 1], [U32_MAX + 1]) == [U32_MAX + 1]
  {
    var r := IntersectVecs([[U32_MAX + 1], [U32_MAX + 1]]);
    assert forall x :: x !in r;
  }

  /** With a repeated id the result is not symmetric: the repeats of the
      shorter list are kept, those of the longer are not. */
  lemma IntersectTwoOrderMatters()
    ensures IntersectTwo([1, 2], [1, 1]) == [1, 1]
    ensures IntersectTwo([1, 1], [1, 2]) == [1]
  {
    assert Filter([1, 1], InList([1, 2])) == [1, 1] by {
      assert [1, 1][1..] == [1];
    }
    assert Filter([1, 2], InList([1, 1])) == [1] by {
      assert [1, 2][1..] == [2];
    }
  }
}
