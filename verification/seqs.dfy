/** Sequence helpers shared by the in-memory structures: duplicate-free
    lists, `Vec::retain` with an inequality, and the element set of a
    list. */
module Seqs {

  /** No element occurs twice. */
  predicate Distinct<T(==)>(s: seq<T>) {
    forall i, j | 0 <= i < j < |s| :: s[i] != s[j]
  }

  /** The elements of a list. */
  function Elems<T(!new)>(s: seq<T>): (r: set<T>)
    ensures forall x :: x in r <==> x in s
  {
    set x | x in s
  }

  /** `v.retain(|&y| y != x)`: drops every occurrence of `x` and keeps the
      order of the rest. */
  function RemoveAll<T(==,!new)>(s: seq<T>, x: T): (r: seq<T>)
    ensures forall y :: y in r <==> y in s && y != x
    ensures |r| <= |s|
  {
    if |s| == 0 then []
    else if s[0] == x then RemoveAll(s[1..], x)
    else [s[0]] + RemoveAll(s[1..], x)
  }

  /** Dropping elements keeps a list duplicate-free. */
  lemma {:induction false} RemoveAllDistinct<T(!new)>(s: seq<T>, x: T)
    requires Distinct(s)
    ensures Distinct(RemoveAll(s, x))
  {
    if |s| > 0 {
      assert Distinct(s[1..]) by {
        assert forall i, j | 0 <= i < j < |s[1..]| :: s[1..][i] == s[i + 1] && s[1..][j] == s[j + 1];
      }
      RemoveAllDistinct(s[1..], x);
      if s[0] != x {
        var r := RemoveAll(s[1..], x);
        assert s[0] !in r by {
          assert forall k | 1 <= k < |s| :: s[k] != s[0];
        }
        assert Distinct([s[0]] + r) by {
          forall i, j | 0 <= i < j < |[s[0]] + r|
            ensures ([s[0]] + r)[i] != ([s[0]] + r)[j]
          {
            if i == 0 {
              assert ([s[0]] + r)[j] == r[j - 1];
            } else {
              assert ([s[0]] + r)[i] == r[i - 1] && ([s[0]] + r)[j] == r[j - 1];
            }
          }
        }
      }
    }
  }

  /** Removing an element that is absent leaves the list as it was. */
  lemma {:induction false} RemoveAllAbsent<T(!new)>(s: seq<T>, x: T)
    requires x !in s
    ensures RemoveAll(s, x) == s
  {
    if |s| > 0 {
      assert s[1..] + [] == s[1..];
      RemoveAllAbsent(s[1..], x);
      assert [s[0]] + s[1..] == s;
    }
  }

  /** A duplicate-free list has as many elements as its element set. */
  lemma {:induction false} DistinctCard<T(!new)>(s: seq<T>)
    requires Distinct(s)
    ensures |Elems(s)| == |s|
  {
    if |s| > 0 {
      var t := s[1..];
      assert Distinct(t) by {
        assert forall i, j | 0 <= i < j < |t| :: t[i] == s[i + 1] && t[j] == s[j + 1];
      }
      DistinctCard(t);
      assert s[0] !in t by {
        assert forall k | 0 <= k < |t| :: t[k] == s[k + 1];
      }
      var et := Elems(t);
      assert s[0] !in et;
      assert Elems(s) == et + {s[0]} by {
        forall x
          ensures x in Elems(s) <==> x in et + {s[0]}
        {
          assert x in s <==> x == s[0] || x in t by {
            assert s == [s[0]] + t;
          }
        }
      }
      assert |et + {s[0]}| == |et| + 1;
    }
  }

  /** Appending an element not yet in a duplicate-free list keeps it
      duplicate-free. */
  lemma AppendDistinct<T>(s: seq<T>, x: T)
    requires Distinct(s) && x !in s
    ensures Distinct(s + [x])
  {
    var r := s + [x];
    forall i, j | 0 <= i < j < |r|
      ensures r[i] != r[j]
    {
      assert r[i] == s[i];
      if j == |s| {
        assert r[i] in s;
      } else {
        assert r[j] == s[j];
      }
    }
  }

  /** `v.insert(pos, x)`. */
  function InsertAt<T>(s: seq<T>, pos: nat, x: T): (r: seq<T>)
    requires pos <= |s|
    ensures |r| == |s| + 1
    ensures forall i | 0 <= i < |r| :: r[i] == (if i < pos then s[i] else if i == pos then x else s[i - 1])
  {
    s[..pos] + [x] + s[pos..]
  }

  /** `v.remove(pos)`. */
  function RemoveAt<T>(s: seq<T>, pos: nat): (r: seq<T>)
    requires pos < |s|
    ensures |r| == |s| - 1
    ensures forall i | 0 <= i < |r| :: r[i] == (if i < pos then s[i] else s[i + 1])
  {
    s[..pos] + s[pos + 1..]
  }

  /** Inserting adds exactly the inserted element. */
  lemma InsertAtElems<T>(s: seq<T>, pos: nat, x: T)
    requires pos <= |s|
    ensures forall y :: y in InsertAt(s, pos, x) <==> y in s || y == x
  {
    var r := InsertAt(s, pos, x);
    assert r[pos] == x;
    assert forall i | 0 <= i < |s| :: s[i] == r[if i < pos then i else i + 1];
  }

  /** Removing one position keeps every other position's element. */
  lemma RemoveAtElems<T>(s: seq<T>, pos: nat)
    requires pos < |s|
    ensures forall y :: y in RemoveAt(s, pos) ==> y in s
    ensures forall i | 0 <= i < |s| && i != pos :: s[i] in RemoveAt(s, pos)
  {
    var r := RemoveAt(s, pos);
    assert forall i | 0 <= i < |s| && i != pos :: s[i] == r[if i < pos then i else i - 1];
  }

  /** The integers 0 .. n - 1. */
  function Range(n: nat): (r: set<int>)
    ensures forall x :: x in r <==> 0 <= x < n
    ensures |r| == n
  {
    if n == 0 then {} else Range(n - 1) + {n - 1}
  }

  /** In a duplicate-free list every element occurs once. */
  lemma {:induction false} DistinctCountsOne<T>(s: seq<T>, x: T)
    requires Distinct(s)
    ensures multiset(s)[x] <= 1
  {
    if |s| > 0 {
      assert s == [s[0]] + s[1..];
      assert Distinct(s[1..]) by {
        assert forall i, j | 0 <= i < j < |s[1..]| :: s[1..][i] == s[i + 1] && s[1..][j] == s[j + 1];
      }
      DistinctCountsOne(s[1..], x);
      if s[0] == x {
        assert x !in s[1..] by {
          assert forall k | 0 <= k < |s[1..]| :: s[1..][k] == s[k + 1];
        }
      }
    }
  }

  /** An element found at two positions is counted twice. */
  lemma TwoPositionsCount<T>(t: seq<T>, i: nat, j: nat)
    requires i < j < |t|
    ensures multiset(t)[t[i]] >= if t[i] == t[j] then 2 else 1
  {
    assert t == t[..j] + t[j..];
    assert t[i] in t[..j];
    assert t[j] in t[j..];
    assert multiset(t)[t[i]] == multiset(t[..j])[t[i]] + multiset(t[j..])[t[i]];
  }

  /** A permutation of a duplicate-free list is duplicate-free. */
  lemma DistinctPermutation<T>(s: seq<T>, t: seq<T>)
    requires multiset(s) == multiset(t) && Distinct(s)
    ensures Distinct(t)
  {
    forall i, j | 0 <= i < j < |t|
      ensures t[i] != t[j]
    {
      DistinctCountsOne(s, t[i]);
      TwoPositionsCount(t, i, j);
    }
  }

  /** `iter().filter(p)`: the elements satisfying `p`, in order. */
  function Filter<T(!new)>(s: seq<T>, p: T -> bool): (r: seq<T>)
    ensures forall x :: x in r <==> x in s && p(x)
    ensures |r| <= |s|
  {
    if |s| == 0 then [] else (if p(s[0]) then [s[0]] else []) + Filter(s[1..], p)
  }

  /** Filtering a list extended at the end extends the filtered list by
      the new element when it passes. */
  lemma {:induction false} FilterAppend<T(!new)>(s: seq<T>, x: T, p: T -> bool)
    ensures Filter(s + [x], p) == Filter(s, p) + (if p(x) then [x] else [])
  {
    if |s| == 0 {
      assert s + [x] == [x];
    } else {
      assert (s + [x])[0] == s[0];
      assert (s + [x])[1..] == s[1..] + [x];
      FilterAppend(s[1..], x, p);
    }
  }

  /** The position of the first occurrence of an element. */
  function IndexOf<T(==)>(s: seq<T>, x: T): (r: nat)
    requires x in s
    ensures r < |s| && s[r] == x && x !in s[..r]
  {
    if s[0] == x then 0
    else
      var i := IndexOf(s[1..], x);
      assert s[..i + 1] == [s[0]] + s[1..][..i];
      i + 1
  }

  /** The first occurrence of an element that occurs in a prefix lies in
      that prefix. */
  lemma {:induction false} IndexOfPrefix<T>(s: seq<T>, n: nat, x: T)
    requires n <= |s| && x in s[..n]
    ensures IndexOf(s, x) == IndexOf(s[..n], x)
  {
    if s[0] != x {
      assert s[..n][1..] == s[1..][..n - 1];
      IndexOfPrefix(s[1..], n - 1, x);
    }
  }

  /** The distinct elements of a list in the order of their first
      occurrence. */
  function FirstAppearances<T(==,!new)>(s: seq<T>): (r: seq<T>)
    ensures Distinct(r)
    ensures forall x :: x in r <==> x in s
  {
    if |s| == 0 then []
    else
      var p := FirstAppearances(s[..|s| - 1]);
      var x := s[|s| - 1];
      assert s == s[..|s| - 1] + [x];
      if x in p then p else AppendDistinct(p, x); p + [x]
  }

  /** Earlier entries of the list of first appearances occur first
      earlier in the original list. */
  lemma {:induction false} FirstAppearancesOrdered<T(!new)>(s: seq<T>, i: nat, j: nat)
    requires i < j < |FirstAppearances(s)|
    ensures IndexOf(s, FirstAppearances(s)[i]) < IndexOf(s, FirstAppearances(s)[j])
  {
    var n := |s| - 1;
    var p := FirstAppearances(s[..n]);
    var x := s[n];
    var r := FirstAppearances(s);
    assert s == s[..n] + [x];
    assert r[i] in s[..n] by {
      assert r[i] in p;
    }
    IndexOfPrefix(s, n, r[i]);
    if j < |p| {
      assert r[j] == p[j] && r[i] == p[i];
      assert r[j] in s[..n];
      IndexOfPrefix(s, n, r[j]);
      FirstAppearancesOrdered(s[..n], i, j);
    } else {
      assert r[j] == x && x !in p;
      assert x !in s[..n];
      assert IndexOf(s, x) == n;
    }
  }

  /** A map built by inserting key/value pairs in order, a later pair for
      a key replacing an earlier one. */
  function FromPairs<K(!new), V>(pairs: seq<(K, V)>): (r: map<K, V>)
    ensures forall k :: k in r <==> exists i | 0 <= i < |pairs| :: pairs[i].0 == k
  {
    if |pairs| == 0 then map[]
    else
      var n := |pairs| - 1;
      var m := FromPairs(pairs[..n]);
      assert forall i | 0 <= i < n :: pairs[..n][i] == pairs[i];
      m[pairs[n].0 := pairs[n].1]
  }

  /** A key holds the value of the last pair that names it. */
  lemma {:induction false} FromPairsLast<K(!new), V>(pairs: seq<(K, V)>, i: nat)
    requires i < |pairs|
    requires forall j | i < j < |pairs| :: pairs[j].0 != pairs[i].0
    ensures pairs[i].0 in FromPairs(pairs) && FromPairs(pairs)[pairs[i].0] == pairs[i].1
  {
    var n := |pairs| - 1;
    if i < n {
      assert forall j | i < j < n :: pairs[..n][j] == pairs[j];
      FromPairsLast(pairs[..n], i);
    }
  }

  /** Nothing passes a filter no element satisfies. */
  lemma {:induction false} FilterNone<T(!new)>(s: seq<T>, p: T -> bool)
    requires forall x | x in s :: !p(x)
    ensures Filter(s, p) == []
  {
    if |s| > 0 {
      assert s[0] in s;
      assert forall x | x in s[1..] :: x in s;
      FilterNone(s[1..], p);
    }
  }

  /** The first element a filter keeps is the first element that
      passes. */
  lemma {:induction false} FilterHead<T(!new)>(s: seq<T>, p: T -> bool, m: nat)
    requires m < |s| && p(s[m])
    requires forall j | 0 <= j < m :: !p(s[j])
    ensures |Filter(s, p)| > 0 && Filter(s, p)[0] == s[m]
  {
    if m > 0 {
      assert !p(s[0]);
      FilterHead(s[1..], p, m - 1);
    }
  }

  /** The number of elements satisfying `p`. */
  function Count<T>(s: seq<T>, p: T -> bool): (r: nat)
    ensures r <= |s|
    ensures r == 0 <==> forall i | 0 <= i < |s| :: !p(s[i])
    ensures r == |s| <==> forall i | 0 <= i < |s| :: p(s[i])
  {
    if |s| == 0 then 0
    else
      var front := s[..|s| - 1];
      assert forall i | 0 <= i < |front| :: front[i] == s[i];
      Count(front, p) + (if p(s[|s| - 1]) then 1 else 0)
  }

  /** `Vec::swap_remove`: the last element takes the removed one's
      place. */
  function SwapRemove<T>(s: seq<T>, pos: nat): (r: seq<T>)
    requires pos < |s|
    ensures |r| == |s| - 1
    ensures multiset(r) == multiset(s) - multiset{s[pos]}
  {
    var t := s[pos := s[|s| - 1]];
    assert s == s[..pos] + [s[pos]] + s[pos + 1..];
    if pos == |s| - 1 then
      assert s == s[..|s| - 1] + [s[pos]];
      s[..|s| - 1]
    else
      assert t == s[..pos] + [s[|s| - 1]] + s[pos + 1..|s| - 1] + [s[|s| - 1]];
      assert s == s[..pos] + [s[pos]] + s[pos + 1..|s| - 1] + [s[|s| - 1]];
      assert t[..|t| - 1] == s[..pos] + [s[|s| - 1]] + s[pos + 1..|s| - 1];
      t[..|t| - 1]
  }
}
