/** Generic grouping helpers shared by the aggregation code: partitioning
    a list by a classifier, grouping by a key in order of first
    appearance, and maps built from ordered assignments. */
module Grouping {
  import opened Wrappers
  import opened Seqs

  /** The elements the classifier rejects, in order, and the images of
      those it accepts, in order. */
  function Partition<T, A>(items: seq<T>, f: T -> Option<A>): (r: (seq<T>, seq<A>))
    ensures |r.0| + |r.1| == |items|
  {
    if |items| == 0 then ([], [])
    else
      var rest := Partition(items[1..], f);
      var a := f(items[0]);
      if a.Some? then (rest.0, [a.value] + rest.1) else ([items[0]] + rest.0, rest.1)
  }

  /** The rejected side holds exactly the rejected elements, and every
      accepted element's image lies on the accepted side. */
  lemma {:induction false} PartitionMembers<T, A>(items: seq<T>, f: T -> Option<A>)
    ensures forall x :: x in Partition(items, f).0 <==> x in items && f(x).None?
    ensures forall x :: x in items && f(x).Some? ==> f(x).value in Partition(items, f).1
    ensures |Partition(items, f).1| == 0 <==> forall x :: x in items ==> f(x).None?
  {
    if |items| > 0 {
      PartitionMembers(items[1..], f);
      assert forall x :: x in items <==> x == items[0] || x in items[1..];
    }
  }

  /** Partitioning a concatenation partitions each part and concatenates
      the results, so relative order is kept on both sides. */
  lemma {:induction false} PartitionAppend<T(!new), A(!new)>(a: seq<T>, b: seq<T>, f: T -> Option<A>)
    ensures Partition(a + b, f).0 == Partition(a, f).0 + Partition(b, f).0
    ensures Partition(a + b, f).1 == Partition(a, f).1 + Partition(b, f).1
  {
    if |a| > 0 {
      assert (a + b)[0] == a[0];
      assert (a + b)[1..] == a[1..] + b;
      PartitionAppend(a[1..], b, f);
    } else {
      assert a + b == b;
    }
  }

  /** The key of each element, in order. */
  function KeysOf<T, K>(xs: seq<T>, keyOf: T -> K): (r: seq<K>)
    ensures |r| == |xs|
    ensures forall i | 0 <= i < |xs| :: r[i] == keyOf(xs[i])
  {
    seq(|xs|, i requires 0 <= i < |xs| => keyOf(xs[i]))
  }

  /** Extending the list extends its keys. */
  lemma KeysOfAppend<T, K>(xs: seq<T>, x: T, keyOf: T -> K)
    ensures KeysOf(xs + [x], keyOf) == KeysOf(xs, keyOf) + [keyOf(x)]
  {
    var l := KeysOf(xs + [x], keyOf);
    var r := KeysOf(xs, keyOf) + [keyOf(x)];
    forall i | 0 <= i < |l|
      ensures l[i] == r[i]
    {
      if i < |xs| {
        assert (xs + [x])[i] == xs[i];
      }
    }
  }

  /** Membership in the group of a key. */
  function WithKey<T, K(==)>(keyOf: T -> K, key: K): T -> bool {
    (x: T) => keyOf(x) == key
  }

  /** A key no element has selects nothing. */
  lemma NoMembers<T(!new), K>(xs: seq<T>, keyOf: T -> K, key: K)
    requires key !in KeysOf(xs, keyOf)
    ensures Filter(xs, WithKey(keyOf, key)) == []
  {
    forall x | x in xs
      ensures !WithKey(keyOf, key)(x)
    {
      var i :| 0 <= i < |xs| && xs[i] == x;
      assert KeysOf(xs, keyOf)[i] == keyOf(x);
    }
    FilterNone(xs, WithKey(keyOf, key));
  }

  /** The grouping state after a list: the keys in order of first
      appearance and, for each, its elements in order. */
  predicate GroupsOf<T(==,!new), K(==,!new)>(xs: seq<T>, keyOf: T -> K, order: seq<K>, groups: map<K, seq<T>>) {
    && order == FirstAppearances(KeysOf(xs, keyOf))
    && groups.Keys == Elems(order)
    && forall key | key in groups :: groups[key] == Filter(xs, WithKey(keyOf, key))
  }

  /** Adding one element to the grouping state keeps it the grouping
      state of the longer list. */
  lemma GroupStep<T(!new), K(!new)>(xs: seq<T>, x: T, keyOf: T -> K, order: seq<K>, groups: map<K, seq<T>>)
    requires GroupsOf(xs, keyOf, order, groups)
    ensures var key := keyOf(x);
      GroupsOf(xs + [x], keyOf,
               if key in groups then order else order + [key],
               groups[key := (if key in groups then groups[key] else []) + [x]])
  {
    var key := keyOf(x);
    KeysOfAppend(xs, x, keyOf);
    if key !in groups {
      NoMembers(xs, keyOf, key);
    }
    var g := groups[key := (if key in groups then groups[key] else []) + [x]];
    forall k | k in g
      ensures g[k] == Filter(xs + [x], WithKey(keyOf, k))
    {
      FilterAppend(xs, x, WithKey(keyOf, k));
    }
  }

  /** `GroupStep` for the next element of a prefix. */
  lemma PrefixStep<T(!new), K(!new)>(xs: seq<T>, i: nat, keyOf: T -> K, order: seq<K>, groups: map<K, seq<T>>)
    requires i < |xs| && GroupsOf(xs[..i], keyOf, order, groups)
    ensures var key := keyOf(xs[i]);
      GroupsOf(xs[..i + 1], keyOf,
               if key in groups then order else order + [key],
               groups[key := (if key in groups then groups[key] else []) + [xs[i]]])
  {
    var front, x := xs[..i], xs[i];
    assert xs[..i + 1] == front + [x];
    GroupStep(front, x, keyOf, order, groups);
  }

  /** Every key of the grouping state has an element. */
  lemma GroupsNonEmpty<T(!new), K(!new)>(xs: seq<T>, keyOf: T -> K, order: seq<K>, groups: map<K, seq<T>>, key: K)
    requires GroupsOf(xs, keyOf, order, groups) && key in groups
    ensures |groups[key]| > 0
  {
    assert key in KeysOf(xs, keyOf);
    var j :| 0 <= j < |xs| && KeysOf(xs, keyOf)[j] == key;
    assert xs[j] in groups[key];
  }

  /** The insertion-ordered grouping loop: a list of keys in order of
      first appearance beside a map from each key to its elements. */
  method GroupBy<T(==,!new), K(==,!new)>(xs: seq<T>, keyOf: T -> K) returns (order: seq<K>, groups: map<K, seq<T>>)
    ensures order == FirstAppearances(KeysOf(xs, keyOf))
    ensures groups.Keys == Elems(order)
    ensures forall key | key in groups :: groups[key] == Filter(xs, WithKey(keyOf, key)) && |groups[key]| > 0
  {
    order := [];
    groups := map[];
    for i := 0 to |xs|
      invariant GroupsOf(xs[..i], keyOf, order, groups)
    {
      var key := keyOf(xs[i]);
      PrefixStep(xs, i, keyOf, order, groups);
      if key !in groups {
        order := order + [key];
      }
      groups := groups[key := (if key in groups then groups[key] else []) + [xs[i]]];
    }
    assert xs[..|xs|] == xs;
    forall key | key in groups
      ensures |groups[key]| > 0
    {
      GroupsNonEmpty(xs, keyOf, order, groups, key);
    }
  }

  /** Each element lies in the group of its own key, and the first element
      of a group is the first element of the list with that key. */
  lemma GroupsPartition<T(!new), K(!new)>(xs: seq<T>, keyOf: T -> K, n: nat)
    requires n < |xs|
    ensures keyOf(xs[n]) in FirstAppearances(KeysOf(xs, keyOf))
    ensures xs[n] in Filter(xs, WithKey(keyOf, keyOf(xs[n])))
    ensures var m := IndexOf(KeysOf(xs, keyOf), keyOf(xs[n]));
      Filter(xs, WithKey(keyOf, keyOf(xs[n])))[0] == xs[m]
  {
    var ks, key := KeysOf(xs, keyOf), keyOf(xs[n]);
    var sameKey := WithKey(keyOf, key);
    assert ks[n] == key;
    assert sameKey(xs[n]);
    var m := IndexOf(ks, key);
    FirstWithKey(xs, keyOf, key, m);
    FilterHead(xs, sameKey, m);
  }

  /** The first index of a key among the keys is the first element with
      that key. */
  lemma FirstWithKey<T(!new), K(!new)>(xs: seq<T>, keyOf: T -> K, key: K, m: nat)
    requires m < |xs| && KeysOf(xs, keyOf)[m] == key && key !in KeysOf(xs, keyOf)[..m]
    ensures WithKey(keyOf, key)(xs[m])
    ensures forall j | 0 <= j < m :: !WithKey(keyOf, key)(xs[j])
  {
    var ks := KeysOf(xs, keyOf);
    forall j | 0 <= j < m
      ensures !WithKey(keyOf, key)(xs[j])
    {
      assert ks[..m][j] == ks[j];
    }
  }

  /** A later suffix of assignments decides the keys it names last. */
  lemma FromPairsSuffix<K(!new), V>(front: seq<(K, V)>, back: seq<(K, V)>, j: nat)
    requires j < |back|
    requires forall i | j < i < |back| :: back[i].0 != back[j].0
    ensures back[j].0 in FromPairs(front + back) && FromPairs(front + back)[back[j].0] == back[j].1
  {
    var pairs := front + back;
    assert pairs[|front| + j] == back[j];
    forall i | |front| + j < i < |pairs|
      ensures pairs[i].0 != pairs[|front| + j].0
    {
      assert pairs[i] == back[i - |front|];
    }
    FromPairsLast(pairs, |front| + j);
  }

  /** An earlier assignment decides a key no later one names. */
  lemma FromPairsPrefix<K(!new), V>(front: seq<(K, V)>, back: seq<(K, V)>, j: nat)
    requires j < |front|
    requires forall i | j < i < |front| :: front[i].0 != front[j].0
    requires forall i | 0 <= i < |back| :: back[i].0 != front[j].0
    ensures front[j].0 in FromPairs(front + back) && FromPairs(front + back)[front[j].0] == front[j].1
  {
    var pairs := front + back;
    forall i | j < i < |pairs|
      ensures pairs[i].0 != pairs[j].0
    {
      if i < |front| {
        assert pairs[i] == front[i];
      } else {
        assert pairs[i] == back[i - |front|];
      }
    }
    assert pairs[j] == front[j];
    FromPairsLast(pairs, j);
  }
}
