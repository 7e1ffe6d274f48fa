/** Column-store vacuum: dropping the rows marked in the deletion bitmap,
    renumbering the live rows in order, and carrying the primary-key and
    expiry maps over to the new row numbers. */
module Vacuum {
  import opened Wrappers
  import opened Seqs

  /** `TypedColumn`, one vector per value type. Floats are kept as reals;
      strings are their interned ids. */
  datatype Column =
    | IntCol(ints: seq<int>)
    | FloatCol(floats: seq<real>)
    | StringCol(ids: seq<nat>)
    | BoolCol(bools: seq<bool>)

  /** The column store fields vacuum touches. `deleted` is the deletion
      bitmap, a set of `u32` row numbers. */
  datatype Store = Store(
    rowCount: nat,
    columns: map<string, Column>,
    deleted: set<nat>,
    primaryKeyColumn: Option<string>,
    primaryIndex: map<int, nat>,
    rowToPk: map<nat, int>,
    rowExpiry: map<nat, nat>)

  /** `VacuumStats` without the duration. */
  datatype Stats = Stats(tombstonesFound: nat, tombstonesRemoved: nat, bytesReclaimed: nat, completed: bool)

  /** `is_idx_deleted`: a row number that does not fit in `u32` is never
      deleted. */
  predicate IsDeleted(deleted: set<nat>, idx: nat) {
    idx <= U32_MAX && idx in deleted
  }

  // ---------------------------------------------------------------------
  // Live rows and the old-to-new numbering
  // ---------------------------------------------------------------------

  /** `live_row_indices`: the live row numbers below `n`, ascending. */
  function LiveRows(deleted: set<nat>, n: nat): (r: seq<nat>)
    ensures |r| <= n
  {
    if n == 0 then []
    else LiveRows(deleted, n - 1) + (if IsDeleted(deleted, n - 1) then [] else [n - 1])
  }

  /** The listing holds exactly the live rows below `n`, ascending. */
  lemma {:induction false} LiveRowsExact(deleted: set<nat>, n: nat)
    ensures forall k | 0 <= k < |LiveRows(deleted, n)| :: LiveRows(deleted, n)[k] < n && !IsDeleted(deleted, LiveRows(deleted, n)[k])
    ensures forall i, j | 0 <= i < j < |LiveRows(deleted, n)| :: LiveRows(deleted, n)[i] < LiveRows(deleted, n)[j]
    ensures forall i | 0 <= i < n && !IsDeleted(deleted, i) :: i in LiveRows(deleted, n)
  {
    if n > 0 {
      LiveRowsExact(deleted, n - 1);
    }
  }

  /** How many live rows lie below `n`: the new number of live row `n`. */
  function LiveBelow(deleted: set<nat>, n: nat): nat {
    |LiveRows(deleted, n)|
  }

  /** The live rows below `m` are the first ones below any `n` >= `m`. */
  lemma {:induction false} LiveRowsPrefix(deleted: set<nat>, m: nat, n: nat)
    requires m <= n
    ensures LiveBelow(deleted, m) <= LiveBelow(deleted, n)
    ensures forall k | 0 <= k < LiveBelow(deleted, m) :: LiveRows(deleted, n)[k] == LiveRows(deleted, m)[k]
    decreases n
  {
    if m < n {
      LiveRowsPrefix(deleted, m, n - 1);
      var prev := LiveRows(deleted, n - 1);
      assert forall k | 0 <= k < |prev| :: LiveRows(deleted, n)[k] == prev[k];
    }
  }

  /** A live row `i` below `n` sits at position `LiveBelow(i)` of the live
      rows below `n`. */
  lemma LiveRowAt(deleted: set<nat>, i: nat, n: nat)
    requires i < n && !IsDeleted(deleted, i)
    ensures LiveBelow(deleted, i) < |LiveRows(deleted, n)|
    ensures LiveRows(deleted, n)[LiveBelow(deleted, i)] == i
  {
    LiveRowsPrefix(deleted, i + 1, n);
    assert LiveRows(deleted, i + 1) == LiveRows(deleted, i) + [i];
    assert LiveRows(deleted, i + 1)[LiveBelow(deleted, i)] == i;
  }

  /** Phase 2 of `vacuum`: live row `i` below `n` is renumbered to the
      count of live rows before it. */
  function OldToNew(deleted: set<nat>, n: nat): (r: map<nat, nat>)
    ensures forall i: nat :: i in r <==> i < n && !IsDeleted(deleted, i)
    ensures forall i | i in r :: r[i] == LiveBelow(deleted, i)
  {
    if n == 0 then map[]
    else
      var m := OldToNew(deleted, n - 1);
      if IsDeleted(deleted, n - 1) then m else m[n - 1 := LiveBelow(deleted, n - 1)]
  }

  /** The renumbering keeps the order of the live rows, lands below the
      new row count, and is inverted by the live-row listing. */
  lemma OldToNewOrdered(deleted: set<nat>, n: nat, i: nat, j: nat)
    requires i in OldToNew(deleted, n) && j in OldToNew(deleted, n)
    ensures i < j <==> OldToNew(deleted, n)[i] < OldToNew(deleted, n)[j]
    ensures OldToNew(deleted, n)[i] < LiveBelow(deleted, n)
    ensures LiveRows(deleted, n)[OldToNew(deleted, n)[i]] == i
  {
    LiveRowAt(deleted, i, n);
    LiveRowAt(deleted, j, n);
    var rows := LiveRows(deleted, n);
    var a, b := LiveBelow(deleted, i), LiveBelow(deleted, j);
    if i != j {
      assert a != b;
    }
  }

  // ---------------------------------------------------------------------
  // Columns
  // ---------------------------------------------------------------------

  /** The loop of `compact_column`: keeps the values at live positions. */
  function Compact<T>(deleted: set<nat>, data: seq<T>): (r: seq<T>)
    ensures |r| == LiveBelow(deleted, |data|)
  {
    if |data| == 0 then []
    else
      var n := |data| - 1;
      Compact(deleted, data[..n]) + (if IsDeleted(deleted, n) then [] else [data[n]])
  }

  /** Compaction keeps exactly the values of the live rows, in order. */
  lemma {:induction false} CompactSelectsLive<T>(deleted: set<nat>, data: seq<T>)
    ensures forall k | 0 <= k < |Compact(deleted, data)| ::
              LiveRows(deleted, |data|)[k] < |data| && Compact(deleted, data)[k] == data[LiveRows(deleted, |data|)[k]]
  {
    LiveRowsExact(deleted, |data|);
    if |data| > 0 {
      var n := |data| - 1;
      CompactSelectsLive(deleted, data[..n]);
      assert |data[..n]| == n;
    }
  }

  /** The bytes one dropped value of the column frees. */
  function Width(c: Column): nat {
    match c
    case IntCol(_) => 8
    case FloatCol(_) => 8
    case StringCol(_) => 4
    case BoolCol(_) => 1
  }

  function Length(c: Column): nat {
    match c
    case IntCol(d) => |d|
    case FloatCol(d) => |d|
    case StringCol(d) => |d|
    case BoolCol(d) => |d|
  }

  /** `compact_column`: the column without its deleted positions, and the
      bytes reclaimed, one value width per dropped position. */
  function CompactColumn(c: Column, deleted: set<nat>): (r: (Column, nat))
    ensures Length(r.0) == LiveBelow(deleted, Length(c))
    ensures r.1 == Width(c) * (Length(c) - Length(r.0))
    ensures Width(r.0) == Width(c)
  {
    match c
    case IntCol(d) =>
      var n := Compact(deleted, d);
      (IntCol(n), 8 * (|d| - |n|))
    case FloatCol(d) =>
      var n := Compact(deleted, d);
      (FloatCol(n), 8 * (|d| - |n|))
    case StringCol(d) =>
      var n := Compact(deleted, d);
      (StringCol(n), 4 * (|d| - |n|))
    case BoolCol(d) =>
      var n := Compact(deleted, d);
      (BoolCol(n), |d| - |n|)
  }

  /** Phase 3 over the columns in iteration order `keys`: the compacted
      columns and the bytes reclaimed in total. */
  function CompactColumns(cols: map<string, Column>, keys: seq<string>, deleted: set<nat>): (r: (map<string, Column>, nat))
    requires forall k | 0 <= k < |keys| :: keys[k] in cols
    ensures r.0.Keys == cols.Keys
    ensures forall name | name in cols :: r.0[name] == (if name in keys then CompactColumn(cols[name], deleted).0 else cols[name])
  {
    if |keys| == 0 then (cols, 0)
    else
      var rest := CompactColumns(cols, keys[1..], deleted);
      var c := CompactColumn(cols[keys[0]], deleted);
      (rest.0[keys[0] := c.0], rest.1 + c.1)
  }

  // ---------------------------------------------------------------------
  // Primary index and expiry
  // ---------------------------------------------------------------------

  /** Phase 4 over the primary index in iteration order `pks`: every key
      whose row survives is moved to the row's new number, and the reverse
      map is rebuilt from it. */
  function RemapPrimary(pi: map<int, nat>, pks: seq<int>, o2n: map<nat, nat>): (r: (map<int, nat>, map<nat, int>))
    requires forall k | 0 <= k < |pks| :: pks[k] in pi
    ensures forall pk :: pk in r.0 <==> pk in pks && pi[pk] in o2n
    ensures forall pk | pk in r.0 :: r.0[pk] == o2n[pi[pk]] && r.0[pk] in r.1
    ensures forall row | row in r.1 :: r.1[row] in r.0 && r.0[r.1[row]] == row
  {
    if |pks| == 0 then (map[], map[])
    else
      var n := |pks| - 1;
      var prev := RemapPrimary(pi, pks[..n], o2n);
      assert forall pk :: pk in pks <==> pk in pks[..n] || pk == pks[n] by {
        assert pks == pks[..n] + [pks[n]];
      }
      var pk := pks[n];
      if pi[pk] in o2n then (prev.0[pk := o2n[pi[pk]]], prev.1[o2n[pi[pk]] := pk])
      else prev
  }

  /** Phase 5: each expiry of a surviving row moves to the row's new
      number; expiries of deleted rows are dropped. */
  function RemapExpiry(re: map<nat, nat>, deleted: set<nat>, n: nat): (r: map<nat, nat>)
    ensures forall o | o in re && o in OldToNew(deleted, n) ::
              OldToNew(deleted, n)[o] in r && r[OldToNew(deleted, n)[o]] == re[o]
    ensures forall row | row in r :: row < LiveBelow(deleted, n) && LiveRows(deleted, n)[row] in re
  {
    var o2n := OldToNew(deleted, n);
    var rows := LiveRows(deleted, n);
    var r := map row | 0 <= row < |rows| && rows[row] in re :: re[rows[row]];
    forall o | o in re && o in o2n
      ensures o2n[o] in r && r[o2n[o]] == re[o]
    {
      OldToNewOrdered(deleted, n, o, o);
    }
    r
  }

  // ---------------------------------------------------------------------
  // Vacuum
  // ---------------------------------------------------------------------

  /** `vacuum`, with the column map iterated in order `colKeys` and the
      primary index in order `pks`. */
  function Vacuum(s: Store, colKeys: seq<string>, pks: seq<int>): (r: (Store, Stats))
    requires forall k | 0 <= k < |colKeys| :: colKeys[k] in s.columns
    requires forall k | 0 <= k < |pks| :: pks[k] in s.primaryIndex
    ensures r.1.completed && r.1.tombstonesFound == |s.deleted|
    ensures |s.deleted| == 0 ==> r.0 == s && r.1 == Stats(0, 0, 0, true)
    ensures r.0.deleted == {}
    ensures |s.deleted| > 0 ==> r.0.rowCount == LiveBelow(s.deleted, s.rowCount)
  {
    if |s.deleted| == 0 then (s, Stats(0, 0, 0, true))
    else
      var o2n := OldToNew(s.deleted, s.rowCount);
      var cols := CompactColumns(s.columns, colKeys, s.deleted);
      var pk := if s.primaryKeyColumn.Some? then RemapPrimary(s.primaryIndex, pks, o2n) else (s.primaryIndex, s.rowToPk);
      var expiry := RemapExpiry(s.rowExpiry, s.deleted, s.rowCount);
      (Store(LiveBelow(s.deleted, s.rowCount), cols.0, {}, s.primaryKeyColumn, pk.0, pk.1, expiry),
       Stats(|s.deleted|, |s.deleted|, cols.1, true))
  }

  /** After a vacuum the columns hold the values of the live rows, in
      order, and a surviving primary key points at its row's new number. */
  lemma VacuumKeepsLiveRows(s: Store, colKeys: seq<string>, pks: seq<int>, name: string, pk: int)
    requires forall k | 0 <= k < |colKeys| :: colKeys[k] in s.columns
    requires forall k | 0 <= k < |pks| :: pks[k] in s.primaryIndex
    requires |s.deleted| > 0 && s.primaryKeyColumn.Some?
    ensures name in colKeys ==>
              Vacuum(s, colKeys, pks).0.columns[name] == CompactColumn(s.columns[name], s.deleted).0
    ensures pk in pks ==>
              (pk in Vacuum(s, colKeys, pks).0.primaryIndex <==> s.primaryIndex[pk] < s.rowCount && !IsDeleted(s.deleted, s.primaryIndex[pk]))
    ensures pk in Vacuum(s, colKeys, pks).0.primaryIndex ==>
              Vacuum(s, colKeys, pks).0.primaryIndex[pk] == LiveBelow(s.deleted, s.primaryIndex[pk])
  {
  }

  /** `should_vacuum`: never for an empty store, else when the deleted
      share reaches the threshold. */
  function ShouldVacuum(s: Store, threshold: real): (r: bool)
    ensures s.rowCount == 0 ==> !r
    ensures s.rowCount > 0 ==> (r <==> |s.deleted| as real >= threshold * s.rowCount as real)
  {
    if s.rowCount == 0 then false
    else (|s.deleted| as real) / (s.rowCount as real) >= threshold
  }
}
