/** JOIN of search results with a column store: the join condition, the
    join keys taken from the results, the batched primary-key lookup and
    the INNER, LEFT, RIGHT and FULL join semantics. */
module Join {
  import opened Wrappers
  import opened Json
  import opened Points

  const SMALL_BATCH_THRESHOLD: nat := 100
  const MEDIUM_BATCH_THRESHOLD: nat := 10000
  const MEDIUM_BATCH_SIZE: nat := 1000
  const LARGE_BATCH_SIZE: nat := 5000

  /** `adaptive_batch_size`: up to 100 keys go in one batch, up to 10000
      keys in batches of 1000, more in batches of 5000; never 0. */
  function AdaptiveBatchSize(keyCount: nat): (r: nat)
    ensures 1 <= r <= LARGE_BATCH_SIZE
    ensures 1 <= keyCount <= SMALL_BATCH_THRESHOLD ==> r == keyCount
    ensures SMALL_BATCH_THRESHOLD < keyCount ==> r >= MEDIUM_BATCH_SIZE
  {
    if keyCount <= SMALL_BATCH_THRESHOLD then (if keyCount == 0 then 1 else keyCount)
    else if keyCount <= MEDIUM_BATCH_THRESHOLD then MEDIUM_BATCH_SIZE
    else LARGE_BATCH_SIZE
  }

  /** More keys never give smaller batches. */
  lemma AdaptiveBatchSizeMonotone(a: nat, b: nat)
    requires a <= b
    ensures AdaptiveBatchSize(a) <= AdaptiveBatchSize(b)
  {
  }

  /** `ColumnRef`: an optionally table-qualified column. */
  datatype ColumnRef = ColumnRef(table: Option<string>, column: string)

  /** `JoinCondition`: `left = right`. */
  datatype JoinCondition = JoinCondition(left: ColumnRef, right: ColumnRef)

  datatype JoinType = Inner | Left | Right | Full

  /** `JoinClause`: the joined table, its alias, and an ON condition or a
      USING column list. */
  datatype JoinClause = JoinClause(
    joinType: JoinType,
    table: string,
    alias: Option<string>,
    condition: Option<JoinCondition>,
    usingColumns: Option<seq<string>>)

  /** A table qualifier that names the joined table or its alias. */
  predicate IsJoinSide(join: JoinClause, table: Option<string>) {
    table.Some? && (table.value == join.table || join.alias == Some(table.value))
  }

  /** `normalize_join_condition`: the side that names the joined table
      goes on the left; a condition naming it on neither side is kept. */
  function NormalizeJoinCondition(cond: JoinCondition, join: JoinClause): (r: JoinCondition)
    ensures r == cond || r == JoinCondition(cond.right, cond.left)
    ensures IsJoinSide(join, cond.left.table) || IsJoinSide(join, cond.right.table) ==>
      IsJoinSide(join, r.left.table)
    ensures IsJoinSide(join, cond.left.table) ==> r == cond
  {
    if IsJoinSide(join, cond.left.table) then cond
    else if IsJoinSide(join, cond.right.table) then JoinCondition(cond.right, cond.left)
    else cond
  }

  /** Normalising twice is normalising once. */
  lemma NormalizeJoinConditionIdempotent(cond: JoinCondition, join: JoinClause)
    ensures NormalizeJoinCondition(NormalizeJoinCondition(cond, join), join) == NormalizeJoinCondition(cond, join)
  {
  }

  /** `resolve_join_condition`: the normalised ON condition, or for
      `USING (c)` with exactly one column the condition `table.c = c`;
      nothing otherwise. */
  function ResolveJoinCondition(join: JoinClause): (r: Option<JoinCondition>)
    ensures join.condition.Some? ==> r == Some(NormalizeJoinCondition(join.condition.value, join))
    ensures join.condition.None? ==>
      (r.Some? <==> join.usingColumns.Some? && |join.usingColumns.value| == 1)
    ensures join.condition.None? && r.Some? ==>
      r.value.left == ColumnRef(Some(join.table), join.usingColumns.value[0]) &&
      r.value.right == ColumnRef(None, join.usingColumns.value[0])
  {
    if join.condition.Some? then Some(NormalizeJoinCondition(join.condition.value, join))
    else if join.usingColumns.None? then None
    else if |join.usingColumns.value| != 1 then None
    else
      var c := join.usingColumns.value[0];
      Some(JoinCondition(ColumnRef(Some(join.table), c), ColumnRef(None, c)))
  }

  /** The point id as an `i64` key, for the `id` column only. */
  function IdKey(r: SearchResult, column: string): Option<int> {
    if column == "id" && r.point.id <= I64_MAX then Some(r.point.id) else None
  }

  /** The join key of one result, as `extract_join_keys` computes it: the
      payload field as an `i64`, with the point id as fallback for the
      `id` column both when the field is not an `i64` and when there is no
      field or payload. */
  function JoinKeyOf(r: SearchResult, column: string): (k: Option<int>)
    ensures k.Some? ==> I64_MIN <= k.value <= I64_MAX
  {
    var fromPayload :=
      if r.point.payload.Some? then
        match Get(r.point.payload.value, column)
        case None => None
        case Some(v) => if AsI64(v).Some? then AsI64(v) else IdKey(r, column)
      else None;
    if fromPayload.Some? then fromPayload else IdKey(r, column)
  }

  /** The join key is the payload field when it is an `i64`; otherwise,
      for the `id` column only, the point id when it fits an `i64`. */
  lemma JoinKeyOfFlat(r: SearchResult, column: string)
    ensures var f := PayloadField(r.point, column);
      JoinKeyOf(r, column) ==
        if f.Some? && AsI64(f.value).Some? then AsI64(f.value)
        else if column == "id" && r.point.id <= I64_MAX then Some(r.point.id)
        else None
  {
  }

  /** `extract_join_keys`: `(index, key)` for each result with a join key
      in the right-hand column, in result order. */
  function ExtractJoinKeys(results: seq<SearchResult>, column: string): (r: seq<(nat, int)>)
    ensures forall k | 0 <= k < |r| :: r[k].0 < |results| && JoinKeyOf(results[r[k].0], column) == Some(r[k].1)
  {
    if |results| == 0 then []
    else
      var n := |results| - 1;
      var front := ExtractJoinKeys(results[..n], column);
      assert forall k | 0 <= k < |front| :: results[..n][front[k].0] == results[front[k].0];
      var key := JoinKeyOf(results[n], column);
      front + (if key.Some? then [(n, key.value)] else [])
  }

  /** Exactly the results with a join key have an entry. */
  lemma {:induction false} ExtractJoinKeysComplete(results: seq<SearchResult>, column: string, i: nat)
    requires i < |results| && JoinKeyOf(results[i], column).Some?
    ensures exists k | 0 <= k < |ExtractJoinKeys(results, column)| :: ExtractJoinKeys(results, column)[k] == (i, JoinKeyOf(results[i], column).value)
  {
    var n := |results| - 1;
    var front := ExtractJoinKeys(results[..n], column);
    var all := ExtractJoinKeys(results, column);
    assert all == front + (if JoinKeyOf(results[n], column).Some? then [(n, JoinKeyOf(results[n], column).value)] else []);
    if i < n {
      assert results[..n][i] == results[i];
      ExtractJoinKeysComplete(results[..n], column, i);
      var k :| 0 <= k < |front| && front[k] == (i, JoinKeyOf(results[i], column).value);
      assert all[k] == front[k];
    } else {
      assert all[|all| - 1] == (i, JoinKeyOf(results[i], column).value);
    }
  }

  /** Entries are in strictly increasing index order. */
  lemma {:induction false} ExtractJoinKeysOrdered(results: seq<SearchResult>, column: string)
    ensures forall a, b | 0 <= a < b < |ExtractJoinKeys(results, column)| ::
      ExtractJoinKeys(results, column)[a].0 < ExtractJoinKeys(results, column)[b].0
  {
    if |results| > 0 {
      var n := |results| - 1;
      ExtractJoinKeysOrdered(results[..n], column);
      var front := ExtractJoinKeys(results[..n], column);
      var all := ExtractJoinKeys(results, column);
      assert forall k | 0 <= k < |front| :: all[k] == front[k] && front[k].0 < n;
    }
  }

  /** `JoinedResult`: a search result and the column values joined to
      it. */
  datatype JoinedResult = JoinedResult(searchResult: SearchResult, columnData: map<string, Json>)

  /** The column store seen by the join: its primary-key column and column
      names, the column values of the row holding each primary key, and
      the column values of each live row in row order (only the columns
      that hold a value). */
  datatype ColumnStore = ColumnStore(
    primaryKey: Option<string>,
    columnNames: seq<string>,
    rowByPk: map<int, map<string, Json>>,
    liveRows: seq<map<string, Json>>)

  /** `build_null_row_data`: every column set to null. */
  function NullRow(store: ColumnStore): (r: map<string, Json>)
    ensures forall c :: c in r <==> c in store.columnNames
    ensures forall c | c in r :: r[c] == JNull
  {
    map c | c in store.columnNames :: JNull
  }

  /** `batch_get_rows`: the rows of the requested keys that exist. */
  function BatchGetRows(store: ColumnStore, pks: seq<int>): (r: map<int, map<string, Json>>)
    ensures forall pk :: pk in r <==> pk in pks && pk in store.rowByPk
    ensures forall pk | pk in r :: r[pk] == store.rowByPk[pk]
  {
    map pk | pk in pks && pk in store.rowByPk :: store.rowByPk[pk]
  }

  /** The validation errors of `execute_join`. */
  datatype JoinError =
    | MissingCondition(table: string)
    | PrimaryKeyMismatch(table: string, primaryKey: string, got: string)
    | NoPrimaryKey(table: string)

  /** LEFT and FULL joins keep unmatched result rows. */
  predicate KeepsLeft(t: JoinType) { t == Left || t == Full }

  /** RIGHT and FULL joins keep unmatched store rows. */
  predicate KeepsRight(t: JoinType) { t == Right || t == Full }

  predicate KeysInRange(keys: seq<(nat, int)>, n: nat) {
    forall k | 0 <= k < |keys| :: keys[k].0 < n
  }

  /** The rows one key contributes: the result with the row of its key,
      or, when keeping unmatched results, with the null row. */
  function Emit(results: seq<SearchResult>, key: (nat, int), byPk: map<int, map<string, Json>>, keepLeft: bool, nullRow: map<string, Json>): seq<JoinedResult>
    requires key.0 < |results|
  {
    if key.1 in byPk then [JoinedResult(results[key.0], byPk[key.1])]
    else if keepLeft then [JoinedResult(results[key.0], nullRow)]
    else []
  }

  /** The rows of the key phase, key by key in order. */
  function MatchRows(results: seq<SearchResult>, keys: seq<(nat, int)>, byPk: map<int, map<string, Json>>, keepLeft: bool, nullRow: map<string, Json>): seq<JoinedResult>
    requires KeysInRange(keys, |results|)
  {
    if |keys| == 0 then []
    else
      var n := |keys| - 1;
      MatchRows(results, keys[..n], byPk, keepLeft, nullRow) + Emit(results, keys[n], byPk, keepLeft, nullRow)
  }

  /** The result indices the key phase marks as matched. */
  function LeftIndices(keys: seq<(nat, int)>, byPk: map<int, map<string, Json>>, keepLeft: bool): set<nat> {
    if |keys| == 0 then {}
    else
      var n := |keys| - 1;
      LeftIndices(keys[..n], byPk, keepLeft) + (if keys[n].1 in byPk || keepLeft then {keys[n].0} else {})
  }

  /** The primary keys the key phase found in the store. */
  function RightPks(keys: seq<(nat, int)>, byPk: map<int, map<string, Json>>): set<int> {
    if |keys| == 0 then {}
    else
      var n := |keys| - 1;
      RightPks(keys[..n], byPk) + (if keys[n].1 in byPk then {keys[n].1} else {})
  }

  /** The synthetic result of an unmatched store row: the key as point id,
      no vector, an empty payload and score 0. */
  function SyntheticResult(pk: nat): SearchResult {
    SearchResult(Point(pk, [], Some(JObject(map[]))), 0.0)
  }

  /** The key of a store row in the join column, when it is a non-negative
      `i64` not matched by the key phase. */
  function UnmatchedPk(row: map<string, Json>, column: string, matched: set<int>): (r: Option<nat>)
    ensures r.Some? ==> column in row && AsI64(row[column]) == Some(r.value as int) && r.value as int !in matched
  {
    if column !in row then None
    else
      match AsI64(row[column])
      case None => None
      case Some(pk) => if pk in matched || pk < 0 then None else Some(pk)
  }

  /** The rows the RIGHT part adds: each live store row whose key was not
      matched, joined to a synthetic result. */
  function RightRows(rows: seq<map<string, Json>>, column: string, matched: set<int>): seq<JoinedResult> {
    if |rows| == 0 then []
    else
      var n := |rows| - 1;
      var pk := UnmatchedPk(rows[n], column, matched);
      RightRows(rows[..n], column, matched) +
        (if pk.Some? then [JoinedResult(SyntheticResult(pk.value), rows[n])] else [])
  }

  /** The rows the LEFT part adds: each result the key phase did not mark,
      joined to the null row, in result order. */
  function UnmatchedLeft(results: seq<SearchResult>, marked: set<nat>, nullRow: map<string, Json>): seq<JoinedResult> {
    if |results| == 0 then []
    else
      var n := |results| - 1;
      UnmatchedLeft(results[..n], marked, nullRow) +
        (if n in marked then [] else [JoinedResult(results[n], nullRow)])
  }

  /** The join of the results with the store on the key list: the key
      phase, then the unmatched store rows for RIGHT and FULL, then the
      unmatched results for LEFT and FULL. */
  function JoinRows(results: seq<SearchResult>, keys: seq<(nat, int)>, store: ColumnStore, t: JoinType, column: string): seq<JoinedResult>
    requires KeysInRange(keys, |results|)
  {
    MatchRows(results, keys, store.rowByPk, KeepsLeft(t), NullRow(store)) +
    (if KeepsRight(t) then RightRows(store.liveRows, column, RightPks(keys, store.rowByPk)) else []) +
    (if KeepsLeft(t) then UnmatchedLeft(results, LeftIndices(keys, store.rowByPk, KeepsLeft(t)), NullRow(store)) else [])
  }

  /** The validation of `execute_join`: the condition must resolve, and
      its joined-table column must be the store's primary key. */
  function ValidateJoin(join: JoinClause, store: ColumnStore): (r: Result<JoinCondition, JoinError>)
    ensures r.Success? <==>
      ResolveJoinCondition(join).Some? && store.primaryKey == Some(ResolveJoinCondition(join).value.left.column)
    ensures r.Success? ==> r.value == ResolveJoinCondition(join).value
    ensures ResolveJoinCondition(join).None? ==> r == Failure(MissingCondition(join.table))
  {
    match ResolveJoinCondition(join)
    case None => Failure(MissingCondition(join.table))
    case Some(cond) =>
      match store.primaryKey
      case None => Failure(NoPrimaryKey(join.table))
      case Some(pk) =>
        if cond.left.column != pk then Failure(PrimaryKeyMismatch(join.table, pk, cond.left.column))
        else Success(cond)
  }

  /** `execute_join` as written: after validation, a result list with no
      join key at all yields no rows, whatever the join type. */
  function ExecuteJoinAsWritten(results: seq<SearchResult>, join: JoinClause, store: ColumnStore): (r: Result<seq<JoinedResult>, JoinError>)
    ensures r.Failure? <==> ValidateJoin(join, store).Failure?
  {
    match ValidateJoin(join, store)
    case Failure(e) => Failure(e)
    case Success(cond) =>
      var keys := ExtractJoinKeys(results, cond.right.column);
      if |keys| == 0 then Success([])
      else Success(JoinRows(results, keys, store, join.joinType, cond.left.column))
  }

  /** Results none of which has a join key give an empty key list. */
  lemma {:induction false} ExtractJoinKeysNone(results: seq<SearchResult>, column: string)
    requires forall i | 0 <= i < |results| :: JoinKeyOf(results[i], column).None?
    ensures ExtractJoinKeys(results, column) == []
  {
    if |results| > 0 {
      var n := |results| - 1;
      assert forall i | 0 <= i < n :: results[..n][i] == results[i];
      ExtractJoinKeysNone(results[..n], column);
    }
  }

  /** A LEFT join of one result without a join key loses that result: the
      early return on an empty key list skips the part that keeps
      unmatched results. */
  lemma ExecuteJoinAsWrittenDropsLeft()
    ensures var r := SearchResult(Point(5, [], None), 1.0);
      var cond := JoinCondition(ColumnRef(Some("orders"), "id"), ColumnRef(None, "sku"));
      var join := JoinClause(Left, "orders", None, Some(cond), None);
      var store := ColumnStore(Some("id"), ["id"], map[], []);
      ExecuteJoinAsWritten([r], join, store) == Success([]) &&
      ExecuteJoin([r], join, store) == Success([JoinedResult(r, map["id" := JNull])])
  {
    var r := SearchResult(Point(5, [], None), 1.0);
    var cond := JoinCondition(ColumnRef(Some("orders"), "id"), ColumnRef(None, "sku"));
    var join := JoinClause(Left, "orders", None, Some(cond), None);
    var store := ColumnStore(Some("id"), ["id"], map[], []);
    assert ValidateJoin(join, store) == Success(cond);
    ExtractJoinKeysNone([r], "sku");
    assert [r][..0] == [];
    assert NullRow(store) == map["id" := JNull];
    assert UnmatchedLeft([r], {}, NullRow(store)) == [JoinedResult(r, NullRow(store))];
  }

  /** A RIGHT join over results without join keys loses the store's
      unmatched rows, for the same reason. */
  lemma ExecuteJoinAsWrittenDropsRight()
    ensures var cond := JoinCondition(ColumnRef(Some("orders"), "id"), ColumnRef(None, "sku"));
      var join := JoinClause(Right, "orders", None, Some(cond), None);
      var row := map["id" := JNum(NInt(7))];
      var store := ColumnStore(Some("id"), ["id"], map[7 := row], [row]);
      ExecuteJoinAsWritten([], join, store) == Success([]) &&
      ExecuteJoin([], join, store) == Success([JoinedResult(SyntheticResult(7), row)])
  {
    var cond := JoinCondition(ColumnRef(Some("orders"), "id"), ColumnRef(None, "sku"));
    var join := JoinClause(Right, "orders", None, Some(cond), None);
    var row := map["id" := JNum(NInt(7))];
    var store := ColumnStore(Some("id"), ["id"], map[7 := row], [row]);
    assert ValidateJoin(join, store) == Success(cond);
    assert ExtractJoinKeys([], "sku") == [];
    assert [row][..0] == [];
    assert UnmatchedPk(row, "id", {}) == Some(7);
    assert RightRows([row], "id", {}) == [JoinedResult(SyntheticResult(7), row)];
    assert RightPks([], store.rowByPk) == {};
    assert MatchRows([], [], store.rowByPk, false, NullRow(store)) == [];
    assert JoinRows([], [], store, Right, "id") == [JoinedResult(SyntheticResult(7), row)];
  }

  /** `execute_join` with the early return removed: validation, then the
      join of the results with the store on the extracted keys. */
  function ExecuteJoin(results: seq<SearchResult>, join: JoinClause, store: ColumnStore): (r: Result<seq<JoinedResult>, JoinError>)
    ensures r.Failure? <==> ValidateJoin(join, store).Failure?
    ensures r.Failure? ==> r == ExecuteJoinAsWritten(results, join, store)
  {
    match ValidateJoin(join, store)
    case Failure(e) => Failure(e)
    case Success(cond) =>
      var keys := ExtractJoinKeys(results, cond.right.column);
      Success(JoinRows(results, keys, store, join.joinType, cond.left.column))
  }

  /** The two agree whenever some result has a join key. */
  lemma ExecuteJoinAgrees(results: seq<SearchResult>, join: JoinClause, store: ColumnStore)
    requires ValidateJoin(join, store).Success?
    requires |ExtractJoinKeys(results, ValidateJoin(join, store).value.right.column)| > 0
    ensures ExecuteJoin(results, join, store) == ExecuteJoinAsWritten(results, join, store)
  {
  }

  /** The key phase emits a key's rows. */
  lemma {:induction false} MatchRowsHolds(results: seq<SearchResult>, keys: seq<(nat, int)>, byPk: map<int, map<string, Json>>, keepLeft: bool, nullRow: map<string, Json>, k: nat)
    requires KeysInRange(keys, |results|) && k < |keys|
    ensures forall x | x in Emit(results, keys[k], byPk, keepLeft, nullRow) :: x in MatchRows(results, keys, byPk, keepLeft, nullRow)
  {
    var n := |keys| - 1;
    if k < n {
      assert keys[..n][k] == keys[k];
      MatchRowsHolds(results, keys[..n], byPk, keepLeft, nullRow, k);
    }
  }

  /** Every row of the key phase comes from a key. */
  lemma {:induction false} MatchRowsFrom(results: seq<SearchResult>, keys: seq<(nat, int)>, byPk: map<int, map<string, Json>>, keepLeft: bool, nullRow: map<string, Json>, x: JoinedResult)
    requires KeysInRange(keys, |results|)
    requires x in MatchRows(results, keys, byPk, keepLeft, nullRow)
    ensures exists k | 0 <= k < |keys| :: x in Emit(results, keys[k], byPk, keepLeft, nullRow)
  {
    var n := |keys| - 1;
    if x !in Emit(results, keys[n], byPk, keepLeft, nullRow) {
      MatchRowsFrom(results, keys[..n], byPk, keepLeft, nullRow, x);
      var k :| 0 <= k < n && x in Emit(results, keys[..n][k], byPk, keepLeft, nullRow);
      assert keys[..n][k] == keys[k];
    }
  }

  /** With unmatched results kept, the key phase marks exactly the indices
      that have a key. */
  lemma {:induction false} LeftIndicesKept(keys: seq<(nat, int)>, byPk: map<int, map<string, Json>>, i: nat)
    ensures i in LeftIndices(keys, byPk, true) <==> exists k | 0 <= k < |keys| :: keys[k].0 == i
  {
    if |keys| > 0 {
      var n := |keys| - 1;
      LeftIndicesKept(keys[..n], byPk, i);
      if exists k | 0 <= k < n :: keys[..n][k].0 == i {
        var k :| 0 <= k < n && keys[..n][k].0 == i;
        assert keys[k].0 == i;
      }
      if exists k | 0 <= k < |keys| :: keys[k].0 == i {
        var k :| 0 <= k < |keys| && keys[k].0 == i;
        if k < n {
          assert keys[..n][k].0 == i;
        }
      }
    }
  }

  /** An index the key phase did not mark gets its null-filled row. */
  lemma {:induction false} UnmatchedLeftHolds(results: seq<SearchResult>, marked: set<nat>, nullRow: map<string, Json>, i: nat)
    requires i < |results| && i !in marked
    ensures JoinedResult(results[i], nullRow) in UnmatchedLeft(results, marked, nullRow)
  {
    var n := |results| - 1;
    if i < n {
      assert results[..n][i] == results[i];
      UnmatchedLeftHolds(results[..n], marked, nullRow, i);
    }
  }

  /** The row a LEFT join must produce for a result: the store row of its
      key when the store holds it, the null row otherwise. */
  function LeftRowOf(r: SearchResult, column: string, store: ColumnStore): map<string, Json> {
    var key := JoinKeyOf(r, column);
    if key.Some? && key.value in store.rowByPk then store.rowByPk[key.value] else NullRow(store)
  }

  /** A LEFT or FULL join keeps every result, joined to the row of its key
      or null-filled when there is none. */
  lemma LeftJoinKeepsEveryResult(results: seq<SearchResult>, join: JoinClause, store: ColumnStore, i: nat)
    requires ValidateJoin(join, store).Success? && KeepsLeft(join.joinType) && i < |results|
    ensures var cond := ValidateJoin(join, store).value;
      JoinedResult(results[i], LeftRowOf(results[i], cond.right.column, store)) in ExecuteJoin(results, join, store).value
  {
    var cond := ValidateJoin(join, store).value;
    var column := cond.right.column;
    var keys := ExtractJoinKeys(results, column);
    var nullRow := NullRow(store);
    var byPk := store.rowByPk;
    var rows := JoinRows(results, keys, store, join.joinType, cond.left.column);
    var mr := MatchRows(results, keys, byPk, true, nullRow);
    LeftIndicesKept(keys, byPk, i);
    var x := JoinedResult(results[i], LeftRowOf(results[i], column, store));
    if JoinKeyOf(results[i], column).Some? {
      ExtractJoinKeysComplete(results, column, i);
      var k :| 0 <= k < |keys| && keys[k] == (i, JoinKeyOf(results[i], column).value);
      MatchRowsHolds(results, keys, byPk, true, nullRow, k);
      assert x in Emit(results, keys[k], byPk, true, nullRow);
      assert x in mr;
    } else {
      assert forall k | 0 <= k < |keys| :: keys[k].0 != i;
      UnmatchedLeftHolds(results, LeftIndices(keys, byPk, true), nullRow, i);
    }
    assert rows == mr + (if KeepsRight(join.joinType) then RightRows(store.liveRows, cond.left.column, RightPks(keys, byPk)) else []) +
      UnmatchedLeft(results, LeftIndices(keys, byPk, true), nullRow);
  }

  /** An INNER join yields only results joined to the store row of their
      key, and every result whose key the store holds. */
  lemma InnerJoinMatchedOnly(results: seq<SearchResult>, join: JoinClause, store: ColumnStore)
    requires ValidateJoin(join, store).Success? && join.joinType == Inner
    ensures var cond := ValidateJoin(join, store).value;
      var rows := ExecuteJoin(results, join, store).value;
      && (forall x | x in rows :: exists i | 0 <= i < |results| ::
            var key := JoinKeyOf(results[i], cond.right.column);
            key.Some? && key.value in store.rowByPk && x == JoinedResult(results[i], store.rowByPk[key.value]))
      && (forall i | 0 <= i < |results| ::
            var key := JoinKeyOf(results[i], cond.right.column);
            key.Some? && key.value in store.rowByPk ==> JoinedResult(results[i], store.rowByPk[key.value]) in rows)
  {
    var cond := ValidateJoin(join, store).value;
    var column := cond.right.column;
    var keys := ExtractJoinKeys(results, column);
    var nullRow := NullRow(store);
    var byPk := store.rowByPk;
    var rows := ExecuteJoin(results, join, store).value;
    assert rows == MatchRows(results, keys, byPk, false, nullRow);
    forall x | x in rows
      ensures exists i | 0 <= i < |results| ::
        var key := JoinKeyOf(results[i], column);
        key.Some? && key.value in byPk && x == JoinedResult(results[i], byPk[key.value])
    {
      MatchRowsFrom(results, keys, byPk, false, nullRow, x);
      var k :| 0 <= k < |keys| && x in Emit(results, keys[k], byPk, false, nullRow);
      assert JoinKeyOf(results[keys[k].0], column) == Some(keys[k].1);
    }
    forall i | 0 <= i < |results| && JoinKeyOf(results[i], column).Some? && JoinKeyOf(results[i], column).value in byPk
      ensures JoinedResult(results[i], byPk[JoinKeyOf(results[i], column).value]) in rows
    {
      ExtractJoinKeysComplete(results, column, i);
      var k :| 0 <= k < |keys| && keys[k] == (i, JoinKeyOf(results[i], column).value);
      MatchRowsHolds(results, keys, byPk, false, nullRow, k);
    }
  }

  /** One more key extends the key phase by that key's rows and marks. */
  lemma KeyPhaseStep(results: seq<SearchResult>, keys: seq<(nat, int)>, j: nat, byPk: map<int, map<string, Json>>, keepLeft: bool, nullRow: map<string, Json>)
    requires KeysInRange(keys, |results|) && j < |keys|
    ensures MatchRows(results, keys[..j + 1], byPk, keepLeft, nullRow) ==
      MatchRows(results, keys[..j], byPk, keepLeft, nullRow) + Emit(results, keys[j], byPk, keepLeft, nullRow)
    ensures LeftIndices(keys[..j + 1], byPk, keepLeft) ==
      LeftIndices(keys[..j], byPk, keepLeft) + (if keys[j].1 in byPk || keepLeft then {keys[j].0} else {})
    ensures RightPks(keys[..j + 1], byPk) == RightPks(keys[..j], byPk) + (if keys[j].1 in byPk then {keys[j].1} else {})
  {
    assert keys[..j + 1][..j] == keys[..j];
  }

  /** The state of the key phase after the first `j` keys: the rows
      emitted so far, the marks of matched results and the found keys. */
  predicate PhaseAfter(results: seq<SearchResult>, keys: seq<(nat, int)>, j: nat, byPk: map<int, map<string, Json>>,
                       keepLeft: bool, nullRow: map<string, Json>,
                       joined: seq<JoinedResult>, matchedLeft: seq<bool>, matchedRight: set<int>)
    requires j <= |keys| && KeysInRange(keys, |results|)
  {
    && |matchedLeft| == |results|
    && joined == MatchRows(results, keys[..j], byPk, keepLeft, nullRow)
    && (forall i | 0 <= i < |results| :: matchedLeft[i] <==> i in LeftIndices(keys[..j], byPk, keepLeft))
    && matchedRight == RightPks(keys[..j], byPk)
  }

  /** The body of the key loop for one key, given the row the batched
      lookup found for it. */
  function MatchKey(results: seq<SearchResult>, key: (nat, int), found: Option<map<string, Json>>, keepLeft: bool,
                    nullRow: map<string, Json>, joined: seq<JoinedResult>, matchedLeft: seq<bool>, matchedRight: set<int>)
    : (seq<JoinedResult>, seq<bool>, set<int>)
    requires key.0 < |results| && |matchedLeft| == |results|
  {
    var (idx, pk) := key;
    if found.Some? then
      (joined + [JoinedResult(results[idx], found.value)], matchedLeft[idx := true], matchedRight + {pk})
    else if keepLeft then
      (joined + [JoinedResult(results[idx], nullRow)], matchedLeft[idx := true], matchedRight)
    else (joined, matchedLeft, matchedRight)
  }

  /** One key taken with the row the store holds for it moves the phase
      state on by that key. */
  lemma MatchKeyStep(results: seq<SearchResult>, keys: seq<(nat, int)>, j: nat, byPk: map<int, map<string, Json>>,
                     keepLeft: bool, nullRow: map<string, Json>,
                     joined: seq<JoinedResult>, matchedLeft: seq<bool>, matchedRight: set<int>, found: Option<map<string, Json>>)
    requires KeysInRange(keys, |results|) && j < |keys|
    requires PhaseAfter(results, keys, j, byPk, keepLeft, nullRow, joined, matchedLeft, matchedRight)
    requires found == if keys[j].1 in byPk then Some(byPk[keys[j].1]) else None
    ensures var next := MatchKey(results, keys[j], found, keepLeft, nullRow, joined, matchedLeft, matchedRight);
      PhaseAfter(results, keys, j + 1, byPk, keepLeft, nullRow, next.0, next.1, next.2)
  {
    KeyPhaseStep(results, keys, j, byPk, keepLeft, nullRow);
  }

  /** The key phase as the batched loop of `execute_join` runs it: the
      keys are taken in chunks of `batchSize`, each chunk's rows are
      fetched in one lookup, and the marks of matched results and found
      keys are kept. The batch size does not change the outcome. */
  method MatchPhase(results: seq<SearchResult>, keys: seq<(nat, int)>, store: ColumnStore, keepLeft: bool, batchSize: nat)
    returns (joined: seq<JoinedResult>, matchedLeft: seq<bool>, matchedRight: set<int>)
    requires KeysInRange(keys, |results|) && batchSize >= 1
    ensures joined == MatchRows(results, keys, store.rowByPk, keepLeft, NullRow(store))
    ensures |matchedLeft| == |results|
    ensures forall i | 0 <= i < |results| :: matchedLeft[i] <==> i in LeftIndices(keys, store.rowByPk, keepLeft)
    ensures matchedRight == RightPks(keys, store.rowByPk)
  {
    var nullRow := NullRow(store);
    var byPk := store.rowByPk;
    joined := [];
    matchedLeft := seq(|results|, _ => false);
    matchedRight := {};
    var start := 0;
    while start < |keys|
      invariant start <= |keys|
      invariant PhaseAfter(results, keys, start, byPk, keepLeft, nullRow, joined, matchedLeft, matchedRight)
      decreases |keys| - start
    {
      var end := if start + batchSize < |keys| then start + batchSize else |keys|;
      var pks := seq(end - start, j requires 0 <= j < end - start => keys[start + j].1);
      var rowMap := BatchGetRows(store, pks);
      for j := start to end
        invariant PhaseAfter(results, keys, j, byPk, keepLeft, nullRow, joined, matchedLeft, matchedRight)
      {
        var pk := keys[j].1;
        assert pks[j - start] == pk;
        var found := if pk in rowMap then Some(rowMap[pk]) else None;
        MatchKeyStep(results, keys, j, byPk, keepLeft, nullRow, joined, matchedLeft, matchedRight, found);
        var next := MatchKey(results, keys[j], found, keepLeft, nullRow, joined, matchedLeft, matchedRight);
        joined, matchedLeft, matchedRight := next.0, next.1, next.2;
      }
      start := end;
    }
    assert keys[..|keys|] == keys;
  }

  /** The RIGHT part as a loop over the live store rows. */
  method RightPhase(store: ColumnStore, column: string, matched: set<int>) returns (rows: seq<JoinedResult>)
    ensures rows == RightRows(store.liveRows, column, matched)
  {
    rows := [];
    for i := 0 to |store.liveRows|
      invariant rows == RightRows(store.liveRows[..i], column, matched)
    {
      var row := store.liveRows[i];
      assert store.liveRows[..i + 1][..i] == store.liveRows[..i];
      if column in row {
        var v := AsI64(row[column]);
        if v.Some? && v.value !in matched && v.value >= 0 {
          rows := rows + [JoinedResult(SyntheticResult(v.value), row)];
        }
      }
    }
    assert store.liveRows[..|store.liveRows|] == store.liveRows;
  }

  /** The LEFT part as a loop over the results. */
  method LeftPhase(results: seq<SearchResult>, matchedLeft: seq<bool>, marked: set<nat>, nullRow: map<string, Json>) returns (rows: seq<JoinedResult>)
    requires |matchedLeft| == |results|
    requires forall i | 0 <= i < |results| :: matchedLeft[i] <==> i in marked
    ensures rows == UnmatchedLeft(results, marked, nullRow)
  {
    rows := [];
    for i := 0 to |results|
      invariant rows == UnmatchedLeft(results[..i], marked, nullRow)
    {
      assert results[..i + 1][..i] == results[..i];
      if !matchedLeft[i] {
        rows := rows + [JoinedResult(results[i], nullRow)];
      }
    }
    assert results[..|results|] == results;
  }

  /** `execute_join` without the early return, run as the batched loops:
      it computes `ExecuteJoin`. */
  method RunJoin(results: seq<SearchResult>, join: JoinClause, store: ColumnStore) returns (r: Result<seq<JoinedResult>, JoinError>)
    ensures r == ExecuteJoin(results, join, store)
  {
    var v := ValidateJoin(join, store);
    if v.Failure? {
      return Failure(v.error);
    }
    var cond := v.value;
    var keys := ExtractJoinKeys(results, cond.right.column);
    var batchSize := AdaptiveBatchSize(|keys|);
    var keepLeft := KeepsLeft(join.joinType);
    var joined, matchedLeft, matchedRight := MatchPhase(results, keys, store, keepLeft, batchSize);
    var right: seq<JoinedResult> := [];
    if KeepsRight(join.joinType) {
      right := RightPhase(store, cond.left.column, matchedRight);
    }
    var left: seq<JoinedResult> := [];
    if keepLeft {
      left := LeftPhase(results, matchedLeft, LeftIndices(keys, store.rowByPk, keepLeft), NullRow(store));
    }
    assert joined + right + left == JoinRows(results, keys, store, join.joinType, cond.left.column);
    return Success(joined + right + left);
  }

  /** `joined_to_search_results`: each joined result becomes its search
      result with the payload's fields overlaid by the joined columns (a
      payload that is not an object starts empty). */
  function JoinedToSearchResults(joined: seq<JoinedResult>): (r: seq<SearchResult>)
    ensures |r| == |joined|
    ensures forall i | 0 <= i < |r| ::
      r[i].score == joined[i].searchResult.score &&
      r[i].point.id == joined[i].searchResult.point.id &&
      r[i].point.vector == joined[i].searchResult.point.vector &&
      r[i].point.payload.Some? && r[i].point.payload.value.JObject?
  {
    seq(|joined|, i requires 0 <= i < |joined| =>
      var s := joined[i].searchResult;
      SearchResult(Point(s.point.id, s.point.vector, Some(JObject(Overlay(FieldsOf(s.point.payload), joined[i].columnData)))), s.score))
  }

  /** Reading a field of a merged payload gives the joined column value
      when the join supplied that column, and the original field
      otherwise. */
  lemma JoinedFieldsReadBack(joined: seq<JoinedResult>, i: nat, name: string)
    requires i < |joined|
    ensures PayloadField(JoinedToSearchResults(joined)[i].point, name) ==
      if name in joined[i].columnData then Some(joined[i].columnData[name])
      else PayloadField(joined[i].searchResult.point, name)
  {
  }
}
