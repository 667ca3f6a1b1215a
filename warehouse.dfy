/**
 * The analytics database as far as the script relies on it: the statement
 * `upsert` builds (columns of the first row, the `ON DUPLICATE KEY UPDATE`
 * clause, one tuple per row), the merge MySQL performs on a table's own
 * unique index, and the single-row query of `lookup_key`.
 */
module Warehouse {
  import opened Dicts
  import opened Values

  /** A stored row; a column the insert did not name is absent and reads as NULL. */
  type Record = map<string, Value>

  /**
   * What the merge depends on in a table's definition: the columns of its
   * unique index (the table's own, not the `unique_keys` the script passes) and
   * its AUTO_INCREMENT surrogate-key column, if any.
   */
  datatype TableSchema = TableSchema(uniqueIndex: seq<string>, autoKey: Option<string>)

  datatype Table = Table(schema: TableSchema, records: seq<Record>)

  type Tables = map<string, Table>

  /** One item of the update clause: `c=VALUES(c)` takes the new value, `c=c` keeps the stored one. */
  datatype Assignment = TakeNew(col: string) | KeepOld(col: string)

  /** `INSERT INTO table (cols) VALUES (...) ON DUPLICATE KEY UPDATE update`, run on every tuple of `data`. */
  datatype Statement = Statement(table: string, cols: seq<string>, update: seq<Assignment>, data: seq<seq<Value>>)

  // ---- the statement upsert builds ----

  /** `[c for c in cols if c not in set(unique_keys)]`. */
  function NonKeys(cols: seq<string>, uniqueKeys: seq<string>): (r: seq<string>)
    ensures forall c :: c in r <==> c in cols && c !in uniqueKeys
    decreases |cols|
  {
    if cols == [] then []
    else (if cols[0] in uniqueKeys then [] else [cols[0]]) + NonKeys(cols[1..], uniqueKeys)
  }

  /** The non-key columns keep the column order: a column added last comes last, unless it is a key. */
  lemma {:induction false} NonKeysSnoc(cols: seq<string>, c: string, uniqueKeys: seq<string>)
    ensures NonKeys(cols + [c], uniqueKeys) == NonKeys(cols, uniqueKeys) + (if c in uniqueKeys then [] else [c])
    decreases |cols|
  {
    if cols != [] {
      assert (cols + [c])[0] == cols[0];
      assert (cols + [c])[1..] == cols[1..] + [c];
      NonKeysSnoc(cols[1..], c, uniqueKeys);
      AppendAssoc(if cols[0] in uniqueKeys then [] else [cols[0]], NonKeys(cols[1..], uniqueKeys),
                  if c in uniqueKeys then [] else [c]);
    } else {
      assert [c][1..] == [];
    }
  }

  /** `c=VALUES(c)` for each column of `cs`, in order. */
  function TakeAll(cs: seq<string>): (r: seq<Assignment>)
    ensures |r| == |cs| && forall i | 0 <= i < |cs| :: r[i] == TakeNew(cs[i])
  {
    seq(|cs|, i requires 0 <= i < |cs| => TakeNew(cs[i]))
  }

  /**
   * The update clause: every non-key column takes the new value; when there
   * is none, the no-op `cols[0]=cols[0]`, which raises `IndexError` when
   * there are no columns at all.
   */
  function UpdateClause(cols: seq<string>, uniqueKeys: seq<string>): (r: Result<seq<Assignment>>)
    ensures r.Err? <==> cols == []
    ensures r.Err? ==> r.error == IndexOutOfRange
    ensures r.Ok? ==> r.value != [] && forall a | a in r.value :: a.col in cols
    ensures r.Ok? ==> forall c :: TakeNew(c) in r.value <==> c in cols && c !in uniqueKeys
    ensures r.Ok? ==> forall c :: KeepOld(c) in r.value <==> c == cols[0] && forall c' | c' in cols :: c' in uniqueKeys
  {
    var nonkeys := NonKeys(cols, uniqueKeys);
    if nonkeys != [] then
      assert nonkeys[0] in nonkeys;
      Ok(TakeAll(nonkeys))
    else if cols == [] then
      Err(IndexOutOfRange)
    else
      assert cols[0] in cols;
      Ok([KeepOld(cols[0])])
  }

  /** `tuple(r[c] for c in cols)`: the first column the row lacks raises `KeyError`. */
  function RowTuple(row: Row, cols: seq<string>): (t: Result<seq<Value>>)
    ensures t.Ok? <==> forall k | 0 <= k < |cols| :: cols[k] in row.vals
    ensures t.Ok? ==> |t.value| == |cols| && forall k | 0 <= k < |cols| :: t.value[k] == row.vals[cols[k]]
    ensures t.Err? ==> exists k | 0 <= k < |cols| ::
              && t.error == MissingKey(cols[k]) && cols[k] !in row.vals
              && forall k' | 0 <= k' < k :: cols[k'] in row.vals
    decreases |cols|
  {
    if cols == [] then Ok([])
    else if cols[0] !in row.vals then Err(MissingKey(cols[0]))
    else
      match RowTuple(row, cols[1..])
      case Err(e) => Err(e)
      case Ok(rest) => Ok([row.vals[cols[0]]] + rest)
  }

  /** `[tuple(r[c] for c in cols) for r in rows]`: the first row that lacks a column fails. */
  function Tuples(rows: seq<Row>, cols: seq<string>): (d: Result<seq<seq<Value>>>)
    ensures d.Ok? <==> forall i | 0 <= i < |rows| :: RowTuple(rows[i], cols).Ok?
    ensures d.Ok? ==> |d.value| == |rows| && forall i | 0 <= i < |rows| :: d.value[i] == RowTuple(rows[i], cols).value
    ensures d.Err? ==> exists i | 0 <= i < |rows| ::
              && RowTuple(rows[i], cols) == Err(d.error)
              && forall i' | 0 <= i' < i :: RowTuple(rows[i'], cols).Ok?
    decreases |rows|
  {
    if rows == [] then Ok([])
    else
      match RowTuple(rows[0], cols)
      case Err(e) => Err(e)
      case Ok(t) =>
        match Tuples(rows[1..], cols)
        case Err(e) => Err(e)
        case Ok(rest) => Ok([t] + rest)
  }

  /**
   * The statement `upsert(conn, table, rows, unique_keys)` hands to
   * `executemany`: none for an empty batch; otherwise the first row's columns,
   * the update clause, and one tuple per row.
   */
  function UpsertStatement(table: string, rows: seq<Row>, uniqueKeys: seq<string>): (r: Result<Option<Statement>>)
    ensures rows == [] ==> r == Ok(None)
    ensures rows != [] ==> r != Ok(None)
    ensures r.Ok? && r.value.Some? ==>
              && r.value.value.table == table
              && r.value.value.cols == rows[0].keys
              && UpdateClause(rows[0].keys, uniqueKeys) == Ok(r.value.value.update)
              && Tuples(rows, rows[0].keys) == Ok(r.value.value.data)
    ensures r.Err? <==> rows != [] && (UpdateClause(rows[0].keys, uniqueKeys).Err? || Tuples(rows, rows[0].keys).Err?)
  {
    if rows == [] then Ok(None)
    else
      var cols := rows[0].keys;
      match UpdateClause(cols, uniqueKeys)
      case Err(e) => Err(e)
      case Ok(update) =>
        match Tuples(rows, cols)
        case Err(e) => Err(e)
        case Ok(data) => Ok(Some(Statement(table, cols, update, data)))
  }

  /** The first row can always be read back, so only the other rows can lack a column. */
  lemma FirstRowFits(rows: seq<Row>)
    requires rows != []
    ensures RowTuple(rows[0], rows[0].keys).Ok?
  {
  }

  /** An upsert is rejected exactly for a first row without columns or a later row missing one of its columns. */
  lemma UpsertRejects(table: string, rows: seq<Row>, uniqueKeys: seq<string>)
    requires rows != []
    ensures UpsertStatement(table, rows, uniqueKeys).Err? <==>
              rows[0].keys == [] || exists i, k | 0 <= i < |rows| && 0 <= k < |rows[0].keys| :: rows[0].keys[k] !in rows[i].vals
  {
    var cols := rows[0].keys;
    if Tuples(rows, cols).Err? {
      var i :| 0 <= i < |rows| && RowTuple(rows[i], cols).Err?;
      var k :| 0 <= k < |cols| && cols[k] !in rows[i].vals;
    }
  }

  // ---- the merge ----

  /**
   * `rec` clashes with a stored row on the unique index: every index column
   * holds the same value in both, and none of them is NULL (NULLs never clash).
   */
  predicate Clash(index: seq<string>, rec: Record, stored: Record) {
    && |index| > 0
    && forall c | c in index :: c in rec && c in stored && rec[c] != Null && stored[c] == rec[c]
  }

  /** The first stored row from position `j` on that clashes with `rec`. */
  function FirstClashFrom(recs: seq<Record>, index: seq<string>, rec: Record, j: nat): (r: Option<nat>)
    requires j <= |recs|
    ensures r.Some? ==> j <= r.value < |recs| && Clash(index, rec, recs[r.value])
    ensures r.Some? ==> forall i | j <= i < r.value :: !Clash(index, rec, recs[i])
    ensures r.None? ==> forall i | j <= i < |recs| :: !Clash(index, rec, recs[i])
    decreases |recs| - j
  {
    if j == |recs| then None
    else if Clash(index, rec, recs[j]) then Some(j)
    else FirstClashFrom(recs, index, rec, j + 1)
  }

  function FirstClash(recs: seq<Record>, index: seq<string>, rec: Record): Option<nat> {
    FirstClashFrom(recs, index, rec, 0)
  }

  /** The row a tuple describes: `cols[k]` holds `tuple[k]`. */
  function RecordOf(cols: seq<string>, tuple: seq<Value>): (rec: Record)
    ensures forall c | c in rec :: c in cols
    decreases |cols|
  {
    if cols == [] || tuple == [] then map[] else RecordOf(cols[1..], tuple[1..])[cols[0] := tuple[0]]
  }

  lemma {:induction false} RecordOfAt(cols: seq<string>, tuple: seq<Value>, k: nat)
    requires PairwiseDistinct(cols) && |tuple| == |cols| && k < |cols|
    ensures cols[k] in RecordOf(cols, tuple) && RecordOf(cols, tuple)[cols[k]] == tuple[k]
    decreases k
  {
    if k > 0 {
      DistinctTail(cols);
      assert cols[1..][k - 1] == cols[k];
      RecordOfAt(cols[1..], tuple[1..], k - 1);
    }
  }

  /** The entries `update` takes from `rec`. */
  function Taken(rec: Record, update: seq<Assignment>): Record {
    map c | c in rec && TakeNew(c) in update :: rec[c]
  }

  /**
   * The update clause applied to the clashing row: each `c=VALUES(c)` column
   * takes the inserted value, every other column keeps the stored one.
   */
  function ApplyUpdate(stored: Record, rec: Record, update: seq<Assignment>): (r: Record)
    ensures forall c :: c in r <==> c in stored || (c in rec && TakeNew(c) in update)
    ensures forall c | c in r :: r[c] == if c in rec && TakeNew(c) in update then rec[c] else stored[c]
  {
    stored + Taken(rec, update)
  }

  /**
   * The row an insert adds: an auto-increment column that is missing, NULL or
   * 0 gets the next number (MySQL without NO_AUTO_VALUE_ON_ZERO).
   */
  function Inserted(t: Table, rec: Record): Record {
    match t.schema.autoKey
    case Some(k) => if k !in rec || rec[k] == Null || rec[k] == Int(0) then rec[k := Int(|t.records| + 1)] else rec
    case None => rec
  }

  /**
   * One tuple of the statement: the first clashing row takes the update and
   * every other row is kept; with no clash the inserted row is appended.
   */
  function MergeOne(t: Table, cols: seq<string>, update: seq<Assignment>, tuple: seq<Value>): (r: Table)
    ensures r.schema == t.schema
    ensures |t.records| <= |r.records| <= |t.records| + 1
    ensures FirstClash(t.records, t.schema.uniqueIndex, RecordOf(cols, tuple)).Some? ==>
      var j := FirstClash(t.records, t.schema.uniqueIndex, RecordOf(cols, tuple)).value;
      && |r.records| == |t.records|
      && r.records[j] == ApplyUpdate(t.records[j], RecordOf(cols, tuple), update)
      && forall i | 0 <= i < |t.records| && i != j :: r.records[i] == t.records[i]
    ensures FirstClash(t.records, t.schema.uniqueIndex, RecordOf(cols, tuple)).None? ==>
      r.records == t.records + [Inserted(t, RecordOf(cols, tuple))]
  {
    var rec := RecordOf(cols, tuple);
    match FirstClash(t.records, t.schema.uniqueIndex, rec)
    case Some(j) => Table(t.schema, t.records[j := ApplyUpdate(t.records[j], rec, update)])
    case None => Table(t.schema, t.records + [Inserted(t, rec)])
  }

  /** The table after the first `n` tuples of the statement. */
  function MergeUpTo(t: Table, s: Statement, n: nat): Table
    requires n <= |s.data|
  {
    if n == 0 then t else MergeOne(MergeUpTo(t, s, n - 1), s.cols, s.update, s.data[n - 1])
  }

  /** `executemany` with the statement: a table that does not exist fails the query. */
  function Execute(tables: Tables, s: Statement): (r: Result<Tables>)
    ensures r.Err? <==> s.table !in tables
    ensures r.Ok? ==> r.value.Keys == tables.Keys
    ensures r.Ok? ==> forall name | name in tables && name != s.table :: r.value[name] == tables[name]
  {
    if s.table !in tables then Err(QueryFailed)
    else Ok(tables[s.table := MergeUpTo(tables[s.table], s, |s.data|)])
  }

  /** `upsert`: the outcome and the tables after it. */
  function UpsertSpec(tables: Tables, table: string, rows: seq<Row>, uniqueKeys: seq<string>): (r: (Outcome, Tables))
    ensures r.0.Done? <==> rows == [] || (UpsertStatement(table, rows, uniqueKeys).Ok? && table in tables)
  {
    match UpsertStatement(table, rows, uniqueKeys)
    case Err(e) => (Failed(e), tables)
    case Ok(None) => (Done, tables)
    case Ok(Some(s)) =>
      match Execute(tables, s)
      case Err(e) => (Failed(e), tables)
      case Ok(ts) => (Done, ts)
  }

  /** An empty batch changes nothing and succeeds. */
  lemma UpsertEmptyBatch(tables: Tables, table: string, uniqueKeys: seq<string>)
    ensures UpsertSpec(tables, table, [], uniqueKeys) == (Done, tables)
  {
  }

  /** A failed upsert changes nothing; a successful one changes only its own table. */
  lemma UpsertTouchesOnlyItsTable(tables: Tables, table: string, rows: seq<Row>, uniqueKeys: seq<string>)
    ensures UpsertSpec(tables, table, rows, uniqueKeys).0.Failed? ==> UpsertSpec(tables, table, rows, uniqueKeys).1 == tables
    ensures UpsertSpec(tables, table, rows, uniqueKeys).1.Keys == tables.Keys
    ensures forall name | name in tables && name != table :: UpsertSpec(tables, table, rows, uniqueKeys).1[name] == tables[name]
  {
    match UpsertStatement(table, rows, uniqueKeys)
    case Err(_) =>
    case Ok(None) =>
    case Ok(Some(s)) =>
      assert s.table == table;
  }

  // ---- idempotence ----

  /** Applying the update twice is applying it once. */
  lemma ApplyUpdateIdempotent(stored: Record, rec: Record, update: seq<Assignment>)
    ensures ApplyUpdate(ApplyUpdate(stored, rec, update), rec, update) == ApplyUpdate(stored, rec, update)
  {
    var m := Taken(rec, update);
    assert (stored + m) + m == stored + m;
  }

  /**
   * The tuple a statement may repeat: its index columns are all given and
   * non-NULL, and it does not name the AUTO_INCREMENT column, which the store
   * assigns.
   */
  predicate Repeatable(t: Table, cols: seq<string>, tuple: seq<Value>) {
    var rec := RecordOf(cols, tuple);
    && |t.schema.uniqueIndex| > 0
    && (forall c | c in t.schema.uniqueIndex :: c in rec && rec[c] != Null)
    && (t.schema.autoKey.Some? ==> t.schema.autoKey.value !in rec)
  }

  lemma ClashWithOwnInsert(t: Table, rec: Record)
    requires |t.schema.uniqueIndex| > 0
    requires forall c | c in t.schema.uniqueIndex :: c in rec && rec[c] != Null
    requires t.schema.autoKey.Some? ==> t.schema.autoKey.value !in rec
    ensures Clash(t.schema.uniqueIndex, rec, Inserted(t, rec))
  {
  }

  lemma FirstClashUnchanged(recs: seq<Record>, index: seq<string>, rec: Record, j: nat, stored: Record)
    requires j < |recs| && FirstClash(recs, index, rec) == Some(j) && Clash(index, rec, stored)
    ensures FirstClash(recs[j := stored], index, rec) == Some(j)
  {
    FirstClashAt(recs[j := stored], index, rec, 0, j);
  }

  /** The first clash is at `j` when `j` clashes and nothing from `i` up to it does. */
  lemma {:induction false} FirstClashAt(recs: seq<Record>, index: seq<string>, rec: Record, i: nat, j: nat)
    requires i <= j < |recs| && Clash(index, rec, recs[j])
    requires forall k | i <= k < j :: !Clash(index, rec, recs[k])
    ensures FirstClashFrom(recs, index, rec, i) == Some(j)
    decreases j - i
  {
    if i < j {
      FirstClashAt(recs, index, rec, i + 1, j);
    }
  }

  lemma UpdateKeepsClash(stored: Record, rec: Record, update: seq<Assignment>, index: seq<string>)
    requires Clash(index, rec, stored)
    ensures Clash(index, rec, ApplyUpdate(stored, rec, update))
  {
  }

  /** Running the same tuple twice leaves the table as running it once. */
  lemma MergeOneIdempotent(t: Table, cols: seq<string>, update: seq<Assignment>, tuple: seq<Value>)
    requires Repeatable(t, cols, tuple)
    requires forall a | a in update :: a.col in cols
    ensures MergeOne(MergeOne(t, cols, update, tuple), cols, update, tuple) == MergeOne(t, cols, update, tuple)
  {
    var rec := RecordOf(cols, tuple);
    var index := t.schema.uniqueIndex;
    var t1 := MergeOne(t, cols, update, tuple);
    match FirstClash(t.records, index, rec)
    case Some(j) =>
      var upd := ApplyUpdate(t.records[j], rec, update);
      UpdateKeepsClash(t.records[j], rec, update, index);
      FirstClashUnchanged(t.records, index, rec, j, upd);
      ApplyUpdateIdempotent(t.records[j], rec, update);
      assert t1.records[j := ApplyUpdate(upd, rec, update)] == t1.records;
    case None =>
      var ins := Inserted(t, rec);
      ClashWithOwnInsert(t, rec);
      var n := |t.records|;
      assert t1.records == t.records + [ins];
      assert forall k | 0 <= k < n :: t1.records[k] == t.records[k];
      FirstClashAt(t1.records, index, rec, 0, n);
      assert Taken(rec, update) == map c | c in rec && TakeNew(c) in update :: ins[c];
      assert ins + Taken(rec, update) == ins;
      assert t1.records[n := ApplyUpdate(ins, rec, update)] == t1.records;
  }

  // ---- the unique index holds ----

  /** No two stored rows clash on the unique index. */
  predicate IndexHolds(t: Table) {
    forall i, j | 0 <= i < |t.records| && 0 <= j < |t.records| && i != j ::
      !Clash(t.schema.uniqueIndex, t.records[i], t.records[j])
  }

  /** The auto-increment column is the store's: it is not part of the unique index. */
  predicate SchemaWf(s: TableSchema) {
    s.autoKey.Some? ==> s.autoKey.value !in s.uniqueIndex
  }

  lemma ClashSymmetric(index: seq<string>, a: Record, b: Record)
    requires Clash(index, a, b)
    ensures Clash(index, b, a)
  {
  }

  /** Two rows equal on the index columns clash with the same rows. */
  lemma ClashSameIndex(index: seq<string>, a: Record, b: Record, other: Record)
    requires forall c | c in index :: (c in a <==> c in b) && (c in a ==> a[c] == b[c])
    ensures Clash(index, a, other) <==> Clash(index, b, other)
    ensures Clash(index, other, a) <==> Clash(index, other, b)
  {
  }

  /** Each tuple keeps the unique index intact. */
  lemma MergeOneKeepsIndex(t: Table, cols: seq<string>, update: seq<Assignment>, tuple: seq<Value>)
    requires SchemaWf(t.schema) && IndexHolds(t)
    ensures IndexHolds(MergeOne(t, cols, update, tuple))
  {
    var rec := RecordOf(cols, tuple);
    var index := t.schema.uniqueIndex;
    var t1 := MergeOne(t, cols, update, tuple);
    match FirstClash(t.records, index, rec)
    case Some(j) =>
      var upd := ApplyUpdate(t.records[j], rec, update);
      forall c | c in index ensures (c in upd <==> c in t.records[j]) && (c in upd ==> upd[c] == t.records[j][c]) {
      }
      forall i, k | 0 <= i < |t1.records| && 0 <= k < |t1.records| && i != k
        ensures !Clash(index, t1.records[i], t1.records[k])
      {
        if i == j {
          ClashSameIndex(index, upd, t.records[j], t1.records[k]);
        } else if k == j {
          ClashSameIndex(index, upd, t.records[j], t1.records[i]);
        }
      }
    case None =>
      var ins := Inserted(t, rec);
      var n := |t.records|;
      forall c | c in index ensures (c in ins <==> c in rec) && (c in ins ==> ins[c] == rec[c]) {
      }
      forall i, k | 0 <= i < |t1.records| && 0 <= k < |t1.records| && i != k
        ensures !Clash(index, t1.records[i], t1.records[k])
      {
        if i == n {
          ClashSameIndex(index, ins, rec, t1.records[k]);
          if Clash(index, rec, t.records[k]) {
            assert false;
          }
        } else if k == n {
          ClashSameIndex(index, ins, rec, t1.records[i]);
          if Clash(index, t.records[i], rec) {
            ClashSymmetric(index, t.records[i], rec);
            assert false;
          }
        }
      }
  }

  lemma {:induction false} MergeUpToKeepsIndex(t: Table, s: Statement, n: nat)
    requires n <= |s.data| && SchemaWf(t.schema) && IndexHolds(t)
    ensures MergeUpTo(t, s, n).schema == t.schema && IndexHolds(MergeUpTo(t, s, n))
  {
    if n > 0 {
      MergeUpToKeepsIndex(t, s, n - 1);
      MergeOneKeepsIndex(MergeUpTo(t, s, n - 1), s.cols, s.update, s.data[n - 1]);
    }
  }

  /** Every table's schema is well formed and its unique index holds. */
  predicate TablesWf(tables: Tables) {
    forall name | name in tables :: SchemaWf(tables[name].schema) && IndexHolds(tables[name])
  }

  /** An upsert keeps every table's unique index intact. */
  lemma UpsertKeepsIndexes(tables: Tables, table: string, rows: seq<Row>, uniqueKeys: seq<string>)
    requires TablesWf(tables)
    ensures TablesWf(UpsertSpec(tables, table, rows, uniqueKeys).1)
  {
    match UpsertStatement(table, rows, uniqueKeys)
    case Err(_) =>
    case Ok(None) =>
    case Ok(Some(s)) =>
      if s.table in tables {
        MergeUpToKeepsIndex(tables[s.table], s, |s.data|);
      }
  }

  // ---- lookup_key ----

  /** A stored row matches when each match column holds the given value; `c = NULL` never holds. */
  predicate Matches(rec: Record, m: Row) {
    forall c | c in m.vals :: m.vals[c] != Null && c in rec && rec[c] == m.vals[c]
  }

  function FirstMatchFrom(recs: seq<Record>, m: Row, j: nat): (r: Option<nat>)
    requires j <= |recs|
    ensures r.Some? ==> j <= r.value < |recs| && Matches(recs[r.value], m)
    ensures r.Some? ==> forall i | j <= i < r.value :: !Matches(recs[i], m)
    ensures r.None? ==> forall i | j <= i < |recs| :: !Matches(recs[i], m)
    decreases |recs| - j
  {
    if j == |recs| then None
    else if Matches(recs[j], m) then Some(j)
    else FirstMatchFrom(recs, m, j + 1)
  }

  /** A column read from a stored row; one the row does not hold is NULL. */
  function Column(rec: Record, c: string): Value {
    if c in rec then rec[c] else Null
  }

  /**
   * `SELECT key_col FROM table WHERE c1=%s AND ... LIMIT 1`: the key column
   * of the first matching row in storage order, `None` when no row matches.
   * An empty match leaves `WHERE` without a condition, which MySQL rejects,
   * as it rejects a table that does not exist.
   */
  function Lookup(tables: Tables, table: string, m: Row, keyCol: string): (r: Result<Value>)
    ensures r.Err? <==> m.keys == [] || table !in tables
    ensures r.Ok? && (forall j | 0 <= j < |tables[table].records| :: !Matches(tables[table].records[j], m)) ==>
              r.value == Null
    ensures r.Ok? && r.value != Null ==>
              exists j | 0 <= j < |tables[table].records| ::
                && Matches(tables[table].records[j], m)
                && Column(tables[table].records[j], keyCol) == r.value
                && forall i | 0 <= i < j :: !Matches(tables[table].records[i], m)
  {
    if m.keys == [] || table !in tables then Err(QueryFailed)
    else
      var recs := tables[table].records;
      match FirstMatchFrom(recs, m, 0)
      case None => Ok(Null)
      case Some(j) =>
        Ok(Column(recs[j], keyCol))
  }

  /** A row that matches, with no matching row before it, is the one whose key column the lookup returns. */
  lemma LookupFindsFirstMatch(tables: Tables, table: string, m: Row, keyCol: string, j: nat)
    requires m.keys != [] && table in tables
    requires j < |tables[table].records| && Matches(tables[table].records[j], m)
    requires forall i | 0 <= i < j :: !Matches(tables[table].records[i], m)
    ensures Lookup(tables, table, m, keyCol) == Ok(Column(tables[table].records[j], keyCol))
  {
  }

  /**
   * Matching on exactly the unique index finds the one row holding those
   * values: the index admits no second one.
   */
  lemma LookupByIndex(tables: Tables, table: string, m: Row, keyCol: string, j: nat)
    requires TablesWf(tables) && table in tables
    requires j < |tables[table].records| && Matches(tables[table].records[j], m)
    requires m.vals.Keys == set c | c in tables[table].schema.uniqueIndex
    requires m.keys != []
    ensures Lookup(tables, table, m, keyCol) == Ok(Column(tables[table].records[j], keyCol))
  {
    var t := tables[table];
    var index := t.schema.uniqueIndex;
    KeysCover(m);
    assert m.keys[0] in m.vals;
    assert |index| > 0;

  }

  /** `cursor.executemany(sql, data)`: the statement run once per tuple, in order. */
  method ExecuteMany(t0: Table, s: Statement) returns (t: Table)
    ensures t == MergeUpTo(t0, s, |s.data|)
  {
    t := t0;
    var i := 0;
    while i < |s.data|
      invariant 0 <= i <= |s.data|
      invariant t == MergeUpTo(t0, s, i)
    {
      t := MergeOne(t, s.cols, s.update, s.data[i]);
      i := i + 1;
    }
  }

  // ---- the connection ----

  /** The database behind the script's connection; every upsert commits on its own. */
  class Store {
    var tables: Tables

    constructor(initial: Tables)
      ensures tables == initial
    {
      tables := initial;
    }

    /** `upsert(conn, table, rows, unique_keys)`: build the statement, run it on every tuple, commit. */
    method Upsert(table: string, rows: seq<Row>, uniqueKeys: seq<string>) returns (r: Outcome)
      modifies this
      ensures (r, tables) == UpsertSpec(old(tables), table, rows, uniqueKeys)
      ensures TablesWf(old(tables)) ==> TablesWf(tables)
    {
      if TablesWf(tables) {
        UpsertKeepsIndexes(tables, table, rows, uniqueKeys);
      }
      var stmt := UpsertStatement(table, rows, uniqueKeys);
      if stmt.Err? {
        r := Failed(stmt.error);
      } else if stmt.value.None? {
        r := Done;
      } else if stmt.value.value.table !in tables {
        r := Failed(QueryFailed);
      } else {
        var s := stmt.value.value;
        var t := ExecuteMany(tables[s.table], s);
        tables := tables[s.table := t];
        r := Done;
      }
    }

    /** `lookup_key(conn, table, match, key_col)`: scan for the first matching row. */
    method LookupKey(table: string, m: Row, keyCol: string) returns (r: Result<Value>)
      ensures r == Lookup(tables, table, m, keyCol)
    {
      if m.keys == [] || table !in tables {
        return Err(QueryFailed);
      }
      var recs := tables[table].records;
      var j := 0;
      while j < |recs| && !Matches(recs[j], m)
        invariant 0 <= j <= |recs|
        invariant FirstMatchFrom(recs, m, j) == FirstMatchFrom(recs, m, 0)
      {
        j := j + 1;
      }
      r := if j < |recs| then Ok(Column(recs[j], keyCol)) else Ok(Null);
    }
  }
}
