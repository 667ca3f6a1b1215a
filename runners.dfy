/**
 * The two pipeline runners. `run_dim` transforms every row of its source
 * table and upserts the batch into its `emit_to` table; `run_fact`
 * transforms every row of the order join, resolves each surrogate key with a
 * lookup in a dimension table, and upserts the batch.
 */
module Runners {
  import opened Dicts
  import opened Values
  import opened Policy
  import opened Fill
  import opened RowTransform
  import opened Warehouse

  // ---- one output row per input row ----

  /** `out.append(t)` after a row was processed; a failed row aborts the batch. */
  function Append(acc: Result<seq<Row>>, t: Result<Row>): Result<seq<Row>> {
    match acc
    case Err(_) => acc
    case Ok(batch) =>
      match t
      case Err(e) => Err(e)
      case Ok(row) => Ok(batch + [row])
  }

  /** The batch after the first `n` rows went through `f`, in order. */
  function MapRows(rows: seq<Row>, n: nat, f: Row -> Result<Row>): Result<seq<Row>>
    requires n <= |rows|
  {
    if n == 0 then Ok([]) else Append(MapRows(rows, n - 1, f), f(rows[n - 1]))
  }

  /** A complete batch holds one output per input row, in input order. */
  lemma {:induction false} MapRowsOk(rows: seq<Row>, n: nat, f: Row -> Result<Row>)
    requires n <= |rows|
    requires MapRows(rows, n, f).Ok?
    ensures |MapRows(rows, n, f).value| == n
    ensures forall i | 0 <= i < n :: f(rows[i]) == Ok(MapRows(rows, n, f).value[i])
  {
    if n > 0 {
      MapRowsOk(rows, n - 1, f);
    }
  }

  /** Rows that each go through `f` to the corresponding entry of `batch` give the batch. */
  lemma {:induction false} MapRowsIs(rows: seq<Row>, n: nat, f: Row -> Result<Row>, batch: seq<Row>)
    requires n <= |rows| && n <= |batch|
    requires forall i | 0 <= i < n :: f(rows[i]) == Ok(batch[i])
    ensures MapRows(rows, n, f) == Ok(batch[..n])
  {
    if n > 0 {
      MapRowsIs(rows, n - 1, f, batch);
      assert batch[..n] == batch[..n - 1] + [batch[n - 1]];
    }
  }

  /** The batch completes when every row does. */
  lemma {:induction false} MapRowsAllOk(rows: seq<Row>, n: nat, f: Row -> Result<Row>)
    requires n <= |rows|
    requires forall i | 0 <= i < n :: f(rows[i]).Ok?
    ensures MapRows(rows, n, f).Ok?
  {
    if n > 0 {
      MapRowsAllOk(rows, n - 1, f);
    }
  }

  /** A failed batch fails with the error of its first failing row. */
  lemma {:induction false} MapRowsFirstError(rows: seq<Row>, n: nat, f: Row -> Result<Row>)
    requires n <= |rows|
    requires MapRows(rows, n, f).Err?
    ensures exists i | 0 <= i < n ::
              f(rows[i]) == Err(MapRows(rows, n, f).error) && forall k | 0 <= k < i :: f(rows[k]).Ok?
  {
    var acc := MapRows(rows, n - 1, f);
    if acc.Err? {
      MapRowsFirstError(rows, n - 1, f);
    } else {
      MapRowsOk(rows, n - 1, f);
      assert f(rows[n - 1]) == Err(MapRows(rows, n, f).error);
    }
  }

  /** Once a row has failed, the later rows change nothing. */
  lemma {:induction false} MapRowsErrorSticks(rows: seq<Row>, i: nat, n: nat, f: Row -> Result<Row>)
    requires i <= n <= |rows|
    requires MapRows(rows, i, f).Err?
    ensures MapRows(rows, n, f) == MapRows(rows, i, f)
    decreases n - i
  {
    if i < n {
      MapRowsErrorSticks(rows, i, n - 1, f);
    }
  }

  /** A failing row after a complete prefix fails the batch with its error. */
  lemma MapRowsStepErr(rows: seq<Row>, i: nat, f: Row -> Result<Row>)
    requires i < |rows| && MapRows(rows, i, f).Ok? && f(rows[i]).Err?
    ensures MapRows(rows, i + 1, f) == Err(f(rows[i]).error)
  {
  }

  /** A batch fails with the error of its first failing row. */
  lemma {:induction false} MapRowsFailsAt(rows: seq<Row>, i: nat, f: Row -> Result<Row>)
    requires i < |rows| && f(rows[i]).Err?
    requires forall k | 0 <= k < i :: f(rows[k]).Ok?
    ensures MapRows(rows, |rows|, f) == Err(f(rows[i]).error)
  {
    MapRowsAllOk(rows, i, f);
    MapRowsStepErr(rows, i, f);
    MapRowsErrorSticks(rows, i + 1, |rows|, f);
  }

  // ---- run_dim ----

  /** Python truthiness of a looked-up string: absent and `""` are false. */
  predicate Given(s: Option<string>) {
    s.Some? && s.value != ""
  }

  /** `source or table or from`: the first given name wins, and the last lookup stands when none is given. */
  function DimSource(p: Pipeline): (r: Option<string>)
    ensures r == p.source || r == p.table || r == p.from
    ensures Given(r) <==> Given(p.source) || Given(p.table) || Given(p.from)
    ensures Given(p.source) ==> r == p.source
    ensures !Given(p.source) && Given(p.table) ==> r == p.table
  {
    if Given(p.source) then p.source else if Given(p.table) then p.table else p.from
  }

  /**
   * `fetch_all(conn, source)`: the rows of the named table. `FROM None`,
   * `FROM ` and an unknown table are query errors.
   */
  function FetchAll(env: Env, source: Option<string>): (r: Result<seq<Row>>)
    ensures r.Ok? <==> Given(source) && source.value in env.sources
    ensures r.Err? ==> r.error == QueryFailed
    ensures r.Ok? ==> r.value == env.sources[source.value]
  {
    if Given(source) && source.value in env.sources then Ok(env.sources[source.value]) else Err(QueryFailed)
  }

  /** `transform_row(row, pipeline)` as a function of the row. */
  function TransformWith(p: Pipeline, env: Env): Row -> Result<Row> {
    (row: Row) => TransformRowSpec(row, p, env)
  }

  /**
   * `run_dim(conn, pipeline)`: the outcome and the tables afterwards. The
   * `emit_to` lookup fails before anything is read.
   */
  function RunDimSpec(p: Pipeline, env: Env, tables: Tables): (r: (Outcome, Tables))
    ensures r.0.Done? ==> p.emitTo.Some? && Given(DimSource(p)) && DimSource(p).value in env.sources
  {
    var source := DimSource(p);
    match p.emitTo
    case None => (Failed(MissingKey("emit_to")), tables)
    case Some(emitTo) =>
      match FetchAll(env, source)
      case Err(e) => (Failed(e), tables)
      case Ok(rows) =>
        match MapRows(rows, |rows|, TransformWith(p, env))
        case Err(e) => (Failed(e), tables)
        case Ok(batch) => UpsertSpec(tables, emitTo, batch, p.uniqueness)
  }

  /** A failed dimension run leaves every table as it was. */
  lemma RunDimFailureChangesNothing(p: Pipeline, env: Env, tables: Tables)
    ensures RunDimSpec(p, env, tables).0.Failed? ==> RunDimSpec(p, env, tables).1 == tables
  {
    if p.emitTo.Some? {
      var fetched := FetchAll(env, DimSource(p));
      if fetched.Ok? {
        var batch := MapRows(fetched.value, |fetched.value|, TransformWith(p, env));
        if batch.Ok? {
          UpsertTouchesOnlyItsTable(tables, p.emitTo.value, batch.value, p.uniqueness);
        }
      }
    }
  }

  /**
   * When every source row transforms, the run upserts exactly the
   * transformed rows, one per source row in source order, on the
   * pipeline's `uniqueness` keys.
   */
  lemma RunDimUpsertsTransformedRows(p: Pipeline, env: Env, tables: Tables, rows: seq<Row>, batch: seq<Row>)
    requires p.emitTo.Some? && FetchAll(env, DimSource(p)) == Ok(rows)
    requires |batch| == |rows|
    requires forall i | 0 <= i < |rows| :: TransformRowSpec(rows[i], p, env) == Ok(batch[i])
    ensures RunDimSpec(p, env, tables) == UpsertSpec(tables, p.emitTo.value, batch, p.uniqueness)
  {
    var f := TransformWith(p, env);
    assert forall i | 0 <= i < |rows| :: f(rows[i]) == TransformRowSpec(rows[i], p, env);
    MapRowsIs(rows, |rows|, f, batch);
    assert batch[..|rows|] == batch;
  }

  /** The missing `emit_to` is reported before the query runs, and a query that cannot run fails the pipeline. */
  lemma RunDimErrors(p: Pipeline, env: Env, tables: Tables)
    ensures p.emitTo.None? ==> RunDimSpec(p, env, tables) == (Failed(MissingKey("emit_to")), tables)
    ensures p.emitTo.Some? && !Given(DimSource(p)) ==> RunDimSpec(p, env, tables) == (Failed(QueryFailed), tables)
  {
  }

  /** A source row that does not transform aborts the run with the error of the first such row, before any upsert. */
  lemma RunDimFailsOnBadRow(p: Pipeline, env: Env, tables: Tables, rows: seq<Row>, i: nat)
    requires p.emitTo.Some? && FetchAll(env, DimSource(p)) == Ok(rows)
    requires i < |rows| && TransformRowSpec(rows[i], p, env).Err?
    requires forall k | 0 <= k < i :: TransformRowSpec(rows[k], p, env).Ok?
    ensures RunDimSpec(p, env, tables) == (Failed(TransformRowSpec(rows[i], p, env).error), tables)
  {
    MapRowsFailsAt(rows, i, TransformWith(p, env));
  }

  /** A dimension run keeps every table's unique index. */
  lemma RunDimKeepsIndexes(p: Pipeline, env: Env, tables: Tables)
    requires TablesWf(tables)
    ensures TablesWf(RunDimSpec(p, env, tables).1)
  {
    if p.emitTo.Some? {
      var fetched := FetchAll(env, DimSource(p));
      if fetched.Ok? {
        var batch := MapRows(fetched.value, |fetched.value|, TransformWith(p, env));
        if batch.Ok? {
          UpsertKeepsIndexes(tables, p.emitTo.value, batch.value, p.uniqueness);
        }
      }
    }
  }

  /** `run_dim(conn, pipeline)`. */
  method RunDim(p: Pipeline, env: Env, store: Store) returns (r: Outcome)
    modifies store
    ensures (r, store.tables) == RunDimSpec(p, env, old(store.tables))
  {
    var source := DimSource(p);
    if p.emitTo.None? {
      return Failed(MissingKey("emit_to"));
    }
    var fetched := FetchAll(env, source);
    if fetched.Err? {
      return Failed(fetched.error);
    }
    var batch := TransformRows(fetched.value, p, env);
    if batch.Err? {
      return Failed(batch.error);
    }
    r := store.Upsert(p.emitTo.value, batch.value, p.uniqueness);
  }

  /** `batch.append(transform_row(row, pipeline))` for every fetched row. */
  method TransformRows(rows: seq<Row>, p: Pipeline, env: Env) returns (r: Result<seq<Row>>)
    ensures r == MapRows(rows, |rows|, TransformWith(p, env))
  {
    r := Ok([]);
    var i := 0;
    while i < |rows| && r.Ok?
      invariant 0 <= i <= |rows|
      invariant r == MapRows(rows, i, TransformWith(p, env))
    {
      var t := TransformRow(rows[i], p, env);
      assert t == TransformWith(p, env)(rows[i]);
      r := Append(r, t);
      i := i + 1;
    }
    if i < |rows| {
      MapRowsErrorSticks(rows, i, |rows|, TransformWith(p, env));
    }
  }

  // ---- run_fact ----

  /** One entry of `{dst: t[src] for dst, src in on.items()}`: a column `t` lacks raises `KeyError`. */
  function MatchValue(t: Row): (string, string, Row) -> Result<Value> {
    (dst: string, src: string, sofar: Row) => if src in t.vals then Ok(t.vals[src]) else Err(MissingKey(src))
  }

  /** The match columns of a lookup, in the order of `on`. */
  function MatchFor(t: Row, on: ODict<string>): Result<Row> {
    FillAll(Empty(), on, MatchValue(t))
  }

  lemma {:induction false} MatchUpToOk(t: Row, on: ODict<string>, n: nat)
    requires n <= |on.keys|
    ensures FillUpTo(Empty(), on, n, MatchValue(t)).Ok? <==> forall j | 0 <= j < n :: on.vals[on.keys[j]] in t.vals
  {
    if n > 0 {
      MatchUpToOk(t, on, n - 1);
    }
  }

  /** The match can be built exactly when `t` has every source column of `on`. */
  lemma MatchForOkIff(t: Row, on: ODict<string>)
    ensures MatchFor(t, on).Ok? <==> forall dst | dst in on.vals :: on.vals[dst] in t.vals
  {
    MatchUpToOk(t, on, |on.keys|);
    KeysCover(on);
  }

  /** A built match has `on`'s destination names, in order, each holding its source column's value. */
  lemma MatchForValues(t: Row, on: ODict<string>)
    requires MatchFor(t, on).Ok?
    ensures MatchFor(t, on).value.keys == on.keys
    ensures forall dst | dst in on.vals :: on.vals[dst] in t.vals && dst in MatchFor(t, on).value.vals &&
              MatchFor(t, on).value.vals[dst] == t.vals[on.vals[dst]]
  {
    var n := |on.keys|;
    FillAppendsFresh(Empty(), on, n, MatchValue(t));
    assert on.keys[..n] == on.keys;
    FillValues(Empty(), on, n, MatchValue(t));
    KeysCover(on);
    forall dst | dst in on.vals
      ensures on.vals[dst] in t.vals && dst in MatchFor(t, on).value.vals &&
              MatchFor(t, on).value.vals[dst] == t.vals[on.vals[dst]]
    {
      var j :| 0 <= j < n && on.keys[j] == dst;
      assert FilledAt(Empty(), on, n, j, MatchValue(t));
    }
  }

  /**
   * One surrogate key: `map_spec["lookup"]` and `map_spec["on"]` must be
   * present, the match is built from the row as it stands, and
   * `lookup_key` selects the column named like the key.
   */
  function KeyLookup(tables: Tables, destKey: string, m: DimMapping, t: Row): (r: Result<Value>)
    ensures m.lookup.None? ==> r == Err(MissingKey("lookup"))
    ensures m.lookup.Some? && m.on.None? ==> r == Err(MissingKey("on"))
    ensures m.on.Some? && m.on.value.keys == [] ==> r.Err?
    ensures r.Ok? ==> m.lookup.Some? && m.on.Some? && m.lookup.value in tables && MatchFor(t, m.on.value).Ok?
  {
    match m.lookup
    case None => Err(MissingKey("lookup"))
    case Some(table) =>
      match m.on
      case None => Err(MissingKey("on"))
      case Some(on) =>
        match MatchFor(t, on)
        case Err(e) => Err(e)
        case Ok(key) => Lookup(tables, table, key, destKey)
  }

  /**
   * Once `map_spec` has both fields and the match dictionary is built from
   * the row, the surrogate key is the `lookup_key` query on that match in
   * the `lookup` table, for the column named `dest_key`.
   */
  lemma KeyLookupQueries(tables: Tables, destKey: string, m: DimMapping, t: Row)
    requires m.lookup.Some? && m.on.Some? && MatchFor(t, m.on.value).Ok?
    ensures KeyLookup(tables, destKey, m, t) == Lookup(tables, m.lookup.value, MatchFor(t, m.on.value).value, destKey)
  {
  }

  function KeyValue(tables: Tables): (string, DimMapping, Row) -> Result<Value> {
    (destKey: string, m: DimMapping, t: Row) => KeyLookup(tables, destKey, m, t)
  }

  /** `t[dest_key] = lookup_key(...)` for every entry of `dim_mappings`, in order. */
  function Resolved(t: Row, maps: ODict<DimMapping>, tables: Tables): Result<Row> {
    FillAll(t, maps, KeyValue(tables))
  }

  /**
   * After resolution, each surrogate key holds the lookup made with the
   * row as it stood at that key's turn, so a later mapping may match on an
   * earlier key.
   */
  lemma ResolvedKeyValue(t: Row, maps: ODict<DimMapping>, tables: Tables, j: nat)
    requires j < |maps.keys|
    requires Resolved(t, maps, tables).Ok?
    ensures FillUpTo(t, maps, j, KeyValue(tables)).Ok?
    ensures maps.keys[j] in Resolved(t, maps, tables).value.vals
    ensures KeyLookup(tables, maps.keys[j], maps.vals[maps.keys[j]], FillUpTo(t, maps, j, KeyValue(tables)).value) ==
              Ok(Resolved(t, maps, tables).value.vals[maps.keys[j]])
  {
    FillValues(t, maps, |maps.keys|, KeyValue(tables));
    assert FilledAt(t, maps, |maps.keys|, j, KeyValue(tables));
  }

  /**
   * Resolution keeps the transformed row's columns first and in order, adds
   * exactly the surrogate keys, and leaves a column that no mapping names as
   * it was.
   */
  lemma ResolvedShape(t: Row, maps: ODict<DimMapping>, tables: Tables)
    requires Resolved(t, maps, tables).Ok?
    ensures t.keys <= Resolved(t, maps, tables).value.keys
    ensures Resolved(t, maps, tables).value.vals.Keys == t.vals.Keys + maps.vals.Keys
    ensures forall k | k in t.vals && k !in maps.vals :: Resolved(t, maps, tables).value.vals[k] == t.vals[k]
  {
    var n := |maps.keys|;
    FillKeepsOrder(t, maps, n, KeyValue(tables));
    FillNames(t, maps, n, KeyValue(tables));
    FillKeepsOthers(t, maps, n, KeyValue(tables));
    KeysCover(maps);
    assert maps.keys[..n] == maps.keys;
    assert (set j | 0 <= j < n :: maps.keys[j]) == maps.vals.Keys by {
      forall k | k in maps.vals ensures k in (set j | 0 <= j < n :: maps.keys[j]) {
        var j :| 0 <= j < n && maps.keys[j] == k;
      }
    }
  }

  /**
   * A key whose mapping matches a dimension table on exactly its unique
   * index resolves to the key column of the dimension record that the row
   * matches.
   */
  lemma ResolvedByIndex(tables: Tables, destKey: string, m: DimMapping, t: Row, j: nat)
    requires TablesWf(tables)
    requires m.lookup.Some? && m.on.Some? && m.lookup.value in tables
    requires m.on.value.keys != []
    requires MatchFor(t, m.on.value).Ok?
    requires m.on.value.vals.Keys == set c | c in tables[m.lookup.value].schema.uniqueIndex
    requires j < |tables[m.lookup.value].records|
    requires Matches(tables[m.lookup.value].records[j], MatchFor(t, m.on.value).value)
    ensures KeyLookup(tables, destKey, m, t) == Ok(Column(tables[m.lookup.value].records[j], destKey))
  {
    var key := MatchFor(t, m.on.value).value;
    MatchForValues(t, m.on.value);
    KeysCover(key);
    KeysCover(m.on.value);
    LookupByIndex(tables, m.lookup.value, key, destKey, j);
  }

  /** `transform_row` followed by surrogate-key resolution. */
  function FactRow(row: Row, p: Pipeline, env: Env, tables: Tables): Result<Row> {
    match TransformRowSpec(row, p, env)
    case Err(e) => Err(e)
    case Ok(t) => Resolved(t, p.dimMappings, tables)
  }

  function FactWith(p: Pipeline, env: Env, tables: Tables): Row -> Result<Row> {
    (row: Row) => FactRow(row, p, env, tables)
  }

  /**
   * `run_fact(conn, pipeline)`: the outcome and the tables afterwards.
   * `pipeline["source"]` must be present but does not change the rows: the
   * join is fixed. Every lookup reads the tables as they were before the run.
   */
  function RunFactSpec(p: Pipeline, env: Env, tables: Tables): (r: (Outcome, Tables))
    ensures r.0.Done? ==> p.emitTo.Some? && p.source.Some?
  {
    match p.emitTo
    case None => (Failed(MissingKey("emit_to")), tables)
    case Some(emitTo) =>
      match p.source
      case None => (Failed(MissingKey("source")), tables)
      case Some(_) =>
        match MapRows(env.joinedRows, |env.joinedRows|, FactWith(p, env, tables))
        case Err(e) => (Failed(e), tables)
        case Ok(out) => UpsertSpec(tables, emitTo, out, p.factPk)
  }

  /** A failed fact run leaves every table as it was. */
  lemma RunFactFailureChangesNothing(p: Pipeline, env: Env, tables: Tables)
    ensures RunFactSpec(p, env, tables).0.Failed? ==> RunFactSpec(p, env, tables).1 == tables
  {
    if p.emitTo.Some? && p.source.Some? {
      var out := MapRows(env.joinedRows, |env.joinedRows|, FactWith(p, env, tables));
      if out.Ok? {
        UpsertTouchesOnlyItsTable(tables, p.emitTo.value, out.value, p.factPk);
      }
    }
  }

  /**
   * When every joined row transforms and resolves, the run upserts exactly
   * those rows, one per joined row in join order, on the `fact_pk` keys.
   */
  lemma RunFactUpsertsResolvedRows(p: Pipeline, env: Env, tables: Tables, out: seq<Row>)
    requires p.emitTo.Some? && p.source.Some?
    requires |out| == |env.joinedRows|
    requires forall i | 0 <= i < |out| :: FactRow(env.joinedRows[i], p, env, tables) == Ok(out[i])
    ensures RunFactSpec(p, env, tables) == UpsertSpec(tables, p.emitTo.value, out, p.factPk)
  {
    var rows := env.joinedRows;
    var f := FactWith(p, env, tables);
    assert forall i | 0 <= i < |rows| :: f(rows[i]) == FactRow(rows[i], p, env, tables);
    MapRowsIs(rows, |rows|, f, out);
    assert out[..|rows|] == out;
  }

  /** A missing `emit_to` is reported first, then a missing `source`. */
  lemma RunFactErrors(p: Pipeline, env: Env, tables: Tables)
    ensures p.emitTo.None? ==> RunFactSpec(p, env, tables) == (Failed(MissingKey("emit_to")), tables)
    ensures p.emitTo.Some? && p.source.None? ==> RunFactSpec(p, env, tables) == (Failed(MissingKey("source")), tables)
  {
  }

  /** A joined row that does not transform or resolve aborts the run with the error of the first such row, before any upsert. */
  lemma RunFactFailsOnBadRow(p: Pipeline, env: Env, tables: Tables, i: nat)
    requires p.emitTo.Some? && p.source.Some?
    requires i < |env.joinedRows| && FactRow(env.joinedRows[i], p, env, tables).Err?
    requires forall k | 0 <= k < i :: FactRow(env.joinedRows[k], p, env, tables).Ok?
    ensures RunFactSpec(p, env, tables) == (Failed(FactRow(env.joinedRows[i], p, env, tables).error), tables)
  {
    MapRowsFailsAt(env.joinedRows, i, FactWith(p, env, tables));
  }

  /** A fact run keeps every table's unique index. */
  lemma RunFactKeepsIndexes(p: Pipeline, env: Env, tables: Tables)
    requires TablesWf(tables)
    ensures TablesWf(RunFactSpec(p, env, tables).1)
  {
    if p.emitTo.Some? && p.source.Some? {
      var out := MapRows(env.joinedRows, |env.joinedRows|, FactWith(p, env, tables));
      if out.Ok? {
        UpsertKeepsIndexes(tables, p.emitTo.value, out.value, p.factPk);
      }
    }
  }

  /** `map_spec["lookup"]`, `map_spec["on"]`, the match and the `lookup_key` query for one key. */
  method LookupFor(destKey: string, m: DimMapping, t: Row, store: Store) returns (v: Result<Value>)
    ensures v == KeyLookup(store.tables, destKey, m, t)
    ensures v == KeyValue(store.tables)(destKey, m, t)
  {
    if m.lookup.None? {
      v := Err(MissingKey("lookup"));
    } else if m.on.None? {
      v := Err(MissingKey("on"));
    } else {
      var key := MatchFor(t, m.on.value);
      if key.Err? {
        v := Err(key.error);
      } else {
        v := store.LookupKey(m.lookup.value, key.value, destKey);
      }
    }
  }

  /** The inner loop of `run_fact`: one `lookup_key` query per mapping. */
  method ResolveKeys(t: Row, maps: ODict<DimMapping>, store: Store) returns (r: Result<Row>)
    ensures r == Resolved(t, maps, store.tables)
  {
    r := Ok(t);
    var c := 0;
    while c < |maps.keys| && r.Ok?
      invariant 0 <= c <= |maps.keys|
      invariant r == FillUpTo(t, maps, c, KeyValue(store.tables))
    {
      var destKey := maps.keys[c];
      var m := maps.vals[destKey];
      ghost var acc := r;
      var v := LookupFor(destKey, m, r.value, store);
      FillOneAssigns(acc, destKey, m, KeyValue(store.tables), v);
      r := Assign(r.value, destKey, v);
      c := c + 1;
    }
    if c < |maps.keys| {
      FillErrorSticks(t, maps, c, |maps.keys|, KeyValue(store.tables));
    }
  }

  /** The body of `run_fact`'s loop for one joined row. */
  method FactRowOf(row: Row, p: Pipeline, env: Env, store: Store) returns (r: Result<Row>)
    ensures r == FactRow(row, p, env, store.tables)
  {
    r := TransformRow(row, p, env);
    if r.Ok? {
      r := ResolveKeys(r.value, p.dimMappings, store);
    }
  }

  /** `out.append(t)` for every joined row. */
  method FactRows(rows: seq<Row>, p: Pipeline, env: Env, store: Store) returns (r: Result<seq<Row>>)
    ensures r == MapRows(rows, |rows|, FactWith(p, env, store.tables))
  {
    r := Ok([]);
    var i := 0;
    while i < |rows| && r.Ok?
      invariant 0 <= i <= |rows|
      invariant r == MapRows(rows, i, FactWith(p, env, store.tables))
    {
      var t := FactRowOf(rows[i], p, env, store);
      assert t == FactWith(p, env, store.tables)(rows[i]);
      r := Append(r, t);
      i := i + 1;
    }
    if i < |rows| {
      MapRowsErrorSticks(rows, i, |rows|, FactWith(p, env, store.tables));
    }
  }

  /** `run_fact(conn, pipeline)`. */
  method RunFact(p: Pipeline, env: Env, store: Store) returns (r: Outcome)
    modifies store
    ensures (r, store.tables) == RunFactSpec(p, env, old(store.tables))
  {
    if p.emitTo.None? {
      return Failed(MissingKey("emit_to"));
    }
    if p.source.None? {
      return Failed(MissingKey("source"));
    }
    var out := FactRows(env.joinedRows, p, env, store);
    if out.Err? {
      return Failed(out.error);
    }
    r := store.Upsert(p.emitTo.value, out.value, p.factPk);
  }
}
