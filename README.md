# Policy-driven ETL core, modelled in Dafny

`ops-to-anl.py` copies an operational MySQL schema into an analytics schema.
What it does is driven by a policy document, a list of *pipelines*. A
pipeline whose `emit_to` names a `.dim_` table is a dimension load. It
transforms every row of a source table and upserts the batch. A pipeline
whose `emit_to` names a `.fact_` table is a fact load. It transforms every
row of a fixed order join, looks up each surrogate key in a dimension table,
and upserts the batch. `main` runs all dimension pipelines first, then all
fact pipelines, each phase in policy order.

The Dafny project models that core.

- **The rule evaluator** (`apply_rule` with `age_bin`, `date_key`,
  `prefix3` and the hashing rules). This code is pure and is modelled with
  functions.
- **The row transformer** (`transform_row`). This code changes a dictionary
  step by step, so it is written as methods with loops. Each method is proved
  equal to a specification function, and the properties are proved about
  those functions.
- **The two pipeline runners** and `main`'s phase loops. These are also
  methods with loops, proved against specification functions.
- **The upsert statement and a model of the database**. The database sits
  behind one connection and is the class `Warehouse.Store`.
  - Its `Upsert` builds the statement as the script does: the first row's
    columns, the non-key update clause and one tuple per row.
  - It then merges each tuple into the target table, the way
    `INSERT ... ON DUPLICATE KEY UPDATE` merges on a unique index.
  - Its `LookupKey` performs the `SELECT ... LIMIT 1` of `lookup_key`.

Ordering is kept throughout: rows, policy objects and match dictionaries are
insertion-ordered dictionaries (`Dicts.ODict`). `{**a, **b}`,
`list(rows[0].keys())` and `cols[0]` therefore behave as in Python.

The failures modelled are each an `Err` of a `Values.Error` (or a `Failed`
outcome): a `KeyError` on a missing policy field or row column, a `ValueError` on an unknown action or method, a `TypeError`
or `AttributeError` from a transform applied to the wrong kind of value, an
`IndexError` in `upsert`, and a query that MySQL rejects. Each failure aborts
the run. The join query of `fetch_join` cannot fail in the model (see below).

Three places where the code does something other than what its comments or
MySQL's documentation suggest; the model follows the code:

- `upsert`'s `unique_keys` only chooses which columns an existing row takes
  from the new one. MySQL picks the row to update by the table's own unique
  index. So the model stores that index with the table
  (`Warehouse.TableSchema`), rather than merging on `unique_keys`.
- A computed field is evaluated by substring replacement followed by
  `eval`, not by the "safe subset" parser the comment at
  `ops-to-anl.py:149-150` announces. The replacement is modelled exactly.
  `eval` is a parameter.
- `prefix3` on a truthy non-string value and `date_key` or `age_bin` on a truthy
  non-date value raise an error in the code. The model raises it too.

Modules, one per file: `Dicts`, `Values`, `Policy`, `Rules`,
`Substitution`, `Fill` (the generic "fill a dictionary field by field" loop
shared by computed fields and surrogate keys), `RowTransform`, `Warehouse`,
`Runners`, `Orchestrator`.

## Model

| member | source | states |
|---|---|---|
| Values.Field | ops-to-anl.py:142 | `row.get(key)`: a missing column reads as `None`, a present one as its value |
| Values.Truthy | ops-to-anl.py:37-41 | Python truthiness, as `if not dt`, `if not dob` and `value or ""` (line 131) test it: `None`, `""` and `0` are false, every date is true |
| Values.Stringify | ops-to-anl.py:118-120 | `str(v)`: a string as itself, an int in decimal, a date as `YYYY-MM-DD`, `None` as `None` |
| Values.IntStringRoundTrip | ops-to-anl.py:118-120 | `str(i)` of an int is an integer literal that reads back as `i` |
| Values.IntStringInjective | ops-to-anl.py:118-120 | distinct ints print differently, so they give different hash inputs |
| Values.NatDigits | ops-to-anl.py:118-120 | `str(n)` of a natural number is a non-empty string of decimal digits |
| Values.NatDigitsValue | ops-to-anl.py:118-120 | the decimal digits of `n` denote `n` |
| Values.ZeroPad | ops-to-anl.py:118-120 | zero-padding for the ISO date printed by `str(date)` keeps the digits and pads to the width |
| Dicts.Set | ops-to-anl.py:144 | `out[emit] = v`: the value is replaced; an existing key keeps its place, a new key is appended |
| Dicts.Union | ops-to-anl.py:152 | `{**row, **out}`: `out`'s values win, and `row`'s keys come first in order |
| Dicts.UnionIsSequentialAssignment | ops-to-anl.py:152 | `{**a, **b}` equals copying `a` and assigning `b`'s entries one by one in `b`'s order |
| Dicts.SetAllIsDirect | ops-to-anl.py:152 | assigning distinct keys one by one appends exactly the keys not yet present, in order |
| Rules.ApplyRule | ops-to-anl.py:98-136 | the result for each action: `remove` emits nothing and is the only action that does; `keep` gives `(src_col, value)`; `alias` gives `(emit_as, value)`; a missing `emit_as` is a `KeyError`; an unknown action fails |
| Rules.HashRule | ops-to-anl.py:113-122 | `hash` emits the digest of `SALT:str(v)` (salted) or `str(v)` (plain), with `None` read as `""`; any other `using` fails |
| Rules.TransformRule | ops-to-anl.py:124-134 | `transform` emits `age_bin`, `prefix3` or `date_key` of the value under `emit_as`; any other `using` fails |
| Rules.HashValue | ops-to-anl.py:113-122 | the digest succeeds exactly for `sha256_salted` and `sha256`, and is a string; any other `using` is `Unknown hash method` |
| Rules.TransformValue | ops-to-anl.py:124-134 | an unknown `using` fails with `Unknown transform`; a falsy value gives `None` under `age_bin` and `date_key` and `""` under `prefix3` |
| Rules.NullHashesAsEmpty | ops-to-anl.py:118-120 | `None` and `""` hash alike under either method |
| Rules.SaltedInputSeparatesSalts | ops-to-anl.py:118 | on the same value, two salts give the same digest input exactly when they are equal |
| Rules.SaltedInputIsNotPlain | ops-to-anl.py:117-120 | the salted digest input never equals the plain one |
| Rules.IntHashInputInjective | ops-to-anl.py:118-120 | two ints give the same digest input exactly when they are equal |
| Rules.EmittedNameIgnoresValue | ops-to-anl.py:98-136 | whether a rule emits, and under which name, does not depend on the value |
| Rules.DateKeyOf | ops-to-anl.py:38 | `int(dt.strftime("%Y%m%d"))` as `year*10000 + month*100 + day` |
| Rules.DateKeyFields | ops-to-anl.py:36-38 | the `YYYYMMDD` key's digit groups give back the year, month and day |
| Rules.DateKeyEightDigits | ops-to-anl.py:36-38 | from year 1000 on, the key has exactly eight digits |
| Rules.DateKeyOrder | ops-to-anl.py:36-38 | keys are equal exactly for equal dates and sort as the dates do |
| Rules.DateKey | ops-to-anl.py:36-38 | a falsy value gives `None`; a truthy non-date is an error; a date gives its `YYYYMMDD` key |
| Rules.AgeBin | ops-to-anl.py:40-50 | a falsy value gives `None`; a truthy non-date is an error; a date gives the band holding its age |
| Rules.AgeYears | ops-to-anl.py:42-44 | the year difference, less one when today's (month, day) comes before the birthday's |
| Rules.AgeBucket | ops-to-anl.py:45-50 | the band for an age, chosen by the code's comparisons in order |
| Rules.AgeYearsCountsBirthdays | ops-to-anl.py:41-43 | the computed age is the number of birthdays reached: the last one is not after today, the next one is |
| Rules.AgeBucketIsBand | ops-to-anl.py:44-50 | every age falls in exactly one band, the one returned, with inclusive upper bounds 24/34/44/64 |
| Rules.AgeBinEighteenToday | ops-to-anl.py:40-50 | someone born exactly 18 years ago today gets `18-24` |
| Rules.AgeBinEighteenLaterThisYear | ops-to-anl.py:40-50 | someone turning 18 later this year gets `<18` |
| Rules.Prefix3 | ops-to-anl.py:131 | `(value or "")[:3]` succeeds exactly on falsy values and strings; it gives the prefix of length `min(3, len)`, and `""` for a falsy value |
| Substitution.Replace | ops-to-anl.py:153 | `str.replace` with a replacement as long as the name keeps the text's length |
| Substitution.Substitute | ops-to-anl.py:151-153 | the text after `tmp.replace(k, str(v))` for every entry of the namespace, in its order |
| Substitution.InsertAround | ops-to-anl.py:153 | `s.replace("", x)` puts `x` around every character: the length grows by `(len+1)*len(x)` |
| Substitution.ReplaceSelf | ops-to-anl.py:153 | replacing a name by itself leaves the text unchanged |
| Substitution.InsertAroundEmpty | ops-to-anl.py:153 | replacing `""` by `""` leaves the text unchanged |
| Substitution.ReplaceAbsent | ops-to-anl.py:153 | a name that does not occur leaves the text unchanged |
| Substitution.ReplaceWhole | ops-to-anl.py:153 | a text that is just the name becomes the replacement |
| Substitution.Printed | ops-to-anl.py:153 | `str(0 if v is None else v)`: `None` prints as `0` |
| Substitution.SubstituteNoNames | ops-to-anl.py:151-153 | an expression mentioning no name of the namespace is passed to `eval` as written |
| Substitution.SubstituteOneName | ops-to-anl.py:151-153 | an expression that is one name becomes that field's printed value |
| Fill.FillErrorSticks | ops-to-anl.py:147-154 | once a field's turn has failed, later entries change nothing |
| Fill.FillOneOk | ops-to-anl.py:154 | a successful turn computed the value on the dictionary so far and assigned it |
| Fill.FillOneAssigns | ops-to-anl.py:154 | a turn on a successful dictionary stores the value computed for its name, or aborts with its error |
| Fill.FillKeepsOrder | ops-to-anl.py:147-154 | filling only adds: the starting keys stay first and in order |
| Fill.FillNames | ops-to-anl.py:147-154 | the result's keys are the starting keys plus the filled names |
| Fill.FillKeepsOthers | ops-to-anl.py:147-154 | a starting field that no entry names keeps its value |
| Fill.FillValues | ops-to-anl.py:147-154 | each filled field holds the value computed for it on the dictionary as it stood at its turn |
| Fill.FillAppendsFresh | ops-to-anl.py:185-189 | names the dictionary lacks are appended in declared order |
| Fill.FillKeysIgnoreValues | ops-to-anl.py:147-154 | which keys are written, and in which order, does not depend on the values |
| RowTransform.LastSegment | ops-to-anl.py:141 | `split(".")[-1]` is a dot-free suffix, preceded by a dot when shorter than the name |
| RowTransform.LastSegmentOfQualified | ops-to-anl.py:141 | `c` and `t.c` both select column `c` |
| RowTransform.WriteEmissions | ops-to-anl.py:140-144 | the column loop's output: each rule's emission written in order, stopping at the first error |
| RowTransform.EmissionsUpToAt | ops-to-anl.py:140-142 | the `j`-th emission is the rule for the `j`-th declared column applied to its column |
| RowTransform.WriteOkIffAllOk | ops-to-anl.py:140-144 | the column phase succeeds exactly when every rule does |
| RowTransform.WriteFailsAtFirstError | ops-to-anl.py:140-144 | a failed column phase fails with the first failing rule's error |
| RowTransform.WriteErrorSticks | ops-to-anl.py:140-144 | rules after a failed one change nothing |
| RowTransform.WriteLastWins | ops-to-anl.py:140-144 | the output holds exactly the emitted names, each with the value of the last rule that emitted it |
| RowTransform.WriteKeysFollowNames | ops-to-anl.py:140-144 | emissions under the same names in the same order give the same columns in the same order |
| RowTransform.ComputedValue | ops-to-anl.py:147-154 | one computed field's value on `out` as it stands: a missing `expression` is a `KeyError`, otherwise `eval` of the substituted text |
| RowTransform.ComputedFieldValue | ops-to-anl.py:147-154 | each computed field has an `expression`; its value is `eval` of that expression with the names of `{**row, **out}` substituted, taking `out` as it stood at that field's turn |
| RowTransform.ComputedAfterColumns | ops-to-anl.py:146-155 | computed fields come after the columns: the column keys stay first and in order, the computed names are added, and untouched columns keep their values |
| RowTransform.TransformRowSpec | ops-to-anl.py:138-155 | a transformed row holds every computed field; a pipeline with no columns and no computed fields gives `{}` |
| RowTransform.ApplyColumns | ops-to-anl.py:139-144 | the column loop equals writing the declared rules' emissions in order |
| RowTransform.SubstituteNames | ops-to-anl.py:151-153 | the replacement loop equals substituting every name in namespace order |
| RowTransform.ApplyComputed | ops-to-anl.py:147-154 | the computed-field loop equals the declared-order fill with the computed values |
| RowTransform.TransformRow | ops-to-anl.py:138-155 | `transform_row` equals the column phase followed by the computed fields |
| RowTransform.ColumnKeysIgnoreRow | ops-to-anl.py:140-144 | two rows give the same output columns in the same order |
| RowTransform.TransformKeysIgnoreRow | ops-to-anl.py:138-155 | two rows that both transform give the same columns in the same order |
| Warehouse.UpsertSpec | ops-to-anl.py:82-94 | an upsert succeeds exactly for an empty batch, or for a well-formed statement on an existing table |
| Warehouse.NonKeys | ops-to-anl.py:87 | a column is a non-key column exactly when it is a column and not in `unique_keys` |
| Warehouse.NonKeysSnoc | ops-to-anl.py:87 | the non-key columns keep the column order |
| Warehouse.TakeAll | ops-to-anl.py:88 | one `c=VALUES(c)` per non-key column, in order |
| Warehouse.UpdateClause | ops-to-anl.py:88 | every non-key column takes the new value; with no non-key column, the only item is the no-op `cols[0]=cols[0]`; no columns at all is an `IndexError` |
| Warehouse.RowTuple | ops-to-anl.py:90 | a row's tuple holds its values in column order; the first column the row lacks is a `KeyError` |
| Warehouse.Tuples | ops-to-anl.py:90 | one tuple per row, in order; the first row lacking a column fails |
| Warehouse.UpsertStatement | ops-to-anl.py:82-90 | an empty batch gives no statement; otherwise the columns are the first row's, with the update clause and one tuple per row |
| Warehouse.FirstRowFits | ops-to-anl.py:84-90 | the first row always has all of the statement's columns |
| Warehouse.UpsertRejects | ops-to-anl.py:82-90 | a batch is rejected exactly when the first row has no columns or a row lacks one of the first row's columns |
| Warehouse.UpsertEmptyBatch | ops-to-anl.py:83 | an empty batch succeeds and changes nothing |
| Warehouse.UpsertTouchesOnlyItsTable | ops-to-anl.py:82-94 | a failed upsert changes nothing; a successful one changes only its own table |
| Warehouse.Clash | ops-to-anl.py:89-92 | a row collides with a stored one on the unique index: every index column present in both, non-NULL and equal |
| Warehouse.FirstClashFrom | ops-to-anl.py:89-92 | the first stored row that clashes with the new one on the unique index, if any |
| Warehouse.FirstClashAt | ops-to-anl.py:89-92 | the first clash is where a row clashes and no earlier row does |
| Warehouse.FirstClashUnchanged | ops-to-anl.py:89-92 | updating the clashing row keeps it the first clash |
| Warehouse.RecordOf | ops-to-anl.py:89-92 | the inserted row has only the statement's columns |
| Warehouse.RecordOfAt | ops-to-anl.py:89-92 | with distinct columns, column `k` of the row holds tuple item `k` |
| Warehouse.ApplyUpdate | ops-to-anl.py:88-92 | on a clash, each `c=VALUES(c)` column takes the new value and every other column keeps the stored one |
| Warehouse.ApplyUpdateIdempotent | ops-to-anl.py:88-92 | applying the update twice equals applying it once |
| Warehouse.MergeOne | ops-to-anl.py:89-92 | with a clash, the first clashing row takes the update and every other row is kept; with none, the inserted row is appended to the unchanged rows; the schema is kept |
| Warehouse.Inserted | ops-to-anl.py:89-92 | the row an insert adds, with the next number in an auto-increment column that is missing, NULL or 0 |
| Warehouse.MergeUpTo | ops-to-anl.py:91-92 | the table after the statement's first `n` tuples, one `MergeOne` each |
| Warehouse.ClashWithOwnInsert | ops-to-anl.py:89-92 | an inserted row with all index columns given clashes with itself |
| Warehouse.UpdateKeepsClash | ops-to-anl.py:89-92 | an updated row still clashes with the tuple that updated it |
| Warehouse.MergeOneIdempotent | ops-to-anl.py:89-92 | running the same tuple twice equals running it once, when the tuple gives the whole index and leaves the auto-increment column to the store |
| Warehouse.ClashSymmetric | ops-to-anl.py:89-92 | clashing is symmetric |
| Warehouse.ClashSameIndex | ops-to-anl.py:89-92 | rows equal on the index columns clash with the same rows |
| Warehouse.MergeOneKeepsIndex | ops-to-anl.py:89-92 | each tuple keeps "no two rows clash" |
| Warehouse.MergeUpToKeepsIndex | ops-to-anl.py:91-92 | the whole `executemany` keeps the schema and "no two rows clash" |
| Warehouse.UpsertKeepsIndexes | ops-to-anl.py:82-94 | an upsert keeps every table's unique index intact |
| Warehouse.Execute | ops-to-anl.py:91-92 | a missing table fails the query; otherwise only the target table changes |
| Warehouse.ExecuteMany | ops-to-anl.py:92 | the loop runs the statement once per tuple, in order |
| Warehouse.Matches | ops-to-anl.py:169-172 | `WHERE k1=%s AND ...`: each match column is present in the row and equals the given non-NULL value |
| Warehouse.FirstMatchFrom | ops-to-anl.py:168-175 | the first stored row whose match columns hold the given non-NULL values |
| Warehouse.Lookup | ops-to-anl.py:168-175 | an empty match or a missing table fails the query; no matching row gives `None`; a non-`None` result is the key column of the first matching row |
| Warehouse.LookupFindsFirstMatch | ops-to-anl.py:168-175 | when a row matches and no earlier one does, the lookup returns that row's key column |
| Warehouse.LookupByIndex | ops-to-anl.py:168-175 | matching on exactly a table's unique index finds the one row holding those values |
| Warehouse.Store.constructor | ops-to-anl.py:54-55 | the connection starts on the given tables |
| Warehouse.Store.Upsert | ops-to-anl.py:82-94 | `upsert` changes the tables as the specification says and keeps every unique index intact |
| Warehouse.Store.LookupKey | ops-to-anl.py:168-175 | the scan returns the lookup's result and changes nothing |
| Runners.MapRows | ops-to-anl.py:163-165 | the batch built from the first `n` rows, one output per row, stopping at the first error |
| Runners.MapRowsOk | ops-to-anl.py:163-165 | a completed batch has one output per input row, in input order |
| Runners.MapRowsIs | ops-to-anl.py:163-165 | rows that each give the matching entry of a batch give that batch |
| Runners.MapRowsAllOk | ops-to-anl.py:163-165 | the batch completes when every row does |
| Runners.MapRowsFirstError | ops-to-anl.py:163-165 | a failed batch fails with its first failing row's error |
| Runners.MapRowsErrorSticks | ops-to-anl.py:163-165 | rows after a failed one change nothing |
| Runners.MapRowsFailsAt | ops-to-anl.py:163-165 | a row that fails after rows that all succeeded makes the batch fail with its error |
| Runners.DimSource | ops-to-anl.py:160 | `source or table or from`: the first non-empty name wins; the result is non-empty exactly when one of them is |
| Runners.FetchAll | ops-to-anl.py:57-63 | the rows of the named table; `FROM None`, an empty name or an unknown table is a query error |
| Runners.RunDimSpec | ops-to-anl.py:159-166 | a completed dimension run had an `emit_to` and a source name that names a source table |
| Runners.RunDimFailureChangesNothing | ops-to-anl.py:159-166 | a failed dimension run leaves every table as it was |
| Runners.RunDimErrors | ops-to-anl.py:159-166 | a missing `emit_to` is a `KeyError` raised before the query; with `emit_to` present, no usable source name is a query error; neither changes a table |
| Runners.RunDimFailsOnBadRow | ops-to-anl.py:163-166 | a source row that fails to transform aborts the run with the first such row's error, and nothing is upserted |
| Runners.RunDimUpsertsTransformedRows | ops-to-anl.py:159-166 | when every source row transforms, the run upserts exactly those rows, in source order, on `uniqueness` |
| Runners.RunDimKeepsIndexes | ops-to-anl.py:159-166 | a dimension run keeps every table's unique index |
| Runners.TransformRows | ops-to-anl.py:163-165 | the batch loop equals transforming each fetched row in order |
| Runners.RunDim | ops-to-anl.py:159-166 | `run_dim` changes the tables as its specification says |
| Runners.MatchFor | ops-to-anl.py:188 | `{dst: t[src] for dst, src in on.items()}`, filled in `on`'s order |
| Runners.Resolved | ops-to-anl.py:185-189 | the row after resolving every `dim_mappings` entry in declared order |
| Runners.MatchUpToOk | ops-to-anl.py:188 | the match is built exactly when the row has all source columns |
| Runners.MatchForOkIff | ops-to-anl.py:188 | `{dst: t[src]}` succeeds exactly when `t` has every source column of `on` |
| Runners.MatchForValues | ops-to-anl.py:188 | the match has `on`'s destination names in order, each holding its source column's value |
| Runners.ResolvedKeyValue | ops-to-anl.py:185-189 | each `dest_key` holds the lookup for its mapping, with the match built from the row as updated by earlier mappings |
| Runners.ResolvedShape | ops-to-anl.py:185-189 | resolution keeps the row's columns first and in order, adds exactly the `dest_key`s, and leaves other columns as they were |
| Runners.ResolvedByIndex | ops-to-anl.py:168-175 | a mapping that matches on exactly a dimension's unique index resolves to the matching dimension row's key column |
| Runners.KeyLookup | ops-to-anl.py:185-189 | a mapping without `lookup`, or without `on`, is a `KeyError`; an empty `on` fails; a found key needs the dimension table and every source column |
| Runners.KeyLookupQueries | ops-to-anl.py:185-189 | once both fields are read and the match dictionary is built from the row, the key is `lookup_key` on that match in the `lookup` table, for the column `dest_key` |
| Runners.RunFactSpec | ops-to-anl.py:177-191 | a completed fact run had an `emit_to` and a `source` |
| Runners.RunFactFailureChangesNothing | ops-to-anl.py:177-191 | a failed fact run leaves every table as it was |
| Runners.RunFactErrors | ops-to-anl.py:177-180 | a missing `emit_to` is reported first, then a missing `source`; neither changes a table |
| Runners.RunFactFailsOnBadRow | ops-to-anl.py:182-191 | a joined row that fails to transform or resolve aborts the run with the first such row's error, and nothing is upserted |
| Runners.RunFactUpsertsResolvedRows | ops-to-anl.py:177-191 | when every joined row transforms and resolves, the run upserts exactly those rows, in join order, on `fact_pk` |
| Runners.RunFactKeepsIndexes | ops-to-anl.py:177-191 | a fact run keeps every table's unique index |
| Runners.LookupFor | ops-to-anl.py:185-189 | one mapping's `lookup`/`on` reads, match and query equal the key lookup |
| Runners.ResolveKeys | ops-to-anl.py:185-189 | the inner loop equals resolving every mapping in declared order |
| Runners.FactRow | ops-to-anl.py:182-190 | one joined row transformed, then its surrogate keys resolved |
| Runners.FactRowOf | ops-to-anl.py:182-190 | one joined row is transformed, then its keys are resolved |
| Runners.FactRows | ops-to-anl.py:181-190 | the outer loop equals processing each joined row in order |
| Runners.RunFact | ops-to-anl.py:177-191 | `run_fact` changes the tables as its specification says |
| Orchestrator.IsDim | ops-to-anl.py:198 | `".dim_" in p.get("emit_to", "")` |
| Orchestrator.IsFact | ops-to-anl.py:201 | `".fact_" in p.get("emit_to", "")` |
| Orchestrator.RunPhase | ops-to-anl.py:196-202 | one phase's pipelines run in order on the tables the earlier ones left, skipping the rest after a failure |
| Orchestrator.Selected | ops-to-anl.py:196-202 | a phase lists only pipelines with its marker |
| Orchestrator.Positions | ops-to-anl.py:196-202 | every position of a pipeline in a phase is a position in the policy |
| Orchestrator.PositionsSelect | ops-to-anl.py:196-202 | the `k`-th pipeline of a phase is the policy's entry at the `k`-th position |
| Orchestrator.PositionsIncrease | ops-to-anl.py:196-202 | those positions increase, so each phase follows policy order |
| Orchestrator.PositionsCover | ops-to-anl.py:196-202 | the positions are exactly those of the policy entries with the marker |
| Orchestrator.SelectedCount | ops-to-anl.py:196-202 | a pipeline runs in a phase as often as it is listed when it has the marker, and never otherwise |
| Orchestrator.UnmarkedNeverRuns | ops-to-anl.py:196-202 | a pipeline with neither marker never runs |
| Orchestrator.BothMarkersRunTwice | ops-to-anl.py:196-202 | a pipeline listed once with both markers runs once in each phase |
| Orchestrator.SelectedSnoc | ops-to-anl.py:196-202 | one more policy entry adds itself to the end of the phase exactly when it has the marker |
| Orchestrator.SelectedAppend | ops-to-anl.py:196-202 | selecting from two lists equals selecting from each, one after the other |
| Orchestrator.RunnersBehave | ops-to-anl.py:193-204 | both runners fail without committing and keep every unique index |
| Orchestrator.FailedRunStays | ops-to-anl.py:193-204 | after a failure no later pipeline runs |
| Orchestrator.RunPhaseAppend | ops-to-anl.py:196-202 | running `a + b` is running `a`, then `b` on what `a` left |
| Orchestrator.RunPhaseSnoc | ops-to-anl.py:196-202 | one more pipeline runs on what the earlier ones left |
| Orchestrator.FailureKeepsEarlierWork | ops-to-anl.py:193-204 | a failing pipeline ends its phase with its error, keeping what the pipelines before it committed |
| Orchestrator.DimFailureSkipsFacts | ops-to-anl.py:196-202 | a failure in the dimension phase ends the run before any fact pipeline |
| Orchestrator.RunPhaseKeepsIndexes | ops-to-anl.py:196-202 | a phase keeps every unique index |
| Orchestrator.MainKeepsIndexes | ops-to-anl.py:193-204 | the whole run keeps every unique index |
| Orchestrator.StopsAtFailure | ops-to-anl.py:196-202 | a failure among the first `i` entries is the outcome of the whole phase |
| Orchestrator.PhaseStep | ops-to-anl.py:196-202 | one more policy entry runs when it has the marker and is skipped otherwise |
| Orchestrator.RunPipeline | ops-to-anl.py:197-202 | `run_dim` or `run_fact`, as the phase calls for |
| Orchestrator.RunPhaseLoop | ops-to-anl.py:196-202 | the loop over the policy runs exactly the phase's pipelines, in order, until one fails |
| Orchestrator.MainSpec | ops-to-anl.py:193-204 | a document without `pipelines` fails with that `KeyError` and changes nothing; pipelines with neither marker make a run that does nothing |
| Orchestrator.Run | ops-to-anl.py:193-204 | `main` runs the dimension phase, then the fact phase on the tables it left; a document without `pipelines` fails |

## Left out

- The MySQL connection is the `Warehouse.Store` object; its mechanics are not modelled. This covers cursors, the SQL text itself, `commit`, `close`, and the `autocommit=False` transaction. A failed upsert is modelled as changing nothing: its uncommitted work is discarded when the connection closes. Each successful upsert is modelled as committed.
- The environment variables, the `DB` settings and the loading of `policy_engine.json` are configuration I/O. The salt, the parsed policy and the source tables are parameters (`Policy.Env`, `Orchestrator.PolicyDoc`).
- `hashlib.sha256` is the uninterpreted parameter `Env.sha256Hex`. Nothing is proved about the digest itself, so "the digest differs from its input" is not stated.
- `datetime.date.today()` is the parameter `Env.today`, one date for the whole run. The code calls `today()` three times per `age_bin` (lines 42-43), so a run spanning midnight can mix two dates; the model cannot. `strftime` is replaced by arithmetic.
- `eval` is the uninterpreted parameter `Env.evaluate` on the substituted text. The model does not replace it with a restricted parser, because the code does not have one.
- RowTransform.ComputedValue: `eval(tmp)` at line 154 runs inside `transform_row`. The expression can read that function's variables (`out`, `row`, `k`, `v`, `emit`, `pipeline`) and the module globals, and it can change them. The model gives `Env.evaluate` only the substituted text. So `"len(row)"` gives the same value for every row, and an expression such as `"out.clear() or 1"` cannot empty `out`. `RowTransform.ComputedAfterColumns` and `Fill.FillKeepsOthers` therefore hold only for expressions that leave `out` and the other variables alone.
- Only four kinds of value are modelled: `None`, strings, ints and dates. Floats, `Decimal`, booleans and `datetime` values with a time of day are not. Neither are the conversions MySQL applies when storing a value.
- JSON `null` is treated as an absent key, so `"emit_to": null` reads as `""`. In Python, `".dim_" in None` would raise `TypeError`. Likewise, `"columns": null` reads as empty, where Python would fail on `.items()`. `"uniqueness": null` and `"fact_pk": null` read as `[]`, and the model upserts; in the code they reach `set(None)` at line 87, which raises `TypeError` on any non-empty batch.
- `"emit_as": null` is read as a missing key. In the code, `rule["emit_as"]` then gives `None` (lines 111, 115 and 127), and line 143 skips the column. The model fails with `MissingKey("emit_as")` instead.
- `"source": null` in a fact pipeline is also read as a missing key. The code passes `None` on at line 180 and goes on. `Runners.RunFactSpec` fails with `MissingKey("source")` instead.
- `fetch_join` ignores its arguments in the code, so `pipeline["source"]` is only checked for presence and `joins` is not read. The joined rows are the parameter `Env.joinedRows`. The join query (lines 71-78) cannot fail in the model.
- The source tables (`Env.sources`) and the joined rows (`Env.joinedRows`) are fixed for the whole run, and kept apart from the analytics tables in `Warehouse.Store`. The real `fetch_all` (lines 57-63, called at line 164) reads over the same connection. A source that is also an upsert target would show rows upserted earlier in the run; the model does not capture that.
- `fetch_all` streams rows. The model fetches them first; since any error aborts the run, the outcome is the same.
- Several parts of the MySQL merge are simplified:
  - Each table has one unique index. Several unique keys per table are not modelled. The index-keeping lemmas (`Warehouse.MergeOneKeepsIndex`, `Warehouse.UpsertKeepsIndexes`, `Orchestrator.MainKeepsIndexes`) also require that the AUTO_INCREMENT column is not part of that index (`Warehouse.SchemaWf`).
  - NULL never clashes in it.
  - An AUTO_INCREMENT column that is missing, NULL or 0 gets the number of stored rows plus one. This stands in for MySQL's counter. The SQL mode NO_AUTO_VALUE_ON_ZERO, under which 0 is stored as given, is not modelled.
  - Unknown columns, NOT NULL checks and type checks are not modelled.
  - Column DEFAULTs are not modelled. A column the INSERT does not name is absent from the stored row, and `lookup_key` reads it as NULL where MySQL returns its default.
  - In `lookup_key`, selecting a column that a row does not hold yields NULL rather than an error.
  - `LIMIT 1` without `ORDER BY` picks the first matching row in storage (insertion) order.
  - Equality is exact, both in the unique index (`Warehouse.Clash`) and in `WHERE c = %s` (`Warehouse.Matches`). Collations are not modelled: under a case-insensitive collation MySQL treats `'Ann'` and `'ann'` as equal, and under PAD SPACE it ignores trailing spaces. Type coercion such as `'1' = 1` is not modelled either. Where MySQL would find a clash or a match that way, the model inserts a new row, or looks up `None`.
- Warehouse.Clash: a tuple that omits a unique-index column never clashes. MySQL would store that column's DEFAULT; with a non-NULL default, a second such tuple clashes and updates the existing row where the model appends another.
- Warehouse.Inserted: a column the statement does not name stays absent from the new row instead of taking its DEFAULT.
- Warehouse.MergeOneIdempotent: re-running a single tuple is proved a no-op. Re-running a whole batch, or the whole run, is not proved. One tuple of a batch can change the row a later tuple clashes with.
- Warehouse.UpdateClause: its contract states which columns each item names, not their order. The order is stated by `Warehouse.NonKeysSnoc` and `Warehouse.TakeAll`.
