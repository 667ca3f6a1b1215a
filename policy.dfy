/**
 * The parsed policy document (the JSON objects the script reads with `.get`
 * and `[...]`) and the run's configuration: the salt, today's date, and the
 * collaborators the script calls but that are not part of this model.
 */
module Policy {
  import opened Dicts
  import opened Values

  /**
   * One entry of a pipeline's `columns` object. A field is `None` when the
   * JSON object lacks that key.
   */
  datatype Rule = Rule(action: Option<string>, emitAs: Option<string>, using: Option<string>)

  /** One entry of `computed`. */
  datatype ComputedSpec = ComputedSpec(expression: Option<string>)

  /**
   * One entry of `dim_mappings`: the dimension table to look in and the
   * `{dst: src}` columns to match on; `None` when the object lacks the key.
   */
  datatype DimMapping = DimMapping(lookup: Option<string>, on: Option<ODict<string>>)

  /**
   * A pipeline object. `columns`, `computed` and `dim_mappings` default to
   * empty and `uniqueness`, `fact_pk` to `[]` when absent, as the script's
   * `.get(..., default)` calls do.
   */
  datatype Pipeline = Pipeline(
    source: Option<string>,
    table: Option<string>,
    from: Option<string>,
    emitTo: Option<string>,
    columns: ODict<Rule>,
    computed: ODict<ComputedSpec>,
    uniqueness: seq<string>,
    factPk: seq<string>,
    dimMappings: ODict<DimMapping>)

  /**
   * What the run depends on besides the policy: the salt (`USER_HASH_SALT`),
   * today's date, SHA-256 as a hex string, Python's `eval` on the text of a
   * computed field once its names are substituted, the
   * source tables `fetch_all` scans, and the rowset of the fixed join that
   * `fetch_join` runs.
   */
  datatype Env = Env(
    salt: string,
    today: CalendarDate,
    sha256Hex: string -> string,
    evaluate: string -> Result<Value>,
    sources: map<string, seq<Row>>,
    joinedRows: seq<Row>)
}
