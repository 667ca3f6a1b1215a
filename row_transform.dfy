/**
 * The row transformer `transform_row`: every column rule in declared order,
 * matched on the last dotted segment of its source name, then every computed
 * field in declared order.
 */
module RowTransform {
  import opened Dicts
  import opened Values
  import opened Policy
  import opened Rules
  import opened Substitution
  import opened Fill

  // ---- qualified names ----

  /** `s.split(".")[-1]`: what follows the last dot, or all of `s`. */
  function LastSegment(s: string): (r: string)
    ensures '.' !in r
    ensures |r| <= |s| && s[|s| - |r|..] == r
    ensures |r| < |s| ==> s[|s| - |r| - 1] == '.'
    decreases |s|
  {
    if s == [] || s[|s| - 1] == '.' then []
    else LastSegment(s[..|s| - 1]) + [s[|s| - 1]]
  }

  lemma {:induction false} LastSegmentOfPlain(column: string)
    requires '.' !in column
    ensures LastSegment(column) == column
    decreases |column|
  {
    if column != [] {
      var init := column[..|column| - 1];
      assert column == init + [column[|column| - 1]];
      LastSegmentOfPlain(init);
    }
  }

  /** A name without dots is its own last segment, and `t.c` matches on `c`. */
  lemma {:induction false} LastSegmentOfQualified(prefix: string, column: string)
    requires '.' !in column
    ensures LastSegment(column) == column
    ensures LastSegment(prefix + "." + column) == column
    decreases |column|
  {
    LastSegmentOfPlain(column);
    var s := prefix + "." + column;
    if column == [] {
      assert s[|s| - 1] == '.';
    } else {
      var init := column[..|column| - 1];
      assert column == init + [column[|column| - 1]];
      LastSegmentOfQualified(prefix, init);
      assert s[..|s| - 1] == prefix + "." + init;
      assert s[|s| - 1] == column[|column| - 1];
    }
  }

  // ---- column rules ----

  /** The emission of the rule for source name `srcName` on `row`. */
  function ColumnEmission(row: Row, srcName: string, rule: Rule, env: Env): Result<Emission> {
    var key := LastSegment(srcName);
    ApplyRule(Field(row, key), rule, key, env)
  }

  /** The column rules applied to `row`. */
  function RuleEmit(row: Row, env: Env): (string, Rule) -> Result<Emission> {
    (srcName: string, rule: Rule) => ColumnEmission(row, srcName, rule, env)
  }

  /** The emissions of the first `n` column rules, in declared order. */
  function EmissionsUpTo(cols: ODict<Rule>, n: nat, emit: (string, Rule) -> Result<Emission>): (es: seq<Result<Emission>>)
    requires n <= |cols.keys|
    ensures |es| == n
  {
    if n == 0 then []
    else EmissionsUpTo(cols, n - 1, emit) + [emit(cols.keys[n - 1], cols.vals[cols.keys[n - 1]])]
  }

  /** The emission of every column rule on `row`, in declared order. */
  function RuleEmissions(row: Row, cols: ODict<Rule>, env: Env): seq<Result<Emission>> {
    EmissionsUpTo(cols, |cols.keys|, RuleEmit(row, env))
  }

  lemma {:induction false} EmissionsUpToAt(cols: ODict<Rule>, n: nat, emit: (string, Rule) -> Result<Emission>)
    requires n <= |cols.keys|
    ensures forall j | 0 <= j < n :: EmissionsUpTo(cols, n, emit)[j] == emit(cols.keys[j], cols.vals[cols.keys[j]])
  {
    if n > 0 {
      EmissionsUpToAt(cols, n - 1, emit);
    }
  }

  /** The `j`-th emission succeeds under `name`. */
  predicate EmitsAs(es: seq<Result<Emission>>, j: int, name: string)
    requires 0 <= j < |es|
  {
    es[j].Ok? && es[j].value.Emit? && es[j].value.name == name
  }

  /**
   * `out` after writing the emissions in order (`out[emit] = new_val` for each
   * one that names a column), or the error of the first failed rule.
   */
  function WriteEmissions(es: seq<Result<Emission>>): Result<Row>
    decreases |es|
  {
    if es == [] then Ok(Empty()) else WriteOne(WriteEmissions(es[..|es| - 1]), es[|es| - 1])
  }

  /** One step of the column loop: a failed rule aborts, an emission is written. */
  function WriteOne(acc: Result<Row>, e: Result<Emission>): Result<Row> {
    match acc
    case Err(_) => acc
    case Ok(out) =>
      match e
      case Err(err) => Err(err)
      case Ok(NoEmission) => Ok(out)
      case Ok(Emit(k, v)) => Ok(Set(out, k, v))
  }

  lemma WriteSnoc(es: seq<Result<Emission>>, e: Result<Emission>)
    ensures WriteEmissions(es + [e]) == WriteOne(WriteEmissions(es), e)
  {
    assert (es + [e])[..|es|] == es;
  }

  /** The column phase succeeds exactly when every rule does. */
  lemma {:induction false} WriteOkIffAllOk(es: seq<Result<Emission>>)
    ensures WriteEmissions(es).Ok? <==> forall j | 0 <= j < |es| :: es[j].Ok?
    decreases |es|
  {
    if es != [] {
      var init := es[..|es| - 1];
      WriteOkIffAllOk(init);
      assert forall j | 0 <= j < |init| :: init[j] == es[j];
    }
  }

  /** A failure is the error of the first failing rule. */
  lemma {:induction false} WriteFailsAtFirstError(es: seq<Result<Emission>>)
    requires WriteEmissions(es).Err?
    ensures exists j | 0 <= j < |es| ::
              && es[j] == Err(WriteEmissions(es).error)
              && forall i | 0 <= i < j :: es[i].Ok?
    decreases |es|
  {
    var init := es[..|es| - 1];
    assert forall j | 0 <= j < |init| :: init[j] == es[j];
    if WriteEmissions(init).Err? {
      WriteFailsAtFirstError(init);
    } else {
      WriteOkIffAllOk(init);
    }
  }

  /** Once a rule has failed, the rules after it change nothing. */
  lemma {:induction false} WriteErrorSticks(es: seq<Result<Emission>>, i: nat)
    requires i <= |es| && WriteEmissions(es[..i]).Err?
    ensures WriteEmissions(es) == WriteEmissions(es[..i])
    decreases |es| - i
  {
    if i < |es| {
      var init := es[..|es| - 1];
      assert init[..i] == es[..i];
      WriteErrorSticks(init, i);
    } else {
      assert es[..i] == es;
    }
  }

  /**
   * The output holds exactly the emitted names, and each holds the value of
   * the LAST rule that emitted it.
   */
  lemma {:induction false} WriteLastWins(es: seq<Result<Emission>>)
    requires WriteEmissions(es).Ok?
    ensures forall k :: k in WriteEmissions(es).value.vals <==>
              exists j | 0 <= j < |es| :: EmitsAs(es, j, k)
    ensures forall k | k in WriteEmissions(es).value.vals ::
              exists j | 0 <= j < |es| ::
                && es[j] == Ok(Emit(k, WriteEmissions(es).value.vals[k]))
                && forall j' | j < j' < |es| :: !EmitsAs(es, j', k)
    decreases |es|
  {
    if es != [] {
      var n := |es|;
      var init := es[..n - 1];
      assert forall j | 0 <= j < |init| :: init[j] == es[j];
      assert forall j, k | 0 <= j < n - 1 :: EmitsAs(init, j, k) == EmitsAs(es, j, k);
      WriteLastWins(init);
      var out := WriteEmissions(init).value;
      var res := WriteEmissions(es).value;
      var last := es[n - 1];
      assert last.Ok?;
      if last.value.Emit? {
        assert res == Set(out, last.value.name, last.value.value);
      } else {
        assert res == out;
      }
      forall k | k in res.vals
        ensures exists j | 0 <= j < n ::
                  && es[j] == Ok(Emit(k, res.vals[k]))
                  && forall j' | j < j' < n :: !EmitsAs(es, j', k)
      {
        if EmitsAs(es, n - 1, k) {
          assert es[n - 1] == Ok(Emit(k, res.vals[k]));
        } else {
          assert k in out.vals && res.vals[k] == out.vals[k];
          var j :| 0 <= j < n - 1 && init[j] == Ok(Emit(k, out.vals[k])) &&
                   forall j' | j < j' < n - 1 :: !EmitsAs(init, j', k);
          assert es[j] == Ok(Emit(k, res.vals[k]));
          assert forall j' | j < j' < n :: !EmitsAs(es, j', k);
        }
      }
      forall k ensures k in res.vals <==> exists j | 0 <= j < n :: EmitsAs(es, j, k) {
        if exists j | 0 <= j < n :: EmitsAs(es, j, k) {
          var j :| 0 <= j < n && EmitsAs(es, j, k);
          if j < n - 1 {
            assert EmitsAs(init, j, k);
            assert k in out.vals;
          }
        }
        if k in res.vals && !EmitsAs(es, n - 1, k) {
          assert k in out.vals;
          var j :| 0 <= j < n - 1 && EmitsAs(init, j, k);
          assert EmitsAs(es, j, k);
        }
      }
    }
  }

  /** Emissions under the same names in the same order give the same columns in the same order. */
  lemma {:induction false} WriteKeysFollowNames(es1: seq<Result<Emission>>, es2: seq<Result<Emission>>)
    requires |es1| == |es2|
    requires WriteEmissions(es1).Ok? && WriteEmissions(es2).Ok?
    requires forall j | 0 <= j < |es1| :: es1[j].Ok? && es2[j].Ok? &&
               EmittedName(es1[j].value) == EmittedName(es2[j].value)
    ensures WriteEmissions(es1).value.keys == WriteEmissions(es2).value.keys
    decreases |es1|
  {
    if es1 != [] {
      var n := |es1|;
      assert forall j | 0 <= j < n - 1 :: es1[..n - 1][j] == es1[j] && es2[..n - 1][j] == es2[j];
      WriteKeysFollowNames(es1[..n - 1], es2[..n - 1]);
      assert EmittedName(es1[n - 1].value) == EmittedName(es2[n - 1].value);
    }
  }

  // ---- computed fields ----

  /**
   * The value of a computed field on `out` as it stands: `KeyError` when the
   * field has no `expression`, otherwise what the expression evaluates to once
   * the names of `{**row, **out}` are substituted into it.
   */
  function ComputedValue(row: Row, env: Env): (string, ComputedSpec, Row) -> Result<Value> {
    (name: string, spec: ComputedSpec, out: Row) =>
      match spec.expression
      case None => Err(MissingKey("expression"))
      case Some(expr) => env.evaluate(Substitute(expr, Union(row, out)))
  }

  /**
   * Each computed field holds its expression evaluated on `{**row, **out}`,
   * with `out` as it stood at that field's turn.
   */
  lemma ComputedFieldValue(row: Row, out0: Row, comp: ODict<ComputedSpec>, env: Env, j: nat)
    requires j < |comp.keys| && FillAll(out0, comp, ComputedValue(row, env)).Ok?
    ensures FillUpTo(out0, comp, j, ComputedValue(row, env)).Ok?
    ensures comp.vals[comp.keys[j]].expression.Some?
    ensures comp.keys[j] in FillAll(out0, comp, ComputedValue(row, env)).value.vals
    ensures env.evaluate(Substitute(comp.vals[comp.keys[j]].expression.value,
                                    Union(row, FillUpTo(out0, comp, j, ComputedValue(row, env)).value))) ==
            Ok(FillAll(out0, comp, ComputedValue(row, env)).value.vals[comp.keys[j]])
  {
    FillValues(out0, comp, |comp.keys|, ComputedValue(row, env));
    assert FilledAt(out0, comp, |comp.keys|, j, ComputedValue(row, env));
  }

  /**
   * Computed fields come after the column rules: the column output's keys
   * stay first and in order, the result's fields are the columns and the
   * computed names, and a column no computed field names keeps its value.
   */
  lemma ComputedAfterColumns(row: Row, out0: Row, comp: ODict<ComputedSpec>, env: Env)
    requires FillAll(out0, comp, ComputedValue(row, env)).Ok?
    ensures out0.keys <= FillAll(out0, comp, ComputedValue(row, env)).value.keys
    ensures FillAll(out0, comp, ComputedValue(row, env)).value.vals.Keys ==
              out0.vals.Keys + set j | 0 <= j < |comp.keys| :: comp.keys[j]
    ensures forall k | k in out0.vals && k !in comp.keys ::
              FillAll(out0, comp, ComputedValue(row, env)).value.vals[k] == out0.vals[k]
  {
    var n := |comp.keys|;
    FillKeepsOrder(out0, comp, n, ComputedValue(row, env));
    FillNames(out0, comp, n, ComputedValue(row, env));
    FillKeepsOthers(out0, comp, n, ComputedValue(row, env));
    assert comp.keys[..n] == comp.keys;
  }

  // ---- the whole row ----

  /** `transform_row(row, pipeline)`: columns first, then computed fields. */
  function TransformRowSpec(row: Row, p: Pipeline, env: Env): (r: Result<Row>)
    ensures r.Ok? ==> forall j | 0 <= j < |p.computed.keys| :: p.computed.keys[j] in r.value.vals
    ensures p.columns.keys == [] && p.computed.keys == [] ==> r == Ok(Empty())
  {
    match WriteEmissions(RuleEmissions(row, p.columns, env))
    case Err(e) => Err(e)
    case Ok(out) =>
      var filled := FillAll(out, p.computed, ComputedValue(row, env));
      if filled.Ok? then ComputedAfterColumns(row, out, p.computed, env); filled else filled
  }

  lemma ColumnStep(cols: ODict<Rule>, i: nat, emit: (string, Rule) -> Result<Emission>)
    requires i < |cols.keys|
    ensures WriteEmissions(EmissionsUpTo(cols, i + 1, emit)) ==
            WriteOne(WriteEmissions(EmissionsUpTo(cols, i, emit)), emit(cols.keys[i], cols.vals[cols.keys[i]]))
  {
    WriteSnoc(EmissionsUpTo(cols, i, emit), emit(cols.keys[i], cols.vals[cols.keys[i]]));
  }

  /** The first `i` of the first `n` emissions are the first `i` emissions. */
  lemma {:induction false} EmissionsPrefix(cols: ODict<Rule>, i: nat, n: nat, emit: (string, Rule) -> Result<Emission>)
    requires i <= n <= |cols.keys|
    ensures EmissionsUpTo(cols, n, emit)[..i] == EmissionsUpTo(cols, i, emit)
    decreases n
  {
    if i < n {
      EmissionsPrefix(cols, i, n - 1, emit);
      var init := EmissionsUpTo(cols, n - 1, emit);
      assert EmissionsUpTo(cols, n, emit)[..i] == init[..i];
    } else {
      assert EmissionsUpTo(cols, n, emit)[..n] == EmissionsUpTo(cols, n, emit);
    }
  }

  /** Once a column rule has failed, the column phase returns that failure. */
  lemma ColumnErrorSticks(cols: ODict<Rule>, i: nat, emit: (string, Rule) -> Result<Emission>)
    requires i <= |cols.keys| && WriteEmissions(EmissionsUpTo(cols, i, emit)).Err?
    ensures WriteEmissions(EmissionsUpTo(cols, |cols.keys|, emit)) == WriteEmissions(EmissionsUpTo(cols, i, emit))
  {
    EmissionsPrefix(cols, i, |cols.keys|, emit);
    WriteErrorSticks(EmissionsUpTo(cols, |cols.keys|, emit), i);
  }

  /** The column loop of `transform_row`; a raised error ends the loop. */
  method ApplyColumns(row: Row, p: Pipeline, env: Env) returns (r: Result<Row>)
    ensures r == WriteEmissions(RuleEmissions(row, p.columns, env))
  {
    r := Ok(Empty());
    var i := 0;
    while i < |p.columns.keys| && r.Ok?
      invariant 0 <= i <= |p.columns.keys|
      invariant r == WriteEmissions(EmissionsUpTo(p.columns, i, RuleEmit(row, env)))
    {
      var srcName := p.columns.keys[i];
      var emitted := ColumnEmission(row, srcName, p.columns.vals[srcName], env);
      assert emitted == RuleEmit(row, env)(srcName, p.columns.vals[srcName]);
      ColumnStep(p.columns, i, RuleEmit(row, env));
      r := WriteOne(r, emitted);
      i := i + 1;
    }
    if i < |p.columns.keys| {
      ColumnErrorSticks(p.columns, i, RuleEmit(row, env));
    }
  }

  /** The replacement loop for one computed field's expression. */
  method SubstituteNames(expr: string, ns: Row) returns (text: string)
    ensures text == Substitute(expr, ns)
  {
    text := expr;
    var k := 0;
    while k < |ns.keys|
      invariant 0 <= k <= |ns.keys|
      invariant text == SubstituteUpTo(expr, ns, k)
    {
      SubstituteStep(expr, ns, k);
      text := ReplaceName(text, ns, k);
      k := k + 1;
    }
  }

  /** The computed-field loop of `transform_row`, starting from the column output `out0`. */
  method ApplyComputed(row: Row, out0: Row, comp: ODict<ComputedSpec>, env: Env) returns (r: Result<Row>)
    ensures r == FillAll(out0, comp, ComputedValue(row, env))
  {
    r := Ok(out0);
    var c := 0;
    while c < |comp.keys| && r.Ok?
      invariant 0 <= c <= |comp.keys|
      invariant r == FillUpTo(out0, comp, c, ComputedValue(row, env))
    {
      var name := comp.keys[c];
      var spec := comp.vals[name];
      ghost var acc := r;
      if spec.expression.None? {
        r := Err(MissingKey("expression"));
      } else {
        var text := SubstituteNames(spec.expression.value, Union(row, r.value));
        var v := env.evaluate(text);
        assert v == ComputedValue(row, env)(name, spec, r.value);
        r := if v.Err? then Err(v.error) else Ok(Set(r.value, name, v.value));
      }
      assert r == FillOne(acc, name, spec, ComputedValue(row, env));
      c := c + 1;
    }
    if c < |comp.keys| {
      FillErrorSticks(out0, comp, c, |comp.keys|, ComputedValue(row, env));
    }
  }

  /** `transform_row(row, pipeline)`. */
  method TransformRow(row: Row, p: Pipeline, env: Env) returns (r: Result<Row>)
    ensures r == TransformRowSpec(row, p, env)
  {
    r := ApplyColumns(row, p, env);
    if r.Ok? {
      r := ApplyComputed(row, r.value, p.computed, env);
    }
  }

  // ---- every output row has the same columns ----

  /** Which columns the column phase writes, in which order, never depends on the row. */
  lemma ColumnKeysIgnoreRow(row1: Row, row2: Row, p: Pipeline, env: Env)
    requires WriteEmissions(RuleEmissions(row1, p.columns, env)).Ok?
    requires WriteEmissions(RuleEmissions(row2, p.columns, env)).Ok?
    ensures WriteEmissions(RuleEmissions(row1, p.columns, env)).value.keys ==
            WriteEmissions(RuleEmissions(row2, p.columns, env)).value.keys
  {
    var es1, es2 := RuleEmissions(row1, p.columns, env), RuleEmissions(row2, p.columns, env);
    EmissionsUpToAt(p.columns, |p.columns.keys|, RuleEmit(row1, env));
    EmissionsUpToAt(p.columns, |p.columns.keys|, RuleEmit(row2, env));
    WriteOkIffAllOk(es1);
    WriteOkIffAllOk(es2);
    forall j | 0 <= j < |es1|
      ensures es1[j].Ok? && es2[j].Ok? && EmittedName(es1[j].value) == EmittedName(es2[j].value)
    {
      var key := LastSegment(p.columns.keys[j]);
      assert es1[j] == ColumnEmission(row1, p.columns.keys[j], p.columns.vals[p.columns.keys[j]], env);
      assert es2[j] == ColumnEmission(row2, p.columns.keys[j], p.columns.vals[p.columns.keys[j]], env);
      EmittedNameIgnoresValue(Field(row1, key), Field(row2, key), p.columns.vals[p.columns.keys[j]], key, env);
    }
    WriteKeysFollowNames(es1, es2);
  }

  /**
   * Two rows that both transform successfully give the same columns in the same
   * order: which names a rule emits never depends on the data.
   */
  lemma TransformKeysIgnoreRow(row1: Row, row2: Row, p: Pipeline, env: Env)
    requires TransformRowSpec(row1, p, env).Ok? && TransformRowSpec(row2, p, env).Ok?
    ensures TransformRowSpec(row1, p, env).value.keys == TransformRowSpec(row2, p, env).value.keys
  {
    ColumnKeysIgnoreRow(row1, row2, p, env);
    var out1 := WriteEmissions(RuleEmissions(row1, p.columns, env)).value;
    var out2 := WriteEmissions(RuleEmissions(row2, p.columns, env)).value;
    FillKeysIgnoreValues(out1, out2, p.computed, |p.computed.keys|, ComputedValue(row1, env), ComputedValue(row2, env));
  }
}
