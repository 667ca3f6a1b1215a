/**
 * Filling a dictionary field by field in declared order, the way both loops
 * `for name, spec in specs.items(): out[name] = value(spec, out)` of the
 * script work: the computed fields of `transform_row` and the surrogate keys
 * of `run_fact`. Each value is computed from the dictionary as it stands at
 * that field's turn; the first failure aborts the loop.
 */
module Fill {
  import opened Dicts
  import opened Values

  /** `out` after the first `n` entries of `specs` were written into `out0`. */
  function FillUpTo<S>(out0: Row, specs: ODict<S>, n: nat, value: (string, S, Row) -> Result<Value>): Result<Row>
    requires n <= |specs.keys|
  {
    if n == 0 then Ok(out0)
    else FillOne(FillUpTo(out0, specs, n - 1, value), specs.keys[n - 1], specs.vals[specs.keys[n - 1]], value)
  }

  /** Every entry of `specs` written, in declared order. */
  function FillAll<S>(out0: Row, specs: ODict<S>, value: (string, S, Row) -> Result<Value>): Result<Row> {
    FillUpTo(out0, specs, |specs.keys|, value)
  }

  /** One turn of the loop: a failed value aborts, otherwise it is written under `name`. */
  function FillOne<S>(acc: Result<Row>, name: string, spec: S, value: (string, S, Row) -> Result<Value>): Result<Row> {
    match acc
    case Err(_) => acc
    case Ok(out) =>
      match value(name, spec, out)
      case Err(e) => Err(e)
      case Ok(v) => Ok(Set(out, name, v))
  }

  /** Writing a computed value: a failed value aborts, otherwise it is stored under `name`. */
  function Assign(out: Row, name: string, v: Result<Value>): Result<Row> {
    match v
    case Err(e) => Err(e)
    case Ok(x) => Ok(Set(out, name, x))
  }

  /** A turn on a successful dictionary writes the value computed for it. */
  lemma FillOneAssigns<S>(acc: Result<Row>, name: string, spec: S, value: (string, S, Row) -> Result<Value>, v: Result<Value>)
    requires acc.Ok? && value(name, spec, acc.value) == v
    ensures FillOne(acc, name, spec, value) == Assign(acc.value, name, v)
  {
  }

  /** Once a turn has failed, the later entries change nothing. */
  lemma {:induction false} FillErrorSticks<S>(out0: Row, specs: ODict<S>, i: nat, n: nat,
                                              value: (string, S, Row) -> Result<Value>)
    requires i <= n <= |specs.keys|
    requires FillUpTo(out0, specs, i, value).Err?
    ensures FillUpTo(out0, specs, n, value) == FillUpTo(out0, specs, i, value)
    decreases n - i
  {
    if i < n {
      FillErrorSticks(out0, specs, i, n - 1, value);
    }
  }

  /** A successful turn computed the value on the dictionary so far and wrote it. */
  lemma FillOneOk<S>(acc: Result<Row>, name: string, spec: S, value: (string, S, Row) -> Result<Value>)
    requires FillOne(acc, name, spec, value).Ok?
    ensures acc.Ok?
    ensures value(name, spec, acc.value) == Ok(FillOne(acc, name, spec, value).value.vals[name])
    ensures FillOne(acc, name, spec, value).value ==
              Set(acc.value, name, FillOne(acc, name, spec, value).value.vals[name])
  {
  }

  /** The loop only adds to `out0`: its keys stay first and in order. */
  lemma {:induction false} FillKeepsOrder<S>(out0: Row, specs: ODict<S>, n: nat,
                                             value: (string, S, Row) -> Result<Value>)
    requires n <= |specs.keys|
    requires FillUpTo(out0, specs, n, value).Ok?
    ensures out0.keys <= FillUpTo(out0, specs, n, value).value.keys
  {
    if n > 0 {
      FillOneOk(FillUpTo(out0, specs, n - 1, value), specs.keys[n - 1], specs.vals[specs.keys[n - 1]], value);
      FillKeepsOrder(out0, specs, n - 1, value);
    }
  }

  /** The result's fields are those of `out0` and the filled ones. */
  lemma {:induction false} FillNames<S>(out0: Row, specs: ODict<S>, n: nat,
                                        value: (string, S, Row) -> Result<Value>)
    requires n <= |specs.keys|
    requires FillUpTo(out0, specs, n, value).Ok?
    ensures FillUpTo(out0, specs, n, value).value.vals.Keys == out0.vals.Keys + set j | 0 <= j < n :: specs.keys[j]
  {
    if n > 0 {
      var name := specs.keys[n - 1];
      FillOneOk(FillUpTo(out0, specs, n - 1, value), name, specs.vals[name], value);
      FillNames(out0, specs, n - 1, value);
      assert (set j | 0 <= j < n :: specs.keys[j]) == (set j | 0 <= j < n - 1 :: specs.keys[j]) + {name};
    }
  }

  /** A field of `out0` that no entry names keeps its value. */
  lemma {:induction false} FillKeepsOthers<S>(out0: Row, specs: ODict<S>, n: nat,
                                              value: (string, S, Row) -> Result<Value>)
    requires n <= |specs.keys|
    requires FillUpTo(out0, specs, n, value).Ok?
    ensures out0.vals.Keys <= FillUpTo(out0, specs, n, value).value.vals.Keys
    ensures forall k | k in out0.vals && k !in specs.keys[..n] ::
              FillUpTo(out0, specs, n, value).value.vals[k] == out0.vals[k]
  {
    if n > 0 {
      var name := specs.keys[n - 1];
      FillOneOk(FillUpTo(out0, specs, n - 1, value), name, specs.vals[name], value);
      FillKeepsOthers(out0, specs, n - 1, value);
      FillNames(out0, specs, n, value);
      assert specs.keys[..n] == specs.keys[..n - 1] + [name];
    }
  }

  /**
   * After `n` turns the `j`-th field holds the value computed for it on the
   * dictionary as it stood at its turn.
   */
  predicate FilledAt<S>(out0: Row, specs: ODict<S>, n: nat, j: nat, value: (string, S, Row) -> Result<Value>)
    requires j < n <= |specs.keys|
  {
    && FillUpTo(out0, specs, n, value).Ok?
    && FillUpTo(out0, specs, j, value).Ok?
    && specs.keys[j] in FillUpTo(out0, specs, n, value).value.vals
    && value(specs.keys[j], specs.vals[specs.keys[j]], FillUpTo(out0, specs, j, value).value) ==
       Ok(FillUpTo(out0, specs, n, value).value.vals[specs.keys[j]])
  }

  /** Every filled field keeps its value: the names are distinct, so no later turn overwrites it. */
  lemma {:induction false} FillValues<S>(out0: Row, specs: ODict<S>, n: nat,
                                         value: (string, S, Row) -> Result<Value>)
    requires n <= |specs.keys|
    requires FillUpTo(out0, specs, n, value).Ok?
    ensures forall j | 0 <= j < n :: FilledAt(out0, specs, n, j, value)
  {
    if n > 0 {
      var name := specs.keys[n - 1];
      var acc := FillUpTo(out0, specs, n - 1, value);
      FillOneOk(acc, name, specs.vals[name], value);
      FillValues(out0, specs, n - 1, value);
      KeysDistinct(specs);
      var res := FillUpTo(out0, specs, n, value).value;
      assert res.vals == acc.value.vals[name := res.vals[name]];
      forall j | 0 <= j < n ensures FilledAt(out0, specs, n, j, value) {
        if j < n - 1 {
          assert FilledAt(out0, specs, n - 1, j, value);
          assert specs.keys[j] != name;
        }
      }
    }
  }

  /** Names that `out0` lacks are appended, in declared order. */
  lemma {:induction false} FillAppendsFresh<S>(out0: Row, specs: ODict<S>, n: nat,
                                               value: (string, S, Row) -> Result<Value>)
    requires n <= |specs.keys|
    requires forall j | 0 <= j < n :: specs.keys[j] !in out0.keys
    requires FillUpTo(out0, specs, n, value).Ok?
    ensures FillUpTo(out0, specs, n, value).value.keys == out0.keys + specs.keys[..n]
  {
    if n > 0 {
      var name := specs.keys[n - 1];
      var acc := FillUpTo(out0, specs, n - 1, value);
      FillOneOk(acc, name, specs.vals[name], value);
      FillAppendsFresh(out0, specs, n - 1, value);
      KeysDistinct(specs);
      assert name !in specs.keys[..n - 1];
      assert name !in acc.value.keys;
      assert specs.keys[..n] == specs.keys[..n - 1] + [name];
      AppendAssoc(out0.keys, specs.keys[..n - 1], [name]);
    }
  }

  /** Which keys the loop writes, and in which order, depends only on `out0`'s keys and `specs`. */
  lemma {:induction false} FillKeysIgnoreValues<S>(out1: Row, out2: Row, specs: ODict<S>, n: nat,
                                                   value1: (string, S, Row) -> Result<Value>,
                                                   value2: (string, S, Row) -> Result<Value>)
    requires n <= |specs.keys| && out1.keys == out2.keys
    requires FillUpTo(out1, specs, n, value1).Ok? && FillUpTo(out2, specs, n, value2).Ok?
    ensures FillUpTo(out1, specs, n, value1).value.keys == FillUpTo(out2, specs, n, value2).value.keys
  {
    if n > 0 {
      var name := specs.keys[n - 1];
      FillOneOk(FillUpTo(out1, specs, n - 1, value1), name, specs.vals[name], value1);
      FillOneOk(FillUpTo(out2, specs, n - 1, value2), name, specs.vals[name], value2);
      FillKeysIgnoreValues(out1, out2, specs, n - 1, value1, value2);
      KeysCover(FillUpTo(out1, specs, n - 1, value1).value);
      KeysCover(FillUpTo(out2, specs, n - 1, value2).value);
    }
  }
}
