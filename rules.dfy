/**
 * The rule evaluator: `apply_rule` and the pure helpers it dispatches to
 * (`sha256_hex`, `age_bin`, `date_key` and the inline prefix of three).
 */
module Rules {
  import opened Dicts
  import opened Values
  import opened Policy

  const Remove: string := "remove"
  const Keep: string := "keep"
  const Alias: string := "alias"
  const Hash: string := "hash"
  const Transform: string := "transform"

  const Actions: set<string> := {Remove, Keep, Alias, Hash, Transform}

  /** What one rule contributes to the output row: nothing, or one named value. */
  datatype Emission = NoEmission | Emit(name: string, value: Value)

  function EmittedName(e: Emission): Option<string> {
    if e.Emit? then Some(e.name) else None
  }

  // ---- date_key ----

  /** The date as the integer whose decimal digits are `YYYYMMDD`. */
  function DateKeyOf(d: CalendarDate): int {
    d.year * 10000 + d.month * 100 + d.day
  }

  /** `date_key`: `None` for a falsy value; only a date has `strftime`. */
  function DateKey(v: Value): (r: Result<Value>)
    ensures !Truthy(v) ==> r == Ok(Null)
    ensures r.Err? <==> Truthy(v) && !v.DateV?
    ensures v.DateV? ==> r == Ok(Int(DateKeyOf(v.d)))
  {
    if !Truthy(v) then Ok(Null)
    else if v.DateV? then Ok(Int(DateKeyOf(v.d)))
    else Err(TypeMismatch)
  }

  lemma DivModUnique(k: int, q: int, r: int, b: int)
    requires 0 < b && 0 <= r < b && k == q * b + r
    ensures k / b == q && k % b == r
  {
    var q', r' := k / b, k % b;
    assert (q - q') * b == r' - r;
    if q > q' {
      MulAtLeast(q - q', b);
    } else if q < q' {
      MulAtLeast(q' - q, b);
    }
  }

  lemma MulAtLeast(x: int, b: int)
    requires x >= 1 && b > 0
    ensures x * b >= b
  {
  }

  /** The key's digit groups give back the year, month and day. */
  lemma DateKeyFields(d: CalendarDate)
    ensures DateKeyOf(d) / 10000 == d.year
    ensures DateKeyOf(d) / 100 % 100 == d.month
    ensures DateKeyOf(d) % 100 == d.day
  {
    var k := DateKeyOf(d);
    DivModUnique(k, d.year, d.month * 100 + d.day, 10000);
    DivModUnique(k, d.year * 100 + d.month, d.day, 100);
    DivModUnique(d.year * 100 + d.month, d.year, d.month, 100);
  }

  /** Years from 1000 on give exactly eight digits. */
  lemma DateKeyEightDigits(d: CalendarDate)
    requires d.year >= 1000
    ensures 10000000 <= DateKeyOf(d) < 100000000
  {
  }

  /** Distinct dates have distinct keys, and keys sort as the dates do. */
  lemma DateKeyOrder(a: CalendarDate, b: CalendarDate)
    ensures DateKeyOf(a) == DateKeyOf(b) <==> a == b
    ensures DateKeyOf(a) < DateKeyOf(b) <==> Before(a, b)
  {
    DateKeyFields(a);
    DateKeyFields(b);
  }

  // ---- age_bin ----

  /** Whole years from `dob` to `today`: one less when the birthday is still to come. */
  function AgeYears(dob: Date, today: Date): int {
    (today.year - dob.year) - (if MonthDayBefore(today, dob) then 1 else 0)
  }

  /** The `n`-th birthday as a (year, month, day) triple. */
  function Anniversary(dob: Date, n: int): Date {
    Date(dob.year + n, dob.month, dob.day)
  }

  /** `AgeYears` is the number of birthdays reached: the last one is not after today, the next one is. */
  lemma AgeYearsCountsBirthdays(dob: Date, today: Date, n: int)
    ensures n == AgeYears(dob, today) <==>
      (!Before(today, Anniversary(dob, n)) && Before(today, Anniversary(dob, n + 1)))
  {
  }

  function AgeBucket(years: int): string {
    if years < 18 then "<18"
    else if years <= 24 then "18-24"
    else if years <= 34 then "25-34"
    else if years <= 44 then "35-44"
    else if years <= 64 then "45-64"
    else "65+"
  }

  /** The age range a band stands for. */
  predicate InBand(band: string, years: int) {
    || (band == "<18" && years < 18)
    || (band == "18-24" && 18 <= years <= 24)
    || (band == "25-34" && 25 <= years <= 34)
    || (band == "35-44" && 35 <= years <= 44)
    || (band == "45-64" && 45 <= years <= 64)
    || (band == "65+" && 65 <= years)
  }

  /** Every age falls in exactly one band, the one `AgeBucket` names. */
  lemma AgeBucketIsBand(years: int)
    ensures forall band :: AgeBucket(years) == band <==> InBand(band, years)
  {
  }

  /**
   * `age_bin`: `None` for a falsy value; only a date has `.year`. The three
   * `today()` calls of the code are one `today` here.
   */
  function AgeBin(v: Value, today: CalendarDate): (r: Result<Value>)
    ensures !Truthy(v) ==> r == Ok(Null)
    ensures r.Err? <==> Truthy(v) && !v.DateV?
    ensures v.DateV? ==> r.Ok? && r.value.Str? && InBand(r.value.s, AgeYears(v.d, today))
  {
    if !Truthy(v) then Ok(Null)
    else if v.DateV? then Ok(Str(AgeBucket(AgeYears(v.d, today))))
    else Err(TypeMismatch)
  }

  /** Born exactly 18 years ago today: already 18. */
  lemma AgeBinEighteenToday(dob: CalendarDate, today: CalendarDate)
    requires dob == Date(today.year - 18, today.month, today.day)
    ensures AgeBin(DateV(dob), today) == Ok(Str("18-24"))
  {
  }

  /** Turning 18 later this year: still under 18. */
  lemma AgeBinEighteenLaterThisYear(dob: CalendarDate, today: CalendarDate)
    requires dob.year == today.year - 18 && MonthDayBefore(today, dob)
    ensures AgeBin(DateV(dob), today) == Ok(Str("<18"))
  {
  }

  // ---- prefix3 ----

  /** `(value or "")[:3]`: slicing is only defined on strings. */
  function Prefix3(v: Value): (r: Result<Value>)
    ensures r.Ok? <==> !Truthy(v) || v.Str?
    ensures r.Ok? ==> r.value.Str? && |r.value.s| <= 3
    ensures v.Str? ==> r.value.s <= v.s
    ensures v.Str? ==> |r.value.s| == if |v.s| < 3 then |v.s| else 3
    ensures !Truthy(v) ==> r == Ok(Str(""))
  {
    if !Truthy(v) then Ok(Str(""))
    else if v.Str? then Ok(Str(if |v.s| <= 3 then v.s else v.s[..3]))
    else Err(TypeMismatch)
  }

  // ---- hash ----

  /** What is hashed: `''` for `None`, `str(value)` otherwise. */
  function HashInput(v: Value): string {
    if v == Null then "" else Stringify(v)
  }

  /** `f"{SALT}:{...}"`. */
  function SaltedInput(salt: string, v: Value): string {
    salt + ":" + HashInput(v)
  }

  /** The digest a `hash` rule emits; the method must be one of the two known ones. */
  function HashValue(v: Value, using: Option<string>, env: Env): (r: Result<Value>)
    ensures r.Ok? <==> using == Some("sha256_salted") || using == Some("sha256")
    ensures r.Err? ==> r.error == UnknownHashMethod(using)
    ensures r.Ok? ==> r.value.Str?
  {
    if using == Some("sha256_salted") then Ok(Str(env.sha256Hex(SaltedInput(env.salt, v))))
    else if using == Some("sha256") then Ok(Str(env.sha256Hex(HashInput(v))))
    else Err(UnknownHashMethod(using))
  }

  /** `None` and `""` hash alike, under either method. */
  lemma NullHashesAsEmpty(using: Option<string>, env: Env)
    ensures HashValue(Null, using, env) == HashValue(Str(""), using, env)
  {
  }

  /** Under one value, two different salts give two different digest inputs. */
  lemma {:induction false} SaltedInputSeparatesSalts(salt1: string, salt2: string, v: Value)
    ensures SaltedInput(salt1, v) == SaltedInput(salt2, v) <==> salt1 == salt2
  {
    if SaltedInput(salt1, v) == SaltedInput(salt2, v) {
      var tail := ":" + HashInput(v);
      AppendAssoc(salt1, ":", HashInput(v));
      AppendAssoc(salt2, ":", HashInput(v));
      CancelSuffix(salt1, salt2, tail);
    }
  }

  /** The salted input never equals the unsalted one. */
  lemma SaltedInputIsNotPlain(salt: string, v: Value)
    ensures SaltedInput(salt, v) != HashInput(v)
  {
    assert |SaltedInput(salt, v)| > |HashInput(v)|;
  }

  /** Two ints whose digests are computed from the same input are equal ints. */
  lemma IntHashInputInjective(a: int, b: int)
    ensures HashInput(Int(a)) == HashInput(Int(b)) <==> a == b
  {
    IntStringInjective(a, b);
  }

  // ---- transform ----

  /** The value a `transform` rule emits: a falsy value never makes a known transform fail. */
  function TransformValue(v: Value, using: Option<string>, today: CalendarDate): (r: Result<Value>)
    ensures using !in {Some("age_bin"), Some("prefix3"), Some("date_key")} ==> r == Err(UnknownTransform(using))
    ensures using in {Some("age_bin"), Some("date_key")} && !Truthy(v) ==> r == Ok(Null)
    ensures using == Some("prefix3") && !Truthy(v) ==> r == Ok(Str(""))
  {
    if using == Some("age_bin") then AgeBin(v, today)
    else if using == Some("prefix3") then Prefix3(v)
    else if using == Some("date_key") then DateKey(v)
    else Err(UnknownTransform(using))
  }

  // ---- apply_rule ----

  /**
   * `apply_rule(value, rule, src_col)`. `alias`, `hash` and `transform` read
   * `rule["emit_as"]` before anything else can fail.
   */
  function ApplyRule(value: Value, rule: Rule, srcCol: string, env: Env): (r: Result<Emission>)
    ensures (r.Ok? && r.value.NoEmission?) <==> rule.action == Some(Remove)
    ensures r.Ok? ==> rule.action.Some? && rule.action.value in Actions
    ensures rule.action.None? || rule.action.value !in Actions ==>
              r == Err(UnknownAction(rule.action))
    ensures rule.action == Some(Keep) ==> r == Ok(Emit(srcCol, value))
    ensures rule.action == Some(Alias) && rule.emitAs.Some? ==> r == Ok(Emit(rule.emitAs.value, value))
    ensures rule.action in {Some(Alias), Some(Hash), Some(Transform)} ==>
              (rule.emitAs.None? ==> r == Err(MissingKey("emit_as"))) &&
              (r.Ok? ==> r.value.Emit? && r.value.name == rule.emitAs.value)
  {
    if rule.action == Some(Remove) then Ok(NoEmission)
    else if rule.action == Some(Keep) then Ok(Emit(srcCol, value))
    else if rule.action == Some(Alias) then
      if rule.emitAs.None? then Err(MissingKey("emit_as")) else Ok(Emit(rule.emitAs.value, value))
    else if rule.action == Some(Hash) then
      if rule.emitAs.None? then Err(MissingKey("emit_as"))
      else match HashValue(value, rule.using, env)
        case Ok(h) => Ok(Emit(rule.emitAs.value, h))
        case Err(e) => Err(e)
    else if rule.action == Some(Transform) then
      if rule.emitAs.None? then Err(MissingKey("emit_as"))
      else match TransformValue(value, rule.using, env.today)
        case Ok(t) => Ok(Emit(rule.emitAs.value, t))
        case Err(e) => Err(e)
    else Err(UnknownAction(rule.action))
  }

  /** A `hash` rule emits the digest of the (salted) input, or fails on any other method. */
  lemma HashRule(value: Value, rule: Rule, srcCol: string, env: Env)
    requires rule.action == Some(Hash) && rule.emitAs.Some?
    ensures rule.using == Some("sha256_salted") ==>
              ApplyRule(value, rule, srcCol, env) ==
                Ok(Emit(rule.emitAs.value, Str(env.sha256Hex(env.salt + ":" + HashInput(value)))))
    ensures rule.using == Some("sha256") ==>
              ApplyRule(value, rule, srcCol, env) ==
                Ok(Emit(rule.emitAs.value, Str(env.sha256Hex(HashInput(value)))))
    ensures rule.using !in {Some("sha256_salted"), Some("sha256")} ==>
              ApplyRule(value, rule, srcCol, env) == Err(UnknownHashMethod(rule.using))
  {
  }

  /** A `transform` rule emits the named helper's result, or fails on an unknown helper. */
  lemma TransformRule(value: Value, rule: Rule, srcCol: string, env: Env)
    requires rule.action == Some(Transform) && rule.emitAs.Some?
    ensures rule.using == Some("age_bin") ==>
              ApplyRule(value, rule, srcCol, env) ==
                (match AgeBin(value, env.today)
                 case Ok(v) => Ok(Emit(rule.emitAs.value, v))
                 case Err(e) => Err(e))
    ensures rule.using == Some("prefix3") ==>
              ApplyRule(value, rule, srcCol, env) ==
                (match Prefix3(value)
                 case Ok(v) => Ok(Emit(rule.emitAs.value, v))
                 case Err(e) => Err(e))
    ensures rule.using == Some("date_key") ==>
              ApplyRule(value, rule, srcCol, env) ==
                (match DateKey(value)
                 case Ok(v) => Ok(Emit(rule.emitAs.value, v))
                 case Err(e) => Err(e))
    ensures rule.using !in {Some("age_bin"), Some("prefix3"), Some("date_key")} ==>
              ApplyRule(value, rule, srcCol, env) == Err(UnknownTransform(rule.using))
  {
  }

  /** Whether a rule emits, and under which name, does not depend on the value. */
  lemma EmittedNameIgnoresValue(v1: Value, v2: Value, rule: Rule, srcCol: string, env: Env)
    requires ApplyRule(v1, rule, srcCol, env).Ok? && ApplyRule(v2, rule, srcCol, env).Ok?
    ensures EmittedName(ApplyRule(v1, rule, srcCol, env).value) ==
            EmittedName(ApplyRule(v2, rule, srcCol, env).value)
  {
  }
}
