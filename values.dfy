/**
 * The scalar values that flow through the ETL script (what the MySQL driver
 * returns for a row), rows as ordered dictionaries of them, Python's
 * truthiness and `str()` on them, and the errors the script can raise.
 */
module Values {
  import opened Dicts

  /** A calendar date as Python's `datetime.date` holds it. */
  datatype Date = Date(year: int, month: int, day: int)

  predicate IsLeapYear(y: int) {
    y % 4 == 0 && (y % 100 != 0 || y % 400 == 0)
  }

  function DaysInMonth(y: int, m: int): int {
    if m == 2 then (if IsLeapYear(y) then 29 else 28)
    else if m == 4 || m == 6 || m == 9 || m == 11 then 30
    else 31
  }

  /** `datetime.date` only admits years 1..9999 and real days of real months. */
  predicate ValidDate(d: Date) {
    1 <= d.year <= 9999 && 1 <= d.month <= 12 && 1 <= d.day <= DaysInMonth(d.year, d.month)
  }

  type CalendarDate = d: Date | ValidDate(d) witness Date(1, 1, 1)

  /** `(a.month, a.day) < (b.month, b.day)`, Python's lexicographic tuple order. */
  predicate MonthDayBefore(a: Date, b: Date) {
    a.month < b.month || (a.month == b.month && a.day < b.day)
  }

  /** Lexicographic order on (year, month, day). */
  predicate Before(a: Date, b: Date) {
    a.year < b.year || (a.year == b.year && MonthDayBefore(a, b))
  }

  datatype Value = Null | Str(s: string) | Int(i: int) | DateV(d: CalendarDate)

  type Row = ODict<Value>

  /** `row.get(k)`: a missing key reads as `None`. */
  function Field(row: Row, k: string): (v: Value)
    ensures k !in row.vals ==> v == Null
    ensures k in row.vals ==> v == row.vals[k]
  {
    if k in row.vals then row.vals[k] else Null
  }

  /** Python truthiness: `None`, `""` and `0` are false; every date is true. */
  predicate Truthy(v: Value) {
    match v
    case Null => false
    case Str(s) => s != ""
    case Int(i) => i != 0
    case DateV(_) => true
  }

  /** The errors the script raises; each aborts the run. */
  datatype Error =
    | UnknownAction(action: Option<string>)
    | UnknownHashMethod(hashUsing: Option<string>)
    | UnknownTransform(transformUsing: Option<string>)
    | MissingKey(key: string)   // KeyError
    | TypeMismatch              // AttributeError / TypeError on a value of the wrong type
    | IndexOutOfRange           // IndexError
    | EvalFailed                // raised by the computed-field evaluator
    | QueryFailed               // raised by the database for a malformed query

  datatype Result<+T> = Ok(value: T) | Err(error: Error)

  datatype Outcome = Done | Failed(error: Error)

  // ---- str() ----

  function DigitChar(n: int): char
    requires 0 <= n < 10
  {
    "0123456789"[n]
  }

  predicate IsDigitChar(c: char) {
    '0' <= c <= '9'
  }

  function DigitValue(c: char): int
    requires IsDigitChar(c)
  {
    c as int - '0' as int
  }

  /** Decimal digits of a natural number, most significant first, no leading zeros. */
  function NatDigits(n: nat): (s: string)
    ensures |s| > 0 && forall i | 0 <= i < |s| :: IsDigitChar(s[i])
    decreases n
  {
    if n < 10 then [DigitChar(n)] else NatDigits(n / 10) + [DigitChar(n % 10)]
  }

  /** The number a string of decimal digits denotes. */
  function DigitsValue(s: string): nat
    requires forall i | 0 <= i < |s| :: IsDigitChar(s[i])
    decreases |s|
  {
    if s == [] then 0 else DigitsValue(s[..|s| - 1]) * 10 + DigitValue(s[|s| - 1])
  }

  lemma {:induction false} NatDigitsValue(n: nat)
    ensures DigitsValue(NatDigits(n)) == n
    decreases n
  {
    if n >= 10 {
      NatDigitsValue(n / 10);
      var s := NatDigits(n);
      assert s[..|s| - 1] == NatDigits(n / 10);
    }
  }

  /** `str(i)` for an int. */
  function IntString(i: int): string {
    if i < 0 then "-" + NatDigits(-i) else NatDigits(i)
  }

  /** An optional minus sign followed by at least one decimal digit. */
  predicate IntLiteral(s: string) {
    && |s| > 0
    && (forall i | 1 <= i < |s| :: IsDigitChar(s[i]))
    && (IsDigitChar(s[0]) || (s[0] == '-' && |s| > 1))
  }

  /** `int(s)` on an integer literal. */
  function ParseInt(s: string): int
    requires IntLiteral(s)
  {
    if s[0] == '-' then -(DigitsValue(s[1..]) as int) else DigitsValue(s)
  }

  lemma NegativeLiteral(n: nat)
    requires n > 0
    ensures IntLiteral("-" + NatDigits(n)) && ParseInt("-" + NatDigits(n)) == -(n as int)
  {
    var t := NatDigits(n);
    var s := "-" + t;
    assert s[1..] == t;
    forall k | 1 <= k < |s| ensures IsDigitChar(s[k]) {
      assert s[k] == t[k - 1];
    }
    NatDigitsValue(n);
  }

  lemma PlainLiteral(n: nat)
    ensures IntLiteral(NatDigits(n)) && ParseInt(NatDigits(n)) == n
  {
    var s := NatDigits(n);
    assert IsDigitChar(s[0]) && s[0] != '-';
    NatDigitsValue(n);
  }

  /** Reading back `str(i)` gives `i`, so distinct ints print differently. */
  lemma IntStringRoundTrip(i: int)
    ensures IntLiteral(IntString(i))
    ensures ParseInt(IntString(i)) == i
  {
    if i < 0 {
      NegativeLiteral(-i);
      assert IntString(i) == "-" + NatDigits(-i);
    } else {
      PlainLiteral(i);
      assert IntString(i) == NatDigits(i);
    }
  }

  lemma IntStringInjective(a: int, b: int)
    ensures IntString(a) == IntString(b) ==> a == b
  {
    IntStringRoundTrip(a);
    IntStringRoundTrip(b);
  }

  /** Left-pads with '0' to at least `width` characters (`%0Nd`). */
  function ZeroPad(s: string, width: nat): (r: string)
    ensures |r| == if |s| >= width then |s| else width
    ensures r[|r| - |s|..] == s
    ensures forall i | 0 <= i < |r| - |s| :: r[i] == '0'
    decreases width - |s|
  {
    if |s| >= width then s else ZeroPad(['0'] + s, width)
  }

  /** `str(d)` for a date: ISO format `YYYY-MM-DD`. */
  function DateString(d: CalendarDate): string {
    ZeroPad(NatDigits(d.year), 4) + "-" + ZeroPad(NatDigits(d.month), 2) + "-" +
      ZeroPad(NatDigits(d.day), 2)
  }

  /** Python's `str(v)`. */
  function Stringify(v: Value): string {
    match v
    case Null => "None"
    case Str(s) => s
    case Int(i) => IntString(i)
    case DateV(d) => DateString(d)
  }
}
