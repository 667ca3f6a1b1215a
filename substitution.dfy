/**
 * How `transform_row` turns a computed field's expression into the text it
 * evaluates: for each name of the namespace, in the namespace's order, every
 * occurrence of the name in the text so far is replaced by the printed value
 * (`None` printed as `0`).
 */
module Substitution {
  import opened Dicts
  import opened Values

  /** `t` occurs in `s` at position `i`. */
  predicate OccursAt(s: string, t: string, i: int) {
    0 <= i && i + |t| <= |s| && s[i..i + |t|] == t
  }

  /** `"".replace("", x)` style: `x` before every character and at the end. */
  function InsertAround(s: string, x: string): (r: string)
    ensures |r| == |s| + (|s| + 1) * |x|
    decreases |s|
  {
    if s == [] then x else x + [s[0]] + InsertAround(s[1..], x)
  }

  /**
   * Python's `s.replace(pat, rep)`: non-overlapping occurrences of `pat`,
   * left to right, each replaced by `rep`.
   */
  function Replace(s: string, pat: string, rep: string): (r: string)
    ensures |pat| == |rep| ==> |r| == |s|
    decreases |s|
  {
    if pat == [] then InsertAround(s, rep)
    else if |s| < |pat| then s
    else if s[..|pat|] == pat then rep + Replace(s[|pat|..], pat, rep)
    else [s[0]] + Replace(s[1..], pat, rep)
  }

  /** Replacing a string by itself changes nothing. */
  lemma {:induction false} ReplaceSelf(s: string, pat: string)
    ensures Replace(s, pat, pat) == s
    decreases |s|
  {
    if pat == [] {
      InsertAroundEmpty(s);
    } else if |s| >= |pat| {
      if s[..|pat|] == pat {
        ReplaceSelf(s[|pat|..], pat);
        assert s == s[..|pat|] + s[|pat|..];
      } else {
        ReplaceSelf(s[1..], pat);
        assert s == [s[0]] + s[1..];
      }
    }
  }

  lemma {:induction false} InsertAroundEmpty(s: string)
    ensures InsertAround(s, "") == s
    decreases |s|
  {
    if s != [] {
      InsertAroundEmpty(s[1..]);
      assert s == [s[0]] + s[1..];
    }
  }

  /** A nonempty `pat` that does not occur in `s` leaves `s` as it is. */
  lemma {:induction false} ReplaceAbsent(s: string, pat: string, rep: string)
    requires pat != []
    requires forall i :: !OccursAt(s, pat, i)
    ensures Replace(s, pat, rep) == s
    decreases |s|
  {
    if |s| >= |pat| {
      assert !OccursAt(s, pat, 0);
      assert s[..|pat|] != pat;
      forall i ensures !OccursAt(s[1..], pat, i) {
        if OccursAt(s[1..], pat, i) {
          assert s[1..][i..i + |pat|] == s[i + 1..i + 1 + |pat|];
          assert OccursAt(s, pat, i + 1);
        }
      }
      ReplaceAbsent(s[1..], pat, rep);
      assert s == [s[0]] + s[1..];
    }
  }

  /** Replacing the whole text gives the replacement. */
  lemma ReplaceWhole(pat: string, rep: string)
    requires pat != []
    ensures Replace(pat, pat, rep) == rep
  {
    assert pat[..|pat|] == pat;
    assert pat[|pat|..] == [];
  }

  /** `str(0 if v is None else v)`. */
  function Printed(v: Value): (r: string)
    ensures v == Null ==> r == "0"
  {
    if v == Null then Stringify(Int(0)) else Stringify(v)
  }

  /** Every occurrence in `text` of the `j`-th name of `ns` replaced by its printed value. */
  function ReplaceName(text: string, ns: Row, j: nat): string
    requires j < |ns.keys|
  {
    Replace(text, ns.keys[j], Printed(ns.vals[ns.keys[j]]))
  }

  /** The text after the first `n` names of `ns` have been substituted into `expr`. */
  function SubstituteUpTo(expr: string, ns: Row, n: nat): string
    requires n <= |ns.keys|
  {
    if n == 0 then expr else ReplaceName(SubstituteUpTo(expr, ns, n - 1), ns, n - 1)
  }

  function Substitute(expr: string, ns: Row): string {
    SubstituteUpTo(expr, ns, |ns.keys|)
  }

  /** One more name of the namespace is substituted into the text so far. */
  lemma SubstituteStep(expr: string, ns: Row, k: nat)
    requires k < |ns.keys|
    ensures SubstituteUpTo(expr, ns, k + 1) == ReplaceName(SubstituteUpTo(expr, ns, k), ns, k)
  {
  }

  /** An expression that mentions no name of the namespace is evaluated as written. */
  lemma {:induction false} SubstituteNoNames(expr: string, ns: Row, n: nat)
    requires n <= |ns.keys|
    requires forall j | 0 <= j < n :: ns.keys[j] != [] && forall i :: !OccursAt(expr, ns.keys[j], i)
    ensures SubstituteUpTo(expr, ns, n) == expr
  {
    if n > 0 {
      SubstituteNoNames(expr, ns, n - 1);
      ReplaceAbsent(expr, ns.keys[n - 1], Printed(ns.vals[ns.keys[n - 1]]));
    }
  }

  /** An expression that is just one name becomes that field's printed value. */
  lemma SubstituteOneName(name: string, v: Value)
    requires name != []
    ensures Substitute(name, Set(Empty(), name, v)) == Printed(v)
  {
    var ns := Set(Empty<Value>(), name, v);
    assert ns.keys == [name] && ns.vals[name] == v;
    assert SubstituteUpTo(name, ns, 0) == name;
    ReplaceWhole(name, Printed(v));
    assert SubstituteUpTo(name, ns, 1) == Replace(name, name, Printed(v));
  }
}
