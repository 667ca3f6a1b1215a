/**
 * Insertion-ordered dictionaries with string keys, as the ETL script's rows and
 * policy objects behave: assigning to an existing key keeps its position,
 * assigning to a new key appends it, and `{**a, **b}` copies `a` and then
 * assigns every entry of `b` in `b`'s order.
 */
module Dicts {

  datatype Option<+T> = None | Some(value: T)

  /** The key order and the key-to-value map of a dictionary. */
  datatype Dict<V> = Dict(keys: seq<string>, vals: map<string, V>) {
    /**
     * Keys are distinct and are exactly the keys of `vals`. The first two
     * conjuncts fire only on `KeyAt` and `HasKey` terms; `KeysDistinct` and
     * `KeysCover` state them in plain terms.
     */
    predicate Wf() {
      && Distinct(keys)
      && (forall k {:trigger HasKey(keys, k)} | k in vals :: HasKey(keys, k))
      && (forall i | 0 <= i < |keys| :: keys[i] in vals)
    }
  }

  type ODict<V> = d: Dict<V> | d.Wf() witness Dict([], map[])

  function KeyAt(ks: seq<string>, i: int): string
    requires 0 <= i < |ks|
  {
    ks[i]
  }

  predicate HasKey(ks: seq<string>, k: string) {
    k in ks
  }

  predicate Distinct(ks: seq<string>) {
    forall i, j | 0 <= i < j < |ks| :: KeyAt(ks, i) != KeyAt(ks, j)
  }

  predicate PairwiseDistinct(ks: seq<string>) {
    forall i, j | 0 <= i < j < |ks| :: ks[i] != ks[j]
  }

  lemma DistinctPairwise(ks: seq<string>)
    ensures Distinct(ks) <==> PairwiseDistinct(ks)
  {
    if Distinct(ks) {
      forall i, j | 0 <= i < j < |ks| ensures ks[i] != ks[j] {
        assert KeyAt(ks, i) != KeyAt(ks, j);
      }
    }
  }

  lemma KeysDistinct<V>(d: ODict<V>)
    ensures PairwiseDistinct(d.keys)
  {
    DistinctPairwise(d.keys);
  }

  lemma KeysCover<V>(d: ODict<V>)
    ensures forall k :: k in d.vals <==> k in d.keys
  {
    forall k | k in d.vals ensures k in d.keys {
      assert HasKey(d.keys, k);
    }
  }

  lemma DistinctAppend(xs: seq<string>, ys: seq<string>)
    requires PairwiseDistinct(xs) && PairwiseDistinct(ys)
    requires forall k | k in ys :: k !in xs
    ensures Distinct(xs + ys)
  {
    var zs := xs + ys;
    forall i, j | 0 <= i < j < |zs| ensures zs[i] != zs[j] {
      if i < |xs| <= j {
        assert zs[j] == ys[j - |xs|] && zs[i] == xs[i];
        assert ys[j - |xs|] in ys;
      } else if |xs| <= i {
        assert zs[i] == ys[i - |xs|] && zs[j] == ys[j - |xs|];
      }
    }
    DistinctPairwise(zs);
  }

  function Empty<V>(): (d: ODict<V>)
    ensures d.keys == [] && d.vals == map[]
  {
    Dict([], map[])
  }

  /** `d[k] = v`: the key keeps its place if present and is appended otherwise. */
  function Set<V>(d: ODict<V>, k: string, v: V): (r: ODict<V>)
    ensures r.vals == d.vals[k := v]
    ensures k in d.keys ==> r.keys == d.keys
    ensures k !in d.keys ==> r.keys == d.keys + [k]
  {
    KeysCover(d);
    if k in d.vals then
      var r := Dict(d.keys, d.vals[k := v]);
      assert forall k' | k' in r.vals :: HasKey(r.keys, k');
      r
    else
      var ks := d.keys + [k];
      KeysDistinct(d);
      DistinctAppend(d.keys, [k]);
      var r := Dict(ks, d.vals[k := v]);
      assert forall k' | k' in r.vals :: HasKey(r.keys, k');
      r
  }

  /** Assign `m[ks[0]]`, `m[ks[1]]`, ... to `d` in that order. */
  function SetAll<V>(d: ODict<V>, m: map<string, V>, ks: seq<string>): ODict<V>
    requires forall i | 0 <= i < |ks| :: ks[i] in m
    decreases |ks|
  {
    if ks == [] then d else SetAll(Set(d, ks[0], m[ks[0]]), m, ks[1..])
  }

  /** The keys of `ks` that `m` lacks, in order. */
  function FreshKeys<V>(ks: seq<string>, m: map<string, V>): (r: seq<string>)
    ensures forall k :: k in r <==> k in ks && k !in m
    ensures PairwiseDistinct(ks) ==> PairwiseDistinct(r)
    decreases |ks|
  {
    if ks == [] then []
    else if ks[0] in m then FreshKeys(ks[1..], m)
    else [ks[0]] + FreshKeys(ks[1..], m)
  }

  /** `{**a, **b}`: `a`'s keys, then `b`'s new ones; `b`'s values win. */
  function Union<V>(a: ODict<V>, b: ODict<V>): (r: ODict<V>)
    ensures r.vals == a.vals + b.vals
    ensures a.keys <= r.keys
  {
    var ks := a.keys + FreshKeys(b.keys, a.vals);
    KeysDistinct(a);
    KeysDistinct(b);
    KeysCover(a);
    KeysCover(b);
    DistinctAppend(a.keys, FreshKeys(b.keys, a.vals));
    var r := Dict(ks, a.vals + b.vals);
    assert forall k | k in r.vals :: HasKey(r.keys, k);
    r
  }

  /** The entries of `m` at the keys `ks`. */
  function Restrict<V>(m: map<string, V>, ks: seq<string>): (r: map<string, V>)
    ensures forall k :: k in r <==> k in m && k in ks
    ensures forall k | k in r :: r[k] == m[k]
  {
    map k | k in m && k in ks :: m[k]
  }

  lemma RestrictCons<V>(m: map<string, V>, ks: seq<string>)
    requires ks != [] && ks[0] in m
    ensures Restrict(m, ks) == Restrict(m, ks[1..])[ks[0] := m[ks[0]]]
  {
    assert ks == [ks[0]] + ks[1..];
  }

  lemma UpdateThenUnion<V>(a: map<string, V>, k: string, v: V, b: map<string, V>)
    requires k in b ==> b[k] == v
    ensures a[k := v] + b == a + b[k := v]
  {
    var l, r := a[k := v] + b, a + b[k := v];
    assert l.Keys == r.Keys;
    forall x | x in l ensures l[x] == r[x] { }
  }

  lemma {:induction false} SetAllValues<V>(d: ODict<V>, m: map<string, V>, ks: seq<string>)
    requires forall i | 0 <= i < |ks| :: ks[i] in m
    ensures SetAll(d, m, ks).vals == d.vals + Restrict(m, ks)
    decreases |ks|
  {
    if ks != [] {
      var d' := Set(d, ks[0], m[ks[0]]);
      SetAllValues(d', m, ks[1..]);
      RestrictCons(m, ks);
      UpdateThenUnion(d.vals, ks[0], m[ks[0]], Restrict(m, ks[1..]));
    }
  }

  lemma {:induction false} SetAllKeys<V>(d: ODict<V>, m: map<string, V>, ks: seq<string>)
    requires forall i | 0 <= i < |ks| :: ks[i] in m
    ensures d.keys <= SetAll(d, m, ks).keys
    decreases |ks|
  {
    if ks != [] {
      SetAllKeys(Set(d, ks[0], m[ks[0]]), m, ks[1..]);
    }
  }

  lemma {:induction false} FreshKeysIgnoresOthers<V>(ks: seq<string>, m: map<string, V>, k: string, v: V)
    requires k !in ks
    ensures FreshKeys(ks, m[k := v]) == FreshKeys(ks, m)
    decreases |ks|
  {
    if ks != [] {
      assert k !in ks[1..];
      FreshKeysIgnoresOthers(ks[1..], m, k, v);
    }
  }

  lemma DistinctTail(ks: seq<string>)
    requires ks != [] && PairwiseDistinct(ks)
    ensures PairwiseDistinct(ks[1..]) && ks[0] !in ks[1..]
  {
    forall i | 0 <= i < |ks| - 1 ensures ks[1..][i] != ks[0] { assert ks[1..][i] == ks[i + 1]; }
  }

  /** Two sequences with the same suffix appended are equal only if they were equal. */
  lemma CancelSuffix<T>(a: seq<T>, b: seq<T>, c: seq<T>)
    requires a + c == b + c
    ensures a == b
  {
    assert |a| == |b|;
    assert a == (a + c)[..|a|];
    assert b == (b + c)[..|b|];
  }

  lemma AppendAssoc<T>(a: seq<T>, b: seq<T>, c: seq<T>)
    ensures (a + b) + c == a + (b + c)
  {
    var l, r := (a + b) + c, a + (b + c);
    assert |l| == |r|;
    forall i | 0 <= i < |l| ensures l[i] == r[i] {
      if i < |a| {
        assert l[i] == a[i] && r[i] == a[i];
      } else if i < |a| + |b| {
        assert l[i] == b[i - |a|] && r[i] == b[i - |a|];
      } else {
        assert l[i] == c[i - |a| - |b|] && r[i] == c[i - |a| - |b|];
      }
    }
  }

  /** One assignment followed by the fresh keys of the rest is the fresh keys of all. */
  lemma SetThenFresh<V>(d: ODict<V>, k: string, v: V, rest: seq<string>)
    requires k !in rest
    ensures Set(d, k, v).keys + FreshKeys(rest, Set(d, k, v).vals) == d.keys + FreshKeys([k] + rest, d.vals)
  {
    FreshKeysIgnoresOthers(rest, d.vals, k, v);
    KeysCover(d);
    var ks := [k] + rest;
    assert ks[0] == k && ks[1..] == rest;
    if k in d.vals {
      assert FreshKeys(ks, d.vals) == FreshKeys(rest, d.vals);
      assert Set(d, k, v).keys == d.keys;
    } else {
      var f := FreshKeys(rest, d.vals);
      assert FreshKeys(ks, d.vals) == [k] + f;
      assert Set(d, k, v).keys == d.keys + [k];
      AppendAssoc(d.keys, [k], f);
    }
  }

  /** Copying `d` and assigning `m`'s entries at `ks` one by one gives the direct definition. */
  lemma {:induction false} SetAllIsDirect<V>(d: ODict<V>, m: map<string, V>, ks: seq<string>)
    requires PairwiseDistinct(ks) && forall i | 0 <= i < |ks| :: ks[i] in m
    ensures SetAll(d, m, ks).keys == d.keys + FreshKeys(ks, d.vals)
    decreases |ks|
  {
    if ks != [] {
      DistinctTail(ks);
      SetAllIsDirect(Set(d, ks[0], m[ks[0]]), m, ks[1..]);
      SetThenFresh(d, ks[0], m[ks[0]], ks[1..]);
      assert [ks[0]] + ks[1..] == ks;
    }
  }

  lemma RestrictToOwnKeys<V>(b: ODict<V>)
    ensures Restrict(b.vals, b.keys) == b.vals
  {
    KeysCover(b);
  }

  /** `{**a, **b}` is `a` followed by `b`'s assignments in `b`'s order. */
  lemma UnionIsSequentialAssignment<V>(a: ODict<V>, b: ODict<V>)
    ensures Union(a, b) == SetAll(a, b.vals, b.keys)
  {
    KeysDistinct(b);
    assert forall i | 0 <= i < |b.keys| :: b.keys[i] in b.vals;
    SetAllIsDirect(a, b.vals, b.keys);
    SetAllValues(a, b.vals, b.keys);
    RestrictToOwnKeys(b);
    var u, s := Union(a, b), SetAll(a, b.vals, b.keys);
    assert u.keys == s.keys && u.vals == s.vals;
  }
}
