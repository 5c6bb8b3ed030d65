/** Python's `Counter` as a map to positive counts, and sums over the values of a map. */
module Tally {

  /** `counts[k] += 1` on a `Counter`: a missing key starts at zero. */
  function Inc<K>(m: map<K, nat>, k: K): (m': map<K, nat>)
    ensures m'.Keys == m.Keys + {k}
    ensures m'[k] == (if k in m then m[k] else 0) + 1
    ensures forall j :: j in m && j != k ==> m'[j] == m[j]
  {
    m[k := if k in m then m[k] + 1 else 1]
  }

  /** The sum of the values of `m` over `keys` (Python's `sum(counts.values())` when keys is m.Keys). */
  ghost function Sum<K>(m: map<K, nat>, keys: set<K>): nat
    requires keys <= m.Keys
    decreases keys
  {
    if keys == {} then 0 else var k :| k in keys; m[k] + Sum(m, keys - {k})
  }

  /** The same sum over real values. */
  ghost function SumReal<K>(m: map<K, real>, keys: set<K>): real
    requires keys <= m.Keys
    decreases keys
  {
    if keys == {} then 0.0 else var k :| k in keys; m[k] + SumReal(m, keys - {k})
  }

  /** Any key may be taken out of the sum first. */
  lemma {:induction false} SumPick<K>(m: map<K, nat>, keys: set<K>, x: K)
    requires keys <= m.Keys && x in keys
    ensures Sum(m, keys) == m[x] + Sum(m, keys - {x})
    decreases keys
  {
    var y :| y in keys && Sum(m, keys) == m[y] + Sum(m, keys - {y});
    if y != x {
      SumPick(m, keys - {y}, x);
      SumPick(m, keys - {x}, y);
      assert keys - {y} - {x} == keys - {x} - {y};
    }
  }

  lemma {:induction false} SumRealPick<K>(m: map<K, real>, keys: set<K>, x: K)
    requires keys <= m.Keys && x in keys
    ensures SumReal(m, keys) == m[x] + SumReal(m, keys - {x})
    decreases keys
  {
    var y :| y in keys && SumReal(m, keys) == m[y] + SumReal(m, keys - {y});
    if y != x {
      SumRealPick(m, keys - {y}, x);
      SumRealPick(m, keys - {x}, y);
      assert keys - {y} - {x} == keys - {x} - {y};
    }
  }

  /** The sum depends only on the values at the keys summed over. */
  lemma {:induction false} SumAgree<K>(m1: map<K, nat>, m2: map<K, nat>, keys: set<K>)
    requires keys <= m1.Keys && keys <= m2.Keys
    requires forall j :: j in keys ==> m1[j] == m2[j]
    ensures Sum(m1, keys) == Sum(m2, keys)
    decreases keys
  {
    if keys != {} {
      var k :| k in keys;
      SumPick(m1, keys, k);
      SumPick(m2, keys, k);
      SumAgree(m1, m2, keys - {k});
    }
  }

  /** A key with a positive value makes the sum positive. */
  lemma SumPositive<K>(m: map<K, nat>, x: K)
    requires x in m && m[x] > 0
    ensures Sum(m, m.Keys) > 0
  {
    SumPick(m, m.Keys, x);
  }

  /** One increment adds exactly one to the total of a counter. */
  lemma SumInc<K>(m: map<K, nat>, k: K)
    ensures Sum(Inc(m, k), Inc(m, k).Keys) == Sum(m, m.Keys) + 1
  {
    var m' := Inc(m, k);
    SumPick(m', m'.Keys, k);
    SumAgree(m', m, m'.Keys - {k});
    if k in m {
      SumPick(m, m.Keys, k);
      assert m'.Keys - {k} == m.Keys - {k};
    } else {
      assert m'.Keys - {k} == m.Keys;
    }
  }

  /** Dividing every value by `t` divides the sum by `t`. */
  lemma {:induction false} SumScale<K>(m: map<K, nat>, f: map<K, real>, keys: set<K>, t: real)
    requires keys <= m.Keys && keys <= f.Keys && t != 0.0
    requires forall j :: j in keys ==> f[j] == m[j] as real / t
    ensures SumReal(f, keys) == Sum(m, keys) as real / t
    decreases keys
  {
    if keys != {} {
      var k :| k in keys;
      SumPick(m, keys, k);
      SumRealPick(f, keys, k);
      SumScale(m, f, keys - {k}, t);
      DivAdd(m[k] as real, Sum(m, keys - {k}) as real, t);
    }
  }

  /** `sum(counts.values())`. */
  method SumValues<K>(m: map<K, nat>) returns (total: nat)
    ensures total == Sum(m, m.Keys)
  {
    total := 0;
    var rest := m.Keys;
    while rest != {}
      invariant rest <= m.Keys
      invariant total + Sum(m, rest) == Sum(m, m.Keys)
      decreases rest
    {
      var k :| k in rest;
      SumPick(m, rest, k);
      total := total + m[k];
      rest := rest - {k};
    }
  }

  /** `{k: m[k] / total for k in m}` with `total` the sum of the counts: a share for each key, the shares adding up to one. */
  function RelativeFrequencies<K>(m: map<K, nat>, total: nat): (f: map<K, real>)
    requires total == Sum(m, m.Keys)
    requires forall k :: k in m ==> m[k] > 0
    ensures f.Keys == m.Keys
    ensures forall k :: k in f ==> f[k] == m[k] as real / total as real
    ensures f != map[] ==> SumReal(f, f.Keys) == 1.0
  {
    if m == map[] then map[]
    else
      var k0 :| k0 in m;
      SumPositive(m, k0);
      var f := map k | k in m :: m[k] as real / total as real;
      FrequenciesSumToOne(m, f);
      f
  }

  /** The relative frequencies of a non-empty counter add up to one. */
  lemma FrequenciesSumToOne<K>(m: map<K, nat>, f: map<K, real>)
    requires Sum(m, m.Keys) > 0 && f.Keys == m.Keys
    requires forall k :: k in f ==> f[k] == m[k] as real / Sum(m, m.Keys) as real
    ensures SumReal(f, f.Keys) == 1.0
  {
    var t := Sum(m, m.Keys) as real;
    SumScale(m, f, m.Keys, t);
    DivSelf(t);
  }

  lemma DivSelf(t: real)
    requires t != 0.0
    ensures t / t == 1.0
  {
  }

  lemma DivAdd(a: real, b: real, t: real)
    requires t != 0.0
    ensures a / t + b / t == (a + b) / t
  {
  }
}
