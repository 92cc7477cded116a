/** Frequencies: counts divided by a total.  `analyze` divides each author's
    counts by their sum (`identity`); `find_author` divides the unknown
    work's counts by the number of grams it saw (`oeuvreGramCount`), which
    for order 1 includes the short words that were dropped. */
module Frequencies {
  import opened Dicts
  import opened Ngrams
  import opened Cosine
  import opened Sorting

  type Freqs = Dict<string, real>

  /** `for word in d: r[word] = d[word] / total`; no division happens when d
      is empty, so total may then be 0. */
  function Divide(d: Counts, total: int): (r: Freqs)
    requires WellFormed(d) && (d.keys != [] ==> total != 0)
    ensures WellFormed(r) && r.keys == d.keys && r.vals.Keys == d.vals.Keys
  {
    Dict(d.keys, map k | k in d.vals :: d.vals[k] as real / total as real)
  }

  /** `sum(m.values())` over the keys ks. */
  function RealSum(ks: seq<string>, m: map<string, real>): real
    requires HasValues(ks, m)
    decreases |ks|
  {
    if ks == [] then 0.0 else RealSum(ks[..|ks| - 1], m) + m[ks[|ks| - 1]]
  }

  /** The frequency vector of `identity[author]`: every count divided by
      the sum of the counts. */
  function Identity(d: Counts): (r: Freqs)
    requires WellFormed(d) && Positive(d)
    ensures WellFormed(r) && r.keys == d.keys && r.vals.Keys == d.vals.Keys
  {
    TotalAtLeast(d.keys, d.vals);
    Divide(d, CountSum(d))
  }

  /** Counts of at least 1 sum to at least the number of keys. */
  lemma {:induction false} TotalAtLeast(ks: seq<string>, m: map<string, int>)
    requires forall i :: 0 <= i < |ks| ==> ks[i] in m && m[ks[i]] >= 1
    ensures Total(ks, m, false) >= |ks|
    decreases |ks|
  {
    if ks != [] {
      TotalAtLeast(ks[..|ks| - 1], m);
    }
  }

  lemma DivStep(s: real, a: real, c: real, t: real)
    requires t != 0.0 && s == a / t
    ensures s + c / t == (a + c) / t
  {
  }

  /** The divided values sum to the counts' total divided by the same
      number. */
  lemma {:induction false} DivideTotal(ks: seq<string>, d: Counts, t: int)
    requires WellFormed(d) && t != 0 && HasValues(ks, d.vals)
    ensures HasValues(ks, Divide(d, t).vals)
    ensures RealSum(ks, Divide(d, t).vals) == (Total(ks, d.vals, false) as real) / (t as real)
    decreases |ks|
  {
    var r := Divide(d, t);
    if ks != [] {
      var init, k := ks[..|ks| - 1], ks[|ks| - 1];
      DivideTotal(init, d, t);
      DivStep(RealSum(init, r.vals), Total(init, d.vals, false) as real, d.vals[k] as real, t as real);
    }
  }

  lemma QuotientPositive(c: real, t: real)
    requires c > 0.0 && t > 0.0
    ensures c / t > 0.0
  {
  }

  /** Positive counts divided by a positive total are positive. */
  lemma DividePositive(d: Counts, t: int)
    requires WellFormed(d) && Positive(d) && t > 0
    ensures PositiveValues(Divide(d, t))
  {
    forall k | k in d.vals ensures Divide(d, t).vals[k] > 0.0 {
      QuotientPositive(d.vals[k] as real, t as real);
    }
  }

  lemma {:induction false} RealSumAtLeast(ks: seq<string>, m: map<string, real>, i: nat)
    requires HasValues(ks, m) && i < |ks|
    requires forall k :: k in m ==> m[k] > 0.0
    ensures RealSum(ks, m) >= m[ks[i]]
    decreases |ks|
  {
    var init := ks[..|ks| - 1];
    if i < |init| {
      RealSumAtLeast(init, m, i);
    } else if init != [] {
      RealSumNonNegative(init, m);
    }
  }

  lemma {:induction false} RealSumNonNegative(ks: seq<string>, m: map<string, real>)
    requires HasValues(ks, m)
    requires forall k :: k in m ==> m[k] > 0.0
    ensures RealSum(ks, m) >= 0.0
    decreases |ks|
  {
    if ks != [] {
      RealSumNonNegative(ks[..|ks| - 1], m);
    }
  }

  /** `identity[author]` is a probability vector: every value lies in
      (0, 1] and, unless the author has no n-gram, the values sum to 1;
      an empty count map gives an empty vector. */
  lemma IdentityIsDistribution(d: Counts)
    requires WellFormed(d) && Positive(d)
    ensures PositiveValues(Identity(d))
    ensures forall k :: k in Identity(d).vals ==> Identity(d).vals[k] <= 1.0
    ensures d.keys == [] <==> Identity(d).vals == map[]
    ensures d.keys != [] ==> RealSum(Identity(d).keys, Identity(d).vals) == 1.0
  {
    var r := Identity(d);
    if d.keys != [] {
      TotalAtLeast(d.keys, d.vals);
      DividePositive(d, CountSum(d));
      IdentitySum(d);
      forall k | k in r.vals ensures r.vals[k] <= 1.0 {
        var i :| 0 <= i < |r.keys| && r.keys[i] == k;
        RealSumAtLeast(r.keys, r.vals, i);
      }
    } else {
      assert r.vals.Keys == {};
    }
  }

  lemma IdentitySum(d: Counts)
    requires WellFormed(d) && Positive(d) && d.keys != []
    ensures RealSum(Identity(d).keys, Identity(d).vals) == 1.0
  {
    TotalAtLeast(d.keys, d.vals);
    DivideTotal(d.keys, d, CountSum(d));
    SelfQuotient(CountSum(d) as real);
  }

  lemma SelfQuotient(t: real)
    requires t != 0.0
    ensures t / t == 1.0
  {
  }

  lemma RescaleTerm(n: real, t1: real, t2: real, uk: real, vk: real, wk: real)
    requires t1 > 0.0 && t2 > 0.0
    requires uk == n / t1 && vk == n / t2 && wk == (t1 / t2) * uk
    ensures vk == wk
  {
  }

  /** Dividing by t2 is dividing by t1 and then scaling by t1 / t2. */
  lemma DivideRescales(d: Counts, t1: int, t2: int)
    requires WellFormed(d) && t1 > 0 && t2 > 0
    ensures Divide(d, t2) == Scale(Divide(d, t1), t1 as real / t2 as real)
  {
    var c := t1 as real / t2 as real;
    var u, v := Divide(d, t1), Divide(d, t2);
    var w := Scale(u, c);
    forall k | k in d.vals ensures v.vals[k] == w.vals[k] {
      RescaleTerm(d.vals[k] as real, t1 as real, t2 as real, u.vals[k], v.vals[k], w.vals[k]);
    }
    assert v.vals == w.vals;
  }

  lemma ScalePreservesOrder(c: real, x: real, y: real)
    requires c > 0.0
    ensures x <= y <==> c * x <= c * y
  {
  }

  lemma ScaleSameOrder(d: Freqs, c: real)
    requires WellFormed(d) && c > 0.0
    ensures HasValues(d.keys, d.vals) && HasValues(d.keys, Scale(d, c).vals)
    ensures SameOrder(d.keys, d.vals, Scale(d, c).vals)
  {
    var s := Scale(d, c);
    forall i, j | 0 <= i < |d.keys| && 0 <= j < |d.keys|
      ensures d.vals[d.keys[i]] <= d.vals[d.keys[j]] <==> s.vals[d.keys[i]] <= s.vals[d.keys[j]]
    {
      ScalePreservesOrder(c, d.vals[d.keys[i]], d.vals[d.keys[j]]);
    }
  }

  /** Scaling by c > 0 keeps the order of the values, so sorting and
      scaling commute. */
  lemma SortDescScale(d: Freqs, c: real)
    requires WellFormed(d) && c > 0.0
    ensures SortDesc(Scale(d, c)) == Scale(SortDesc(d), c)
  {
    ScaleSameOrder(d, c);
    SortSameOrder(d.keys, d.vals, Scale(d, c).vals);
    var l, r := SortDesc(Scale(d, c)), Scale(SortDesc(d), c);
    assert l.keys == r.keys;
    assert l.vals == r.vals;
  }
}
