/** The proximity of `find_author`: the dot product of the unknown work's
    frequency vector with an author's, divided by the product of their
    Euclidean norms.  Square roots are not computed; a `Proximity` keeps
    the dot product and the two squared norms, and `IsScore` says which
    number the division yields. */
module Cosine {
  import opened Dicts

  /** `for word in u: if word in a: total += u[word] * a[word]`, over the
      keys ks of u. */
  function DotOver<K(==,!new)>(ks: seq<K>, u: map<K, real>, a: map<K, real>): real
    requires HasValues(ks, u)
    decreases |ks|
  {
    if ks == [] then 0.0
    else
      var k := ks[|ks| - 1];
      DotOver(ks[..|ks| - 1], u, a) + if k in a then u[k] * a[k] else 0.0
  }

  /** The squares of the values of the keys of ks that are in mask. */
  function SqOver<K(==,!new)>(ks: seq<K>, f: map<K, real>, mask: set<K>): real
    requires forall i :: 0 <= i < |ks| ==> ks[i] in mask ==> ks[i] in f
    decreases |ks|
  {
    if ks == [] then 0.0
    else
      var k := ks[|ks| - 1];
      SqOver(ks[..|ks| - 1], f, mask) + if k in mask then f[k] * f[k] else 0.0
  }

  function Dot<K(==,!new)>(u: Dict<K, real>, a: Dict<K, real>): real
    requires WellFormed(u)
  {
    DotOver(u.keys, u.vals, a.vals)
  }

  /** `sum(x ** 2 for x in d.values())` */
  function NormSq<K(==,!new)>(d: Dict<K, real>): real
    requires WellFormed(d)
  {
    SqOver(d.keys, d.vals, d.vals.Keys)
  }

  /** The three sums from which `find_author` computes one proximity. */
  datatype Proximity = Proximity(dot: real, unknownNormSq: real, authorNormSq: real)

  function ProximityOf<K(==,!new)>(u: Dict<K, real>, a: Dict<K, real>): (p: Proximity)
    requires WellFormed(u) && WellFormed(a)
    ensures p.unknownNormSq >= 0.0 && p.authorNormSq >= 0.0
  {
    SqOverNonNegative(u.keys, u.vals, u.vals.Keys);
    SqOverNonNegative(a.keys, a.vals, a.vals.Keys);
    Proximity(Dot(u, a), NormSq(u), NormSq(a))
  }

  /** x is `dot / (sqrt(unknownNormSq) * sqrt(authorNormSq))`, with nu and
      na the two square roots. */
  ghost predicate IsScore(p: Proximity, x: real, nu: real, na: real) {
    && nu > 0.0 && na > 0.0
    && nu * nu == p.unknownNormSq && na * na == p.authorNormSq
    && x * (nu * na) == p.dot
  }

  ghost predicate NonNegative<K(!new)>(d: Dict<K, real>) {
    forall k :: k in d.vals ==> d.vals[k] >= 0.0
  }

  ghost predicate PositiveValues<K(!new)>(d: Dict<K, real>) {
    forall k :: k in d.vals ==> d.vals[k] > 0.0
  }

  lemma {:induction false} SqOverNonNegative<K(!new)>(ks: seq<K>, f: map<K, real>, mask: set<K>)
    requires forall i :: 0 <= i < |ks| ==> ks[i] in mask ==> ks[i] in f
    ensures SqOver(ks, f, mask) >= 0.0
    decreases |ks|
  {
    if ks != [] {
      SqOverNonNegative(ks[..|ks| - 1], f, mask);
      var k := ks[|ks| - 1];
      if k in mask {
        SquareNonNegative(f[k]);
      }
    }
  }

  lemma SquareNonNegative(x: real)
    ensures x * x >= 0.0
    ensures x != 0.0 ==> x * x > 0.0
  {
    if x < 0.0 {
      var y := -x;
      assert x * x == y * y;
      assert y * y > 0.0;
    } else if x > 0.0 {
      assert x * x > 0.0;
    }
  }

  /** a's value for k, 0 where a has none. */
  function ValueOr<K(==,!new)>(a: map<K, real>, k: K): real {
    if k in a then a[k] else 0.0
  }

  /** One more key adds ValueOr's square to the squares of a. */
  lemma SqOverLast<K(!new)>(ks: seq<K>, a: map<K, real>)
    requires ks != []
    ensures SqOver(ks, a, a.Keys)
      == SqOver(ks[..|ks| - 1], a, a.Keys) + ValueOr(a, ks[|ks| - 1]) * ValueOr(a, ks[|ks| - 1])
  {
    var k := ks[|ks| - 1];
    if k !in a {
      assert ValueOr(a, k) * ValueOr(a, k) == 0.0 * 0.0;
    }
  }

  /** The sum over ks of (u[k] y - x a[k])^2: a sum of squares. */
  ghost function Cross<K(!new)>(ks: seq<K>, u: map<K, real>, a: map<K, real>, x: real, y: real): real
    requires HasValues(ks, u)
    decreases |ks|
  {
    if ks == [] then 0.0
    else
      var k := ks[|ks| - 1];
      var w := u[k] * y - x * ValueOr(a, k);
      Cross(ks[..|ks| - 1], u, a, x, y) + w * w
  }

  /** X y^2 + x^2 Y - 2 S x y */
  ghost function Expansion(sx: real, sy: real, s: real, x: real, y: real): real {
    sx * (y * y) + (x * x) * sy - 2.0 * s * (x * y)
  }

  /** S^2 <= X Y */
  ghost predicate Bounded(s: real, sx: real, sy: real) {
    s * s <= sx * sy
  }

  /** The algebra of one term of Cross: adding (uk y - x ak)^2 to the
      expansion over a prefix gives the expansion over the longer prefix. */
  lemma CrossStep(c: real, sx: real, sy: real, s: real, uk: real, ak: real, x: real, y: real,
                  c': real, sx': real, sy': real, s': real)
    requires c == Expansion(sx, sy, s, x, y)
    requires c' == c + (uk * y - x * ak) * (uk * y - x * ak)
    requires sx' == sx + uk * uk && sy' == sy + ak * ak && s' == s + uk * ak
    ensures c' == Expansion(sx', sy', s', x, y)
  {
  }

  /** The expansion over no keys. */
  lemma CrossStart(sx: real, sy: real, s: real, x: real, y: real)
    requires sx == 0.0 && sy == 0.0 && s == 0.0
    ensures 0.0 == Expansion(sx, sy, s, x, y)
  {
  }

  /** The algebra of one step of Cauchy-Schwarz: S^2 <= XY and
      X y^2 + x^2 Y - 2 S x y >= 0 give (S + xy)^2 <= (X + x^2)(Y + y^2). */
  lemma CauchyStep(s: real, sx: real, sy: real, x: real, y: real, s': real, sx': real, sy': real)
    requires Bounded(s, sx, sy) && Expansion(sx, sy, s, x, y) >= 0.0
    requires s' == s + x * y && sx' == sx + x * x && sy' == sy + y * y
    ensures Bounded(s', sx', sy')
  {
  }

  /** Cross is a sum of squares. */
  lemma {:induction false} CrossNonNegative<K(!new)>(ks: seq<K>, u: map<K, real>, a: map<K, real>, x: real, y: real)
    requires HasValues(ks, u)
    ensures Cross(ks, u, a, x, y) >= 0.0
    decreases |ks|
  {
    if ks != [] {
      var k := ks[|ks| - 1];
      CrossNonNegative(ks[..|ks| - 1], u, a, x, y);
      SquareNonNegative(u[k] * y - x * ValueOr(a, k));
    }
  }

  /** Expanding the squares: Cross is X y^2 + x^2 Y - 2 S x y, with X, Y the
      squared norms and S the dot product over ks. */
  lemma {:induction false} CrossExpands<K(!new)>(ks: seq<K>, u: map<K, real>, a: map<K, real>, x: real, y: real)
    requires HasValues(ks, u)
    ensures Cross(ks, u, a, x, y) == Expansion(SqOver(ks, u, u.Keys), SqOver(ks, a, a.Keys), DotOver(ks, u, a), x, y)
    decreases |ks|
  {
    if ks != [] {
      var init, k := ks[..|ks| - 1], ks[|ks| - 1];
      var uk, ak := u[k], ValueOr(a, k);
      var sx, sy, s := SqOver(init, u, u.Keys), SqOver(init, a, a.Keys), DotOver(init, u, a);
      var c := Cross(init, u, a, x, y);
      assert SqOver(ks, u, u.Keys) == sx + uk * uk;
      SqOverLast(ks, a);
      assert DotOver(ks, u, a) == s + uk * ak;
      assert Cross(ks, u, a, x, y) == c + (uk * y - x * ak) * (uk * y - x * ak);
      CrossExpands(init, u, a, x, y);
      CrossStep(c, sx, sy, s, uk, ak, x, y,
        Cross(ks, u, a, x, y), SqOver(ks, u, u.Keys), SqOver(ks, a, a.Keys), DotOver(ks, u, a));
    } else {
      CrossStart(SqOver(ks, u, u.Keys), SqOver(ks, a, a.Keys), DotOver(ks, u, a), x, y);
    }
  }

  /** Cauchy-Schwarz over one key order: the dot product squared is at most
      the product of the squares of u over ks and of a over the keys of ks
      that a holds. */
  lemma {:induction false} CauchyOver<K(!new)>(ks: seq<K>, u: map<K, real>, a: map<K, real>)
    requires HasValues(ks, u)
    ensures Bounded(DotOver(ks, u, a), SqOver(ks, u, u.Keys), SqOver(ks, a, a.Keys))
    decreases |ks|
  {
    if ks != [] {
      var init, k := ks[..|ks| - 1], ks[|ks| - 1];
      var x, y := u[k], ValueOr(a, k);
      var sx, sy, s := SqOver(init, u, u.Keys), SqOver(init, a, a.Keys), DotOver(init, u, a);
      assert SqOver(ks, u, u.Keys) == sx + x * x;
      SqOverLast(ks, a);
      assert DotOver(ks, u, a) == s + x * y;
      CauchyOver(init, u, a);
      CrossExpands(init, u, a, x, y);
      CrossNonNegative(init, u, a, x, y);
      CauchyStep(s, sx, sy, x, y, DotOver(ks, u, a), SqOver(ks, u, u.Keys), SqOver(ks, a, a.Keys));
    }
  }

  /** Removing position j from ts removes one term from the sum. */
  lemma {:induction false} SqOverRemove<K(!new)>(ts: seq<K>, f: map<K, real>, j: nat)
    requires HasValues(ts, f) && j < |ts|
    ensures HasValues(ts[..j] + ts[j + 1..], f)
    ensures SqOver(ts, f, f.Keys) == SqOver(ts[..j] + ts[j + 1..], f, f.Keys) + f[ts[j]] * f[ts[j]]
    decreases |ts|
  {
    var rest := ts[..j] + ts[j + 1..];
    if j < |ts| - 1 {
      var init := ts[..|ts| - 1];
      SqOverRemove(init, f, j);
      assert init[..j] + init[j + 1..] == rest[..|rest| - 1];
    } else {
      assert rest == ts[..|ts| - 1];
    }
  }

  /** Every key of ks that a holds occurs in ts. */
  predicate Covers<K>(ks: seq<K>, ts: seq<K>, a: map<K, real>) {
    forall k :: k in ks && k in a ==> k in ts
  }

  /** Summing a's squares over the distinct keys of ks that a holds gives at
      most the sum over any ts on which every one of those keys occurs. */
  lemma {:induction false} SqOverBound<K(!new)>(ks: seq<K>, ts: seq<K>, a: map<K, real>)
    requires Distinct(ks) && HasValues(ts, a)
    requires Covers(ks, ts, a)
    ensures SqOver(ks, a, a.Keys) <= SqOver(ts, a, a.Keys)
    decreases |ks|
  {
    SqOverNonNegative(ts, a, a.Keys);
    if ks != [] {
      var init, k := ks[..|ks| - 1], ks[|ks| - 1];
      DistinctInit(ks);
      SqOverLast(ks, a);
      if k in a {
        var j :| 0 <= j < |ts| && ts[j] == k;
        var rest := ts[..j] + ts[j + 1..];
        SqOverRemove(ts, a, j);
        RemoveKeepsOthers(ks, ts, j, a);
        SqOverBound(init, rest, a);
        assert ValueOr(a, k) == a[k];
        SumsBound(SqOver(init, a, a.Keys), SqOver(rest, a, a.Keys), a[k] * a[k],
          SqOver(ks, a, a.Keys), SqOver(ts, a, a.Keys));
      } else {
        SqOverBound(init, ts, a);
        assert ValueOr(a, k) == 0.0;
      }
    }
  }

  lemma SumsBound(x: real, y: real, z: real, x': real, y': real)
    requires x <= y && x' == x + z && y' == y + z
    ensures x' <= y'
  {
  }

  lemma DistinctInit<K>(ks: seq<K>)
    requires Distinct(ks) && ks != []
    ensures Distinct(ks[..|ks| - 1]) && ks[|ks| - 1] !in ks[..|ks| - 1]
  {
    var init := ks[..|ks| - 1];
    forall i, j | 0 <= i < j < |init| ensures init[i] != init[j] {
      assert init[i] == ks[i] && init[j] == ks[j];
    }
  }

  /** Removing the occurrence at j of the last key of ks from ts keeps
      every other key of ks that a holds. */
  lemma RemoveKeepsOthers<K>(ks: seq<K>, ts: seq<K>, j: nat, a: map<K, real>)
    requires Distinct(ks) && ks != [] && j < |ts| && ts[j] == ks[|ks| - 1]
    requires Covers(ks, ts, a)
    ensures Covers(ks[..|ks| - 1], ts[..j] + ts[j + 1..], a)
  {
    var init, k, rest := ks[..|ks| - 1], ks[|ks| - 1], ts[..j] + ts[j + 1..];
    DistinctInit(ks);
    forall x | x in init && x in a ensures x in rest {
      assert x != k;
      var i :| 0 <= i < |ts| && ts[i] == x;
      if i < j {
        assert rest[i] == x;
      } else {
        assert rest[i - 1] == x;
      }
    }
  }

  /** Cauchy-Schwarz for the proximity: (u . a)^2 <= |u|^2 |a|^2. */
  lemma CauchySchwarz<K(!new)>(u: Dict<K, real>, a: Dict<K, real>)
    requires WellFormed(u) && WellFormed(a)
    ensures Dot(u, a) * Dot(u, a) <= NormSq(u) * NormSq(a)
  {
    CauchyOver(u.keys, u.vals, a.vals);
    SqOverBound(u.keys, a.keys, a.vals);
    SqOverNonNegative(u.keys, u.vals, u.vals.Keys);
    BoundedWeaken(Dot(u, a), NormSq(u), SqOver(u.keys, a.vals, a.vals.Keys), NormSq(a));
  }

  lemma BoundedWeaken(s: real, sx: real, sy: real, sy': real)
    requires Bounded(s, sx, sy) && sx >= 0.0 && sy <= sy'
    ensures s * s <= sx * sy'
  {
  }

  lemma {:induction false} DotOverNonNegative<K(!new)>(ks: seq<K>, u: map<K, real>, a: map<K, real>)
    requires HasValues(ks, u)
    requires forall k :: k in u ==> u[k] >= 0.0
    requires forall k :: k in a ==> a[k] >= 0.0
    ensures DotOver(ks, u, a) >= 0.0
    decreases |ks|
  {
    if ks != [] {
      DotOverNonNegative(ks[..|ks| - 1], u, a);
      var k := ks[|ks| - 1];
      if k in a {
        ProductNonNegative(u[k], a[k]);
      }
    }
  }

  lemma ProductNonNegative(x: real, y: real)
    requires x >= 0.0 && y >= 0.0
    ensures x * y >= 0.0
  {
  }

  lemma ProductPositive(x: real, y: real)
    requires x > 0.0 && y > 0.0
    ensures x * y > 0.0
  {
  }

  /** n > 0 and d = x n with d^2 <= n^2 give x <= 1. */
  lemma AtMostOne(x: real, n: real, d: real)
    requires n > 0.0 && d == x * n && d * d <= n * n
    ensures x <= 1.0
  {
    if x > 1.0 {
      ProductPositive(x - 1.0, n);
      assert d > n;
      ProductPositive(d - n, d + n);
    }
  }

  /** A proximity lies between -1 and 1, and between 0 and 1 when the dot
      product is not negative. */
  lemma ScoreBounds(p: Proximity, x: real, nu: real, na: real)
    requires IsScore(p, x, nu, na)
    requires Bounded(p.dot, p.unknownNormSq, p.authorNormSq)
    ensures -1.0 <= x <= 1.0
    ensures p.dot >= 0.0 ==> x >= 0.0
  {
    var n := nu * na;
    ProductPositive(nu, na);
    assert p.unknownNormSq * p.authorNormSq == n * n;
    AtMostOne(x, n, p.dot);
    AtMostOne(-x, n, -p.dot);
    if x < 0.0 {
      ProductPositive(-x, n);
    }
  }

  /** The proximity of two non-negative vectors lies in [0, 1]. */
  lemma ProximityInUnitInterval<K(!new)>(u: Dict<K, real>, a: Dict<K, real>, x: real, nu: real, na: real)
    requires WellFormed(u) && WellFormed(a) && NonNegative(u) && NonNegative(a)
    requires IsScore(ProximityOf(u, a), x, nu, na)
    ensures 0.0 <= x <= 1.0
  {
    DotOverNonNegative(u.keys, u.vals, a.vals);
    CauchySchwarz(u, a);
    ScoreBounds(ProximityOf(u, a), x, nu, na);
  }

  lemma {:induction false} DotOverSelf<K(!new)>(ks: seq<K>, u: map<K, real>)
    requires HasValues(ks, u)
    ensures DotOver(ks, u, u) == SqOver(ks, u, u.Keys)
    decreases |ks|
  {
    if ks != [] {
      DotOverSelf(ks[..|ks| - 1], u);
    }
  }

  /** A vector is at proximity exactly 1 of itself. */
  lemma SelfProximity<K(!new)>(u: Dict<K, real>, x: real, nu: real)
    requires WellFormed(u) && IsScore(ProximityOf(u, u), x, nu, nu)
    ensures x == 1.0
  {
    DotOverSelf(u.keys, u.vals);
    UnitScore(ProximityOf(u, u), x, nu);
  }

  lemma UnitScore(p: Proximity, x: real, nu: real)
    requires IsScore(p, x, nu, nu) && p.dot == p.unknownNormSq
    ensures x == 1.0
  {
    UnitFactor(x, nu, p.dot);
  }

  /** x nu^2 = nu^2 with nu > 0 leaves x = 1. */
  lemma UnitFactor(x: real, nu: real, d: real)
    requires nu > 0.0 && x * (nu * nu) == d && nu * nu == d
    ensures x == 1.0
  {
    assert ((x - 1.0) * nu) * nu == 0.0;
    assert (x - 1.0) * nu == 0.0;
  }

  lemma {:induction false} DotOverDisjoint<K(!new)>(ks: seq<K>, u: map<K, real>, a: map<K, real>)
    requires HasValues(ks, u)
    requires forall i :: 0 <= i < |ks| ==> ks[i] !in a
    ensures DotOver(ks, u, a) == 0.0
    decreases |ks|
  {
    if ks != [] {
      DotOverDisjoint(ks[..|ks| - 1], u, a);
    }
  }

  /** Vectors with no n-gram in common are at proximity 0. */
  lemma DisjointProximity<K(!new)>(u: Dict<K, real>, a: Dict<K, real>, x: real, nu: real, na: real)
    requires WellFormed(u) && WellFormed(a)
    requires forall k :: k in u.vals ==> k !in a.vals
    requires IsScore(ProximityOf(u, a), x, nu, na)
    ensures x == 0.0
  {
    DotOverDisjoint(u.keys, u.vals, a.vals);
    ProductPositive(nu, na);
    assert x * (nu * na) == 0.0;
  }

  lemma {:induction false} DotOverShared<K(!new)>(ks: seq<K>, u: map<K, real>, a: map<K, real>, k: K)
    requires HasValues(ks, u) && k in ks && k in a
    requires forall k :: k in u ==> u[k] > 0.0
    requires forall k :: k in a ==> a[k] > 0.0
    ensures DotOver(ks, u, a) > 0.0
    decreases |ks|
  {
    var init, last := ks[..|ks| - 1], ks[|ks| - 1];
    DotOverNonNegative(init, u, a);
    if last == k {
      ProductPositive(u[k], a[k]);
    } else {
      assert k in init;
      DotOverShared(init, u, a, k);
      if last in a {
        ProductNonNegative(u[last], a[last]);
      }
    }
  }

  /** Vectors of positive frequencies sharing an n-gram are at a positive
      proximity. */
  lemma SharedProximity<K(!new)>(u: Dict<K, real>, a: Dict<K, real>, k: K, x: real, nu: real, na: real)
    requires WellFormed(u) && WellFormed(a) && PositiveValues(u) && PositiveValues(a)
    requires k in u.vals && k in a.vals
    requires IsScore(ProximityOf(u, a), x, nu, na)
    ensures x > 0.0
  {
    DotOverShared(u.keys, u.vals, a.vals, k);
    ProductPositive(nu, na);
  }

  lemma {:induction false} SqOverPositive<K(!new)>(ks: seq<K>, f: map<K, real>)
    requires HasValues(ks, f) && ks != []
    requires forall k :: k in f ==> f[k] > 0.0
    ensures SqOver(ks, f, f.Keys) > 0.0
    decreases |ks|
  {
    var init, k := ks[..|ks| - 1], ks[|ks| - 1];
    SqOverNonNegative(init, f, f.Keys);
    if init != [] {
      SqOverPositive(init, f);
    }
    // the last square is not negative and, f[k] being positive, not zero
    assert SqOver(ks, f, f.Keys) >= SqOver(init, f, f.Keys);
    NonZeroSquare(SqOver(ks, f, f.Keys), SqOver(init, f, f.Keys), f[k]);
  }

  lemma NonZeroSquare(t: real, s: real, x: real)
    requires t == s + x * x && x != 0.0
    ensures t != s
  {
    if t == s {
      ZeroFactor(x, x);
    }
  }

  lemma ZeroFactor(a: real, b: real)
    requires a * b == 0.0 && b != 0.0
    ensures a == 0.0
  {
  }

  /** For positive frequencies, the squared norm is 0 exactly when the
      vector is empty: the case in which `find_author` divides by zero. */
  lemma NormSqZero<K(!new)>(d: Dict<K, real>)
    requires WellFormed(d) && PositiveValues(d)
    ensures NormSq(d) >= 0.0
    ensures NormSq(d) == 0.0 <==> d.keys == []
  {
    SqOverNonNegative(d.keys, d.vals, d.vals.Keys);
    if d.keys != [] {
      SqOverPositive(d.keys, d.vals);
    }
  }

  /** Every value multiplied by c. */
  function Scale<K(==,!new)>(d: Dict<K, real>, c: real): (r: Dict<K, real>)
    requires WellFormed(d)
    ensures WellFormed(r) && r.keys == d.keys && r.vals.Keys == d.vals.Keys
    ensures forall k :: k in r.vals ==> r.vals[k] == c * d.vals[k]
  {
    Dict(d.keys, map k | k in d.vals :: c * d.vals[k])
  }

  lemma {:induction false} ScaleDot<K(!new)>(ks: seq<K>, u: map<K, real>, v: map<K, real>, a: map<K, real>, c: real)
    requires HasValues(ks, u) && u.Keys == v.Keys
    requires forall k :: k in v ==> v[k] == c * u[k]
    ensures DotOver(ks, v, a) == c * DotOver(ks, u, a)
    decreases |ks|
  {
    if ks != [] {
      var init, k := ks[..|ks| - 1], ks[|ks| - 1];
      ScaleDot(init, u, v, a, c);
      ScaleDotTerm(DotOver(init, u, a), u[k], ValueOr(a, k), c, DotOver(init, v, a), v[k]);
      assert DotOver(ks, u, a) == DotOver(init, u, a) + u[k] * ValueOr(a, k);
      assert DotOver(ks, v, a) == DotOver(init, v, a) + v[k] * ValueOr(a, k);
    }
  }

  lemma {:induction false} ScaleSq<K(!new)>(ks: seq<K>, u: map<K, real>, v: map<K, real>, c: real)
    requires HasValues(ks, u) && u.Keys == v.Keys
    requires forall k :: k in v ==> v[k] == c * u[k]
    ensures SqOver(ks, v, v.Keys) == (c * c) * SqOver(ks, u, u.Keys)
    decreases |ks|
  {
    if ks != [] {
      var init, k := ks[..|ks| - 1], ks[|ks| - 1];
      ScaleSq(init, u, v, c);
      ScaleSqTerm(SqOver(init, u, u.Keys), u[k], c, SqOver(init, v, v.Keys), v[k]);
    }
  }

  lemma ScaleDotTerm(s: real, uk: real, ak: real, c: real, s': real, vk: real)
    requires s' == c * s && vk == c * uk
    ensures s' + vk * ak == c * (s + uk * ak)
  {
  }

  lemma ScaleSqTerm(sx: real, uk: real, c: real, sx': real, vk: real)
    requires sx' == (c * c) * sx && vk == c * uk
    ensures sx' + vk * vk == (c * c) * (sx + uk * uk)
  {
  }

  /** Scaling the unknown vector by c > 0, as dividing counts by a total
      does, scales its norm by c and leaves the proximity unchanged. */
  lemma ScaleInvariant<K(!new)>(u: Dict<K, real>, a: Dict<K, real>, c: real, x: real, nu: real, na: real)
    requires WellFormed(u) && WellFormed(a) && c > 0.0
    requires IsScore(ProximityOf(u, a), x, nu, na)
    ensures IsScore(ProximityOf(Scale(u, c), a), x, c * nu, na)
  {
    var v := Scale(u, c);
    ScaleDot(u.keys, u.vals, v.vals, a.vals, c);
    ScaleSq(u.keys, u.vals, v.vals, c);
    ScaleScore(Dot(u, a), NormSq(u), NormSq(a), Dot(v, a), NormSq(v), c, x, nu, na);
  }

  lemma ScaleScore(d: real, su: real, sa: real, d': real, su': real, c: real, x: real, nu: real, na: real)
    requires IsScore(Proximity(d, su, sa), x, nu, na) && c > 0.0
    requires d' == c * d && su' == (c * c) * su
    ensures IsScore(Proximity(d', su', sa), x, c * nu, na)
  {
    ProductPositive(c, nu);
    ScaleSquare(su, c, nu);
    ScaleProduct(d, c, x, nu, na);
  }

  lemma ScaleSquare(sq: real, c: real, nu: real)
    requires nu * nu == sq
    ensures (c * nu) * (c * nu) == (c * c) * sq
  {
  }

  lemma ScaleProduct(dot: real, c: real, x: real, nu: real, na: real)
    requires x * (nu * na) == dot
    ensures x * ((c * nu) * na) == c * dot
  {
  }
}
