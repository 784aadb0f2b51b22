/** Taste vectors and their similarity: `compute_and_upsert`
    (backend/app/domains/book/taste_profile_repository.py) and `cosine_similarity`
    (backend/app/domains/discovery/strategies.py). */
module TasteVectors {
  import opened Prelude

  /** A sparse frequency vector. */
  type Vector = map<string, int>

  function Get(v: Vector, k: string): int {
    if k in v then v[k] else 0
  }

  // ---------- sums over finite sets of keys ----------

  ghost function Sum(keys: set<string>, f: string -> int): int {
    if keys == {} then 0
    else
      var k :| k in keys;
      f(k) + Sum(keys - {k}, f)
  }

  /** The order in which the keys are visited does not matter. */
  lemma {:induction false} SumPick(keys: set<string>, f: string -> int, k: string)
    requires k in keys
    ensures Sum(keys, f) == f(k) + Sum(keys - {k}, f)
  {
    var j :| j in keys && Sum(keys, f) == f(j) + Sum(keys - {j}, f);
    if j != k {
      SumPick(keys - {j}, f, k);
      SumPick(keys - {k}, f, j);
      assert keys - {j} - {k} == keys - {k} - {j};
    }
  }

  lemma {:induction false} SumCongruent(keys: set<string>, f: string -> int, g: string -> int)
    requires forall k :: k in keys ==> f(k) == g(k)
    ensures Sum(keys, f) == Sum(keys, g)
  {
    if keys != {} {
      var k :| k in keys;
      SumPick(keys, f, k);
      SumPick(keys, g, k);
      SumCongruent(keys - {k}, f, g);
    }
  }

  lemma {:induction false} SumIgnoresZeros(keys: set<string>, more: set<string>, f: string -> int)
    requires keys <= more && forall k :: k in more - keys ==> f(k) == 0
    ensures Sum(more, f) == Sum(keys, f)
    decreases more - keys
  {
    if more - keys != {} {
      var k :| k in more - keys;
      SumPick(more, f, k);
      SumIgnoresZeros(keys, more - {k}, f);
    } else {
      assert keys + (more - keys) == more;
      assert keys + (more - keys) == keys;
    }
  }

  lemma {:induction false} SumNonNegative(keys: set<string>, f: string -> int)
    requires forall k :: k in keys ==> f(k) >= 0
    ensures Sum(keys, f) >= 0
    ensures Sum(keys, f) > 0 <==> exists k :: k in keys && f(k) > 0
  {
    if keys != {} {
      var k :| k in keys;
      SumPick(keys, f, k);
      SumNonNegative(keys - {k}, f);
      if j :| j in keys && f(j) > 0 {
        assert j == k || j in keys - {k};
      }
    }
  }

  // ---------- the products the code sums ----------

  function Product(a: Vector, b: Vector): string -> int {
    k => Get(a, k) * Get(b, k)
  }

  /** `sum(a.get(key, 0) * b[key] for key in b)`: only b's keys are visited. */
  ghost function Dot(a: Vector, b: Vector): int {
    Sum(b.Keys, Product(a, b))
  }

  /** `sum(v * v for v in a.values())`. */
  ghost function SquaredNorm(a: Vector): int {
    Sum(a.Keys, Product(a, a))
  }

  lemma DotOverUnion(a: Vector, b: Vector)
    ensures Dot(a, b) == Sum(a.Keys + b.Keys, Product(a, b))
    ensures SquaredNorm(a) == Sum(a.Keys + b.Keys, Product(a, a))
    ensures SquaredNorm(b) == Sum(a.Keys + b.Keys, Product(b, b))
  {
    SumIgnoresZeros(b.Keys, a.Keys + b.Keys, Product(a, b));
    SumIgnoresZeros(a.Keys, a.Keys + b.Keys, Product(a, a));
    SumIgnoresZeros(b.Keys, a.Keys + b.Keys, Product(b, b));
  }

  /** Visiting one argument's keys only still gives a symmetric product. */
  lemma DotIsSymmetric(a: Vector, b: Vector)
    ensures Dot(a, b) == Dot(b, a)
  {
    DotOverUnion(a, b);
    DotOverUnion(b, a);
    assert a.Keys + b.Keys == b.Keys + a.Keys;
    SumCongruent(a.Keys + b.Keys, Product(a, b), Product(b, a));
  }

  /** The product is what adding key by key gives, and the norm is a vector's product with itself. */
  lemma DotMeaning(a: Vector, b: Vector, k: string, y: int)
    requires k !in b
    ensures Dot(a, map[]) == 0
    ensures Dot(a, b[k := y]) == Dot(a, b) + (if k in a then a[k] * y else 0)
    ensures SquaredNorm(a) == Dot(a, a)
  {
    var more := b[k := y];
    SumPick(more.Keys, Product(a, more), k);
    assert more.Keys - {k} == b.Keys;
    SumCongruent(b.Keys, Product(a, more), Product(a, b));
  }

  // ---------- Cauchy-Schwarz ----------

  lemma SquareIsNonNegative(x: int)
    ensures x * x >= 0
  {
  }

  lemma LargerSquare(x: int, y: int)
    requires x > y >= 0
    ensures x * x > y * y
  {
    assert x * x - y * y == (x - y) * (x + y);
  }

  lemma SmallerSquare(x: int, y: int)
    requires y >= 0 && x * x <= y * y
    ensures x <= y
  {
    if x > y {
      LargerSquare(x, y);
    }
  }

  lemma ArithmeticGeometric(u: int, v: int)
    ensures 4 * (u * v) <= (u + v) * (u + v)
  {
    SquareIsNonNegative(u - v);
    assert (u + v) * (u + v) - 4 * (u * v) == (u - v) * (u - v);
  }

  lemma Scale(a: int, b: int, c: int)
    requires a <= b && c >= 0
    ensures a * c <= b * c
  {
  }

  lemma Regroup(p: int, q: int, x: int, y: int)
    ensures (p * (y * y)) * (q * (x * x)) == (p * q) * ((x * y) * (x * y))
  {
  }

  lemma SquareOfProduct(d: int, m: int)
    ensures (2 * (d * m)) * (2 * (d * m)) == 4 * ((d * d) * (m * m))
  {
  }

  /** The mixed term of the inductive step. */
  lemma MixedTerm(d: int, p: int, q: int, x: int, y: int)
    requires p >= 0 && q >= 0 && d * d <= p * q
    ensures 2 * (d * (x * y)) <= p * (y * y) + q * (x * x)
  {
    var m, u, v := x * y, p * (y * y), q * (x * x);
    SquareIsNonNegative(x);
    SquareIsNonNegative(y);
    SquareIsNonNegative(m);
    assert u >= 0 && v >= 0;
    Regroup(p, q, x, y);
    Scale(d * d, p * q, m * m);
    SquareOfProduct(d, m);
    ArithmeticGeometric(u, v);
    SmallerSquare(2 * (d * m), u + v);
  }

  /** The inequality for a sum of products `d` and sums of squares `p` and `q`. */
  predicate Bounded(d: int, p: int, q: int) {
    p >= 0 && q >= 0 && d * d <= p * q
  }

  lemma SquareOfSum(m: int, d: int)
    ensures (m + d) * (m + d) == m * m + 2 * (d * m) + d * d
  {
  }

  lemma ProductOfSums(u: int, p: int, v: int, q: int)
    ensures (u + p) * (v + q) == u * v + q * u + p * v + p * q
  {
  }

  lemma SquareOfPair(x: int, y: int)
    ensures (x * y) * (x * y) == (x * x) * (y * y)
  {
  }

  lemma CauchyStep(d: int, p: int, q: int, x: int, y: int)
    requires Bounded(d, p, q)
    ensures Bounded(x * y + d, x * x + p, y * y + q)
  {
    SquareIsNonNegative(x);
    SquareIsNonNegative(y);
    MixedTerm(d, p, q, x, y);
    SquareOfSum(x * y, d);
    ProductOfSums(x * x, p, y * y, q);
    SquareOfPair(x, y);
  }

  lemma SumStep(keys: set<string>, a: Vector, b: Vector, k: string)
    requires k in keys
    ensures Sum(keys, Product(a, b)) == Get(a, k) * Get(b, k) + Sum(keys - {k}, Product(a, b))
  {
    SumPick(keys, Product(a, b), k);
  }

  lemma {:induction false} CauchySchwarz(keys: set<string>, a: Vector, b: Vector)
    ensures Bounded(Sum(keys, Product(a, b)), Sum(keys, Product(a, a)), Sum(keys, Product(b, b)))
  {
    if keys != {} {
      var k :| k in keys;
      CauchySchwarz(keys - {k}, a, b);
      SumStep(keys, a, b, k);
      SumStep(keys, a, a, k);
      SumStep(keys, b, b, k);
      var d, p, q := Sum(keys - {k}, Product(a, b)), Sum(keys - {k}, Product(a, a)), Sum(keys - {k}, Product(b, b));
      CauchyStep(d, p, q, Get(a, k), Get(b, k));
    }
  }

  /** dot² never exceeds |a|²·|b|², for any integer vectors. */
  lemma DotIsBounded(a: Vector, b: Vector)
    ensures Dot(a, b) * Dot(a, b) <= SquaredNorm(a) * SquaredNorm(b)
    ensures SquaredNorm(a) >= 0 && SquaredNorm(b) >= 0
  {
    DotOverUnion(a, b);
    CauchySchwarz(a.Keys + b.Keys, a, b);
  }

  // ---------- the similarity ----------

  /** `m` is the square root of `n`. */
  predicate IsRoot(m: real, n: int) {
    m >= 0.0 && m * m == n as real
  }

  /** `cosine_similarity`; `magA` and `magB` are what `math.sqrt` returns. */
  ghost function CosineSimilarity(a: Vector, b: Vector, magA: real, magB: real): real {
    if a == map[] || b == map[] then 0.0
    else if magA == 0.0 || magB == 0.0 then 0.0
    else Dot(a, b) as real / (magA * magB)
  }

  lemma QuotientIsOne(d: real, w: real)
    requires w > 0.0 && d == w
    ensures d / w == 1.0
  {
  }

  lemma PositiveProduct(u: real, w: real)
    requires u > 0.0 && w > 0.0
    ensures u * w > 0.0
  {
  }

  lemma LargerRealSquare(x: real, y: real)
    requires x > y >= 0.0
    ensures x * x > y * y
  {
    PositiveProduct(x - y, x + y);
    assert x * x - y * y == (x - y) * (x + y);
  }

  lemma RealSquares(x: real, y: real)
    requires y >= 0.0 && x * x <= y * y
    ensures -y <= x <= y
  {
    assert (-x) * (-x) == x * x;
    if x > y {
      LargerRealSquare(x, y);
    } else if -x > y {
      LargerRealSquare(-x, y);
    }
  }

  lemma QuotientBounds(d: real, w: real)
    requires w > 0.0 && -w <= d <= w
    ensures -1.0 <= d / w <= 1.0
    ensures d >= 0.0 ==> d / w >= 0.0
    ensures d > 0.0 <==> d / w > 0.0
  {
    var q := d / w;
    assert q * w == d;
  }

  lemma RealProduct(x: int, y: int)
    ensures (x * y) as real == x as real * y as real
  {
  }

  lemma SquareOfMagnitudes(m: real, n: real)
    ensures (m * m) * (n * n) == (m * n) * (m * n)
  {
  }

  /** The integer bound, carried over to the magnitudes. */
  lemma MagnitudeBound(d: int, p: int, q: int, m: real, n: real)
    requires d * d <= p * q && IsRoot(m, p) && IsRoot(n, q)
    ensures -(m * n) <= d as real <= m * n
  {
    RealProduct(d, d);
    RealProduct(p, q);
    SquareOfMagnitudes(m, n);
    assert m * n >= 0.0;
    RealSquares(d as real, m * n);
  }

  lemma DotWithinMagnitudes(a: Vector, b: Vector, magA: real, magB: real)
    requires IsRoot(magA, SquaredNorm(a)) && IsRoot(magB, SquaredNorm(b))
    ensures -(magA * magB) <= Dot(a, b) as real <= magA * magB
  {
    DotIsBounded(a, b);
    MagnitudeBound(Dot(a, b), SquaredNorm(a), SquaredNorm(b), magA, magB);
  }

  /** Similarity is symmetric. */
  lemma SimilarityIsSymmetric(a: Vector, b: Vector, magA: real, magB: real)
    ensures CosineSimilarity(a, b, magA, magB) == CosineSimilarity(b, a, magB, magA)
  {
    DotIsSymmetric(a, b);
  }

  ghost predicate NonNegative(v: Vector) {
    forall k :: k in v ==> v[k] >= 0
  }

  /** Similarity lies in [-1, 1], and in [0, 1] for counts; a vector with a non-zero
      count is exactly 1 similar to itself. */
  lemma SimilarityRange(a: Vector, b: Vector, magA: real, magB: real)
    requires IsRoot(magA, SquaredNorm(a)) && IsRoot(magB, SquaredNorm(b))
    ensures -1.0 <= CosineSimilarity(a, b, magA, magB) <= 1.0
    ensures NonNegative(a) && NonNegative(b) ==> CosineSimilarity(a, b, magA, magB) >= 0.0
    ensures SquaredNorm(a) > 0 ==> CosineSimilarity(a, a, magA, magA) == 1.0
  {
    DotWithinMagnitudes(a, b, magA, magB);
    if magA > 0.0 && magB > 0.0 {
      assert magA * magB > 0.0;
      QuotientBounds(Dot(a, b) as real, magA * magB);
    }
    if NonNegative(a) && NonNegative(b) {
      forall k | k in b.Keys
        ensures Product(a, b)(k) >= 0
      {
        NonNegativeProduct(Get(a, k), Get(b, k));
      }
      SumNonNegative(b.Keys, Product(a, b));
    }
    if SquaredNorm(a) > 0 {
      assert a != map[];
      assert magA * magA > 0.0;
      QuotientIsOne(Dot(a, a) as real, magA * magA);
    }
  }

  // ---------- what the similarity is ----------

  /** The similarity is the dot product over the product of the norms: multiplied back it
      gives the dot product, for all vectors, zero vectors included. */
  lemma SimilarityIsTheQuotient(a: Vector, b: Vector, magA: real, magB: real)
    requires IsRoot(magA, SquaredNorm(a)) && IsRoot(magB, SquaredNorm(b))
    ensures CosineSimilarity(a, b, magA, magB) * (magA * magB) == Dot(a, b) as real
    ensures magA * magB == 0.0 ==> CosineSimilarity(a, b, magA, magB) == 0.0
  {
    DotWithinMagnitudes(a, b, magA, magB);
    if a == map[] {
      assert magA * magA == 0.0;
      ZeroFactor(magA);
    }
    if b == map[] {
      assert magB * magB == 0.0;
      ZeroFactor(magB);
    }
    if magA * magB != 0.0 {
      QuotientTimes(Dot(a, b) as real, magA * magB);
    }
  }

  lemma ZeroFactor(x: real)
    requires x >= 0.0 && x * x == 0.0
    ensures x == 0.0
  {
    if x > 0.0 {
      LargerRealSquare(x, 0.0);
    }
  }

  lemma QuotientTimes(d: real, w: real)
    requires w != 0.0
    ensures d / w * w == d
  {
  }

  /** The squared deviation of p times a from q times b, key by key. */
  function Deviation(a: Vector, b: Vector, p: int, q: int): string -> int {
    k => (p * Get(a, k) - q * Get(b, k)) * (p * Get(a, k) - q * Get(b, k))
  }

  lemma SquareOfDifference(p: int, x: int, q: int, y: int)
    ensures (p * x - q * y) * (p * x - q * y) == p * p * (x * x) - 2 * (p * q) * (x * y) + q * q * (y * y)
  {
    assert (p * x) * (p * x) == p * p * (x * x);
    assert (q * y) * (q * y) == q * q * (y * y);
    assert (p * x) * (q * y) == (p * q) * (x * y);
  }

  lemma Combine(u: int, v: int, w: int, x: int, y: int, z: int, f: int, g: int, h: int)
    ensures (f * u - g * v + h * w) + (f * x - g * y + h * z) == f * (u + x) - g * (v + y) + h * (w + z)
  {
  }

  function Form(p: int, q: int, aa: int, ab: int, bb: int): int {
    p * p * aa - 2 * (p * q) * ab + q * q * bb
  }

  lemma FormStep(x: int, y: int, p: int, q: int, aa: int, ab: int, bb: int)
    ensures (p * x - q * y) * (p * x - q * y) + Form(p, q, aa, ab, bb) == Form(p, q, x * x + aa, x * y + ab, y * y + bb)
  {
    SquareOfDifference(p, x, q, y);
    Combine(x * x, x * y, y * y, aa, ab, bb, p * p, 2 * (p * q), q * q);
  }

  ghost function FormOver(keys: set<string>, a: Vector, b: Vector, p: int, q: int): int {
    Form(p, q, Sum(keys, Product(a, a)), Sum(keys, Product(a, b)), Sum(keys, Product(b, b)))
  }

  lemma FormOverStep(keys: set<string>, a: Vector, b: Vector, p: int, q: int, k: string)
    requires k in keys
    ensures FormOver(keys, a, b, p, q) == Deviation(a, b, p, q)(k) + FormOver(keys - {k}, a, b, p, q)
  {
    SumStep(keys, a, a, k);
    SumStep(keys, a, b, k);
    SumStep(keys, b, b, k);
    FormStep(Get(a, k), Get(b, k), p, q, Sum(keys - {k}, Product(a, a)), Sum(keys - {k}, Product(a, b)),
             Sum(keys - {k}, Product(b, b)));
  }

  lemma {:induction false} SumOfDeviations(keys: set<string>, a: Vector, b: Vector, p: int, q: int)
    ensures Sum(keys, Deviation(a, b, p, q)) == FormOver(keys, a, b, p, q)
  {
    if keys != {} {
      var k :| k in keys;
      SumPick(keys, Deviation(a, b, p, q), k);
      SumOfDeviations(keys - {k}, a, b, p, q);
      FormOverStep(keys, a, b, p, q, k);
    }
  }

  /** One vector is q/p times the other. */
  ghost predicate Proportional(a: Vector, b: Vector, p: int, q: int) {
    forall k :: p * Get(a, k) == q * Get(b, k)
  }

  lemma ZeroDeviation(x: int)
    requires x * x <= 0
    ensures x == 0
  {
  }

  /** No deviation in the sum, none anywhere. */
  lemma NoDeviation(a: Vector, b: Vector, p: int, q: int)
    requires Sum(a.Keys + b.Keys, Deviation(a, b, p, q)) <= 0
    ensures Proportional(a, b, p, q)
  {
    var keys := a.Keys + b.Keys;
    forall k | k in keys
      ensures Deviation(a, b, p, q)(k) >= 0
    {
      SquareIsNonNegative(p * Get(a, k) - q * Get(b, k));
    }
    SumNonNegative(keys, Deviation(a, b, p, q));
    forall k | true
      ensures p * Get(a, k) == q * Get(b, k)
    {
      if k in keys {
        assert Deviation(a, b, p, q)(k) <= 0;
        ZeroDeviation(p * Get(a, k) - q * Get(b, k));
      }
    }
  }

  lemma EqualNormsCancel(d: int, n: int, m: int)
    requires d * d == m * n
    ensures n * n * m - 2 * (n * d) * d + d * d * n == 0
  {
    assert n * n * m == n * (m * n);
    assert (n * d) * d == n * (d * d);
    assert d * d * n == n * (d * d);
  }

  lemma ScaledTerm(p: int, x: int, q: int, y: int, z: int)
    requires p * x == q * y
    ensures p * (x * z) == q * (y * z)
  {
    assert p * (x * z) == (p * x) * z && q * (y * z) == (q * y) * z;
  }

  lemma Distribute(p: int, x: int, y: int)
    ensures p * (x + y) == p * x + p * y
  {
  }

  lemma {:induction false} SumScaled(keys: set<string>, a: Vector, b: Vector, c: Vector, p: int, q: int)
    requires Proportional(a, b, p, q)
    ensures p * Sum(keys, Product(a, c)) == q * Sum(keys, Product(b, c))
  {
    if keys != {} {
      var k :| k in keys;
      SumStep(keys, a, c, k);
      SumStep(keys, b, c, k);
      SumScaled(keys - {k}, a, b, c, p, q);
      ScaledTerm(p, Get(a, k), q, Get(b, k), Get(c, k));
      Distribute(p, Get(a, k) * Get(c, k), Sum(keys - {k}, Product(a, c)));
      Distribute(q, Get(b, k) * Get(c, k), Sum(keys - {k}, Product(b, c)));
    }
  }

  lemma CancelFactor(p: int, x: int, y: int)
    requires p > 0 && p * x == p * y
    ensures x == y
  {
  }

  lemma ProportionalMeetsTheBound(a: Vector, b: Vector, p: int, q: int)
    requires SquaredNorm(b) > 0 && p > 0 && q > 0 && Proportional(a, b, p, q)
    ensures Dot(a, b) > 0 && Dot(a, b) * Dot(a, b) == SquaredNorm(a) * SquaredNorm(b)
  {
    var keys := a.Keys + b.Keys;
    var d, m, n := Dot(a, b), SquaredNorm(a), SquaredNorm(b);
    DotOverUnion(a, b);
    SumCongruent(keys, Product(a, b), Product(b, a));
    SumScaled(keys, a, b, b, p, q);
    SumScaled(keys, a, b, a, p, q);
    MeetsTheBound(d, m, n, p, q);
  }

  lemma MeetsTheBound(d: int, m: int, n: int, p: int, q: int)
    requires p > 0 && q > 0 && n > 0 && p * d == q * n && p * m == q * d
    ensures d > 0 && d * d == m * n
  {
    PositiveTerm(p, d, q, n);
    ScaledTerm(p, d, q, n, d);
    ScaledTerm(p, m, q, d, n);
    assert n * d == d * n;
    CancelFactor(p, d * d, m * n);
  }

  lemma PositiveTerm(p: int, d: int, q: int, n: int)
    requires p > 0 && q > 0 && n > 0 && p * d == q * n
    ensures d > 0
  {
    assert q * n > 0;
  }

  /** The equality case of Cauchy-Schwarz: for a non-zero b the bound is met with a positive
      product exactly by the positive multiples of b. */
  lemma BoundMetIffProportional(a: Vector, b: Vector)
    requires SquaredNorm(b) > 0
    ensures Dot(a, b) > 0 && Dot(a, b) * Dot(a, b) == SquaredNorm(a) * SquaredNorm(b) <==>
            exists p, q :: p > 0 && q > 0 && Proportional(a, b, p, q)
  {
    var d, m, n := Dot(a, b), SquaredNorm(a), SquaredNorm(b);
    if d > 0 && d * d == m * n {
      DotOverUnion(a, b);
      SumOfDeviations(a.Keys + b.Keys, a, b, n, d);
      EqualNormsCancel(d, n, m);
      NoDeviation(a, b, n, d);
    }
    if p, q :| p > 0 && q > 0 && Proportional(a, b, p, q) {
      ProportionalMeetsTheBound(a, b, p, q);
    }
  }

  lemma EqualSquares(x: real, y: real)
    requires x > 0.0 && y > 0.0 && x * x == y * y
    ensures x == y
  {
    if x > y {
      LargerRealSquare(x, y);
    } else if y > x {
      LargerRealSquare(y, x);
    }
  }

  lemma OneIffEqual(x: real, w: real, d: real)
    requires w > 0.0 && x * w == d
    ensures x == 1.0 <==> d == w
  {
    if d == w {
      OneOf(x, w);
    }
  }

  /** The integer and the real form of meeting the bound. */
  lemma RootsMeetTheBound(d: int, m: int, n: int, magA: real, magB: real)
    requires m > 0 && n > 0 && IsRoot(magA, m) && IsRoot(magB, n)
    ensures magA * magB > 0.0
    ensures d as real == magA * magB <==> d > 0 && d * d == m * n
  {
    var w := magA * magB;
    PositiveProduct(magA, magB);
    SquareOfMagnitudes(magA, magB);
    RealProduct(d, d);
    RealProduct(m, n);
    assert w * w == (m * n) as real;
    if d > 0 && d * d == m * n {
      EqualSquares(d as real, w);
    }
  }

  /** Two non-zero vectors are exactly 1 similar iff one is a positive multiple of the other. */
  lemma SimilarityIsOneIff(a: Vector, b: Vector, magA: real, magB: real)
    requires IsRoot(magA, SquaredNorm(a)) && IsRoot(magB, SquaredNorm(b))
    requires SquaredNorm(a) > 0 && SquaredNorm(b) > 0
    ensures CosineSimilarity(a, b, magA, magB) == 1.0 <==> exists p, q :: p > 0 && q > 0 && Proportional(a, b, p, q)
  {
    BoundMetIffProportional(a, b);
    RootsMeetTheBound(Dot(a, b), SquaredNorm(a), SquaredNorm(b), magA, magB);
    SimilarityIsTheQuotient(a, b, magA, magB);
    OneIffEqual(CosineSimilarity(a, b, magA, magB), magA * magB, Dot(a, b) as real);
  }

  lemma OneOf(x: real, w: real)
    requires w > 0.0 && x * w == w
    ensures x == 1.0
  {
  }

  lemma NonNegativeProduct(x: int, y: int)
    requires x >= 0 && y >= 0
    ensures x * y >= 0
    ensures x * y > 0 <==> x > 0 && y > 0
  {
  }

  /** Vectors as `compute_and_upsert` builds them: every stored count is at least 1. */
  ghost predicate Counts(v: Vector) {
    forall k :: k in v ==> v[k] >= 1
  }

  /** For count vectors, similarity is positive exactly when the two share a genre. */
  lemma PositiveIffShared(a: Vector, b: Vector, magA: real, magB: real)
    requires Counts(a) && Counts(b)
    requires IsRoot(magA, SquaredNorm(a)) && IsRoot(magB, SquaredNorm(b))
    ensures CosineSimilarity(a, b, magA, magB) > 0.0 <==> exists k :: k in a && k in b
  {
    forall k | k in b.Keys
      ensures Product(a, b)(k) >= 0 && (Product(a, b)(k) > 0 <==> k in a)
    {
      NonNegativeProduct(Get(a, k), Get(b, k));
    }
    SumNonNegative(b.Keys, Product(a, b));
    DotWithinMagnitudes(a, b, magA, magB);
    if magA > 0.0 && magB > 0.0 {
      assert magA * magB > 0.0;
      QuotientBounds(Dot(a, b) as real, magA * magB);
    } else {
      assert magA * magB == 0.0;
    }
  }

  // ---------- building the vectors ----------

  datatype CompletedBook = CompletedBook(author: string, publisher: Option<string>)

  const MAX_GENRE_LENGTH := 12

  predicate IsSpace(c: char) {
    c == ' ' || c == '\t' || c == '\n' || c == '\r'
  }

  function StripLeft(s: string): string {
    if s != [] && IsSpace(s[0]) then StripLeft(s[1..]) else s
  }

  function StripRight(s: string): string {
    if s != [] && IsSpace(s[|s| - 1]) then StripRight(s[..|s| - 1]) else s
  }

  function Strip(s: string): string {
    StripRight(StripLeft(s))
  }

  predicate IsSeparator(c: char) {
    c == ',' || c == '|'
  }

  /** `re.split(r"[,|]", s)`: the pieces between separators. */
  function Pieces(s: string): (r: seq<string>)
    ensures r != []
  {
    if s == [] then [[]]
    else
      var front, c := Pieces(s[..|s| - 1]), s[|s| - 1];
      if IsSeparator(c) then front + [[]]
      else front[..|front| - 1] + [front[|front| - 1] + [c]]
  }

  function NonEmptyStripped(pieces: seq<string>): seq<string> {
    if pieces == [] then []
    else
      var front, token := NonEmptyStripped(pieces[..|pieces| - 1]), Strip(pieces[|pieces| - 1]);
      if token == "" then front else front + [token]
  }

  function SplitAuthors(author: string): seq<string> {
    NonEmptyStripped(Pieces(author))
  }

  /** The genre token of a book: its publisher, when short. */
  function GenreTokens(book: CompletedBook): seq<string> {
    if book.publisher.None? || book.publisher.value == "" then []
    else
      var token := Strip(book.publisher.value);
      if token != "" && |token| <= MAX_GENRE_LENGTH then [token] else []
  }

  function AuthorTokens(book: CompletedBook): seq<string> {
    if book.author == "" then [] else SplitAuthors(book.author)
  }

  function AllTokens(books: seq<CompletedBook>, tokens: CompletedBook -> seq<string>): seq<string> {
    if books == [] then []
    else AllTokens(books[..|books| - 1], tokens) + tokens(books[|books| - 1])
  }

  // ---------- what the tokens are ----------

  lemma {:induction false} StripLeftMeaning(s: string)
    ensures var r := StripLeft(s);
            && |r| <= |s| && r == s[|s| - |r|..] && (r != "" ==> !IsSpace(r[0]))
            && forall i :: 0 <= i < |s| - |r| ==> IsSpace(s[i])
  {
    if s != "" && IsSpace(s[0]) {
      var rest, r := s[1..], StripLeft(s[1..]);
      StripLeftMeaning(rest);
      assert r == rest[|rest| - |r|..] == s[|s| - |r|..];
      forall i | 0 <= i < |s| - |r|
        ensures IsSpace(s[i])
      {
        if i > 0 {
          assert s[i] == rest[i - 1];
        }
      }
    } else {
      assert s[0..] == s;
    }
  }

  lemma {:induction false} StripRightMeaning(s: string)
    ensures var r := StripRight(s);
            && |r| <= |s| && r == s[..|r|] && (r != "" ==> !IsSpace(r[|r| - 1]))
            && forall i :: |r| <= i < |s| ==> IsSpace(s[i])
  {
    if s != "" && IsSpace(s[|s| - 1]) {
      StripRightMeaning(s[..|s| - 1]);
    }
  }

  /** Stripping takes away the white space at both ends, and nothing else. */
  lemma StripMeaning(s: string)
    ensures exists lo, hi :: 0 <= lo <= hi <= |s| && Strip(s) == s[lo..hi] &&
              (forall i :: 0 <= i < lo || hi <= i < |s| ==> s[i] in " \t\n\r") &&
              (lo < hi ==> s[lo] !in " \t\n\r" && s[hi - 1] !in " \t\n\r")
  {
    StripLeftMeaning(s);
    var left := StripLeft(s);
    StripRightMeaning(left);
    var lo := |s| - |left|;
    var hi := lo + |Strip(s)|;
    assert left == s[lo..];
    assert Strip(s) == s[lo..hi];
    forall i | 0 <= i < lo || hi <= i < |s|
      ensures s[i] in " \t\n\r"
    {
      if i >= hi {
        assert s[i] == left[i - lo];
      }
    }
    if lo < hi {
      assert Strip(s)[0] == left[0] == s[lo] && Strip(s)[|Strip(s)| - 1] == s[hi - 1];
    }
  }

  function Continued(pieces: seq<string>, c: char): seq<string>
    requires pieces != []
  {
    if IsSeparator(c) then pieces + [[]] else pieces[..|pieces| - 1] + [pieces[|pieces| - 1] + [c]]
  }

  lemma PiecesAppend(s: string, c: char)
    ensures Pieces(s + [c]) == Continued(Pieces(s), c)
  {
    assert (s + [c])[..|s|] == s;
  }

  lemma ContinuedConcat(a: seq<string>, b: seq<string>, c: char)
    requires b != []
    ensures Continued(a + b, c) == a + Continued(b, c)
  {
    assert (a + b)[..|a + b| - 1] == a + b[..|b| - 1];
  }

  lemma {:induction false} PiecesSplit(s: string, sep: char, t: string)
    requires IsSeparator(sep)
    ensures Pieces(s + [sep] + t) == Pieces(s) + Pieces(t)
  {
    if t == "" {
      assert s + [sep] + t == s + [sep];
      PiecesAppend(s, sep);
    } else {
      var front, c := t[..|t| - 1], t[|t| - 1];
      PiecesSplit(s, sep, front);
      assert t == front + [c] && s + [sep] + t == (s + [sep] + front) + [c];
      PiecesAppend(s + [sep] + front, c);
      PiecesAppend(front, c);
      ContinuedConcat(Pieces(s), Pieces(front), c);
    }
  }

  lemma {:induction false} PlainPiece(s: string)
    requires forall i :: 0 <= i < |s| ==> !IsSeparator(s[i])
    ensures Pieces(s) == [s]
  {
    if s != "" {
      PlainPiece(s[..|s| - 1]);
      assert s == s[..|s| - 1] + [s[|s| - 1]];
    }
  }

  lemma {:induction false} StrippedConcat(a: seq<string>, b: seq<string>)
    ensures NonEmptyStripped(a + b) == NonEmptyStripped(a) + NonEmptyStripped(b)
  {
    if b == [] {
      assert a + b == a;
    } else {
      assert (a + b)[..|a + b| - 1] == a + b[..|b| - 1];
      StrippedConcat(a, b[..|b| - 1]);
    }
  }

  /** The author tokens are cut at every comma and bar ... */
  lemma AuthorsAreCutAtSeparators(s: string, sep: char, t: string)
    requires sep == ',' || sep == '|'
    ensures SplitAuthors(s + [sep] + t) == SplitAuthors(s) + SplitAuthors(t)
  {
    PiecesSplit(s, sep, t);
    StrippedConcat(Pieces(s), Pieces(t));
  }

  /** ... and nowhere else: without one the stripped text is the only token, if not empty. */
  lemma AuthorsAreNotCutElsewhere(s: string)
    requires ',' !in s && '|' !in s
    ensures SplitAuthors(s) == if Strip(s) == "" then [] else [Strip(s)]
  {
    PlainPiece(s);
    assert NonEmptyStripped([s]) == if Strip(s) == "" then [] else [Strip(s)] by {
      assert [s][..0] == [];
    }
  }

  /** The genre token is the stripped publisher when it has 1 to 12 characters. */
  lemma GenreTokenMeaning(book: CompletedBook)
    ensures GenreTokens(book) ==
            match book.publisher
            case None => []
            case Some(publisher) => if 1 <= |Strip(publisher)| <= 12 then [Strip(publisher)] else []
    ensures AuthorTokens(book) == SplitAuthors(book.author)
  {
    AuthorsAreNotCutElsewhere("");
    if book.publisher.Some? && book.publisher.value == "" {
      StripMeaning("");
    }
  }

  /** `v` counts the occurrences of every token, and holds nothing else. */
  ghost predicate Tallies(v: Vector, tokens: seq<string>) {
    && (forall k :: k in v <==> k in tokens)
    && (forall k :: k in v ==> v[k] == multiset(tokens)[k])
  }

  lemma TallyOne(v: Vector, tokens: seq<string>, token: string)
    requires Tallies(v, tokens)
    ensures Tallies(v[token := Get(v, token) + 1], tokens + [token])
  {
    if token !in v {
      assert token !in tokens && multiset(tokens)[token] == 0;
    }
  }

  /** Count a book's tokens into a vector. */
  method CountTokens(v: Vector, tokens: seq<string>, ghost before: seq<string>) returns (v': Vector)
    requires Tallies(v, before)
    ensures Tallies(v', before + tokens)
  {
    v' := v;
    var i := 0;
    assert before + tokens[..0] == before;
    while i < |tokens|
      invariant i <= |tokens|
      invariant Tallies(v', before + tokens[..i])
    {
      TallyOne(v', before + tokens[..i], tokens[i]);
      assert before + tokens[..i + 1] == before + tokens[..i] + [tokens[i]];
      v' := v'[tokens[i] := Get(v', tokens[i]) + 1];
      i := i + 1;
    }
    assert tokens[..|tokens|] == tokens;
  }

  /** `compute_and_upsert`: both vectors, in one pass over the completed books. */
  method ComputeVectors(books: seq<CompletedBook>) returns (genres: Vector, authors: Vector)
    ensures Tallies(genres, AllTokens(books, GenreTokens))
    ensures Tallies(authors, AllTokens(books, AuthorTokens))
  {
    genres, authors := map[], map[];
    var i := 0;
    while i < |books|
      invariant i <= |books|
      invariant Tallies(genres, AllTokens(books[..i], GenreTokens))
      invariant Tallies(authors, AllTokens(books[..i], AuthorTokens))
    {
      assert books[..i + 1][..i] == books[..i];
      authors := CountTokens(authors, AuthorTokens(books[i]), AllTokens(books[..i], AuthorTokens));
      genres := CountTokens(genres, GenreTokens(books[i]), AllTokens(books[..i], GenreTokens));
      i := i + 1;
    }
    assert books[..|books|] == books;
  }

  lemma TalliesAreCounts(v: Vector, tokens: seq<string>)
    requires Tallies(v, tokens)
    ensures Counts(v)
  {
    forall k | k in v
      ensures v[k] >= 1
    {
      assert k in tokens && multiset(tokens)[k] > 0;
    }
  }

  lemma SharedKeyIffSharedToken(a: Vector, b: Vector, mine: seq<string>, theirs: seq<string>)
    requires Tallies(a, mine) && Tallies(b, theirs)
    ensures (exists k :: k in a && k in b) <==> (exists k :: k in mine && k in theirs)
  {
    if k :| k in a && k in b {
      assert k in mine && k in theirs;
    }
    if k :| k in mine && k in theirs {
      assert k in a && k in b;
    }
  }

  /** Tallies of two token lists are similar exactly when the lists share a token. */
  lemma TalliesSimilarIffShared(a: Vector, b: Vector, mine: seq<string>, theirs: seq<string>, magA: real, magB: real)
    requires Tallies(a, mine) && Tallies(b, theirs)
    requires IsRoot(magA, SquaredNorm(a)) && IsRoot(magB, SquaredNorm(b))
    ensures CosineSimilarity(a, b, magA, magB) > 0.0 <==> exists k :: k in mine && k in theirs
  {
    TalliesAreCounts(a, mine);
    TalliesAreCounts(b, theirs);
    PositiveIffShared(a, b, magA, magB);
    SharedKeyIffSharedToken(a, b, mine, theirs);
  }

  /** Two readers are similar exactly when some genre token occurs among the
      completed books of both. */
  lemma ReadersSimilarIffSharedGenre(mine: seq<CompletedBook>, theirs: seq<CompletedBook>, a: Vector, b: Vector,
                                     magA: real, magB: real)
    requires Tallies(a, AllTokens(mine, GenreTokens)) && Tallies(b, AllTokens(theirs, GenreTokens))
    requires IsRoot(magA, SquaredNorm(a)) && IsRoot(magB, SquaredNorm(b))
    ensures CosineSimilarity(a, b, magA, magB) > 0.0 <==>
            exists k :: k in AllTokens(mine, GenreTokens) && k in AllTokens(theirs, GenreTokens)
  {
    TalliesSimilarIffShared(a, b, AllTokens(mine, GenreTokens), AllTokens(theirs, GenreTokens), magA, magB);
  }
}
