/** Cosine similarity over the reals, and ranking by it. */
module Similarity {
  import opened Documents
  import opened Wal

  // ---- Sums ----

  /** The first n terms of the inner product. */
  function Dot(a: Embedding, b: Embedding, n: nat): real
    requires n <= |a| && n <= |b|
  {
    if n == 0 then 0.0 else Dot(a, b, n - 1) + a[n - 1] * b[n - 1]
  }

  function Min(m: nat, n: nat): nat { if m < n then m else n }

  predicate IsRoot(r: real, x: real) { r >= 0.0 && r * r == x }

  /** math.Sqrt without rounding. */
  ghost predicate IsSqrt(sqrt: real -> real) { forall x: real :: x >= 0.0 ==> IsRoot(sqrt(x), x) }

  lemma SquareNonNegative(x: real)
    ensures x * x >= 0.0
  {
  }

  lemma {:induction false} NormNonNegative(a: Embedding, n: nat)
    requires n <= |a|
    ensures Dot(a, a, n) >= 0.0
  {
    if n > 0 {
      NormNonNegative(a, n - 1);
      SquareNonNegative(a[n - 1]);
    }
  }

  lemma RootPositive(r: real, x: real)
    requires IsRoot(r, x) && x != 0.0
    ensures r > 0.0
  {
  }

  // ---- Cauchy-Schwarz ----

  lemma Product(x: real, y: real)
    requires x >= 0.0 && y >= 0.0
    ensures x * y >= 0.0
  {
  }

  lemma ProductPositive(x: real, y: real)
    requires x > 0.0 && y > 0.0
    ensures x * y > 0.0
  {
  }

  lemma SquareGrows(v: real, u: real)
    requires 0.0 <= v < u
    ensures v * v < u * u
  {
    assert u * u - v * v == (u - v) * (u + v);
    ProductPositive(u - v, u + v);
  }

  lemma SquaresCompare(u: real, v: real)
    requires u * u <= v * v && v >= 0.0
    ensures -v <= u <= v
  {
    var w := -u;
    assert w * w == u * u;
    if u > v {
      SquareGrows(v, u);
    } else if w > v {
      SquareGrows(v, w);
    }
  }

  /** One step of the inequality: adding a coordinate to both vectors keeps it. */
  lemma CauchyStep(d: real, p: real, q: real, x: real, y: real)
    requires p >= 0.0 && q >= 0.0 && d * d <= p * q
    ensures (d + x * y) * (d + x * y) <= (p + x * x) * (q + y * y)
  {
    var u := 2.0 * (d * (x * y));
    var s, t := p * (y * y), q * (x * x);
    SquareNonNegative(x);
    SquareNonNegative(y);
    Product(p, y * y);
    Product(q, x * x);
    assert u * u <= (s + t) * (s + t) by {
      var z := (x * y) * (x * y);
      SquareNonNegative(x * y);
      assert u * u == 4.0 * ((d * d) * z);
      Product(p * q - d * d, z);
      assert (p * q - d * d) * z == (p * q) * z - (d * d) * z;
      assert (p * q) * z == s * t;
      SquareNonNegative(s - t);
      assert (s + t) * (s + t) == (s - t) * (s - t) + 4.0 * (s * t);
    }
    SquaresCompare(u, s + t);
    assert (d + x * y) * (d + x * y) == d * d + u + (x * y) * (x * y);
    assert (p + x * x) * (q + y * y) == p * q + s + t + (x * x) * (y * y);
    assert (x * y) * (x * y) == (x * x) * (y * y);
  }

  lemma DotStep(a: Embedding, b: Embedding, n: nat)
    requires 0 < n <= |a| && n <= |b|
    ensures Dot(a, b, n) == Dot(a, b, n - 1) + a[n - 1] * b[n - 1]
  {
  }

  lemma {:induction false} CauchySchwarz(a: Embedding, b: Embedding, n: nat)
    requires n <= |a| && n <= |b|
    ensures Dot(a, b, n) * Dot(a, b, n) <= Dot(a, a, n) * Dot(b, b, n)
  {
    if n > 0 {
      DotStep(a, b, n);
      DotStep(a, a, n);
      DotStep(b, b, n);
      hide Dot;
      CauchySchwarz(a, b, n - 1);
      NormNonNegative(a, n - 1);
      NormNonNegative(b, n - 1);
      CauchyStep(Dot(a, b, n - 1), Dot(a, a, n - 1), Dot(b, b, n - 1), a[n - 1], b[n - 1]);
    }
  }

  // ---- The similarity ----

  lemma RootsProduct(sqrt: real -> real, p: real, q: real)
    requires IsSqrt(sqrt) && p >= 0.0 && q >= 0.0 && p != 0.0 && q != 0.0
    ensures sqrt(p) * sqrt(q) > 0.0
  {
    RootPositive(sqrt(p), p);
    RootPositive(sqrt(q), q);
    ProductPositive(sqrt(p), sqrt(q));
  }

  function Quotient(sqrt: real -> real, dot: real, p: real, q: real): real
    requires IsSqrt(sqrt) && p >= 0.0 && q >= 0.0
  {
    if p == 0.0 || q == 0.0 then 0.0
    else
      RootsProduct(sqrt, p, q);
      dot / (sqrt(p) * sqrt(q))
  }

  /** The store's similarity: the longer vector is cut to the shorter one's length. */
  function Cosine(sqrt: real -> real, a: Embedding, b: Embedding): real
    requires IsSqrt(sqrt)
  {
    var n := Min(|a|, |b|);
    NormNonNegative(a, n);
    NormNonNegative(b, n);
    Quotient(sqrt, Dot(a, b, n), Dot(a, a, n), Dot(b, b, n))
  }

  lemma ProductOfRoots(r: real, s: real, p: real, q: real)
    requires IsRoot(r, p) && IsRoot(s, q)
    ensures (r * s) * (r * s) == p * q
  {
    assert (r * s) * (r * s) == (r * r) * (s * s);
  }

  lemma QuotientBound(sqrt: real -> real, dot: real, p: real, q: real)
    requires IsSqrt(sqrt) && p >= 0.0 && q >= 0.0 && dot * dot <= p * q
    ensures -1.0 <= Quotient(sqrt, dot, p, q) <= 1.0
  {
    if p != 0.0 && q != 0.0 {
      var r, s := sqrt(p), sqrt(q);
      RootPositive(r, p);
      RootPositive(s, q);
      ProductPositive(r, s);
      ProductOfRoots(r, s, p, q);
      SquaresCompare(dot, r * s);
      DivideBound(dot, r * s);
    }
  }

  lemma DivideBound(x: real, d: real)
    requires d > 0.0 && -d <= x <= d
    ensures -1.0 <= x / d <= 1.0
  {
    assert x / d * d == x;
  }

  /** For vectors of any lengths the similarity lies in [-1, 1]. */
  lemma CosineBound(sqrt: real -> real, a: Embedding, b: Embedding)
    requires IsSqrt(sqrt)
    ensures -1.0 <= Cosine(sqrt, a, b) <= 1.0
  {
    var n := Min(|a|, |b|);
    NormNonNegative(a, n);
    NormNonNegative(b, n);
    CauchySchwarz(a, b, n);
    QuotientBound(sqrt, Dot(a, b, n), Dot(a, a, n), Dot(b, b, n));
  }

  function Scale(c: real, a: Embedding): (r: Embedding)
    ensures |r| == |a|
  {
    seq(|a|, i requires 0 <= i < |a| => c * a[i])
  }

  lemma {:induction false} DotScaled(c: real, a: Embedding, b: Embedding, n: nat)
    requires n <= |a| && n <= |b|
    ensures Dot(Scale(c, a), b, n) == c * Dot(a, b, n)
  {
    if n > 0 {
      DotScaled(c, a, b, n - 1);
      var x, y := a[n - 1], b[n - 1];
      Distribute(c, Dot(a, b, n - 1), x * y);
      assert (c * x) * y == c * (x * y);
    }
  }

  lemma {:induction false} NormScaled(c: real, a: Embedding, n: nat)
    requires n <= |a|
    ensures Dot(Scale(c, a), Scale(c, a), n) == c * (c * Dot(a, a, n))
  {
    if n > 0 {
      NormScaled(c, a, n - 1);
      var x, rest := a[n - 1], Dot(a, a, n - 1);
      NestedDistribute(c, rest, x * x);
      ScaledSquare(c, x);
    }
  }

  lemma NestedDistribute(c: real, u: real, v: real)
    ensures c * (c * (u + v)) == c * (c * u) + c * (c * v)
  {
    Distribute(c, u, v);
    Distribute(c, c * u, c * v);
  }

  lemma ScaledSquare(c: real, x: real)
    ensures (c * x) * (c * x) == c * (c * (x * x))
  {
  }

  lemma Distribute(c: real, x: real, y: real)
    ensures c * (x + y) == c * x + c * y
  {
  }

  lemma {:induction false} DotSymmetric(a: Embedding, b: Embedding, n: nat)
    requires n <= |a| && n <= |b|
    ensures Dot(a, b, n) == Dot(b, a, n)
  {
    if n > 0 {
      DotSymmetric(a, b, n - 1);
    }
  }

  lemma RootsEqual(r: real, s: real, x: real)
    requires IsRoot(r, x) && IsRoot(s, x)
    ensures r == s
  {
    SquaresCompare(r, s);
    SquaresCompare(s, r);
  }

  lemma QuotientScaled(sqrt: real -> real, c: real, dot: real, p: real, q: real, dot': real, p': real)
    requires IsSqrt(sqrt) && p >= 0.0 && q >= 0.0 && c > 0.0
    requires dot' == c * dot && p' == c * (c * p) && p' >= 0.0
    ensures Quotient(sqrt, dot', p', q) == Quotient(sqrt, dot, p, q)
  {
    if p != 0.0 {
      ProductPositive(c, p);
      ProductPositive(c, c * p);
      if q != 0.0 {
        var r, s := sqrt(p), sqrt(q);
        RootPositive(r, p);
        RootPositive(s, q);
        ProductPositive(r, s);
        ProductPositive(c, r * s);
        ScaledRoot(c, r, p);
        RootsEqual(sqrt(p'), c * r, p');
        CancelFactor(c, dot, r * s);
        Regroup(c, r, s);
      }
    }
  }

  lemma Regroup(c: real, r: real, s: real)
    ensures (c * r) * s == c * (r * s)
  {
  }

  lemma ScaledRoot(c: real, r: real, p: real)
    requires c > 0.0 && IsRoot(r, p)
    ensures IsRoot(c * r, c * (c * p))
  {
    assert (c * r) * (c * r) == c * (c * (r * r));
    Product(c, r);
  }

  lemma CancelFactor(c: real, x: real, d: real)
    requires c > 0.0 && d > 0.0 && c * d != 0.0
    ensures (c * x) / (c * d) == x / d
  {
    assert x / d * d == x;
    assert (c * d) * (x / d) == c * x;
  }

  /** Only directions matter: scaling either vector by a positive factor changes nothing. */
  lemma CosineScaled(sqrt: real -> real, c: real, a: Embedding, b: Embedding)
    requires IsSqrt(sqrt) && c > 0.0
    ensures Cosine(sqrt, Scale(c, a), b) == Cosine(sqrt, a, b)
    ensures Cosine(sqrt, b, Scale(c, a)) == Cosine(sqrt, b, a)
  {
    var n := Min(|a|, |b|);
    DotScaled(c, a, b, n);
    NormNonNegative(a, n);
    NormNonNegative(b, n);
    NormNonNegative(Scale(c, a), n);
    NormScaled(c, a, n);
    QuotientScaled(sqrt, c, Dot(a, b, n), Dot(a, a, n), Dot(b, b, n),
                   Dot(Scale(c, a), b, n), Dot(Scale(c, a), Scale(c, a), n));
    CosineSymmetric(sqrt, a, b);
    CosineSymmetric(sqrt, Scale(c, a), b);
  }

  lemma CosineSymmetric(sqrt: real -> real, a: Embedding, b: Embedding)
    requires IsSqrt(sqrt)
    ensures Cosine(sqrt, a, b) == Cosine(sqrt, b, a)
  {
    var n := Min(|a|, |b|);
    DotSymmetric(a, b, n);
    NormNonNegative(a, n);
    NormNonNegative(b, n);
    if Dot(a, a, n) != 0.0 && Dot(b, b, n) != 0.0 {
      assert sqrt(Dot(a, a, n)) * sqrt(Dot(b, b, n)) == sqrt(Dot(b, b, n)) * sqrt(Dot(a, a, n));
    }
  }

  lemma CosineValue(sqrt: real -> real, a: Embedding, b: Embedding, n: nat, dot: real, p: real, q: real)
    requires IsSqrt(sqrt) && n == Min(|a|, |b|)
    requires dot == Dot(a, b, n) && p == Dot(a, a, n) && q == Dot(b, b, n)
    ensures p == 0.0 || q == 0.0 ==> Cosine(sqrt, a, b) == 0.0
    ensures p != 0.0 && q != 0.0 ==> sqrt(p) * sqrt(q) > 0.0 && Cosine(sqrt, a, b) == dot / (sqrt(p) * sqrt(q))
  {
    NormNonNegative(a, n);
    NormNonNegative(b, n);
    if p != 0.0 && q != 0.0 {
      RootsProduct(sqrt, p, q);
    }
  }

  // ---- When two vectors are alike ----

  /** The sum of (x b[i] - y a[i]) squared over the first n coordinates. */
  function Residual(a: Embedding, b: Embedding, x: real, y: real, n: nat): real
    requires n <= |a| && n <= |b|
  {
    if n == 0 then 0.0
    else
      Residual(a, b, x, y, n - 1) + Square(x * b[n - 1] - y * a[n - 1])
  }

  function Square(z: real): real { z * z }

  lemma SquareOfDifference(x: real, y: real, u: real, v: real)
    ensures Square(x * v - y * u) == x * x * (v * v) - 2.0 * (x * y) * (u * v) + y * y * (u * u)
  {
    assert (x * v) * (x * v) == x * x * (v * v);
    assert (y * u) * (y * u) == y * y * (u * u);
    assert (x * v) * (y * u) == (x * y) * (u * v);
  }

  lemma {:induction false} ResidualIs(a: Embedding, b: Embedding, x: real, y: real, n: nat)
    requires n <= |a| && n <= |b|
    ensures Residual(a, b, x, y, n)
         == x * x * Dot(b, b, n) - 2.0 * (x * y) * Dot(a, b, n) + y * y * Dot(a, a, n)
  {
    if n > 0 {
      DotStep(a, a, n);
      DotStep(a, b, n);
      DotStep(b, b, n);
      hide Dot, Square;
      ResidualIs(a, b, x, y, n - 1);
      var u, v := a[n - 1], b[n - 1];
      SquareOfDifference(x, y, u, v);
      Distribute(x * x, Dot(b, b, n - 1), v * v);
      Distribute(2.0 * (x * y), Dot(a, b, n - 1), u * v);
      Distribute(y * y, Dot(a, a, n - 1), u * u);
    }
  }

  lemma {:induction false} NoResidual(a: Embedding, b: Embedding, x: real, y: real, n: nat)
    requires n <= |a| && n <= |b|
    ensures Residual(a, b, x, y, n) >= 0.0
    ensures Residual(a, b, x, y, n) == 0.0 ==> forall i :: 0 <= i < n ==> x * b[i] == y * a[i]
  {
    hide Square;
    if n > 0 {
      NoResidual(a, b, x, y, n - 1);
      SquareIsZero(x * b[n - 1] - y * a[n - 1]);
    }
  }

  lemma SquareIsZero(z: real)
    ensures Square(z) >= 0.0 && (Square(z) == 0.0 <==> z == 0.0)
  {
    SquareNonNegative(z);
    if z != 0.0 {
      var sq := z * z;
      ProductNotZero(z, z, sq);
    }
  }

  lemma ProductNotZero(x: real, y: real, xy: real)
    requires x != 0.0 && y != 0.0 && xy == x * y
    ensures xy != 0.0
  {
  }

  /** The first n coordinates of b are c times those of a. */
  predicate Multiple(a: Embedding, b: Embedding, c: real, n: nat)
    requires n <= |a| && n <= |b|
  {
    forall i :: 0 <= i < n ==> b[i] == c * a[i]
  }

  lemma {:induction false} MultipleSums(a: Embedding, b: Embedding, c: real, n: nat)
    requires n <= |a| && n <= |b| && Multiple(a, b, c, n)
    ensures Dot(a, b, n) == c * Dot(a, a, n) && Dot(b, b, n) == c * (c * Dot(a, a, n))
  {
    if n > 0 {
      DotStep(a, a, n);
      DotStep(a, b, n);
      DotStep(b, b, n);
      hide Dot;
      MultipleSums(a, b, c, n - 1);
      var u, v, rest := a[n - 1], b[n - 1], Dot(a, a, n - 1);
      assert v == c * u;
      assert v * v == (c * u) * (c * u);
      assert u * v == c * (u * u) by {
        assert u * (c * u) == c * (u * u);
      }
      Distribute(c, rest, u * u);
      NestedDistribute(c, rest, u * u);
      ScaledSquare(c, u);
    }
  }

  /** In the equality case of Cauchy-Schwarz b is a positive multiple of a. */
  lemma EqualityCase(a: Embedding, b: Embedding, n: nat, d: real, p: real, q: real)
    requires n <= |a| && n <= |b| && d == Dot(a, b, n) && p == Dot(a, a, n) && q == Dot(b, b, n)
    requires p > 0.0 && d > 0.0 && d * d == p * q
    ensures d / p > 0.0 && Multiple(a, b, d / p, n)
  {
    ResidualIs(a, b, p, d, n);
    NoResidual(a, b, p, d, n);
    hide Dot, Residual;
    assert p * p * q == p * (d * d) by {
      assert p * p * q == p * (p * q);
    }
    assert 2.0 * (p * d) * d == 2.0 * (p * (d * d));
    assert d * d * p == p * (d * d);
    forall i | 0 <= i < n
      ensures b[i] == d / p * a[i]
    {
      DivideOut(p, d, a[i], b[i]);
    }
    QuotientIsPositive(d, p);
  }

  lemma DivideOut(p: real, d: real, u: real, v: real)
    requires p > 0.0 && p * v == d * u
    ensures v == d / p * u
  {
    var c := d / p;
    assert c * p == d;
    assert p * (c * u) == (c * p) * u;
    assert p * (v - c * u) == 0.0;
    if v - c * u > 0.0 {
      ProductPositive(p, v - c * u);
    } else if v - c * u < 0.0 {
      ProductPositive(p, c * u - v);
    }
  }

  lemma QuotientIsPositive(d: real, p: real)
    requires d > 0.0 && p > 0.0
    ensures d / p > 0.0
  {
  }

  /** The sum of squares is zero only for zeros. */
  lemma {:induction false} NormIsZero(a: Embedding, n: nat)
    requires n <= |a|
    ensures Dot(a, a, n) == 0.0 <==> forall i :: 0 <= i < n ==> a[i] == 0.0
  {
    if n > 0 {
      LastSquare(a, n);
      hide Dot, Square;
      NormIsZero(a, n - 1);
      NormNonNegative(a, n - 1);
      SquareIsZero(a[n - 1]);
    }
  }

  lemma LastSquare(a: Embedding, n: nat)
    requires 0 < n <= |a|
    ensures Dot(a, a, n) == Dot(a, a, n - 1) + Square(a[n - 1])
  {
  }

  /**
   The similarity is 1 exactly for vectors of one direction: if both have a coordinate that is not zero among the compared
   ones, it is 1 if and only if one is a positive multiple of the other there.
   */
  lemma CosineIsOne(sqrt: real -> real, a: Embedding, b: Embedding)
    requires IsSqrt(sqrt)
    requires exists i :: 0 <= i < |a| && i < |b| && a[i] != 0.0
    requires exists i :: 0 <= i < |a| && i < |b| && b[i] != 0.0
    ensures Cosine(sqrt, a, b) == 1.0 <==> exists c: real :: c > 0.0 && Multiple(a, b, c, Min(|a|, |b|))
  {
    NormIsZero(a, Min(|a|, |b|));
    NormIsZero(b, Min(|a|, |b|));
    hide Cosine, Dot, Multiple, IsSqrt;
    OneExactly(sqrt, a, b);
  }

  lemma OneExactly(sqrt: real -> real, a: Embedding, b: Embedding)
    requires IsSqrt(sqrt)
    requires var n := Min(|a|, |b|); Dot(a, a, n) != 0.0 && Dot(b, b, n) != 0.0
    ensures Cosine(sqrt, a, b) == 1.0 <==> exists c: real :: c > 0.0 && Multiple(a, b, c, Min(|a|, |b|))
  {
    hide Cosine, Dot, Multiple, IsSqrt, IsRoot;
    var n := Min(|a|, |b|);
    var d, p, q := Dot(a, b, n), Dot(a, a, n), Dot(b, b, n);
    NormNonNegative(a, n);
    NormNonNegative(b, n);
    CosineValue(sqrt, a, b, n, d, p, q);
    RootsAre(sqrt, p, q);
    var r, s := sqrt(p), sqrt(q);
    var rs := r * s;
    WholeQuotient(d, rs);
    if d == rs {
      ProductOfRoots(r, s, p, q);
      EqualityCase(a, b, n, d, p, q);
    }
    if c: real :| c > 0.0 && Multiple(a, b, c, n) {
      MultipleSums(a, b, c, n);
      MultipleRoots(c, r, s, p, q);
    }
  }

  lemma RootsAre(sqrt: real -> real, p: real, q: real)
    requires IsSqrt(sqrt) && p >= 0.0 && q >= 0.0
    ensures IsRoot(sqrt(p), p) && IsRoot(sqrt(q), q)
  {
    hide IsRoot;
  }

  lemma MultipleRoots(c: real, r: real, s: real, p: real, q: real)
    requires c > 0.0 && IsRoot(r, p) && IsRoot(s, q) && q == c * (c * p)
    ensures c * p == r * s
  {
    ScaledRoot(c, r, p);
    RootsEqual(s, c * r, q);
    assert c * (r * r) == r * (c * r);
  }

  lemma WholeQuotient(x: real, y: real)
    requires y != 0.0
    ensures x / y == 1.0 <==> x == y
  {
    assert x / y * y == x;
  }

  /** jsonstore.go's loop. */
  method CosineSimilarity(a: Embedding, b: Embedding, sqrt: real -> real) returns (r: real)
    requires IsSqrt(sqrt)
    ensures r == Cosine(sqrt, a, b)
    ensures -1.0 <= r <= 1.0
  {
    hide Cosine, Quotient, IsSqrt;
    var n := |a|;
    if |b| < n {
      n := |b|;
    }
    var dot, magA, magB := 0.0, 0.0, 0.0;
    for i := 0 to n
      invariant dot == Dot(a, b, i) && magA == Dot(a, a, i) && magB == Dot(b, b, i)
    {
      dot := dot + a[i] * b[i];
      magA := magA + a[i] * a[i];
      magB := magB + b[i] * b[i];
    }
    CosineBound(sqrt, a, b);
    CosineValue(sqrt, a, b, n, dot, magA, magB);
    if magA == 0.0 || magB == 0.0 {
      return 0.0;
    }
    r := dot / (sqrt(magA) * sqrt(magB));
  }

  /** coherence.go's loop: vectors of different lengths are dissimilar; otherwise the two loops agree. */
  method GraphCosineSimilarity(a: Embedding, b: Embedding, sqrt: real -> real) returns (r: real)
    requires IsSqrt(sqrt)
    ensures r == if |a| == |b| then Cosine(sqrt, a, b) else 0.0
    ensures -1.0 <= r <= 1.0
  {
    hide Cosine, Quotient, IsSqrt;
    if |a| != |b| || |a| == 0 {
      if |a| == |b| {
        CosineValue(sqrt, a, b, 0, 0.0, 0.0, 0.0);
      }
      return 0.0;
    }
    var dot, normA, normB := 0.0, 0.0, 0.0;
    for i := 0 to |a|
      invariant dot == Dot(a, b, i) && normA == Dot(a, a, i) && normB == Dot(b, b, i)
    {
      dot := dot + a[i] * b[i];
      normA := normA + a[i] * a[i];
      normB := normB + b[i] * b[i];
    }
    CosineBound(sqrt, a, b);
    CosineValue(sqrt, a, b, |a|, dot, normA, normB);
    if normA == 0.0 || normB == 0.0 {
      return 0.0;
    }
    r := dot / (sqrt(normA) * sqrt(normB));
  }

  // ---- Ranking ----

  datatype Scored = Scored(id: NodeId, score: real)

  ghost predicate Descending(s: seq<Scored>) {
    forall i, j :: 0 <= i < j < |s| ==> s[i].score >= s[j].score
  }

  ghost predicate DistinctIds(s: seq<Scored>) {
    forall i, j :: 0 <= i < j < |s| ==> s[i].id != s[j].id
  }

  /** One candidate for each cached node, scored against the query. */
  ghost predicate ScoresAll(s: seq<Scored>, sqrt: real -> real, query: Embedding, vectors: map<NodeId, Embedding>)
    requires IsSqrt(sqrt)
  {
    && DistinctIds(s)
    && (forall c :: c in s ==> c.id in vectors && c.score == Cosine(sqrt, query, vectors[c.id]))
    && (forall id :: id in vectors ==> Scored(id, Cosine(sqrt, query, vectors[id])) in s)
    && |s| == |vectors|
  }

  /** sort.Slice with descending scores; only its contract is used. */
  method SortByScore(candidates: seq<Scored>) returns (sorted: seq<Scored>)
    ensures Descending(sorted) && multiset(sorted) == multiset(candidates)
  {
    sorted := [];
    for i := 0 to |candidates|
      invariant Descending(sorted) && multiset(sorted) == multiset(candidates[..i])
    {
      InsertSorted(sorted, candidates[i]);
      InsertCounts(sorted, candidates[i]);
      sorted := Insert(sorted, candidates[i]);
      assert candidates[..i + 1] == candidates[..i] + [candidates[i]];
    }
    assert candidates[..|candidates|] == candidates;
  }

  function Insert(s: seq<Scored>, c: Scored): seq<Scored> {
    if s == [] || c.score >= s[0].score then [c] + s else [s[0]] + Insert(s[1..], c)
  }

  lemma {:induction false} InsertCounts(s: seq<Scored>, c: Scored)
    ensures multiset(Insert(s, c)) == multiset(s) + multiset{c}
  {
    if s == [] || c.score >= s[0].score {
      assert multiset([c] + s) == multiset{c} + multiset(s);
    } else {
      InsertCounts(s[1..], c);
      assert multiset([s[0]] + s[1..]) == multiset{s[0]} + multiset(s[1..]);
      assert s == [s[0]] + s[1..];
    }
  }

  lemma {:induction false} InsertSorted(s: seq<Scored>, c: Scored)
    requires Descending(s)
    ensures Descending(Insert(s, c))
  {
    if s != [] && c.score < s[0].score {
      var rest := Insert(s[1..], c);
      InsertSorted(s[1..], c);
      Inserted(s[1..], c);
      forall j | 0 <= j < |rest|
        ensures s[0].score >= rest[j].score
      {
        assert rest[j] in rest;
      }
    }
  }

  lemma {:induction false} Inserted(s: seq<Scored>, c: Scored)
    ensures forall x :: x in Insert(s, c) <==> x == c || x in s
  {
    if s != [] && c.score < s[0].score {
      Inserted(s[1..], c);
    }
  }

  lemma {:induction false} DistinctByCount(s: seq<Scored>)
    requires forall i, j :: 0 <= i < j < |s| ==> s[i] != s[j]
    ensures forall x :: multiset(s)[x] <= 1
  {
    if s != [] {
      DistinctByCount(s[1..]);
      assert s == [s[0]] + s[1..];
      assert s[0] !in s[1..];
    }
  }

  lemma TwiceCounted(s: seq<Scored>, i: nat, j: nat)
    requires i < j < |s|
    ensures s[i] == s[j] ==> multiset(s)[s[i]] >= 2
  {
    var head, tail := s[..i + 1], s[i + 1..];
    assert s == head + tail;
    assert s[i] == head[i] && s[j] == tail[j - i - 1];
    assert s[i] in head && s[j] in tail;
    assert multiset(s) == multiset(head) + multiset(tail);
  }

  lemma PermutationScoresAll(s: seq<Scored>, t: seq<Scored>, sqrt: real -> real, query: Embedding,
                             vectors: map<NodeId, Embedding>)
    requires IsSqrt(sqrt) && ScoresAll(s, sqrt, query, vectors) && multiset(t) == multiset(s)
    ensures ScoresAll(t, sqrt, query, vectors)
  {
    assert forall x :: x in t <==> x in multiset(t);
    assert forall x :: x in s <==> x in multiset(s);
    assert |multiset(t)| == |t| && |multiset(s)| == |s|;
    DistinctByCount(s);
    forall i, j | 0 <= i < j < |t|
      ensures t[i].id != t[j].id
    {
      TwiceCounted(t, i, j);
      assert t[i] in s && t[j] in s;
    }
  }

  /** The k best: distinct, best first, scored truly, and nobody left out scores higher than the last. */
  ghost predicate TopK(r: seq<Scored>, sqrt: real -> real, query: Embedding, vectors: map<NodeId, Embedding>, k: nat)
    requires IsSqrt(sqrt)
  {
    && |r| == Min(k, |vectors|)
    && DistinctIds(r)
    && Descending(r)
    && (forall c :: c in r ==> c.id in vectors && c.score == Cosine(sqrt, query, vectors[c.id]))
    && (forall id, c :: id in vectors && c in r && (forall x :: x in r ==> x.id != id)
          ==> Cosine(sqrt, query, vectors[id]) <= c.score)
  }

  lemma PrefixIsTopK(s: seq<Scored>, sqrt: real -> real, query: Embedding, vectors: map<NodeId, Embedding>, k: nat)
    requires IsSqrt(sqrt) && ScoresAll(s, sqrt, query, vectors) && Descending(s)
    ensures TopK(s[..Min(k, |s|)], sqrt, query, vectors, k)
  {
    hide Cosine, IsSqrt, Descending;
    var r := s[..Min(k, |s|)];
    assert forall c :: c in r ==> c in s;
    DescendingPrefix(s, |r|);
    forall id, c | id in vectors && c in r && (forall x :: x in r ==> x.id != id)
      ensures Cosine(sqrt, query, vectors[id]) <= c.score
    {
      var mine := Scored(id, Cosine(sqrt, query, vectors[id]));
      assert mine in s;
      OmittedIsWorse(s, |r|, mine, c);
    }
  }

  lemma DescendingPrefix(s: seq<Scored>, n: nat)
    requires Descending(s) && n <= |s|
    ensures Descending(s[..n])
  {
  }

  lemma OmittedIsWorse(s: seq<Scored>, n: nat, omitted: Scored, kept: Scored)
    requires Descending(s) && n <= |s|
    requires omitted in s && kept in s[..n] && omitted !in s[..n]
    ensures omitted.score <= kept.score
  {
    var j :| 0 <= j < |s| && s[j] == omitted;
    var i :| 0 <= i < n && s[..n][i] == kept;
    assert forall m :: 0 <= m < n ==> s[m] in s[..n];
  }

  /** Scores every cached vector, sorts, and keeps the first k. An empty query finds nothing. */
  method NearestNeighbors(vectors: map<NodeId, Embedding>, query: Embedding, k: nat, sqrt: real -> real)
    returns (r: seq<Scored>)
    requires IsSqrt(sqrt)
    ensures query == [] ==> r == []
    ensures query != [] ==> TopK(r, sqrt, query, vectors, k)
  {
    if |query| == 0 {
      return [];
    }
    var candidates: seq<Scored> := [];
    var rest := vectors.Keys;
    while rest != {}
      invariant rest <= vectors.Keys
      invariant DistinctIds(candidates)
      invariant forall c :: c in candidates ==> c.id in vectors.Keys - rest && c.score == Cosine(sqrt, query, vectors[c.id])
      invariant forall id :: id in vectors.Keys - rest ==> Scored(id, Cosine(sqrt, query, vectors[id])) in candidates
      invariant |candidates| + |rest| == |vectors.Keys|
      decreases |rest|
    {
      var id :| id in rest;
      var sim := CosineSimilarity(query, vectors[id], sqrt);
      candidates := candidates + [Scored(id, sim)];
      rest := rest - {id};
    }
    assert |vectors| == |vectors.Keys|;
    var sorted := SortByScore(candidates);
    PermutationScoresAll(candidates, sorted, sqrt, query, vectors);
    PrefixIsTopK(sorted, sqrt, query, vectors, k);
    var n := k;
    if n > |sorted| {
      n := |sorted|;
    }
    r := sorted[..n];
  }
}
