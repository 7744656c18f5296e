/** Identities behind the twisted Edwards addition law a x^2 + y^2 = 1 + d x^2 y^2 (EIP-2494). */
module EdwardsAlgebra {
  /** The numerator relation, written in the two squared numerators. */
  function Numerators(a: int, d: int, t: int, n2: int, m2: int): int {
    a * n2 * ((1 - t) * (1 - t)) + m2 * ((1 + t) * (1 + t)) - d * (n2 * m2)
  }

  lemma QuadraticTimes(f: int, t: int)
    ensures f * ((1 - t) * (1 - t)) == f - 2 * (f * t) + f * (t * t)
    ensures f * ((1 + t) * (1 + t)) == f + 2 * (f * t) + f * (t * t)
  {
    Distribute2(f, t, t * t);
  }

  lemma Distribute2(f: int, t: int, u: int)
    ensures f * (1 - 2 * t + u) == f - 2 * (f * t) + f * u
    ensures f * (1 + 2 * t + u) == f + 2 * (f * t) + f * u
  {
  }

  lemma Distribute(k: int, x: int, y: int)
    ensures k * (x + y) == k * x + k * y
    ensures k * (x - y) == k * x - k * y
    ensures (x + y) * k == k * x + k * y
    ensures (x - y) * k == k * x - k * y
  {
  }

  /** The product of the squared numerators, with c = 2 a e and t = d e. */
  lemma ProductOfNumerators(a: int, d: int, w: int, v: int, e: int)
    ensures var t, c := d * e, 2 * a * e;
            d * ((w + 2 * e) * (v - c)) == d * (w * v) - 2 * (t * (a * w)) + 2 * (t * v) - 2 * (t * c)
  {
    var t, c := d * e, 2 * a * e;
    Distribute(w + 2 * e, v, c);
    Distribute(v, w, 2 * e);
    Distribute(c, w, 2 * e);
    Distribute(d, (w + 2 * e) * v, (w + 2 * e) * c);
    Distribute(d, v * w, v * (2 * e));
    Distribute(d, c * w, c * (2 * e));
    Atoms(a, d, w, e, v);
    Atoms(a, d, w, e, c);
  }

  lemma Atoms(a: int, d: int, w: int, e: int, v: int)
    ensures d * (v * (2 * e)) == 2 * (d * e * v)
    ensures d * (2 * a * e * w) == 2 * (d * e * (a * w))
    ensures d * (v * w) == d * (w * v)
  {
    assert d * (v * (2 * e)) == 2 * (d * e * v);
    AtomA(a, d, w, e);
  }

  lemma AtomA(a: int, d: int, w: int, e: int)
    ensures d * (2 * a * e * w) == 2 * (d * e * (a * w))
  {
    assert 2 * a * e * w == 2 * (e * (a * w));
  }

  lemma ExpandNumerators(a: int, d: int, w: int, v: int, e: int)
    ensures var t := d * e;
            Numerators(a, d, t, w + 2 * e, v - 2 * a * e) == (a * w + v) * (1 + t * t) - d * (w * v + 4 * a * (e * e))
  {
    var t, c, f := d * e, 2 * a * e, a * w;
    assert a * (w + 2 * e) == f + c by { Distribute(a, w, 2 * e); }
    QuadraticTimes(f + c, t);
    QuadraticTimes(v - c, t);
    ProductOfNumerators(a, d, w, v, e);
    Distribute(t, f, c);
    Distribute(t, v, c);
    Distribute(t * t, f, c);
    Distribute(t * t, v, c);
    Distribute(f + v, 1, t * t);
    Distribute(t * t, f, v);
    Distribute(d, w * v, 4 * a * (e * e));
    assert 2 * (t * c) == d * (4 * a * (e * e)) by { Twice(a, d, e); }
  }

  lemma Twice(a: int, d: int, e: int)
    ensures 2 * (d * e * (2 * a * e)) == d * (4 * a * (e * e))
  {
    Exchange(d, e, 2 * a, e);
    assert d * (2 * a) * (e * e) == d * (2 * a * (e * e));
  }

  lemma SquareOfSum(p: int, q: int)
    ensures (p + q) * (p + q) == p * p + 2 * (p * q) + q * q
    ensures (p - q) * (p - q) == p * p - 2 * (p * q) + q * q
  {
  }

  lemma SquareOfProduct(p: int, q: int)
    ensures (p * q) * (p * q) == p * p * (q * q)
  {
  }

  lemma ProductOfDifferences(s1: int, p: int, s2: int, q: int)
    ensures (s1 - p) * (s2 - q) == s1 * s2 - s1 * q - p * s2 + p * q
  {
  }

  lemma ProductOfSums(p: int, r: int, g: int, h: int)
    ensures (p + r) * (g + h) == p * g + r * g + p * h + r * h
  {
  }

  lemma SumOfProducts(a: int, X1: int, Y1: int, X2: int, Y2: int)
    ensures a * (X1 * Y2 + Y1 * X2) + (Y1 * Y2 + a * a * (X1 * X2)) == (a * X1 + Y1) * (a * X2 + Y2)
  {
  }

  lemma CrossTerms(a: int, X1: int, Y1: int, X2: int, Y2: int)
    ensures (X1 * Y2 + Y1 * X2) * (Y1 * Y2 + a * a * (X1 * X2)) + 4 * a * (X1 * Y1 * (X2 * Y2))
            == (a * X1 + Y1) * (a * X1 + Y1) * (X2 * Y2) + (a * X2 + Y2) * (a * X2 + Y2) * (X1 * Y1)
  {
    var q1, q2 := X1 * Y1, X2 * Y2;
    ProductOfSums(X1 * Y2, Y1 * X2, Y1 * Y2, a * a * (X1 * X2));
    Exchange(X1, Y2, Y1, Y2);
    Exchange(Y1, X2, Y1, Y2);
    Rescale(X1, Y2, a * a, X1, X2);
    Rescale(X2, Y1, a * a, X2, X1);
    SquareTimes(a, X1, Y1, q1, q2);
    SquareTimes(a, X2, Y2, q2, q1);
  }

  lemma Exchange(p: int, q: int, r: int, s: int)
    ensures (p * q) * (r * s) == p * r * (q * s)
    ensures (p * q) * (r * s) == p * r * (s * q)
  {
  }

  lemma Rescale(p: int, q: int, c: int, r: int, s: int)
    ensures (p * q) * (c * (r * s)) == c * (p * r) * (s * q)
    ensures (q * p) * (c * (s * r)) == c * (p * r) * (s * q)
  {
    Exchange(p, q, r, s);
  }

  lemma SquareTimes(a: int, X: int, Y: int, q: int, r: int)
    requires q == X * Y
    ensures (a * X + Y) * (a * X + Y) * r == a * a * (X * X) * r + 2 * a * (q * r) + Y * Y * r
  {
    SquareOfSum(a * X, Y);
    SquareOfProduct(a, X);
    assert (a * X) * Y == a * q;
    Distribute(r, a * a * (X * X) + 2 * (a * q), Y * Y);
    Distribute(r, a * a * (X * X), 2 * (a * q));
    assert r * (2 * (a * q)) == 2 * a * (q * r);
  }

  lemma FactorPair(d: int, s1: int, s2: int, q1: int, q2: int)
    ensures (s1 - d * s2 * q1) * (s2 - d * s1 * q2)
            == s1 * s2 * (1 + d * d * (q1 * q2)) - d * (s1 * s1 * q2 + s2 * s2 * q1)
  {
    ProductOfDifferences(s1, d * s2 * q1, s2, d * s1 * q2);
    PullSquare(d, s1, q2);
    PullSquare(d, s2, q1);
    AllFour(d, s1, s2, q1, q2);
    Distribute(s1 * s2, 1, d * d * (q1 * q2));
    Distribute(d, s1 * s1 * q2, s2 * s2 * q1);
  }

  lemma PullSquare(d: int, s: int, q: int)
    ensures s * (d * s * q) == d * (s * s * q)
    ensures (d * s * q) * s == d * (s * s * q)
  {
  }

  lemma AllFour(d: int, s1: int, s2: int, q1: int, q2: int)
    ensures (d * s2 * q1) * (d * s1 * q2) == s1 * s2 * (d * d * (q1 * q2))
  {
    Exchange(d * s2, q1, d * s1, q2);
    Exchange(d, s2, d, s1);
    assert d * d * (s2 * s1) * (q1 * q2) == s1 * s2 * (d * d * (q1 * q2));
  }

  lemma Squares(a: int, x1: int, y1: int, x2: int, y2: int)
    ensures var e := x1 * y1 * (x2 * y2); var n, m := x1 * y2 + y1 * x2, y1 * y2 - a * (x1 * x2);
            && n * n == (x1 * x1 * (y2 * y2) + y1 * y1 * (x2 * x2)) + 2 * e
            && m * m == (y1 * y1 * (y2 * y2) + a * a * (x1 * x1 * (x2 * x2))) - 2 * a * e
            && e * e == x1 * x1 * (y1 * y1) * (x2 * x2 * (y2 * y2))
  {
    SquareOfN(x1, y1, x2, y2);
    SquareOfM(a, x1, y1, x2, y2);
    SquareOfProduct(x1 * y1, x2 * y2);
    SquareOfProduct(x1, y1);
    SquareOfProduct(x2, y2);
  }

  lemma SquareOfN(x1: int, y1: int, x2: int, y2: int)
    ensures var n := x1 * y2 + y1 * x2;
            n * n == (x1 * x1 * (y2 * y2) + y1 * y1 * (x2 * x2)) + 2 * (x1 * y1 * (x2 * y2))
  {
    SquareOfSum(x1 * y2, y1 * x2);
    SquareOfProduct(x1, y2);
    SquareOfProduct(y1, x2);
    Exchange(x1, y2, y1, x2);
  }

  lemma SquareOfM(a: int, x1: int, y1: int, x2: int, y2: int)
    ensures var m := y1 * y2 - a * (x1 * x2);
            m * m == (y1 * y1 * (y2 * y2) + a * a * (x1 * x1 * (x2 * x2))) - 2 * a * (x1 * y1 * (x2 * y2))
  {
    SquareOfSum(y1 * y2, a * (x1 * x2));
    SquareOfProduct(y1, y2);
    SquareOfProduct(a, x1 * x2);
    SquareOfProduct(x1, x2);
    Exchange(x1, x2, y1, y2);
    Pull(y1 * y2, a, x1 * x2);
  }

  lemma Pull(p: int, a: int, q: int)
    ensures 2 * (p * (a * q)) == 2 * a * (q * p)
  {
  }

  /** The numerators factor into the two curve equations. */
  lemma NumeratorsFactor(a: int, d: int, x1: int, y1: int, x2: int, y2: int)
    ensures var t := d * (x1 * y1 * (x2 * y2)); var n, m := x1 * y2 + y1 * x2, y1 * y2 - a * (x1 * x2);
            var s1, q1 := a * (x1 * x1) + y1 * y1, x1 * x1 * (y1 * y1);
            var s2, q2 := a * (x2 * x2) + y2 * y2, x2 * x2 * (y2 * y2);
            && Numerators(a, d, t, n * n, m * m) == (s1 - d * s2 * q1) * (s2 - d * s1 * q2)
            && t * t == d * d * (q1 * q2)
  {
    hide Numerators;
    var X1, Y1, X2, Y2 := x1 * x1, y1 * y1, x2 * x2, y2 * y2;
    var e := x1 * y1 * (x2 * y2);
    Squares(a, x1, y1, x2, y2);
    var w, v := X1 * Y2 + Y1 * X2, Y1 * Y2 + a * a * (X1 * X2);
    ExpandNumerators(a, d, w, v, e);
    SumOfProducts(a, X1, Y1, X2, Y2);
    CrossTerms(a, X1, Y1, X2, Y2);
    FactorPair(d, a * X1 + Y1, a * X2 + Y2, X1 * Y1, X2 * Y2);
    SquareOfProduct(d, e);
  }
}
