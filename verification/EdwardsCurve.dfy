/** Closure and completeness of the twisted Edwards addition law, as statements about congruences. */
module EdwardsCurve {
  import opened ModArith
  import opened EdwardsAlgebra
  import opened ModInverse

  lemma CongScale(k: int, x: int, y: int, p: int)
    requires p > 0 && Cong(x, y, p)
    ensures Cong(k * x, k * y, p)
  {
    CongReflexive(k, p);
    CongMul(k, k, x, y, p);
  }

  lemma CongSquare(x: int, y: int, p: int)
    requires p > 0 && Cong(x, y, p)
    ensures Cong(x * x, y * y, p)
  {
    CongMul(x, y, x, y, p);
  }

  lemma FactorCollapses(p: int, d: int, s1: int, s2: int, q1: int, q2: int)
    requires p > 0 && Cong(s1, 1 + d * q1, p) && Cong(s2, 1 + d * q2, p)
    ensures Cong(s1 - d * s2 * q1, 1 - d * d * (q1 * q2), p)
  {
    hide Cong;
    CongScale(d * q1, s2, 1 + d * q2, p);
    assert d * q1 * s2 == d * s2 * q1;
    assert d * q1 * (1 + d * q2) == d * q1 + d * d * (q1 * q2);
    CongAdd(s1, 1 + d * q1, d * q1 * s2, d * q1 + d * d * (q1 * q2), p);
  }

  lemma NumeratorsCong(p: int, a: int, d: int, t: int, n2: int, n2': int, m2: int, m2': int)
    requires p > 0 && Cong(n2, n2', p) && Cong(m2, m2', p)
    ensures Cong(Numerators(a, d, t, n2, m2), Numerators(a, d, t, n2', m2'), p)
  {
    hide Cong;
    var e, f := (1 - t) * (1 - t), (1 + t) * (1 + t);
    CongScale(a * e, n2, n2', p);
    CongScale(f, m2, m2', p);
    CongMul(n2, n2', m2, m2', p);
    CongScale(d, n2 * m2, n2' * m2', p);
    CongAdd(a * e * n2, a * e * n2', f * m2, f * m2', p);
    CongAdd(a * e * n2 + f * m2, a * e * n2' + f * m2', d * (n2 * m2), d * (n2' * m2'), p);
    assert a * e * n2 == a * n2 * e && a * e * n2' == a * n2' * e;
  }

  /** With the numerators replaced by coordinate times denominator, the relation is the curve equation of the result. */
  lemma NumeratorsOfResult(a: int, d: int, t: int, x: int, y: int)
    ensures var k := 1 - t * t; var n, m := x * (1 + t), y * (1 - t);
            Numerators(a, d, t, n * n, m * m) == k * k * (a * (x * x) + y * y - d * (x * x * (y * y)))
  {
    var X, Y, e, f := x * x, y * y, (1 + t) * (1 + t), (1 - t) * (1 - t);
    SquareOfProduct(x, 1 + t);
    SquareOfProduct(y, 1 - t);
    SquareOfProduct(1 + t, 1 - t);
    assert (1 + t) * (1 - t) == 1 - t * t;
    CommonFactor(a, d, X, Y, e, f);
  }

  lemma CommonFactor(a: int, d: int, X: int, Y: int, e: int, f: int)
    ensures a * (X * e) * f + (Y * f) * e - d * (X * e * (Y * f)) == e * f * (a * X + Y - d * (X * Y))
  {
    assert a * (X * e) * f == e * f * (a * X);
    assert (Y * f) * e == e * f * Y;
    Exchange(X, e, Y, f);
    assert d * (X * Y * (e * f)) == e * f * (d * (X * Y));
  }

  lemma CancelUnit(p: int, k: int, i: int, x: int, y: int)
    requires p > 0 && Cong(i * k, 1, p) && Cong(k * x, k * y, p)
    ensures Cong(x, y, p)
  {
    hide Cong;
    CongScale(i, k * x, k * y, p);
    CongReflexive(x, p);
    CongReflexive(y, p);
    CongMul(i * k, 1, x, x, p);
    CongMul(i * k, 1, y, y, p);
    assert i * k * x == i * (k * x) && i * k * y == i * (k * y);
    CongSymmetric(i * (k * x), x, p);
    CongTransitive(x, i * (k * x), i * (k * y), p);
    CongTransitive(x, i * (k * y), y, p);
  }

  /** `(x, y)` satisfies the curve equation modulo `p`. */
  predicate Satisfies(p: int, a: int, d: int, x: int, y: int)
    requires p > 0
  {
    Cong(a * (x * x) + y * y, 1 + d * (x * x * (y * y)), p)
  }

  /**
   Closure: if (x3, y3) solves the two fraction equations of the addition law for points of the curve, and both
   denominators have inverses u and w, then (x3, y3) is on the curve.
   */
  lemma AdditionStaysOnCurve(p: int, a: int, d: int, x1: int, y1: int, x2: int, y2: int, x3: int, y3: int, u: int, w: int)
    requires p > 0 && Satisfies(p, a, d, x1, y1) && Satisfies(p, a, d, x2, y2)
    requires var t := d * (x1 * y1 * (x2 * y2));
             && Cong(x3 * (1 + t), x1 * y2 + y1 * x2, p) && Cong(y3 * (1 - t), y1 * y2 - a * (x1 * x2), p)
             && Cong(u * (1 + t), 1, p) && Cong(w * (1 - t), 1, p)
    ensures Satisfies(p, a, d, x3, y3)
  {
    hide Cong, Satisfies;
    NumeratorsCollapse(p, a, d, x1, y1, x2, y2);
    ResultSatisfies(p, a, d, d * (x1 * y1 * (x2 * y2)), x1 * y2 + y1 * x2, y1 * y2 - a * (x1 * x2), x3, y3, u, w);
  }

  /** On two points of the curve the numerator relation is a square. */
  lemma NumeratorsCollapse(p: int, a: int, d: int, x1: int, y1: int, x2: int, y2: int)
    requires p > 0 && Satisfies(p, a, d, x1, y1) && Satisfies(p, a, d, x2, y2)
    ensures var t := d * (x1 * y1 * (x2 * y2)); var n, m := x1 * y2 + y1 * x2, y1 * y2 - a * (x1 * x2);
            Cong(Numerators(a, d, t, n * n, m * m), (1 - t * t) * (1 - t * t), p)
  {
    hide Cong, Numerators;
    var s1, q1 := a * (x1 * x1) + y1 * y1, x1 * x1 * (y1 * y1);
    var s2, q2 := a * (x2 * x2) + y2 * y2, x2 * x2 * (y2 * y2);
    NumeratorsFactor(a, d, x1, y1, x2, y2);
    FactorCollapses(p, d, s1, s2, q1, q2);
    FactorCollapses(p, d, s2, s1, q2, q1);
    assert q1 * q2 == q2 * q1;
    var k := 1 - d * d * (q1 * q2);
    CongMul(s1 - d * s2 * q1, k, s2 - d * s1 * q2, k, p);
  }

  lemma ResultSatisfies(p: int, a: int, d: int, t: int, n: int, m: int, x: int, y: int, u: int, w: int)
    requires p > 0 && Cong(x * (1 + t), n, p) && Cong(y * (1 - t), m, p)
    requires Cong(Numerators(a, d, t, n * n, m * m), (1 - t * t) * (1 - t * t), p)
    requires Cong(u * (1 + t), 1, p) && Cong(w * (1 - t), 1, p)
    ensures Satisfies(p, a, d, x, y)
  {
    hide Cong, Numerators;
    var n', m' := x * (1 + t), y * (1 - t);
    var k, e := 1 - t * t, a * (x * x) + y * y - d * (x * x * (y * y));
    CongSquare(n', n, p);
    CongSquare(m', m, p);
    NumeratorsCong(p, a, d, t, n' * n', n * n, m' * m', m * m);
    NumeratorsOfResult(a, d, t, x, y);
    CongTransitive(k * k * e, Numerators(a, d, t, n * n, m * m), k * k, p);
    UnitFromFactors(p, t, u, w);
    CancelSquare(p, k, u * w, e);
    MoveTerm(p, a * (x * x) + y * y, d * (x * x * (y * y)));
  }

  lemma CancelSquare(p: int, k: int, i: int, e: int)
    requires p > 0 && Cong(i * k, 1, p) && Cong(k * k * e, k * k, p)
    ensures Cong(e, 1, p)
  {
    hide Cong;
    assert k * k * e == k * (k * e) && k == k * 1;
    CancelUnit(p, k, i, k * e, k);
    CancelUnit(p, k, i, e, 1);
  }

  lemma UnitFromFactors(p: int, t: int, u: int, w: int)
    requires p > 0 && Cong(u * (1 + t), 1, p) && Cong(w * (1 - t), 1, p)
    ensures Cong(u * w * (1 - t * t), 1, p)
  {
    hide Cong;
    CongMul(u * (1 + t), 1, w * (1 - t), 1, p);
    Exchange(u, 1 + t, w, 1 - t);
    assert (1 + t) * (1 - t) == 1 - t * t;
  }

  lemma MoveTerm(p: int, s: int, q: int)
    requires p > 0 && Cong(s - q, 1, p)
    ensures Cong(s, 1 + q, p)
  {
    CongReflexive(q, p);
    CongAdd(s - q, 1, q, q, p);
  }

  // ---- Completeness: the denominators never vanish -----------------------------------------------------------

  predicate IsRoot(z: int, x: int, p: int)
    requires p > 0
  {
    Cong(z * z, x, p)
  }

  ghost predicate NonSquare(x: int, p: int)
    requires p > 0
  {
    forall z :: !IsRoot(z, x, p)
  }

  lemma HasInverse(p: nat, x: int) returns (i: int)
    requires Prime(p) && !Cong(x, 0, p)
    ensures Cong(i * x, 1, p)
  {
    CongReduced(x, p);
    var r := x % p;
    PrimeIsCoprime(p, r);
    i := Inverse(r, p);
    InverseIsTheInverse(r, p, 0);
    CongReflexive(i, p);
    CongMul(i, i, x, r, p);
    assert i * r == r * i;
    CongTransitive(i * x, r * i, 1, p);
  }

  lemma SquareWithSign(u: int, v: int, sign: int)
    requires sign * sign == 1
    ensures (u + sign * v) * (u + sign * v) == u * u + 2 * sign * (u * v) + v * v
  {
    SquareOfSum(u, sign * v);
    SquareOfProduct(sign, v);
    assert 2 * (u * (sign * v)) == 2 * sign * (u * v);
  }

  /** (s x + sign y)^2 = 1 + d x^2 y^2 + 2 sign s x y on the curve, where s^2 = a. */
  lemma SquareOnCurve(p: int, a: int, d: int, s: int, x: int, y: int, sign: int)
    requires p > 0 && Satisfies(p, a, d, x, y) && Cong(s * s, a, p) && sign * sign == 1
    ensures var l := s * x + sign * y;
            Cong(l * l, 1 + d * (x * x * (y * y)) + 2 * sign * (s * (x * y)), p)
  {
    hide Cong;
    var mid := 2 * sign * (s * (x * y));
    SquareWithSign(s * x, y, sign);
    SquareOfProduct(s, x);
    assert (s * x) * y == s * (x * y);
    CongReflexive(x * x, p);
    CongMul(s * s, a, x * x, x * x, p);
    CongReflexive(y * y, p);
    CongAdd(s * s * (x * x), a * (x * x), y * y, y * y, p);
    CongTransitive(s * s * (x * x) + y * y, a * (x * x) + y * y, 1 + d * (x * x * (y * y)), p);
    CongReflexive(mid, p);
    CongAdd(s * s * (x * x) + y * y, 1 + d * (x * x * (y * y)), mid, mid, p);
  }

  /** If the product term is a sign, the two squares differ by the factor d. */
  lemma SquareRelation(p: int, a: int, d: int, s: int, x1: int, y1: int, x2: int, y2: int, eps: int, sign: int)
    requires p > 0 && Satisfies(p, a, d, x1, y1) && Satisfies(p, a, d, x2, y2) && Cong(s * s, a, p)
    requires Cong(d * (x1 * y1 * (x2 * y2)), eps, p) && eps * eps == 1 && sign * sign == 1
    ensures var l, g := s * x1 + sign * eps * y1, x1 * y1 * (s * x2 + sign * y2);
            Cong(l * l, d * (g * g), p)
  {
    hide Cong, Satisfies;
    var b, c := x1 * y1, x2 * y2;
    var t, r := d * (b * c), s * x2 + sign * y2;
    var l, g := s * x1 + sign * eps * y1, b * r;
    SquareOfProduct(sign, eps);
    SquareOnCurve(p, a, d, s, x1, y1, sign * eps);
    SquareOnCurve(p, a, d, s, x2, y2, sign);
    SquareOfProduct(x1, y1);
    SquareOfProduct(x2, y2);
    SquareOfProduct(b, r);
    CongScale(d * (b * b), r * r, 1 + d * (c * c) + 2 * sign * (s * c), p);
    RightSide(d, b, c, s, sign);
    TermReplaced(p, d * (b * b), s, b, t, eps, sign);
    assert d * (b * b) * (r * r) == d * (g * g);
    CongTransitive(d * (g * g), d * (b * b) + t * t + 2 * sign * (s * b * t),
                   1 + d * (b * b) + 2 * (sign * eps) * (s * b), p);
    CongSymmetric(d * (g * g), 1 + d * (b * b) + 2 * (sign * eps) * (s * b), p);
    CongTransitive(l * l, 1 + d * (b * b) + 2 * (sign * eps) * (s * b), d * (g * g), p);
  }

  lemma RightSide(d: int, b: int, c: int, s: int, sign: int)
    ensures var t := d * (b * c);
            d * (b * b) * (1 + d * (c * c) + 2 * sign * (s * c)) == d * (b * b) + t * t + 2 * sign * (s * b * t)
  {
    var t, D := d * (b * c), d * (b * b);
    SquareOfProduct(d, b * c);
    SquareOfProduct(b, c);
    assert D * (d * (c * c)) == d * d * (b * b * (c * c)) by { Exchange(d, b * b, d, c * c); }
    assert D * (s * c) == s * b * t by {
      assert D * (s * c) == s * (d * (b * b) * c);
      assert s * b * t == s * (b * (d * (b * c)));
      assert b * (d * (b * c)) == d * (b * b) * c;
    }
    DistributeSigned(D, d * (c * c), sign, s * c);
  }

  lemma DistributeSigned(f: int, x: int, sign: int, y: int)
    ensures f * (1 + x + 2 * sign * y) == f + f * x + 2 * sign * (f * y)
  {
    assert f * (2 * sign * y) == 2 * sign * (f * y);
  }

  lemma TermReplaced(p: int, D: int, s: int, b: int, t: int, eps: int, sign: int)
    requires p > 0 && Cong(t, eps, p) && eps * eps == 1
    ensures Cong(D + t * t + 2 * sign * (s * b * t), 1 + D + 2 * (sign * eps) * (s * b), p)
  {
    hide Cong;
    CongSquare(t, eps, p);
    CongScale(2 * sign * (s * b), t, eps, p);
    assert 2 * sign * (s * b) * t == 2 * sign * (s * b * t);
    assert 2 * sign * (s * b) * eps == 2 * (sign * eps) * (s * b);
    CongReflexive(D, p);
    CongAdd(D, D, t * t, 1, p);
    CongAdd(D + t * t, D + 1, 2 * sign * (s * b * t), 2 * (sign * eps) * (s * b), p);
  }

  /** A nonzero R would make d a square. */
  lemma RootOfD(p: nat, d: int, l: int, b: int, r: int, i: int, j: int)
    requires p > 0 && Cong(l * l, d * (b * r * (b * r)), p) && Cong(i * b, 1, p) && Cong(j * r, 1, p)
    ensures IsRoot(l * (i * j), d, p)
  {
    hide Cong;
    var g, h := b * r, i * j;
    CongMul(i * b, 1, j * r, 1, p);
    Exchange(i, b, j, r);
    CongSquare(h * g, 1, p);
    CongReflexive(h * h, p);
    CongMul(l * l, d * (g * g), h * h, h * h, p);
    SquareOfProduct(l, h);
    SquareOfProduct(h, g);
    CongScale(d, h * g * (h * g), 1, p);
    assert d * (g * g) * (h * h) == d * (h * h * (g * g));
    CongTransitive(l * h * (l * h), d * (h * g * (h * g)), d, p);
  }

  /**
   Completeness: when p is an odd prime, a is a square and d is not, the term d x1 y1 x2 y2 of two points of the curve
   is never 1 or -1, so no denominator of the addition law vanishes.
   */
  lemma DenominatorsNeverVanish(p: nat, a: int, d: int, s: int, x1: int, y1: int, x2: int, y2: int, eps: int)
    requires Prime(p) && p > 2 && Cong(s * s, a, p) && NonSquare(d, p)
    requires Satisfies(p, a, d, x1, y1) && Satisfies(p, a, d, x2, y2) && eps * eps == 1
    ensures !Cong(d * (x1 * y1 * (x2 * y2)), eps, p)
  {
    hide Cong, Satisfies;
    var b, c := x1 * y1, x2 * y2;
    if Cong(d * (b * c), eps, p) {
      UnitsFromTerm(p, d, b, x2, y2, eps);
      var plus, minus := s * x2 + 1 * y2, s * x2 + (-1) * y2;
      SquareRelation(p, a, d, s, x1, y1, x2, y2, eps, 1);
      SquareRelation(p, a, d, s, x1, y1, x2, y2, eps, -1);
      if !Cong(plus, 0, p) {
        var j := HasInverse(p, plus);
        RootOfD(p, d, s * x1 + 1 * eps * y1, b, plus, eps * d * c, j);
      } else if !Cong(minus, 0, p) {
        var j := HasInverse(p, minus);
        RootOfD(p, d, s * x1 + (-1) * eps * y1, b, minus, eps * d * c, j);
      } else {
        CongAdd(plus, 0, minus, 0, p);
        TwoIsNotZero(p, y2, eps * d * (b * x2));
      }
    }
  }

  /** A product congruent to a sign gives inverses of its factors. */
  lemma UnitsFromTerm(p: int, d: int, b: int, x: int, y: int, eps: int)
    requires p > 0 && Cong(d * (b * (x * y)), eps, p) && eps * eps == 1
    ensures Cong(eps * d * (x * y) * b, 1, p) && Cong(eps * d * (b * x) * y, 1, p)
  {
    hide Cong;
    var t := d * (b * (x * y));
    CongScale(eps, t, eps, p);
    assert eps * d * (x * y) * b == eps * t;
    assert eps * d * (b * x) * y == eps * t;
  }

  lemma TwoIsNotZero(p: nat, y: int, i: int)
    requires p > 2 && Cong(i * y, 1, p)
    ensures !Cong(2 * y, 0, p)
  {
    hide Cong;
    if Cong(2 * y, 0, p) {
      CongScale(i, 2 * y, 0, p);
      CongScale(2, i * y, 1, p);
      assert i * (2 * y) == 2 * (i * y) && i * 0 == 0;
      CongSymmetric(2 * (i * y), 2, p);
      CongTransitive(2, 2 * (i * y), 0, p);
      CongSmall(2, 0, p);
    }
  }
}
