/** Point arithmetic of contracts/scripts/test-joinsplit-proof.ts on the Baby Jubjub curve (EIP-2494). */
module BabyJubjub {
  import opened ModArith
  import opened ModInverse
  import opened EdwardsAlgebra
  import opened EdwardsCurve
  import opened EdwardsAssociativity

  datatype Curve = Curve(p: nat, a: nat, d: nat)

  datatype Point = Point(x: nat, y: nat)

  const BABYJUBJUB: Curve :=
    Curve(21888242871839275222246405745257275088548364400416034343698204186575808495617, 168700, 168696)

  const IDENTITY: Point := Point(0, 1)

  const BASE8: Point :=
    Point(5299619240641551281634865583518297030282874472190772894086521144482721001553,
          16950150798460657717958625567821834550301663161624707787222815936182638968203)

  /** A square root of the coefficient a modulo p. */
  const ROOT_OF_A: nat := 7214280148105020021932206872019688659210616427216992810330019057549499971851

  /** Reduced coordinates that satisfy the curve equation. */
  predicate OnCurve(c: Curve, q: Point) {
    c.p > 1 && q.x < c.p && q.y < c.p && Satisfies(c.p, c.a, c.d, q.x, q.y)
  }

  /** The facts of EIP-2494 about the constants: the modulus is an odd prime, a is a square (of s) and d is not. */
  ghost predicate IsComplete(c: Curve, s: int) {
    Prime(c.p) && c.p > 2 && Cong(s * s, c.a, c.p) && NonSquare(c.d, c.p)
  }

  /** A small curve that meets these facts: 1 is a square modulo 5 and 2 is not. */
  lemma SmallCompleteCurve()
    ensures IsComplete(Curve(5, 1, 2), 1) && OnCurve(Curve(5, 1, 2), IDENTITY)
  {
    forall z ensures !IsRoot(z, 2, 5) {
      SquareModuloFive(z);
    }
  }

  lemma SquareModuloFive(z: int)
    ensures !IsRoot(z, 2, 5)
  {
    var r := z % 5;
    CongReduced(z, 5);
    CongMul(z, r, z, r, 5);
    CongIffSameRemainder(z * z, r * r, 5);
    CongIffSameRemainder(z * z, 2, 5);
    assert r == 0 || r == 1 || r == 2 || r == 3 || r == 4;
    assert r * r == 0 || r * r == 1 || r * r == 4 || r * r == 9 || r * r == 16;
  }

  datatype Fractions = Fractions(xNum: nat, xDen: nat, yNum: nat, yDen: nat)

  /** Numerators and denominators, reduced at every step as in the script. */
  function AddFractions(c: Curve, q: Point, r: Point): Fractions
    requires c.p > 0
  {
    var x1x2 := q.x * r.x % c.p;
    var y1y2 := q.y * r.y % c.p;
    var t := (c.d * x1x2 % c.p) * y1y2 % c.p;
    Fractions((q.x * r.y % c.p + q.y * r.x % c.p) % c.p, (1 + t) % c.p,
              (y1y2 + c.p - c.a * x1x2 % c.p) % c.p, (1 + c.p - t % c.p) % c.p)
  }

  function Add(c: Curve, q: Point, r: Point): (sum: Point)
    requires c.p > 0
    ensures sum.x < c.p && sum.y < c.p
  {
    var f := AddFractions(c, q, r);
    Point(f.xNum * Inverse(f.xDen, c.p) % c.p, f.yNum * Inverse(f.yDen, c.p) % c.p)
  }

  /** The unreduced product term of the two denominators. */
  function Term(c: Curve, q: Point, r: Point): int {
    c.d * (q.x * q.y * (r.x * r.y))
  }

  lemma TermReduced(c: Curve, q: Point, r: Point)
    requires c.p > 0
    ensures var x1x2, y1y2 := q.x * r.x % c.p, q.y * r.y % c.p;
            Cong((c.d * x1x2 % c.p) * y1y2 % c.p, Term(c, q, r), c.p)
  {
    hide Cong;
    var p := c.p;
    var x1x2, y1y2 := q.x * r.x % p, q.y * r.y % p;
    CongReduced(q.x * r.x, p);
    CongReduced(q.y * r.y, p);
    CongScale(c.d, x1x2, q.x * r.x, p);
    CongReduced(c.d * x1x2, p);
    CongTransitive(c.d * x1x2 % p, c.d * x1x2, c.d * (q.x * r.x), p);
    CongMul(c.d * x1x2 % p, c.d * (q.x * r.x), y1y2, q.y * r.y, p);
    CongReduced((c.d * x1x2 % p) * y1y2, p);
    Exchange(q.x, r.x, q.y, r.y);
    assert c.d * (q.x * r.x) * (q.y * r.y) == c.d * (q.x * r.x * (q.y * r.y));
    CongTransitive((c.d * x1x2 % p) * y1y2 % p, (c.d * x1x2 % p) * y1y2, Term(c, q, r), p);
  }

  /** The reductions change none of the four values modulo p. */
  lemma FractionsReduced(c: Curve, q: Point, r: Point)
    requires c.p > 0
    ensures var f := AddFractions(c, q, r);
            && Cong(f.xNum, q.x * r.y + q.y * r.x, c.p) && Cong(f.xDen, 1 + Term(c, q, r), c.p)
            && Cong(f.yNum, q.y * r.y - c.a * (q.x * r.x), c.p) && Cong(f.yDen, 1 - Term(c, q, r), c.p)
  {
    hide Cong, Term;
    var p := c.p;
    var x1x2, y1y2 := q.x * r.x % p, q.y * r.y % p;
    var t := (c.d * x1x2 % p) * y1y2 % p;
    TermReduced(c, q, r);
    SumReduced(q.x * r.y, q.y * r.x, p);
    OnePlusReduced(t, Term(c, q, r), p);
    OneMinusReduced(1, t, Term(c, q, r), p);
    CongReduced(q.x * r.x, p);
    CongReduced(q.y * r.y, p);
    CongScale(c.a, x1x2, q.x * r.x, p);
    OneMinusReduced(y1y2, c.a * x1x2, c.a * (q.x * r.x), p);
    CongReflexive(c.a * (q.x * r.x), p);
    CongAdd(y1y2, q.y * r.y, c.a * (q.x * r.x), c.a * (q.x * r.x), p);
    CongTransitive(AddFractions(c, q, r).yNum, y1y2 - c.a * (q.x * r.x), q.y * r.y - c.a * (q.x * r.x), p);
  }

  lemma SumReduced(x: int, y: int, p: nat)
    requires p > 0
    ensures Cong((x % p + y % p) % p, x + y, p)
  {
    hide Cong;
    CongReduced(x, p);
    CongReduced(y, p);
    CongAdd(x % p, x, y % p, y, p);
    CongReduced(x % p + y % p, p);
    CongTransitive((x % p + y % p) % p, x % p + y % p, x + y, p);
  }

  lemma OnePlusReduced(t: int, u: int, p: nat)
    requires p > 0 && Cong(t, u, p)
    ensures Cong((1 + t) % p, 1 + u, p)
  {
    hide Cong;
    CongReflexive(1, p);
    CongAdd(1, 1, t, u, p);
    CongReduced(1 + t, p);
    CongTransitive((1 + t) % p, 1 + t, 1 + u, p);
  }

  lemma OneMinusReduced(k: int, t: int, u: int, p: nat)
    requires p > 0 && Cong(t, u, p)
    ensures Cong((k + p - t % p) % p, k - u, p)
  {
    CongReduced(t, p);
    CongFromMultiple(k + p, k, 1, p);
    CongTransitive(t % p, t, u, p);
    CongAdd(k + p, k, t % p, u, p);
    CongReduced(k + p - t % p, p);
    CongTransitive((k + p - t % p) % p, k + p - t % p, k - u, p);
  }

  /** A quotient computed with an inverse solves its fraction equation. */
  lemma QuotientSolves(num: nat, den: nat, n: int, e: int, p: nat)
    requires p > 0 && Coprime(den, p) && Cong(num, n, p) && Cong(den, e, p)
    ensures Cong((num * Inverse(den, p) % p) * e, n, p) && Cong(Inverse(den, p) * e, 1, p)
  {
    hide Cong, Inverse;
    var i := Inverse(den, p);
    InverseIsTheInverse(den, p, 0);
    CongSymmetric(den, e, p);
    CongScale(i, e, den, p);
    assert i * den == den * i;
    CongTransitive(i * e, den * i, 1, p);
    CongReduced(num * i, p);
    CongReflexive(e, p);
    CongMul(num * i % p, num * i, e, e, p);
    CongMul(num, n, i * e, 1, p);
    assert num * i * e == num * (i * e) && n * 1 == n;
    CongTransitive((num * i % p) * e, num * (i * e), n, p);
  }

  /** The sum of two curve points is a curve point whenever both denominators are invertible. */
  lemma AddIsClosed(c: Curve, q: Point, r: Point)
    requires OnCurve(c, q) && OnCurve(c, r)
    requires Coprime(AddFractions(c, q, r).xDen, c.p) && Coprime(AddFractions(c, q, r).yDen, c.p)
    ensures OnCurve(c, Add(c, q, r))
  {
    hide Cong, Inverse, AddFractions, Satisfies;
    var f := AddFractions(c, q, r);
    var t := Term(c, q, r);
    var sum := Add(c, q, r);
    FractionsReduced(c, q, r);
    QuotientSolves(f.xNum, f.xDen, q.x * r.y + q.y * r.x, 1 + t, c.p);
    QuotientSolves(f.yNum, f.yDen, q.y * r.y - c.a * (q.x * r.x), 1 - t, c.p);
    AdditionStaysOnCurve(c.p, c.a, c.d, q.x, q.y, r.x, r.y, sum.x, sum.y,
                         Inverse(f.xDen, c.p), Inverse(f.yDen, c.p));
  }

  /** On a complete curve every denominator is invertible: addition has no exceptional points. */
  lemma AddIsComplete(c: Curve, s: int, q: Point, r: Point)
    requires IsComplete(c, s) && OnCurve(c, q) && OnCurve(c, r)
    ensures Coprime(AddFractions(c, q, r).xDen, c.p) && Coprime(AddFractions(c, q, r).yDen, c.p)
    ensures OnCurve(c, Add(c, q, r))
  {
    hide Cong, AddFractions, Add, Satisfies;
    var f := AddFractions(c, q, r);
    var t := Term(c, q, r);
    FractionsReduced(c, q, r);
    DenominatorsNeverVanish(c.p, c.a, c.d, s, q.x, q.y, r.x, r.y, 1);
    DenominatorsNeverVanish(c.p, c.a, c.d, s, q.x, q.y, r.x, r.y, -1);
    UnitDenominator(c.p, f.xDen, t, 1);
    UnitDenominator(c.p, f.yDen, t, -1);
    AddIsClosed(c, q, r);
  }

  lemma UnitDenominator(p: nat, den: nat, t: int, sign: int)
    requires Prime(p) && sign * sign == 1 && Cong(den, 1 + sign * t, p) && !Cong(t, -sign, p)
    ensures Coprime(den, p)
  {
    hide Cong;
    if den % p == 0 {
      CongFromRemainder(den, p);
      CongSymmetric(den, 1 + sign * t, p);
      CongTransitive(1 + sign * t, den, 0, p);
      CongScale(sign, 1 + sign * t, 0, p);
      assert sign * (1 + sign * t) == sign + t && sign * 0 == 0;
      CongReflexive(sign, p);
      CongAdd(sign + t, 0, sign, sign, p);
    }
    PrimeIsCoprime(p, den);
  }

  lemma CongFromRemainder(x: int, p: nat)
    requires p > 0 && x % p == 0
    ensures Cong(x, 0, p)
  {
  }

  // ---- Identity, commutativity, negation ---------------------------------------------------------------------

  lemma AddCommutes(c: Curve, q: Point, r: Point)
    requires c.p > 0
    ensures Add(c, q, r) == Add(c, r, q)
  {
    assert q.x * r.x == r.x * q.x && q.y * r.y == r.y * q.y && q.x * r.y == r.y * q.x && q.y * r.x == r.x * q.y;
  }

  lemma IdentityOnCurve(c: Curve)
    requires c.p > 1
    ensures OnCurve(c, IDENTITY)
  {
    assert c.a * (0 * 0) == 0 && c.d * (0 * 0 * (1 * 1)) == 0;
    CongReflexive(1, c.p);
  }

  lemma InverseOfOne(p: nat)
    requires p > 1
    ensures Inverse(1, p) == 1
  {
    forall d: nat | d > 0 && Divides(d, 1) && Divides(d, p)
      ensures d == 1
    {
      var k := Quotient(1, d);
      ProductBound(d, k);
    }
    CongReflexive(1, p);
    InverseIsTheInverse(1, p, 1);
  }

  lemma SmallRemainder(x: int, p: nat)
    requires 0 <= x < p
    ensures x % p == x
  {
  }

  /** (0, 1) is neutral on reduced points. */
  lemma IdentityIsNeutral(c: Curve, q: Point)
    requires c.p > 1 && q.x < c.p && q.y < c.p
    ensures Add(c, IDENTITY, q) == q && Add(c, q, IDENTITY) == q
  {
    hide Inverse;
    InverseOfOne(c.p);
    SmallRemainder(q.x, c.p);
    SmallRemainder(q.y, c.p);
    SmallRemainder(0, c.p);
    SmallRemainder(1, c.p);
    FractionsOfIdentity(c, q);
    AddCommutes(c, IDENTITY, q);
  }

  lemma FractionsOfIdentity(c: Curve, q: Point)
    requires c.p > 1 && q.x < c.p && q.y < c.p
    ensures AddFractions(c, IDENTITY, q) == Fractions(q.x, 1, q.y, 1)
  {
    var p := c.p;
    SmallRemainder(0, p);
    SmallRemainder(1, p);
    SmallRemainder(q.x, p);
    SmallRemainder(q.y, p);
    assert 0 * q.x == 0 && 1 * q.y == q.y && 0 * q.y == 0 && 1 * q.x == q.x && c.d * 0 == 0 && c.a * 0 == 0;
    assert 0 * (q.y % p) == 0;
    CongFromMultiple(q.y + p, q.y, 1, p);
    CongIffSameRemainder(q.y + p, q.y, p);
    CongFromMultiple(1 + p, 1, 1, p);
    CongIffSameRemainder(1 + p, 1, p);
  }

  function Negate(c: Curve, q: Point): Point
    requires c.p > 0 && q.x < c.p
  {
    Point((c.p - q.x) % c.p, q.y)
  }

  lemma NegativeReduced(c: Curve, q: Point)
    requires c.p > 0 && q.x < c.p
    ensures Cong(Negate(c, q).x, 0 - q.x, c.p)
  {
    CongReduced(c.p - q.x, c.p);
    CongFromMultiple(c.p - q.x, 0 - q.x, 1, c.p);
    CongTransitive(Negate(c, q).x, c.p - q.x, 0 - q.x, c.p);
  }

  lemma NegateOnCurve(c: Curve, q: Point)
    requires OnCurve(c, q)
    ensures OnCurve(c, Negate(c, q))
  {
    hide Cong;
    var p, x: int, m := c.p, q.x, Negate(c, q).x;
    NegativeReduced(c, q);
    CongSquare(m, -x, p);
    assert (-x) * (-x) == x * x;
    CongScale(c.a, m * m, x * x, p);
    CongReflexive(q.y * q.y, p);
    CongAdd(c.a * (m * m), c.a * (x * x), q.y * q.y, q.y * q.y, p);
    CongMul(m * m, x * x, q.y * q.y, q.y * q.y, p);
    CongScale(c.d, m * m * (q.y * q.y), x * x * (q.y * q.y), p);
    CongReflexive(1, p);
    CongAdd(1, 1, c.d * (m * m * (q.y * q.y)), c.d * (x * x * (q.y * q.y)), p);
    CongSymmetric(1 + c.d * (m * m * (q.y * q.y)), 1 + c.d * (x * x * (q.y * q.y)), p);
    CongTransitive(c.a * (m * m) + q.y * q.y, c.a * (x * x) + q.y * q.y, 1 + c.d * (x * x * (q.y * q.y)), p);
    CongTransitive(c.a * (m * m) + q.y * q.y, 1 + c.d * (x * x * (q.y * q.y)), 1 + c.d * (m * m * (q.y * q.y)), p);
  }

  /** The unreduced numerators of q plus its negative. */
  lemma NumeratorsOfNegation(c: Curve, q: Point)
    requires OnCurve(c, q)
    ensures var m := Negate(c, q);
            && Cong(q.x * m.y + q.y * m.x, 0, c.p)
            && Cong(q.y * m.y - c.a * (q.x * m.x), 1 - Term(c, q, m), c.p)
  {
    hide Cong;
    var p, x: int, y: int, m: int := c.p, q.x, q.y, Negate(c, q).x;
    NegativeReduced(c, q);
    hide Negate, Term;
    MirrorSum(p, x, y, m);
    CongScale(x, m, -x, p);
    assert x * (-x) == -(x * x);
    MirrorTerm(p, c.a, c.d, x * m, x * x, y * y);
    TermOfMirror(c, q, Negate(c, q));
  }

  lemma TermOfMirror(c: Curve, q: Point, r: Point)
    requires r.y == q.y
    ensures Term(c, q, r) == c.d * (q.x * r.x * (q.y * q.y))
  {
    Exchange(q.x, q.y, r.x, q.y);
  }

  lemma MirrorSum(p: int, x: int, y: int, m: int)
    requires p > 0 && Cong(m, -x, p)
    ensures Cong(x * y + y * m, 0, p)
  {
    hide Cong;
    CongReflexive(x * y, p);
    CongScale(y, m, -x, p);
    CongAdd(x * y, x * y, y * m, y * (-x), p);
    assert x * y + y * (-x) == 0;
  }

  /** With u standing for x times its negative and X for its square. */
  lemma MirrorTerm(p: int, a: int, d: int, u: int, X: int, Y: int)
    requires p > 0 && Cong(u, -X, p) && Cong(a * X + Y, 1 + d * (X * Y), p)
    ensures Cong(Y - a * u, 1 - d * (u * Y), p)
  {
    hide Cong;
    CongScale(a, u, -X, p);
    CongReflexive(Y, p);
    CongAdd(Y, Y, a * u, a * (-X), p);
    assert Y - a * (-X) == a * X + Y;
    CongTransitive(Y - a * u, a * X + Y, 1 + d * (X * Y), p);
    CongMul(u, -X, Y, Y, p);
    CongScale(d, u * Y, (-X) * Y, p);
    assert d * ((-X) * Y) == -(d * (X * Y));
    CongReflexive(1, p);
    CongAdd(1, 1, d * (u * Y), -(d * (X * Y)), p);
    CongSymmetric(1 - d * (u * Y), 1 + d * (X * Y), p);
    CongTransitive(Y - a * u, 1 + d * (X * Y), 1 - d * (u * Y), p);
  }

  /** A point and its mirror image (-x, y) add up to the identity. */
  lemma NegationCancels(c: Curve, s: int, q: Point)
    requires IsComplete(c, s) && OnCurve(c, q)
    ensures Add(c, q, Negate(c, q)) == IDENTITY
  {
    hide Cong, Inverse, AddFractions, Satisfies, Negate, Term;
    var m, p := Negate(c, q), c.p;
    NegateOnCurve(c, q);
    AddIsComplete(c, s, q, m);
    var f, t, sum := AddFractions(c, q, m), Term(c, q, m), Add(c, q, m);
    FractionsReduced(c, q, m);
    NumeratorsOfNegation(c, q);
    CongTransitive(f.xNum, q.x * m.y + q.y * m.x, 0, p);
    CongTransitive(f.yNum, q.y * m.y - c.a * (q.x * m.x), 1 - t, p);
    QuotientSolves(f.xNum, f.xDen, 0, 1 + t, p);
    QuotientSolves(f.yNum, f.yDen, 1 - t, 1 - t, p);
    UnitQuotient(p, sum.x, 1 + t, Inverse(f.xDen, p), 0);
    UnitQuotient(p, sum.y, 1 - t, Inverse(f.yDen, p), 1);
  }

  lemma UnitQuotient(p: nat, v: nat, e: int, i: int, w: nat)
    requires v < p && w < p && Cong(v * e, w * e, p) && Cong(i * e, 1, p)
    ensures v == w
  {
    hide Cong;
    assert v * e == e * v && w * e == e * w;
    CancelUnit(p, e, i, v, w);
    CongSmall(v, w, p);
  }

  // ---- Associativity -----------------------------------------------------------------------------------------

  function AsPair(q: Point): Pair {
    Pair(q.x, q.y)
  }

  /** The sum the script computes solves the fraction equations, and the script's inverses are the ones needed. */
  lemma AddSolves(c: Curve, s: int, q: Point, r: Point)
    requires IsComplete(c, s) && OnCurve(c, q) && OnCurve(c, r)
    ensures var f := AddFractions(c, q, r);
            IsSum(c.p, c.a, c.d, AsPair(q), AsPair(r), AsPair(Add(c, q, r)), Inverse(f.xDen, c.p), Inverse(f.yDen, c.p))
  {
    hide Cong, Inverse, AddFractions, Satisfies;
    var f, t := AddFractions(c, q, r), Term(c, q, r);
    AddIsComplete(c, s, q, r);
    FractionsReduced(c, q, r);
    QuotientSolves(f.xNum, f.xDen, q.x * r.y + q.y * r.x, 1 + t, c.p);
    QuotientSolves(f.yNum, f.yDen, q.y * r.y - c.a * (q.x * r.x), 1 - t, c.p);
  }

  /** Addition of curve points is associative. */
  lemma AddAssociates(c: Curve, s: int, q: Point, r: Point, v: Point)
    requires IsComplete(c, s) && OnCurve(c, q) && OnCurve(c, r) && OnCurve(c, v)
    ensures Add(c, Add(c, q, r), v) == Add(c, q, Add(c, r, v))
  {
    hide Cong, Inverse, AddFractions, Satisfies, Add, IsSum;
    var left, right := Add(c, q, r), Add(c, v, r);
    AddCommutes(c, r, v);
    AddCommutes(c, q, right);
    AddIsComplete(c, s, q, r);
    AddIsComplete(c, s, v, r);
    AddSolves(c, s, q, r);
    AddSolves(c, s, left, v);
    AddSolves(c, s, v, r);
    AddSolves(c, s, right, q);
    var f, g, f', g' := AddFractions(c, q, r), AddFractions(c, left, v), AddFractions(c, v, r), AddFractions(c, right, q);
    var sum, other := Add(c, left, v), Add(c, right, q);
    AdditionAssociates(c.p, c.a, c.d, AsPair(q), AsPair(r), AsPair(v),
                       AsPair(left), Inverse(f.xDen, c.p), Inverse(f.yDen, c.p),
                       AsPair(sum), Inverse(g.xDen, c.p), Inverse(g.yDen, c.p),
                       AsPair(right), Inverse(f'.xDen, c.p), Inverse(f'.yDen, c.p),
                       AsPair(other), Inverse(g'.xDen, c.p), Inverse(g'.yDen, c.p));
    CongSmall(sum.x, other.x, c.p);
    CongSmall(sum.y, other.y, c.p);
  }

  // ---- Scalar multiplication ---------------------------------------------------------------------------------

  /** The n-fold sum of q, from the identity. */
  function Multiple(c: Curve, n: nat, q: Point): Point
    requires c.p > 0
  {
    if n == 0 then IDENTITY else Add(c, Multiple(c, n - 1, q), q)
  }

  lemma {:induction false} MultipleOnCurve(c: Curve, root: int, n: nat, q: Point)
    requires IsComplete(c, root) && OnCurve(c, q)
    ensures OnCurve(c, Multiple(c, n, q))
  {
    hide Add, OnCurve, IsComplete;
    assert c.p > 1 by { CompleteHasModulus(c, root); }
    if n == 0 {
      IdentityOnCurve(c);
    } else {
      MultipleOnCurve(c, root, n - 1, q);
      AddIsComplete(c, root, Multiple(c, n - 1, q), q);
    }
  }

  lemma CompleteHasModulus(c: Curve, root: int)
    requires IsComplete(c, root)
    ensures c.p > 1
  {
  }

  /** Doubling the base halves the scalar. */
  lemma {:induction false} MultipleOfDouble(c: Curve, root: int, k: nat, b: Point)
    requires IsComplete(c, root) && OnCurve(c, b)
    ensures Multiple(c, k, Add(c, b, b)) == Multiple(c, 2 * k, b)
  {
    hide Add, OnCurve, IsComplete;
    CompleteHasModulus(c, root);
    if k > 0 {
      MultipleOfDouble(c, root, k - 1, b);
      MultipleOnCurve(c, root, 2 * k - 2, b);
      var m := Multiple(c, 2 * k - 2, b);
      assert Multiple(c, 2 * k - 1, b) == Add(c, m, b);
      assert Multiple(c, 2 * k, b) == Add(c, Add(c, m, b), b);
      AddAssociates(c, root, m, b, b);
    }
  }

  /** One odd round moves a copy of the base from the remaining multiple to the result. */
  lemma OddRound(c: Curve, root: int, result: Point, k: nat, b: Point)
    requires IsComplete(c, root) && OnCurve(c, result) && OnCurve(c, b)
    ensures Add(c, result, Multiple(c, 2 * k + 1, b)) == Add(c, Add(c, result, b), Multiple(c, 2 * k, b))
  {
    hide Add, OnCurve, IsComplete;
    CompleteHasModulus(c, root);
    var m := Multiple(c, 2 * k, b);
    MultipleOnCurve(c, root, 2 * k, b);
    AddCommutes(c, m, b);
    AddAssociates(c, root, result, b, m);
    assert Multiple(c, 2 * k + 1, b) == Add(c, m, b);
  }

  /** The double-and-add loop from any of its states. */
  function DoubleAndAdd(c: Curve, s: int, result: Point, base: Point): Point
    requires c.p > 0
    decreases if s < 0 then 0 else s
  {
    if s <= 0 then result
    else DoubleAndAdd(c, s / 2, if s % 2 == 1 then Add(c, result, base) else result, Add(c, base, base))
  }

  method BjjMul(c: Curve, scalar: int, point: Point) returns (result: Point)
    requires c.p > 0
    ensures result == DoubleAndAdd(c, scalar, IDENTITY, point)
  {
    hide Add;
    result := IDENTITY;
    var base := point;
    var s := scalar;
    while s > 0
      invariant DoubleAndAdd(c, scalar, IDENTITY, point) == DoubleAndAdd(c, s, result, base)
    {
      if s % 2 == 1 {
        result := Add(c, result, base);
      }
      base := Add(c, base, base);
      s := s / 2;
    }
  }

  /** From any state the loop adds the remaining multiple of the base to the result. */
  lemma {:induction false} LoopAddsMultiple(c: Curve, root: int, s: nat, result: Point, base: Point)
    requires IsComplete(c, root) && OnCurve(c, result) && OnCurve(c, base)
    ensures DoubleAndAdd(c, s, result, base) == Add(c, result, Multiple(c, s, base))
    decreases s
  {
    hide Add, OnCurve, IsComplete;
    CompleteHasModulus(c, root);
    if s == 0 {
      EndOfMul(c, result, base);
    } else {
      var k, next := s / 2, if s % 2 == 1 then Add(c, result, base) else result;
      AddIsComplete(c, root, base, base);
      AddIsComplete(c, root, result, base);
      LoopAddsMultiple(c, root, k, next, Add(c, base, base));
      MultipleOfDouble(c, root, k, base);
      if s % 2 == 1 {
        OddRound(c, root, result, k, base);
      }
    }
  }

  /** Scalar multiplication is the s-fold sum, stays on the curve, and sends scalars up to 0 to the identity. */
  lemma BjjMulIsMultiple(c: Curve, root: int, scalar: int, q: Point)
    requires IsComplete(c, root) && OnCurve(c, q)
    ensures DoubleAndAdd(c, scalar, IDENTITY, q) == Multiple(c, if scalar < 0 then 0 else scalar, q)
    ensures OnCurve(c, DoubleAndAdd(c, scalar, IDENTITY, q))
  {
    hide Add, IsComplete;
    CompleteHasModulus(c, root);
    IdentityOnCurve(c);
    if scalar > 0 {
      LoopAddsMultiple(c, root, scalar, IDENTITY, q);
      MultipleOnCurve(c, root, scalar, q);
      IdentityIsNeutral(c, Multiple(c, scalar, q));
    }
  }

  lemma EndOfMul(c: Curve, result: Point, base: Point)
    requires OnCurve(c, result)
    ensures Add(c, result, Multiple(c, 0, base)) == result
  {
    hide Add;
    IdentityIsNeutral(c, result);
  }

  lemma {:induction false} MultipleAdds(c: Curve, root: int, m: nat, n: nat, q: Point)
    requires IsComplete(c, root) && OnCurve(c, q)
    ensures Multiple(c, m + n, q) == Add(c, Multiple(c, m, q), Multiple(c, n, q))
    decreases n
  {
    hide Add, OnCurve, IsComplete;
    CompleteHasModulus(c, root);
    MultipleOnCurve(c, root, m, q);
    if n == 0 {
      EndOfMul(c, Multiple(c, m, q), q);
    } else {
      MultipleAdds(c, root, m, n - 1, q);
      MultipleOnCurve(c, root, n - 1, q);
      AddAssociates(c, root, Multiple(c, m, q), Multiple(c, n - 1, q), q);
    }
  }

  lemma {:induction false} MultipleComposes(c: Curve, root: int, m: nat, n: nat, q: Point)
    requires IsComplete(c, root) && OnCurve(c, q)
    ensures Multiple(c, m, Multiple(c, n, q)) == Multiple(c, m * n, q)
    decreases m
  {
    hide Add, OnCurve, IsComplete;
    CompleteHasModulus(c, root);
    if m > 0 {
      MultipleComposes(c, root, m - 1, n, q);
      MultipleAdds(c, root, (m - 1) * n, n, q);
      assert m * n == (m - 1) * n + n;
    }
  }

  /** Scalars act on the curve: sums of scalars give sums of points, and nested products commute. */
  lemma BjjMulIsAnAction(c: Curve, root: int, m: nat, n: nat, q: Point)
    requires IsComplete(c, root) && OnCurve(c, q)
    ensures var mul := (k: nat, r: Point) => DoubleAndAdd(c, k, IDENTITY, r);
            && mul(m + n, q) == Add(c, mul(m, q), mul(n, q))
            && mul(m, mul(n, q)) == mul(m * n, q) == mul(n, mul(m, q))
  {
    hide Add, OnCurve, IsComplete, DoubleAndAdd, Multiple;
    CompleteHasModulus(c, root);
    MultipleOnCurve(c, root, m, q);
    MultipleOnCurve(c, root, n, q);
    BjjMulIsMultiple(c, root, m, q);
    BjjMulIsMultiple(c, root, n, q);
    BjjMulIsMultiple(c, root, m + n, q);
    BjjMulIsMultiple(c, root, m * n, q);
    BjjMulIsMultiple(c, root, m, Multiple(c, n, q));
    BjjMulIsMultiple(c, root, n, Multiple(c, m, q));
    MultipleAdds(c, root, m, n, q);
    MultipleComposes(c, root, m, n, q);
    MultipleComposes(c, root, n, m, q);
    assert m * n == n * m;
  }

  // ---- The curve of the scripts ------------------------------------------------------------------------------

  /** The generator is on the curve, and a is a square. */
  lemma ConstantsFit()
    ensures OnCurve(BABYJUBJUB, BASE8) && Cong(ROOT_OF_A * ROOT_OF_A, BABYJUBJUB.a, BABYJUBJUB.p)
  {
  }

  /** The points of a complete curve are a commutative group, and double-and-add is its multiplication by scalars. */
  lemma CompleteCurveIsAGroup(c: Curve, root: int, q: Point, r: Point, v: Point, n: nat)
    requires IsComplete(c, root) && OnCurve(c, q) && OnCurve(c, r) && OnCurve(c, v)
    ensures OnCurve(c, Add(c, q, r)) && Add(c, q, r) == Add(c, r, q)
    ensures Add(c, Add(c, q, r), v) == Add(c, q, Add(c, r, v))
    ensures Add(c, q, IDENTITY) == q && Add(c, q, Negate(c, q)) == IDENTITY && OnCurve(c, Negate(c, q))
    ensures DoubleAndAdd(c, n, IDENTITY, q) == Multiple(c, n, q) && OnCurve(c, Multiple(c, n, q))
  {
    hide Add, IsComplete, Negate, DoubleAndAdd, Multiple, Satisfies;
    AddIsComplete(c, root, q, r);
    AddCommutes(c, q, r);
    AddAssociates(c, root, q, r, v);
    IdentityIsNeutral(c, q);
    NegateOnCurve(c, q);
    NegationCancels(c, root, q);
    BjjMulIsMultiple(c, root, n, q);
  }
}
