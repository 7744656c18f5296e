/**
 Associativity of the twisted Edwards addition law, as a statement about congruences. Both ways of adding three points
 give one fraction per coordinate. Their cross products differ by a combination of four monomials, and each of its
 coefficients is a multiple of the expression Phi, which vanishes on the curve.
 */
module EdwardsAssociativity {
  import opened ModArith
  import opened EdwardsAlgebra
  import opened EdwardsCurve

  function Phi(g1: int, g3: int, h: int, m1: int, m3: int, r1: int, r3: int, t: int): int {
    r3 * (g1 - h * m1) + r1 * (h * m3 - g3) + t * (g1 * m3 - g3 * m1)
  }

  lemma PhiIsZero(c: int, g1: int, g3: int, h: int, m1: int, m3: int)
    ensures Phi(g1, g3, h, m1, m3, m1 - 2 * c * g1, m3 - 2 * c * g3, 2 * c * h - 1) == 0
  {
    var u, v, w := h * m1, h * m3, g1 * m3 - g3 * m1;
    Distribute(g1 - u, m3, 2 * c * g3);
    Distribute(v - g3, m1, 2 * c * g1);
    Distribute(w, 2 * c * h, 1);
    Distribute(m3, g1, u);
    Distribute(m1, v, g3);
    Distribute(2 * c * g3, g1, u);
    Distribute(2 * c * g1, v, g3);
    Distribute(2 * c * h, g1 * m3, g3 * m1);
    Rearranged(c, g1, g3, h, m1, m3);
  }

  lemma Rearranged(c: int, g1: int, g3: int, h: int, m1: int, m3: int)
    ensures m3 * (h * m1) == m1 * (h * m3)
    ensures 2 * c * g3 * g1 == 2 * c * g1 * g3
    ensures 2 * c * h * (g1 * m3) == 2 * c * g1 * (h * m3)
    ensures 2 * c * h * (g3 * m1) == 2 * c * g3 * (h * m1)
  {
  }

  lemma PhiVanishes(p: int, c: int, g1: int, g3: int, h: int, m1: int, m3: int, r1: int, r3: int, t: int)
    requires p > 0 && Cong(r1, m1 - 2 * c * g1, p) && Cong(r3, m3 - 2 * c * g3, p) && Cong(t, 2 * c * h - 1, p)
    ensures Cong(Phi(g1, g3, h, m1, m3, r1, r3, t), 0, p)
  {
    hide Cong;
    var e1, e3, e := m1 - 2 * c * g1, m3 - 2 * c * g3, 2 * c * h - 1;
    var f1, f3, f := h * m3 - g3, g1 - h * m1, g1 * m3 - g3 * m1;
    CongTimes(r1, e1, f1, p);
    CongTimes(r3, e3, f3, p);
    CongTimes(t, e, f, p);
    CongAdd(r3 * f3, e3 * f3, r1 * f1, e1 * f1, p);
    CongAdd(r3 * f3 + r1 * f1, e3 * f3 + e1 * f1, t * f, e * f, p);
    PhiIsZero(c, g1, g3, h, m1, m3);
  }

  lemma CongTimes(x: int, y: int, k: int, p: int)
    requires p > 0 && Cong(x, y, p)
    ensures Cong(x * k, y * k, p)
  {
    CongReflexive(k, p);
    CongMul(x, y, k, k, p);
  }

  /** The part of the cross difference that belongs to one monomial. */
  function Part(u: int, v: int, w: int, m1: int, m3: int, r1: int, r3: int, t: int): int {
    u * (r3 + m3 * t) - v * (r1 + m1 * t) - w * (m1 * r3) + w * (m3 * r1)
  }

  lemma PartIsPhi(k: int, g1: int, g3: int, h: int, m1: int, m3: int, r1: int, r3: int, t: int)
    ensures Part(k * g1, k * g3, k * h, m1, m3, r1, r3, t) == k * Phi(g1, g3, h, m1, m3, r1, r3, t)
  {
    hide Phi;
    PhiGrouped(g1, g3, h, m1, m3, r1, r3, t);
    Four(k, g1 * (r3 + m3 * t), g3 * (r1 + m1 * t), h * (m1 * r3), h * (m3 * r1));
    Regroup(k, g1, r3 + m3 * t);
    Regroup(k, g3, r1 + m1 * t);
    Regroup(k, h, m1 * r3);
    Regroup(k, h, m3 * r1);
  }

  lemma Four(k: int, a: int, b: int, c: int, d: int)
    ensures k * (a - b - c + d) == k * a - k * b - k * c + k * d
  {
  }

  lemma Regroup(k: int, x: int, y: int)
    ensures k * x * y == k * (x * y)
  {
  }

  lemma PhiGrouped(g1: int, g3: int, h: int, m1: int, m3: int, r1: int, r3: int, t: int)
    ensures Phi(g1, g3, h, m1, m3, r1, r3, t)
            == g1 * (r3 + m3 * t) - g3 * (r1 + m1 * t) - h * (m1 * r3) + h * (m3 * r1)
  {
    Distribute(r3, g1, h * m1);
    Distribute(r1, h * m3, g3);
    Distribute(t, g1 * m3, g3 * m1);
    Distribute(g1, r3, m3 * t);
    Distribute(g3, r1, m1 * t);
    assert r3 * (h * m1) == h * (m1 * r3) && r1 * (h * m3) == h * (m3 * r1);
    assert t * (g1 * m3) == g1 * (m3 * t) && t * (g3 * m1) == g3 * (m1 * t);
  }

  lemma PartVanishes(p: int, k: int, c: int, g1: int, g3: int, h: int, u: int, v: int, w: int,
                     m1: int, m3: int, r1: int, r3: int, t: int)
    requires p > 0 && Cong(r1, m1 - 2 * c * g1, p) && Cong(r3, m3 - 2 * c * g3, p) && Cong(t, 2 * c * h - 1, p)
    requires u == k * g1 && v == k * g3 && w == k * h
    ensures Cong(Part(u, v, w, m1, m3, r1, r3, t), 0, p)
  {
    hide Cong, Phi, Part;
    PhiVanishes(p, c, g1, g3, h, m1, m3, r1, r3, t);
    PartIsPhi(k, g1, g3, h, m1, m3, r1, r3, t);
    CongScale(k, Phi(g1, g3, h, m1, m3, r1, r3, t), 0, p);
  }

  // ---- The cross difference ----------------------------------------------------------------------------------

  lemma OneSide(s: int, p: int, d: int, sq: int, r: int, w: int, r2: int)
    ensures (s + p * d) * (1 - sq + p * r + w * r2)
            == s - sq * s + p * (s * r) + w * (s * r2) + p * (d * (1 - sq)) + p * p * (d * r) + w * p * (d * r2)
  {
    var f := 1 - sq + p * r + w * r2;
    Distribute(f, s, p * d);
    SideTerms(s, sq, p * r, w * r2);
    SideTerms(p * d, sq, p * r, w * r2);
    Exchange(p, d, p, r);
    Exchange(p, d, w, r2);
    Distribute(d, 1, sq);
    Distribute(p, d, d * sq);
    SideAtoms(s, p, d, sq, r, w, r2);
  }

  lemma SideAtoms(s: int, p: int, d: int, sq: int, r: int, w: int, r2: int)
    ensures s * (p * r) == p * (s * r) && s * (w * r2) == w * (s * r2)
    ensures sq * (p * d) == p * (d * sq) && p * w * (d * r2) == w * p * (d * r2)
  {
  }

  lemma SideTerms(k: int, a: int, b: int, c: int)
    ensures k * (1 - a + b + c) == k - a * k + k * b + k * c
    ensures (1 - a + b + c) * k == k - a * k + k * b + k * c
  {
  }

  lemma CrossDifference(s: int, d: int, e: int, p: int, q: int, w: int,
                        m1: int, m2: int, m3: int, r1: int, r2: int, r3: int)
    requires p * p == m1 * m2 && q * q == m2 * m3 && w * p == m1 * q && w * q == m3 * p
    ensures (s + p * d) * (1 - q * q + p * r3 + w * r2) - (s + q * e) * (1 - p * p + q * r1 + w * r2)
            == p * (s * r3 + d * (1 - m2 * m3) - e * (r2 * m3)) - q * (s * r1 + e * (1 - m1 * m2) - d * (r2 * m1))
               + m1 * m2 * (s + d * r3) - m2 * m3 * (s + e * r1)
  {
    OneSide(s, p, d, q * q, r3, w, r2);
    OneSide(s, q, e, p * p, r1, w, r2);
    ThreeTerms(p, s * r3, d * (1 - m2 * m3), e * (r2 * m3));
    ThreeTerms(q, s * r1, e * (1 - m1 * m2), d * (r2 * m1));
    Distribute(m1 * m2, s, d * r3);
    Distribute(m2 * m3, s, e * r1);
    MoveFactor(m1, q, d, r2);
    MoveFactor(m3, p, e, r2);
  }

  lemma ThreeTerms(k: int, a: int, b: int, c: int)
    ensures k * (a + b - c) == k * a + k * b - k * c
  {
  }

  lemma MoveFactor(m: int, q: int, d: int, r: int)
    ensures m * q * (d * r) == q * (d * (r * m))
  {
  }

  lemma BracketParts(al: int, be: int, ga: int, z: int, m: int, m2: int, r: int, r2: int)
    ensures (al + be + ga - z) * r + (ga - z - al - be) * (1 - m2 * m) - (al - z - be - ga) * (r2 * m)
            == al * (r - 1 + m * (m2 - r2)) + be * (r - 1 + m * (m2 + r2))
               - ga * (-r - 1 + m * (m2 - r2)) + z * (-r - 1 + m * (m2 + r2))
  {
    var u, v := m * m2, m * r2;
    Distribute(m, m2, r2);
    FourSigns(al, be, ga, z, r, 1 - u, v);
  }

  lemma FourSigns(al: int, be: int, ga: int, z: int, r: int, s: int, v: int)
    ensures (al + be + ga - z) * r + (ga - z - al - be) * s - (al - z - be - ga) * v
            == al * (r - s - v) + be * (r - s + v) - ga * (-r - s - v) + z * (-r - s + v)
  {
    OneOfFour(al, r, s, v);
    OneOfFour(be, r, s, v);
    OneOfFour(ga, r, s, v);
    OneOfFour(z, r, s, v);
    SumOfFour(r, al, be, ga, z);
    SumOfFour(s, 0 - al, 0 - be, ga, z);
    SumOfFour(v, al, 0 - be, 0 - ga, z);
  }

  lemma OneOfFour(k: int, r: int, s: int, v: int)
    ensures k * (r - s - v) == k * r - k * s - k * v && k * (r - s + v) == k * r - k * s + k * v
    ensures k * (-r - s - v) == -(k * r) - k * s - k * v && k * (-r - s + v) == -(k * r) - k * s + k * v
    ensures (0 - k) * s == -(k * s) && (0 - k) * v == -(k * v)
  {
  }

  lemma SumOfFour(k: int, a: int, b: int, c: int, d: int)
    ensures (a + b + c - d) * k == a * k + b * k + c * k - d * k
  {
  }

  lemma ScaledParts(k: int, al: int, be: int, ga: int, z: int, ka: int, kb: int, kc: int, kz: int)
    ensures k * (al * ka + be * kb - ga * kc + z * kz) == k * al * ka + k * be * kb - k * ga * kc + k * z * kz
  {
    Regroup(k, al, ka);
    Regroup(k, be, kb);
    Regroup(k, ga, kc);
    Regroup(k, z, kz);
    Distribute(k, al * ka + be * kb - ga * kc, z * kz);
    ThreeTerms(k, al * ka, be * kb, ga * kc);
  }

  lemma SquareParts(m1: int, m2: int, al: int, be: int, ga: int, z: int, r: int)
    ensures m1 * m2 * ((al + be + ga - z) + (ga - z - al - be) * r)
            == -(m2 * al * (m1 * (r - 1))) - m2 * be * (m1 * (r - 1))
               - m2 * ga * (m1 * (-r - 1)) + m2 * z * (m1 * (-r - 1))
  {
    SumOfFour(r, 0 - al, 0 - be, ga, z);
    assert (al + be + ga - z) + (ga - z - al - be) * r
        == -(al * (r - 1)) - be * (r - 1) - ga * (-r - 1) + z * (-r - 1) by {
      OneTimes(al, r);
      OneTimes(be, r);
      OneTimes(ga, r);
      OneTimes(z, r);
    }
    var k := m1 * m2;
    FourNegative(k, al * (r - 1), be * (r - 1), ga * (-r - 1), z * (-r - 1));
    Exchange(m2, al, m1, r - 1);
    Exchange(m2, be, m1, r - 1);
    Exchange(m2, ga, m1, -r - 1);
    Exchange(m2, z, m1, -r - 1);
    assert m2 * m1 == k;
  }

  lemma OneTimes(k: int, r: int)
    ensures k * (r - 1) == k * r - k && k * (-r - 1) == -(k * r) - k && (0 - k) * r == -(k * r)
  {
  }

  lemma FourNegative(k: int, a: int, b: int, c: int, d: int)
    ensures k * (-a - b - c + d) == -(k * a) - k * b - k * c + k * d
  {
  }

  /** Numerators and denominators of both ways of adding three points have this shape. */
  lemma CrossParts(al: int, be: int, ga: int, z: int, p: int, q: int, w: int,
                   m1: int, m2: int, m3: int, r1: int, r2: int, r3: int)
    requires p * p == m1 * m2 && q * q == m2 * m3 && w * p == m1 * q && w * q == m3 * p
    ensures var s, d, e := al + be + ga - z, ga - z - al - be, al - z - be - ga;
            (s + p * d) * (1 - q * q + p * r3 + w * r2) - (s + q * e) * (1 - p * p + q * r1 + w * r2)
            == Part(p * be, q * z, m2 * al, m1, m3, -r1 - 1, r3 - 1, m2 + r2)
               + Part(p * al, q * ga, m2 * be, m1, m3, r1 - 1, r3 - 1, m2 - r2)
               + Part(p * z, q * be, m2 * ga, m1, m3, r1 - 1, -r3 - 1, m2 + r2)
               - Part(p * ga, q * al, m2 * z, m1, m3, -r1 - 1, -r3 - 1, m2 - r2)
  {
    var s, d, e := al + be + ga - z, ga - z - al - be, al - z - be - ga;
    CrossDifference(s, d, e, p, q, w, m1, m2, m3, r1, r2, r3);
    BracketParts(al, be, ga, z, m3, m2, r3, r2);
    BracketParts(ga, be, al, z, m1, m2, r1, r2);
    ScaledParts(p, al, be, ga, z, r3 - 1 + m3 * (m2 - r2), r3 - 1 + m3 * (m2 + r2),
                -r3 - 1 + m3 * (m2 - r2), -r3 - 1 + m3 * (m2 + r2));
    ScaledParts(q, ga, be, al, z, r1 - 1 + m1 * (m2 - r2), r1 - 1 + m1 * (m2 + r2),
                -r1 - 1 + m1 * (m2 - r2), -r1 - 1 + m1 * (m2 + r2));
    SquareParts(m1, m2, al, be, ga, z, r3);
    SquareParts(m3, m2, ga, be, al, z, r1);
    assert m2 * m1 == m1 * m2 && m2 * m3 == m3 * m2;
  }

  // ---- Three points ------------------------------------------------------------------------------------------

  datatype Pair = Pair(x: int, y: int)

  function Cross(d: int, p: Pair, q: Pair): int {
    d * (p.x * p.y * (q.x * q.y))
  }

  function XTop(p: Pair, q: Pair): int {
    p.x * q.y + p.y * q.x
  }

  function YTop(a: int, p: Pair, q: Pair): int {
    p.y * q.y - a * (p.x * q.x)
  }

  /** Numerators and denominators of (p + q) + r, cleared of inner fractions. */
  function XNum(a: int, d: int, p: Pair, q: Pair, r: Pair): int {
    XTop(p, q) * (1 - Cross(d, p, q)) * r.y + YTop(a, p, q) * (1 + Cross(d, p, q)) * r.x
  }

  function YNum(a: int, d: int, p: Pair, q: Pair, r: Pair): int {
    YTop(a, p, q) * (1 + Cross(d, p, q)) * r.y - a * (XTop(p, q) * (1 - Cross(d, p, q)) * r.x)
  }

  function Den(sign: int, a: int, d: int, p: Pair, q: Pair, r: Pair): int {
    1 - Cross(d, p, q) * Cross(d, p, q) + sign * (d * (XTop(p, q) * YTop(a, p, q) * (r.x * r.y)))
  }

  function Square(d: int, p: Pair): int {
    d * (p.x * p.x * (p.y * p.y))
  }

  function Gap(a: int, p: Pair): int {
    p.y * p.y - a * (p.x * p.x)
  }

  lemma CrossSquares(d: int, p: Pair, q: Pair, r: Pair)
    ensures Cross(d, p, q) * Cross(d, p, q) == Square(d, p) * Square(d, q)
    ensures Cross(d, p, r) * Cross(d, p, q) == Square(d, p) * Cross(d, q, r)
    ensures Cross(d, p, q) == Cross(d, q, p)
  {
    SameCross(d, p.x * p.y, q.x * q.y, r.x * r.y);
    SquareOfProduct(p.x, p.y);
    SquareOfProduct(q.x, q.y);
  }

  lemma SameCross(d: int, u: int, v: int, w: int)
    ensures d * (u * v) * (d * (u * v)) == d * (u * u) * (d * (v * v))
    ensures d * (u * w) * (d * (u * v)) == d * (u * u) * (d * (v * w))
    ensures d * (u * v) == d * (v * u)
  {
    Exchange(d, u * v, d, u * v);
    Exchange(d, u * w, d, u * v);
    Exchange(d, u * u, d, v * v);
    Exchange(d, u * u, d, v * w);
    Exchange(u, v, u, v);
    Exchange(u, w, u, v);
  }

  lemma TopProduct(a: int, p: Pair, q: Pair)
    ensures XTop(p, q) * YTop(a, p, q) == p.x * p.y * Gap(a, q) + q.x * q.y * Gap(a, p)
  {
    var u, v, g, h := p.x * q.y, p.y * q.x, p.y * q.y, a * (p.x * q.x);
    ProductOfSums(u, v, g, 0 - h);
    Exchange(p.x, q.y, p.y, q.y);
    Exchange(p.y, q.x, p.y, q.y);
    TopAtoms(a, p.x, p.y, q.x, q.y);
    Distribute(p.x * p.y, q.y * q.y, a * (q.x * q.x));
    Distribute(q.x * q.y, p.y * p.y, a * (p.x * p.x));
    assert u * (0 - h) == -(u * h) && v * (0 - h) == -(v * h);
  }

  lemma TopAtoms(a: int, x1: int, y1: int, x2: int, y2: int)
    ensures x1 * y2 * (a * (x1 * x2)) == x2 * y2 * (a * (x1 * x1))
    ensures y1 * x2 * (a * (x1 * x2)) == x1 * y1 * (a * (x2 * x2))
    ensures y1 * y1 * (x2 * y2) == x2 * y2 * (y1 * y1)
  {
    Exchange(x1, y2, x1, x2);
    Exchange(y1, x2, x1, x2);
    SlideFactor(x1 * y2, a, x1 * x2);
    SlideFactor(y1 * x2, a, x1 * x2);
    SlideFactor(x2 * y2, a, x1 * x1);
    SlideFactor(x1 * y1, a, x2 * x2);
    assert x1 * x1 * (x2 * y2) == x2 * y2 * (x1 * x1) && y1 * x1 * (x2 * x2) == x1 * y1 * (x2 * x2);
  }

  lemma SlideFactor(k: int, a: int, w: int)
    ensures k * (a * w) == a * (k * w)
  {
  }

  lemma DenForm(sign: int, a: int, d: int, p: Pair, q: Pair, r: Pair)
    ensures Den(sign, a, d, p, q, r)
            == 1 - Cross(d, p, q) * Cross(d, p, q) + Cross(d, q, r) * (sign * Gap(a, p)) + Cross(d, p, r) * (sign * Gap(a, q))
  {
    hide XTop, YTop, Gap;
    TopProduct(a, p, q);
    DenAtoms(sign, d, p.x * p.y, q.x * q.y, r.x * r.y, Gap(a, p), Gap(a, q));
  }

  lemma DenAtoms(sign: int, d: int, u: int, v: int, w: int, g: int, h: int)
    ensures sign * (d * ((u * h + v * g) * w)) == d * (v * w) * (sign * g) + d * (u * w) * (sign * h)
  {
    Distribute(w, u * h, v * g);
    Distribute(d, w * (u * h), w * (v * g));
    Distribute(sign, d * (w * (u * h)), d * (w * (v * g)));
    DenAtom(sign, d, u, w, h);
    DenAtom(sign, d, v, w, g);
  }

  lemma DenAtom(sign: int, d: int, u: int, w: int, h: int)
    ensures sign * (d * (w * (u * h))) == d * (u * w) * (sign * h)
  {
  }

  lemma XNumForm(a: int, d: int, p: Pair, q: Pair, r: Pair)
    ensures var al, be, ga, z := p.x * (q.y * r.y), q.x * (p.y * r.y), r.x * (p.y * q.y), a * (p.x * (q.x * r.x));
            XNum(a, d, p, q, r) == (al + be + ga - z) + Cross(d, p, q) * (ga - z - al - be)
  {
    hide Cross;
    var t, n, m := Cross(d, p, q), XTop(p, q), YTop(a, p, q);
    Distribute(r.y, p.x * q.y, p.y * q.x);
    Distribute(r.x, p.y * q.y, a * (p.x * q.x));
    SignedTimes(n, t, r.y);
    SignedTimes(m, t, r.x);
    Distribute(t, m * r.x, n * r.y);
    XAtoms(a, p.x, p.y, q.x, q.y, r.x, r.y);
  }

  lemma SignedTimes(n: int, t: int, y: int)
    ensures n * (1 - t) * y == n * y - t * (n * y)
    ensures n * (1 + t) * y == n * y + t * (n * y)
  {
    Distribute(n, 1, t);
    Distribute(y, n, n * t);
    assert y * (n * t) == t * (n * y);
  }

  lemma XAtoms(a: int, x1: int, y1: int, x2: int, y2: int, x3: int, y3: int)
    ensures y3 * (x1 * y2) == x1 * (y2 * y3) && y3 * (y1 * x2) == x2 * (y1 * y3)
    ensures x3 * (y1 * y2) == x3 * (y1 * y2) && x3 * (a * (x1 * x2)) == a * (x1 * (x2 * x3))
  {
  }

  lemma YNumForm(a: int, d: int, p: Pair, q: Pair, r: Pair)
    ensures var al, be, ga, z := a * (p.y * (q.x * r.x)), a * (q.y * (p.x * r.x)), a * (r.y * (p.x * q.x)), p.y * (q.y * r.y);
            YNum(a, d, p, q, r) == -((al + be + ga - z) + Cross(d, p, q) * (ga - z - al - be))
  {
    hide Cross;
    var t, n, m := Cross(d, p, q), XTop(p, q), YTop(a, p, q);
    Distribute(r.x, p.x * q.y, p.y * q.x);
    Distribute(r.y, p.y * q.y, a * (p.x * q.x));
    SignedTimes(n, t, r.x);
    SignedTimes(m, t, r.y);
    Distribute(a, r.x * (p.x * q.y), r.x * (p.y * q.x));
    YCombine(a, t, m * r.y, n * r.x);
    YAtoms(a, p.x, p.y, q.x, q.y, r.x, r.y);
  }

  lemma YCombine(a: int, t: int, m: int, n: int)
    ensures m + t * m - a * (n - t * n) == -((a * n - m) + t * (-m - a * n))
  {
    Distribute(a, n, t * n);
    Distribute(t, 0 - m, a * n);
    SlideFactor(a, t, n);
    assert t * (0 - m) == -(t * m);
  }

  lemma YAtoms(a: int, x1: int, y1: int, x2: int, y2: int, x3: int, y3: int)
    ensures a * (x3 * (x1 * y2)) == a * (y2 * (x1 * x3)) && a * (x3 * (y1 * x2)) == a * (y1 * (x2 * x3))
    ensures y3 * (y1 * y2) == y1 * (y2 * y3) && y3 * (a * (x1 * x2)) == a * (y3 * (x1 * x2))
  {
  }

  // ---- Every part vanishes on the curve ----------------------------------------------------------------------

  /** A cross term times a monomial: the two shared factors become squares and the other two take their places. */
  lemma Acts(d: int, b: int, c: int, e: int, f: int, w: int, t: int, m: int)
    requires t == d * (b * c * (e * f)) && m == e * (c * w)
    ensures t * m == d * (e * e) * (b * (f * w)) * (c * c)
  {
    var k, g := e * c, b * f;
    assert b * c * (e * f) == k * g && m == k * w;
    Exchange(k, g, k, w);
    SquareOfProduct(e, c);
    assert g * w == b * (f * w);
    FiveFactors(d, k * g, m, e * e, c * c, b * (f * w));
  }

  lemma FiveFactors(d: int, n: int, m: int, x: int, y: int, z: int)
    requires n * m == x * y * z
    ensures d * n * m == d * x * z * y
  {
    assert d * n * m == d * (x * y * z);
  }

  lemma Shuffles(d: int, x: int, y: int, m: int)
    ensures d * (x * y) * m == d * x * m * y && d * (x * y) * m == d * y * m * x
  {
  }

  lemma ScaledActs(a: int, t: int, m: int, k: int, g: int)
    requires t * m == k * g
    ensures t * (a * m) == k * (a * g)
  {
    SlideFactor(t, a, m);
    SlideFactor(k, a, g);
  }

  /** The curve equation, in the five forms the parts use. */
  lemma CurveForms(p: int, a: int, d: int, v: Pair)
    requires p > 0 && Satisfies(p, a, d, v.x, v.y)
    ensures var x2, y2, m, r := v.x * v.x, v.y * v.y, Square(d, v), Gap(a, v);
            && Cong(r - 1, m - 2 * a * x2, p) && Cong(r - 1, m - 2 * 1 * (a * x2), p)
            && Cong(-r - 1, m - 2 * 1 * y2, p) && Cong(m + r, 2 * 1 * y2 - 1, p)
            && Cong(m - r, 2 * a * x2 - 1, p) && Cong(m - r, 2 * 1 * (a * x2) - 1, p)
  {
    var x2, y2, m, r := v.x * v.x, v.y * v.y, Square(d, v), Gap(a, v);
    assert 2 * a * x2 == 2 * (a * x2);
    ShiftedForms(p, a * x2, y2, m);
  }

  lemma ShiftedForms(p: int, s: int, y: int, m: int)
    requires p > 0 && Cong(s + y, 1 + m, p)
    ensures Cong(y - s - 1, m - 2 * s, p) && Cong(-(y - s) - 1, m - 2 * y, p)
    ensures Cong(m + (y - s), 2 * y - 1, p) && Cong(m - (y - s), 2 * s - 1, p)
  {
    CongSymmetric(s + y, 1 + m, p);
  }

  lemma XPartsVanish(p: int, a: int, d: int, u: Pair, v: Pair, w: Pair)
    requires p > 0 && Satisfies(p, a, d, u.x, u.y) && Satisfies(p, a, d, v.x, v.y) && Satisfies(p, a, d, w.x, w.y)
    ensures var al, be, ga, z := u.x * (v.y * w.y), v.x * (u.y * w.y), w.x * (u.y * v.y), a * (u.x * (v.x * w.x));
            var s, t, m1, m2, m3 := Cross(d, u, v), Cross(d, v, w), Square(d, u), Square(d, v), Square(d, w);
            var r1, r2, r3 := Gap(a, u), Gap(a, v), Gap(a, w);
            && Cong(Part(s * be, t * z, m2 * al, m1, m3, -r1 - 1, r3 - 1, m2 + r2), 0, p)
            && Cong(Part(s * al, t * ga, m2 * be, m1, m3, r1 - 1, r3 - 1, m2 - r2), 0, p)
            && Cong(Part(s * z, t * be, m2 * ga, m1, m3, r1 - 1, -r3 - 1, m2 + r2), 0, p)
            && Cong(Part(s * ga, t * al, m2 * z, m1, m3, -r1 - 1, -r3 - 1, m2 - r2), 0, p)
  {
    hide Cong, Part, Satisfies;
    var al, be, ga, e := u.x * (v.y * w.y), v.x * (u.y * w.y), w.x * (u.y * v.y), u.x * (v.x * w.x);
    var s, t, m1, m2, m3 := Cross(d, u, v), Cross(d, v, w), Square(d, u), Square(d, v), Square(d, w);
    var r1, r2, r3 := Gap(a, u), Gap(a, v), Gap(a, w);
    var X1, Y1, X2, Y2, X3, Y3 := u.x * u.x, u.y * u.y, v.x * v.x, v.y * v.y, w.x * w.x, w.y * w.y;
    CurveForms(p, a, d, u);
    CurveForms(p, a, d, v);
    CurveForms(p, a, d, w);
    XActions(d, u, v, w);
    ScaledActs(a, t, e, d * X2 * al, X3);
    ScaledActs(a, s, e, d * X2 * ga, X1);
    ScaledActs(a, m2, e, d * Y2 * e, X2);
    PartVanishes(p, d * X2 * al, 1, Y1, a * X3, Y2, s * be, t * (a * e), m2 * al, m1, m3, -r1 - 1, r3 - 1, m2 + r2);
    PartVanishes(p, d * Y2 * be, a, X1, X3, X2, s * al, t * ga, m2 * be, m1, m3, r1 - 1, r3 - 1, m2 - r2);
    PartVanishes(p, d * X2 * ga, 1, a * X1, Y3, Y2, s * (a * e), t * be, m2 * ga, m1, m3, r1 - 1, -r3 - 1, m2 + r2);
    PartVanishes(p, d * Y2 * e, 1, Y1, Y3, a * X2, s * ga, t * al, m2 * (a * e), m1, m3, -r1 - 1, -r3 - 1, m2 - r2);
  }

  lemma XActions(d: int, u: Pair, v: Pair, w: Pair)
    ensures var al, be, ga, e := u.x * (v.y * w.y), v.x * (u.y * w.y), w.x * (u.y * v.y), u.x * (v.x * w.x);
            var s, t, m2 := Cross(d, u, v), Cross(d, v, w), Square(d, v);
            var X1, Y1, X2, Y2, X3, Y3 := u.x * u.x, u.y * u.y, v.x * v.x, v.y * v.y, w.x * w.x, w.y * w.y;
            && s * be == d * X2 * al * Y1 && t * e == d * X2 * al * X3 && m2 * al == d * X2 * al * Y2
            && s * al == d * Y2 * be * X1 && t * ga == d * Y2 * be * X3 && m2 * be == d * Y2 * be * X2
            && s * e == d * X2 * ga * X1 && t * be == d * X2 * ga * Y3 && m2 * ga == d * X2 * ga * Y2
            && s * ga == d * Y2 * e * Y1 && t * al == d * Y2 * e * Y3 && m2 * e == d * Y2 * e * X2
  {
    ForwardActions(d, u.x, u.y, v.x, v.y, w.x, w.y);
    ForwardActions(d, w.x, w.y, v.x, v.y, u.x, u.y);
    XCommutes(d, u.x, u.y, v.x, v.y, w.x, w.y);
    var X2, Y2 := v.x * v.x, v.y * v.y;
    Shuffles(d, X2, Y2, u.x * (v.y * w.y));
    Shuffles(d, X2, Y2, v.x * (u.y * w.y));
    Shuffles(d, X2, Y2, w.x * (u.y * v.y));
    Shuffles(d, X2, Y2, u.x * (v.x * w.x));
  }

  lemma XCommutes(d: int, x1: int, y1: int, x2: int, y2: int, x3: int, y3: int)
    ensures x3 * (y2 * y1) == x3 * (y1 * y2) && x2 * (y3 * y1) == x2 * (y1 * y3) && x1 * (y3 * y2) == x1 * (y2 * y3)
    ensures x3 * (x2 * x1) == x1 * (x2 * x3) && d * (x3 * y3 * (x2 * y2)) == d * (x2 * y2 * (x3 * y3))
  {
  }

  lemma ForwardActions(d: int, x1: int, y1: int, x2: int, y2: int, x3: int, y3: int)
    ensures var s := d * (x1 * y1 * (x2 * y2));
            && s * (x2 * (y1 * y3)) == d * (x2 * x2) * (x1 * (y2 * y3)) * (y1 * y1)
            && s * (x1 * (y2 * y3)) == d * (y2 * y2) * (x2 * (y1 * y3)) * (x1 * x1)
            && s * (x1 * (x2 * x3)) == d * (x2 * x2) * (x3 * (y1 * y2)) * (x1 * x1)
            && s * (x3 * (y1 * y2)) == d * (y2 * y2) * (x1 * (x2 * x3)) * (y1 * y1)
  {
    var s := d * (x1 * y1 * (x2 * y2));
    CrossOrders(d, x1, y1, x2, y2);
    Acts(d, x1, y1, x2, y2, y3, s, x2 * (y1 * y3));
    Acts(d, y1, x1, y2, x2, y3, s, y2 * (x1 * y3));
    Acts(d, y1, x1, x2, y2, x3, s, x2 * (x1 * x3));
    Acts(d, x1, y1, y2, x2, x3, s, y2 * (y1 * x3));
    MonomialOrders(x1, y1, x2, y2, x3, y3);
  }

  lemma CrossOrders(d: int, x1: int, y1: int, x2: int, y2: int)
    ensures d * (x1 * y1 * (x2 * y2)) == d * (y1 * x1 * (y2 * x2)) == d * (y1 * x1 * (x2 * y2)) == d * (x1 * y1 * (y2 * x2))
  {
  }

  lemma MonomialOrders(x1: int, y1: int, x2: int, y2: int, x3: int, y3: int)
    ensures y2 * (x1 * y3) == x1 * (y2 * y3) && y1 * (x2 * y3) == x2 * (y1 * y3)
    ensures x2 * (x1 * x3) == x1 * (x2 * x3) && y1 * (y2 * x3) == x3 * (y1 * y2)
    ensures y2 * (y1 * x3) == x3 * (y1 * y2)
  {
  }

  function Flip(u: Pair): Pair {
    Pair(u.y, u.x)
  }

  lemma YActions(d: int, u: Pair, v: Pair, w: Pair)
    ensures var f1, f2, f3, e := u.y * (v.x * w.x), v.y * (u.x * w.x), w.y * (u.x * v.x), u.y * (v.y * w.y);
            var s, t, m2 := Cross(d, u, v), Cross(d, v, w), Square(d, v);
            var X1, Y1, X2, Y2, X3, Y3 := u.x * u.x, u.y * u.y, v.x * v.x, v.y * v.y, w.x * w.x, w.y * w.y;
            && s * f2 == d * Y2 * f1 * X1 && t * e == d * Y2 * f1 * Y3 && m2 * f1 == d * Y2 * f1 * X2
            && s * f1 == d * X2 * f2 * Y1 && t * f3 == d * X2 * f2 * Y3 && m2 * f2 == d * X2 * f2 * Y2
            && s * e == d * Y2 * f3 * Y1 && t * f2 == d * Y2 * f3 * X3 && m2 * f3 == d * Y2 * f3 * X2
            && s * f3 == d * X2 * e * X1 && t * f1 == d * X2 * e * X3 && m2 * e == d * X2 * e * Y2
  {
    XActions(d, Flip(u), Flip(v), Flip(w));
    CrossOrders(d, u.x, u.y, v.x, v.y);
    CrossOrders(d, v.x, v.y, w.x, w.y);
    assert v.x * v.x * (v.y * v.y) == v.y * v.y * (v.x * v.x);
  }

  lemma ScaledOut(a: int, t: int, m: int, k: int, g: int)
    requires t * m == k * g
    ensures t * (a * m) == a * k * g
  {
    SlideFactor(t, a, m);
    Regroup(a, k, g);
  }

  lemma YPartsVanish(p: int, a: int, d: int, u: Pair, v: Pair, w: Pair)
    requires p > 0 && Satisfies(p, a, d, u.x, u.y) && Satisfies(p, a, d, v.x, v.y) && Satisfies(p, a, d, w.x, w.y)
    ensures var al, be, ga, z := a * (u.y * (v.x * w.x)), a * (v.y * (u.x * w.x)), a * (w.y * (u.x * v.x)), u.y * (v.y * w.y);
            var s, t, m1, m2, m3 := Cross(d, u, v), Cross(d, v, w), Square(d, u), Square(d, v), Square(d, w);
            var r1, r2, r3 := Gap(a, u), Gap(a, v), Gap(a, w);
            && Cong(Part(s * be, t * z, m2 * al, m1, m3, r1 - 1, -r3 - 1, m2 - r2), 0, p)
            && Cong(Part(s * al, t * ga, m2 * be, m1, m3, -r1 - 1, -r3 - 1, m2 + r2), 0, p)
            && Cong(Part(s * z, t * be, m2 * ga, m1, m3, -r1 - 1, r3 - 1, m2 - r2), 0, p)
            && Cong(Part(s * ga, t * al, m2 * z, m1, m3, r1 - 1, r3 - 1, m2 + r2), 0, p)
  {
    hide Cong, Part, Satisfies;
    var f1, f2, f3, e := u.y * (v.x * w.x), v.y * (u.x * w.x), w.y * (u.x * v.x), u.y * (v.y * w.y);
    var s, t, m1, m2, m3 := Cross(d, u, v), Cross(d, v, w), Square(d, u), Square(d, v), Square(d, w);
    var r1, r2, r3 := Gap(a, u), Gap(a, v), Gap(a, w);
    var X1, Y1, X2, Y2, X3, Y3 := u.x * u.x, u.y * u.y, v.x * v.x, v.y * v.y, w.x * w.x, w.y * w.y;
    CurveForms(p, a, d, u);
    CurveForms(p, a, d, v);
    CurveForms(p, a, d, w);
    YActions(d, u, v, w);
    ScaledActs(a, s, f2, d * Y2 * f1, X1);
    ScaledActs(a, m2, f1, d * Y2 * f1, X2);
    ScaledOut(a, s, f1, d * X2 * f2, Y1);
    ScaledOut(a, t, f3, d * X2 * f2, Y3);
    ScaledOut(a, m2, f2, d * X2 * f2, Y2);
    ScaledActs(a, t, f2, d * Y2 * f3, X3);
    ScaledActs(a, m2, f3, d * Y2 * f3, X2);
    ScaledActs(a, s, f3, d * X2 * e, X1);
    ScaledActs(a, t, f1, d * X2 * e, X3);
    PartVanishes(p, d * Y2 * f1, 1, a * X1, Y3, a * X2, s * (a * f2), t * e, m2 * (a * f1),
                 m1, m3, r1 - 1, -r3 - 1, m2 - r2);
    PartVanishes(p, a * (d * X2 * f2), 1, Y1, Y3, Y2, s * (a * f1), t * (a * f3), m2 * (a * f2),
                 m1, m3, -r1 - 1, -r3 - 1, m2 + r2);
    PartVanishes(p, d * Y2 * f3, 1, Y1, a * X3, a * X2, s * e, t * (a * f2), m2 * (a * f3),
                 m1, m3, -r1 - 1, r3 - 1, m2 - r2);
    PartVanishes(p, d * X2 * e, 1, a * X1, a * X3, Y2, s * (a * f3), t * (a * f1), m2 * e,
                 m1, m3, r1 - 1, r3 - 1, m2 + r2);
  }

  lemma FourVanish(p: int, a: int, b: int, c: int, e: int, x: int, y: int)
    requires p > 0 && Cong(a, 0, p) && Cong(b, 0, p) && Cong(c, 0, p) && Cong(e, 0, p) && x - y == a + b + c - e
    ensures Cong(x, y, p)
  {
    CongAdd(a, 0, b, 0, p);
    CongAdd(a + b, 0, c, 0, p);
    CongAdd(a + b + c, 0, e, 0, p);
  }

  /** The two ways of adding three points give the same x coordinate, as a cross product of fractions. */
  lemma CrossX(p: int, a: int, d: int, u: Pair, v: Pair, w: Pair)
    requires p > 0 && Satisfies(p, a, d, u.x, u.y) && Satisfies(p, a, d, v.x, v.y) && Satisfies(p, a, d, w.x, w.y)
    ensures Cong(XNum(a, d, u, v, w) * Den(1, a, d, w, v, u), XNum(a, d, w, v, u) * Den(1, a, d, u, v, w), p)
  {
    hide Cong, Part, Satisfies, XNum, Den, Cross, Square, Gap;
    var al, be, ga, z := u.x * (v.y * w.y), v.x * (u.y * w.y), w.x * (u.y * v.y), a * (u.x * (v.x * w.x));
    var s, t, k, m1, m2, m3 := Cross(d, u, v), Cross(d, v, w), Cross(d, u, w), Square(d, u), Square(d, v), Square(d, w);
    var r1, r2, r3 := Gap(a, u), Gap(a, v), Gap(a, w);
    CrossRelations(d, u, v, w);
    CrossParts(al, be, ga, z, s, t, k, m1, m2, m3, r1, r2, r3);
    XPartsVanish(p, a, d, u, v, w);
    XNumForm(a, d, u, v, w);
    XNumForm(a, d, w, v, u);
    XCommutes(d, u.x, u.y, v.x, v.y, w.x, w.y);
    DenForm(1, a, d, u, v, w);
    DenForm(1, a, d, w, v, u);
    var n1, n2 := (al + be + ga - z) + s * (ga - z - al - be), (al + be + ga - z) + t * (al - z - be - ga);
    var d1, d2 := 1 - t * t + s * r3 + k * r2, 1 - s * s + t * r1 + k * r2;
    FourVanish(p, Part(s * be, t * z, m2 * al, m1, m3, -r1 - 1, r3 - 1, m2 + r2),
               Part(s * al, t * ga, m2 * be, m1, m3, r1 - 1, r3 - 1, m2 - r2),
               Part(s * z, t * be, m2 * ga, m1, m3, r1 - 1, -r3 - 1, m2 + r2),
               Part(s * ga, t * al, m2 * z, m1, m3, -r1 - 1, -r3 - 1, m2 - r2), n1 * d1, n2 * d2);
  }

  lemma CrossRelations(d: int, u: Pair, v: Pair, w: Pair)
    ensures var s, t, k, m1, m2, m3 := Cross(d, u, v), Cross(d, v, w), Cross(d, u, w), Square(d, u), Square(d, v), Square(d, w);
            && s * s == m1 * m2 && t * t == m2 * m3 && k * s == m1 * t && k * t == m3 * s
            && Cross(d, v, u) == s && Cross(d, w, v) == t && Cross(d, w, u) == k
  {
    hide Cross, Square;
    CrossSquares(d, u, v, w);
    CrossSquares(d, v, w, u);
    CrossSquares(d, w, v, u);
    CrossSquares(d, u, w, v);
  }

  /** The two ways of adding three points give the same y coordinate, as a cross product of fractions. */
  lemma CrossY(p: int, a: int, d: int, u: Pair, v: Pair, w: Pair)
    requires p > 0 && Satisfies(p, a, d, u.x, u.y) && Satisfies(p, a, d, v.x, v.y) && Satisfies(p, a, d, w.x, w.y)
    ensures Cong(YNum(a, d, u, v, w) * Den(-1, a, d, w, v, u), YNum(a, d, w, v, u) * Den(-1, a, d, u, v, w), p)
  {
    hide Cong, Part, Satisfies, YNum, Den, Cross, Square, Gap;
    var al, be, ga, z := a * (u.y * (v.x * w.x)), a * (v.y * (u.x * w.x)), a * (w.y * (u.x * v.x)), u.y * (v.y * w.y);
    var s, t, k, m1, m2, m3 := Cross(d, u, v), Cross(d, v, w), Cross(d, u, w), Square(d, u), Square(d, v), Square(d, w);
    var r1, r2, r3 := Gap(a, u), Gap(a, v), Gap(a, w);
    CrossRelations(d, u, v, w);
    CrossParts(al, be, ga, z, s, t, k, m1, m2, m3, -r1, -r2, -r3);
    YPartsVanish(p, a, d, u, v, w);
    YNumForm(a, d, u, v, w);
    YNumForm(a, d, w, v, u);
    YCommutes(a, u.x, u.y, v.x, v.y, w.x, w.y);
    DenForm(-1, a, d, u, v, w);
    DenForm(-1, a, d, w, v, u);
    assert -1 * r1 == -r1 && -1 * r2 == -r2 && -1 * r3 == -r3;
    var n1, n2 := (al + be + ga - z) + s * (ga - z - al - be), (al + be + ga - z) + t * (al - z - be - ga);
    var d1, d2 := 1 - t * t + s * (-r3) + k * (-r2), 1 - s * s + t * (-r1) + k * (-r2);
    FourVanish(p, Part(s * be, t * z, m2 * al, m1, m3, r1 - 1, -r3 - 1, m2 - r2),
               Part(s * al, t * ga, m2 * be, m1, m3, -r1 - 1, -r3 - 1, m2 + r2),
               Part(s * z, t * be, m2 * ga, m1, m3, -r1 - 1, r3 - 1, m2 - r2),
               Part(s * ga, t * al, m2 * z, m1, m3, r1 - 1, r3 - 1, m2 + r2), n1 * d1, n2 * d2);
    NegateBoth(p, n1, d1, n2, d2);
  }

  lemma YCommutes(a: int, x1: int, y1: int, x2: int, y2: int, x3: int, y3: int)
    ensures a * (y3 * (x2 * x1)) == a * (y3 * (x1 * x2)) && a * (y2 * (x3 * x1)) == a * (y2 * (x1 * x3))
    ensures a * (y1 * (x3 * x2)) == a * (y1 * (x2 * x3)) && y3 * (y2 * y1) == y1 * (y2 * y3)
  {
  }

  lemma NegateBoth(p: int, n1: int, d1: int, n2: int, d2: int)
    requires p > 0 && Cong(n1 * d1, n2 * d2, p)
    ensures Cong((-n1) * d1, (-n2) * d2, p)
  {
    CongScale(-1, n1 * d1, n2 * d2, p);
    assert -1 * (n1 * d1) == (-n1) * d1 && -1 * (n2 * d2) == (-n2) * d2;
  }

  // ---- Associativity -----------------------------------------------------------------------------------------

  /** `s` solves the fraction equations for u + v, and i and j are the inverses of the denominators. */
  predicate IsSum(p: int, a: int, d: int, u: Pair, v: Pair, s: Pair, i: int, j: int)
    requires p > 0
  {
    && Cong(s.x * (1 + Cross(d, u, v)), XTop(u, v), p) && Cong(s.y * (1 - Cross(d, u, v)), YTop(a, u, v), p)
    && Cong(i * (1 + Cross(d, u, v)), 1, p) && Cong(j * (1 - Cross(d, u, v)), 1, p)
  }

  lemma Cleared(p: int, value: int, e: int, num: int, k: int, den: int, top: int, i: int, j: int)
    requires p > 0 && Cong(value * e, num, p) && Cong(k * e, den, p) && Cong(k * num, top, p)
    requires Cong(i * e, 1, p) && Cong(j * k, 1, p)
    ensures Cong(value * den, top, p) && Cong(i * j * den, 1, p)
  {
    hide Cong;
    CongSymmetric(k * e, den, p);
    CongScale(value, den, k * e, p);
    CongScale(k, value * e, num, p);
    SlideFactor(value, k, e);
    CongTransitive(value * den, k * (value * e), k * num, p);
    CongTransitive(value * den, k * num, top, p);
    CongScale(i * j, den, k * e, p);
    CongMul(i * e, 1, j * k, 1, p);
    Exchange(i, e, j, k);
    assert i * j * (k * e) == i * j * (e * k);
    CongTransitive(i * j * den, i * j * (k * e), 1, p);
  }

  lemma InnerDenominator(p: int, sign: int, t: int, d: int, sx: int, sy: int, n: int, m: int, w: int)
    requires p > 0 && Cong(sx * (1 + t), n, p) && Cong(sy * (1 - t), m, p)
    ensures Cong((1 - t * t) * (1 + sign * (d * (sx * sy * w))), 1 - t * t + sign * (d * (n * m * w)), p)
  {
    hide Cong;
    var k, x, y := 1 - t * t, sx * (1 + t), sy * (1 - t);
    CongMul(x, n, y, m, p);
    CongTimes(x * y, n * m, w, p);
    CongScale(d, x * y * w, n * m * w, p);
    CongScale(sign, d * (x * y * w), d * (n * m * w), p);
    CongReflexive(k, p);
    CongAdd(k, k, sign * (d * (x * y * w)), sign * (d * (n * m * w)), p);
    InnerProduct(t, sx, sy);
    Distribute(k, 1, sign * (d * (sx * sy * w)));
    InnerAtoms(k, sign, d, sx * sy, w);
  }

  lemma InnerProduct(t: int, sx: int, sy: int)
    ensures sx * (1 + t) * (sy * (1 - t)) == (1 - t * t) * (sx * sy)
  {
    Exchange(sx, 1 + t, sy, 1 - t);
    assert (1 + t) * (1 - t) == 1 - t * t;
  }

  lemma InnerAtoms(k: int, sign: int, d: int, s: int, w: int)
    ensures k * (sign * (d * (s * w))) == sign * (d * (k * s * w))
  {
    SlideFactor(k, sign, d * (s * w));
    SlideFactor(k, d, s * w);
    Regroup(k, s, w);
  }

  lemma InnerNumerators(p: int, a: int, t: int, s: Pair, n: int, m: int, w: Pair)
    requires p > 0 && Cong(s.x * (1 + t), n, p) && Cong(s.y * (1 - t), m, p)
    ensures Cong((1 - t * t) * XTop(s, w), n * (1 - t) * w.y + m * (1 + t) * w.x, p)
    ensures Cong((1 - t * t) * YTop(a, s, w), m * (1 + t) * w.y - a * (n * (1 - t) * w.x), p)
  {
    hide Cong;
    var k, x, y := 1 - t * t, s.x * (1 + t), s.y * (1 - t);
    CongTimes(x, n, 1 - t, p);
    CongTimes(y, m, 1 + t, p);
    CongTimes(x * (1 - t), n * (1 - t), w.y, p);
    CongTimes(x * (1 - t), n * (1 - t), w.x, p);
    CongTimes(y * (1 + t), m * (1 + t), w.x, p);
    CongTimes(y * (1 + t), m * (1 + t), w.y, p);
    CongScale(a, x * (1 - t) * w.x, n * (1 - t) * w.x, p);
    CongAdd(x * (1 - t) * w.y, n * (1 - t) * w.y, y * (1 + t) * w.x, m * (1 + t) * w.x, p);
    CongAdd(y * (1 + t) * w.y, m * (1 + t) * w.y, a * (x * (1 - t) * w.x), a * (n * (1 - t) * w.x), p);
    BothFactors(t, s.x);
    BothFactors(t, s.y);
    Distribute(k, s.x * w.y, s.y * w.x);
    Distribute(k, s.y * w.y, a * (s.x * w.x));
    SlideFactor(k, a, s.x * w.x);
    Regroup(k, s.x, w.y);
    Regroup(k, s.x, w.x);
    Regroup(k, s.y, w.x);
    Regroup(k, s.y, w.y);
  }

  lemma BothFactors(t: int, x: int)
    ensures x * (1 + t) * (1 - t) == (1 - t * t) * x && x * (1 - t) * (1 + t) == (1 - t * t) * x
  {
    Regroup(x, 1 + t, 1 - t);
    Regroup(x, 1 - t, 1 + t);
    assert (1 + t) * (1 - t) == 1 - t * t && (1 - t) * (1 + t) == 1 - t * t;
  }

  /** A sum of a sum and a third point, as one fraction per coordinate with invertible denominators. */
  lemma TripleSum(p: int, a: int, d: int, u: Pair, v: Pair, w: Pair, s: Pair, i: int, j: int, r: Pair, k: int, l: int)
    requires p > 0 && IsSum(p, a, d, u, v, s, i, j) && IsSum(p, a, d, s, w, r, k, l)
    ensures Cong(r.x * Den(1, a, d, u, v, w), XNum(a, d, u, v, w), p)
    ensures Cong(r.y * Den(-1, a, d, u, v, w), YNum(a, d, u, v, w), p)
    ensures Cong(k * (i * j) * Den(1, a, d, u, v, w), 1, p) && Cong(l * (i * j) * Den(-1, a, d, u, v, w), 1, p)
  {
    hide Cong, XTop, YTop;
    var t, n, m, c := Cross(d, u, v), XTop(u, v), YTop(a, u, v), Cross(d, s, w);
    InnerDenominator(p, 1, t, d, s.x, s.y, n, m, w.x * w.y);
    InnerDenominator(p, -1, t, d, s.x, s.y, n, m, w.x * w.y);
    InnerNumerators(p, a, t, s, n, m, w);
    UnitFromFactors(p, t, i, j);
    assert 1 * c == c && -1 * c == -c;
    Cleared(p, r.x, 1 + c, XTop(s, w), 1 - t * t, Den(1, a, d, u, v, w), XNum(a, d, u, v, w), k, i * j);
    Cleared(p, r.y, 1 - c, YTop(a, s, w), 1 - t * t, Den(-1, a, d, u, v, w), YNum(a, d, u, v, w), l, i * j);
  }

  lemma SameFraction(p: int, x: int, n: int, e: int, i: int, y: int, m: int, f: int, j: int)
    requires p > 0 && Cong(x * e, n, p) && Cong(y * f, m, p) && Cong(n * f, m * e, p)
    requires Cong(i * e, 1, p) && Cong(j * f, 1, p)
    ensures Cong(x, y, p)
  {
    hide Cong;
    CongTimes(x * e, n, f, p);
    CongTimes(y * f, m, e, p);
    CongTransitive(x * e * f, n * f, m * e, p);
    CongSymmetric(y * f * e, m * e, p);
    CongTransitive(x * e * f, m * e, y * f * e, p);
    assert x * e * f == e * (f * x) && y * f * e == e * (f * y);
    CancelUnit(p, e, i, f * x, f * y);
    CancelUnit(p, f, j, x, y);
  }

  /** (u + v) + w and (w + v) + u are congruent. With commutativity this is associativity. */
  lemma AdditionAssociates(p: int, a: int, d: int, u: Pair, v: Pair, w: Pair,
                           s: Pair, i: int, j: int, r: Pair, k: int, l: int,
                           s': Pair, i': int, j': int, r': Pair, k': int, l': int)
    requires p > 0 && Satisfies(p, a, d, u.x, u.y) && Satisfies(p, a, d, v.x, v.y) && Satisfies(p, a, d, w.x, w.y)
    requires IsSum(p, a, d, u, v, s, i, j) && IsSum(p, a, d, s, w, r, k, l)
    requires IsSum(p, a, d, w, v, s', i', j') && IsSum(p, a, d, s', u, r', k', l')
    ensures Cong(r.x, r'.x, p) && Cong(r.y, r'.y, p)
  {
    hide Cong, XNum, YNum, Den, IsSum, Satisfies;
    TripleSum(p, a, d, u, v, w, s, i, j, r, k, l);
    TripleSum(p, a, d, w, v, u, s', i', j', r', k', l');
    CrossX(p, a, d, u, v, w);
    CrossY(p, a, d, u, v, w);
    SameFraction(p, r.x, XNum(a, d, u, v, w), Den(1, a, d, u, v, w), k * (i * j),
                 r'.x, XNum(a, d, w, v, u), Den(1, a, d, w, v, u), k' * (i' * j'));
    SameFraction(p, r.y, YNum(a, d, u, v, w), Den(-1, a, d, u, v, w), l * (i * j),
                 r'.y, YNum(a, d, w, v, u), Den(-1, a, d, w, v, u), l' * (i' * j'));
  }
}
