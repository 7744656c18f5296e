/** The extended Euclid inverse of contracts/scripts/test-joinsplit-proof.ts, on all integers. */
module ModInverse {
  import opened ModArith

  function Abs(x: int): nat {
    if x < 0 then -x else x
  }

  /** BigInt division truncates toward zero. */
  function TruncDiv(a: int, b: int): int
    requires b != 0
  {
    var q := Abs(a) / Abs(b);
    if (a < 0) == (b < 0) then q else -q
  }

  /** BigInt remainder takes the sign of the dividend. */
  function TruncRem(a: int, b: int): int
    requires b != 0
  {
    a - TruncDiv(a, b) * b
  }

  lemma TruncRemIsSmall(a: int, b: int)
    requires b != 0
    ensures Abs(TruncRem(a, b)) < Abs(b)
    ensures a >= 0 ==> TruncRem(a, b) >= 0
    ensures a <= 0 ==> TruncRem(a, b) <= 0
  {
    var n: int, m: int := Abs(a), Abs(b);
    DivisionSplits(n, m);
    SignedProduct(a, b, n / m, TruncDiv(a, b));
    hide TruncDiv;
    Remainder(a, b, m * (n / m), n % m, TruncDiv(a, b) * b);
  }

  lemma DivisionSplits(n: int, m: int)
    requires n >= 0 && m > 0
    ensures n == m * (n / m) + n % m && 0 <= n % m < m && 0 <= m * (n / m)
  {
  }

  lemma SignedProduct(a: int, b: int, q: int, t: int)
    requires t == if (a < 0) == (b < 0) then q else -q
    ensures t * b == if a < 0 then -(Abs(b) * q) else Abs(b) * q
  {
  }

  lemma Remainder(a: int, b: int, whole: int, rest: int, product: int)
    requires 0 <= whole && 0 <= rest < Abs(b) && Abs(a) == whole + rest && product == if a < 0 then -whole else whole
    ensures Abs(a - product) < Abs(b)
    ensures a >= 0 ==> a - product >= 0
    ensures a <= 0 ==> a - product <= 0
  {
  }

  datatype GcdPair = GcdPair(gcd: int, coefficient: int)

  /** The loop from any of its states: the last nonzero remainder, and its coefficient. */
  function Euclid(oldR: int, r: int, oldS: int, s: int): GcdPair
    decreases Abs(r)
  {
    if r == 0 then GcdPair(oldR, oldS) else
      TruncRemIsSmall(oldR, r);
      var q := TruncDiv(oldR, r);
      Euclid(r, oldR - q * r, s, oldS - q * s)
  }

  function Run(a: int, p: nat): GcdPair
    requires p > 0
  {
    Euclid(TruncRem(a, p), p, 1, 0)
  }

  function Inverse(a: int, p: nat): (v: nat)
    requires p > 0
    ensures v < p
  {
    var s := Run(a, p).coefficient;
    TruncRemIsSmall(s, p);
    TruncRemIsSmall(TruncRem(s, p) + p, p);
    TruncRem(TruncRem(s, p) + p, p)
  }

  method ModInv(a: int, p: nat) returns (v: nat)
    requires p > 0
    ensures v == Inverse(a, p)
  {
    var oldR, r := TruncRem(a, p), p as int;
    var oldS, s := 1, 0;
    while r != 0
      invariant Run(a, p) == Euclid(oldR, r, oldS, s)
      decreases Abs(r)
    {
      TruncRemIsSmall(oldR, r);
      var q := TruncDiv(oldR, r);
      oldR, r := r, oldR - q * r;
      oldS, s := s, oldS - q * s;
    }
    TruncRemIsSmall(oldS, p);
    TruncRemIsSmall(TruncRem(oldS, p) + p, p);
    v := TruncRem(TruncRem(oldS, p) + p, p);
  }

  /** The loop keeps the common divisors of its remainders, and keeps each remainder congruent to its multiple of `a`. */
  lemma {:induction false} EuclidInvariant(a: int, p: nat, oldR: int, r: int, oldS: int, s: int, d: nat)
    requires p > 0 && d > 0
    requires Cong(oldR, a * oldS, p) && Cong(r, a * s, p)
    ensures var g := Euclid(oldR, r, oldS, s);
            && Cong(g.gcd, a * g.coefficient, p)
            && (Divides(d, g.gcd) <==> Divides(d, oldR) && Divides(d, r))
            && (oldR >= 0 && r >= 0 ==> g.gcd >= 0)
            && (oldR != 0 || r != 0 ==> g.gcd != 0)
    decreases Abs(r)
  {
    hide TruncDiv, Cong, Divides;
    if r != 0 {
      TruncRemIsSmall(oldR, r);
      var q := TruncDiv(oldR, r);
      CongReflexive(q, p);
      CongMul(q, q, r, a * s, p);
      CongAdd(oldR, a * oldS, q * r, q * (a * s), p);
      assert a * oldS - q * (a * s) == a * (oldS - q * s);
      EuclidInvariant(a, p, r, oldR - q * r, s, oldS - q * s, d);
      if Divides(d, r) {
        DividesCombination(d, oldR, r, q);
      }
    } else {
      DividesZero(d);
    }
  }

  lemma DividesZero(d: nat)
    requires d > 0
    ensures Divides(d, 0)
  {
  }

  lemma TruncRemCongruent(a: int, p: nat)
    requires p > 0
    ensures Cong(TruncRem(a, p), a, p) && Cong(a, TruncRem(a, p), p)
  {
    CongFromMultiple(TruncRem(a, p), a, -TruncDiv(a, p), p);
    CongFromMultiple(a, TruncRem(a, p), TruncDiv(a, p), p);
  }

  /** The run ends with a signed greatest common divisor of `a` and `p`, positive when `a` is not negative. */
  lemma RunFindsGcd(a: int, p: nat, d: nat)
    requires p > 0 && d > 0
    ensures Cong(Run(a, p).gcd, a * Run(a, p).coefficient, p)
    ensures Divides(d, Run(a, p).gcd) <==> Divides(d, a) && Divides(d, p)
    ensures Run(a, p).gcd != 0 && (a >= 0 ==> Run(a, p).gcd > 0)
  {
    hide TruncRem, TruncDiv;
    var r := TruncRem(a, p);
    TruncRemIsSmall(a, p);
    TruncRemCongruent(a, p);
    assert a * 1 == a && a * 0 == 0;
    MultipleOf(1, p);
    EuclidInvariant(a, p, r, p, 1, 0, d);
    if Divides(d, p) {
      var k := Quotient(a - r, p);
      DividesCombination(d, a, p, k);
    }
  }

  /** For every `a` and modulus the result times `a` is congruent to that divisor. */
  lemma InverseTimesOperand(a: int, p: nat)
    requires p > 0
    ensures Cong(a * Inverse(a, p), Run(a, p).gcd, p)
  {
    hide TruncRem, TruncDiv, Run;
    var s := Run(a, p).coefficient;
    TruncRemCongruent(s, p);
    TruncRemCongruent(TruncRem(s, p) + p, p);
    CongFromMultiple(TruncRem(s, p) + p, TruncRem(s, p), 1, p);
    CongTransitive(Inverse(a, p), TruncRem(s, p) + p, TruncRem(s, p), p);
    CongTransitive(Inverse(a, p), TruncRem(s, p), s, p);
    CongReflexive(a, p);
    CongMul(a, a, Inverse(a, p), s, p);
    RunFindsGcd(a, p, 1);
    CongSymmetric(Run(a, p).gcd, a * s, p);
    CongTransitive(a * Inverse(a, p), a * s, Run(a, p).gcd, p);
  }

  /** On the field elements the scripts pass in, coprime to the modulus, it is the inverse and the only one in range. */
  lemma InverseIsTheInverse(a: int, p: nat, w: int)
    requires p > 0 && a >= 0 && Coprime(a, p)
    ensures Cong(a * Inverse(a, p), 1, p)
    ensures 0 <= w < p && Cong(a * w, 1, p) ==> w == Inverse(a, p)
  {
    hide Run, Inverse, Cong, Divides;
    var v, g := Inverse(a, p), Run(a, p).gcd;
    InverseTimesOperand(a, p);
    RunFindsGcd(a, p, 1);
    RunFindsGcd(a, p, g);
    DividesSelf(g);
    assert g == 1;
    if 0 <= w < p && Cong(a * w, 1, p) {
      CongReflexive(v, p);
      CongReflexive(w, p);
      CongMul(v, v, a * w, 1, p);
      CongMul(w, w, a * v, 1, p);
      assert v * (a * w) == w * (a * v) && v * 1 == v && w * 1 == w;
      CongSymmetric(v * (a * w), v, p);
      CongTransitive(v, w * (a * v), w, p);
      CongSmall(v, w, p);
    }
  }

  /** Multiples of the modulus are sent to 0. */
  lemma InverseOfZero(a: int, p: nat)
    requires p > 0 && a % p == 0
    ensures Inverse(a, p) == 0
  {
    hide TruncDiv, TruncRem, Euclid;
    MultipleHasNoRemainder(a, p);
    MultipleHasNoRemainder(p, p);
    ZeroOverAnything(p);
    EuclidStep(0, p, 1, 0, 0);
    EuclidStop(p, 0, 1);
    assert 0 - 0 * p == 0 && 1 - 0 * 0 == 1;
    SmallRemainders(p);
  }

  lemma SmallRemainders(p: nat)
    requires p > 0
    ensures TruncRem(0, p) == 0 && TruncRem(0 + p, p) == 0
  {
    hide TruncRem;
    MultipleHasNoRemainder(0, p);
    MultipleHasNoRemainder(p, p);
  }

  lemma EuclidStep(oldR: int, r: int, oldS: int, s: int, q: int)
    requires r != 0 && TruncDiv(oldR, r) == q
    ensures Euclid(oldR, r, oldS, s) == Euclid(r, oldR - q * r, s, oldS - q * s)
  {
  }

  lemma EuclidStop(oldR: int, oldS: int, s: int)
    ensures Euclid(oldR, 0, oldS, s) == GcdPair(oldR, oldS)
  {
  }

  lemma ZeroOverAnything(p: nat)
    requires p > 0
    ensures TruncDiv(0, p) == 0
  {
  }

  lemma MultipleHasNoRemainder(a: int, p: nat)
    requires p > 0 && a % p == 0
    ensures TruncRem(a, p) == 0
  {
    hide TruncDiv, TruncRem;
    var r := TruncRem(a, p);
    TruncRemCongruent(a, p);
    TruncRemIsSmall(a, p);
    var k := Quotient(a, p);
    var l := Quotient(r - a, p);
    assert r == (k + l) * p;
    ProductBound(p, k + l);
  }

  // ---- Negative operands -------------------------------------------------------------------------------------

  /** Number of divisions ordinary Euclid makes on (x, y). */
  function Divisions(x: nat, y: nat): nat
    decreases y
  {
    if y == 0 then 0 else 1 + Divisions(y, x % y)
  }

  lemma DivisionsStep(x: nat, y: nat)
    ensures Divisions(x, y) == if y == 0 then 0 else 1 + Divisions(y, x % y)
  {
  }

  function Signed(negative: bool, x: nat): int {
    var v: int := x;
    if negative then -v else v
  }

  lemma TruncRemOfSigned(e: bool, x: nat, f: bool, y: nat)
    requires y > 0
    ensures var a, b := Signed(e, x), Signed(f, y); a - TruncDiv(a, b) * b == Signed(e, x % y)
  {
    var a, b := Signed(e, x), Signed(f, y);
    var q: int := x / y;
    assert x == y * q + x % y;
    if x == 0 {
      assert TruncDiv(a, b) == 0;
    } else {
      SignedProduct(a, b, q, TruncDiv(a, b));
    }
  }

  /** The loop alternates between the signs of its two starting values. */
  lemma {:induction false} EuclidKeepsSigns(e: bool, x: nat, f: bool, y: nat, oldS: int, s: int)
    ensures var g := Euclid(Signed(e, x), Signed(f, y), oldS, s).gcd;
            if Divisions(x, y) % 2 == 0 then (if e then g <= 0 else g >= 0) else (if f then g <= 0 else g >= 0)
    decreases y
  {
    hide TruncDiv, Euclid, Divisions;
    DivisionsStep(x, y);
    if y == 0 {
      EuclidStop(Signed(e, x), oldS, s);
    } else {
      var a, b := Signed(e, x), Signed(f, y);
      var q := TruncDiv(a, b);
      TruncRemOfSigned(e, x, f, y);
      EuclidStep(a, b, oldS, s, q);
      EuclidKeepsSigns(f, y, e, x % y, s, oldS - q * s);
    }
  }

  /** The divisor found is negative exactly when a negative operand takes an even number of divisions. */
  lemma SignOfGcd(a: int, p: nat)
    requires p > 0
    ensures Run(a, p).gcd > 0 <==> a >= 0 || Divisions(Abs(a) % p, p) % 2 == 1
  {
    hide Euclid, TruncRem, Divides;
    RunFindsGcd(a, p, 1);
    TruncRemOfSigned(a < 0, Abs(a), false, p);
    assert TruncRem(a, p) == Signed(a < 0, Abs(a) % p) by { TruncRemAsSigned(a, p); }
    EuclidKeepsSigns(a < 0, Abs(a) % p, false, p, 1, 0);
  }

  lemma TruncRemAsSigned(a: int, p: nat)
    requires p > 0
    ensures TruncRem(a, p) == Signed(a < 0, Abs(a) % p)
  {
    hide TruncDiv;
    TruncRemOfSigned(a < 0, Abs(a), false, p);
  }

  /**
   For every integer operand and every modulus: the result is the inverse exactly when the operand is coprime to the
   modulus and is not a negative number on which Euclid makes an even number of divisions. Modulo 1 and 2 signs do not
   matter.
   */
  lemma InverseIffOddDivisions(a: int, p: nat)
    requires p > 0
    ensures Cong(a * Inverse(a, p), 1, p) <==>
            Coprime(a, p) && (a >= 0 || Divisions(Abs(a) % p, p) % 2 == 1 || p <= 2)
  {
    hide Run, Inverse, Cong, Divides, Divisions;
    var g := Run(a, p).gcd;
    var n: nat := Abs(g);
    InverseTimesOperand(a, p);
    SignOfGcd(a, p);
    RunFindsGcd(a, p, 1);
    RunFindsGcd(a, p, n);
    DividesAbs(g);
    SignsModulo(p);
    if Coprime(a, p) {
      assert n == 1;
      if g == -1 && p <= 2 {
        CongTransitive(a * Inverse(a, p), g, 1, p);
      }
    }
    if Cong(a * Inverse(a, p), 1, p) {
      CongSymmetric(a * Inverse(a, p), g, p);
      CongTransitive(g, a * Inverse(a, p), 1, p);
      forall d: nat | d > 0 && Divides(d, a) && Divides(d, p)
        ensures d == 1
      {
        RunFindsGcd(a, p, d);
        DividesOne(d, g, p);
      }
    }
  }

  lemma DividesAbs(g: int)
    requires g != 0
    ensures Divides(Abs(g), g)
  {
    if g > 0 {
      MultipleOf(1, g);
    } else {
      MultipleOf(-1, -g);
      assert -1 * (-g) == g;
    }
  }

  lemma DividesOne(d: nat, g: int, p: nat)
    requires d > 0 && p > 0 && Divides(d, g) && Divides(d, p) && Cong(g, 1, p)
    ensures d == 1
  {
    var k := Quotient(g - 1, p);
    DividesCombination(d, g, p, k);
    assert g - k * p == 1;
    var l := Quotient(1, d);
    ProductBound(d, l);
  }

  lemma SignsModulo(p: nat)
    requires p > 0
    ensures Cong(-1, 1, p) <==> p <= 2
  {
    if p > 2 && Cong(-1, 1, p) {
      var k := Quotient(-2, p);
      ProductBound(p, k);
    }
  }

  /** Of a negative operand the result may be the inverse of its negation: minus one modulo five gives one. */
  lemma NegativeOperandMayFail()
    ensures Coprime(-1, 5) && !Cong(-1 * Inverse(-1, 5), 1, 5)
  {
    hide Inverse, Run;
    MinusOneModuloFive();
    forall d: nat | d > 0 && Divides(d, -1) && Divides(d, 5)
      ensures d == 1
    {
      var k := Quotient(-1, d);
      ProductBound(d, k);
    }
  }

  lemma MinusOneModuloFive()
    ensures Inverse(-1, 5) == 1
  {
    hide Euclid, TruncRem;
    SmallTruncations();
    EuclidStep(-1, 5, 1, 0, 0);
    EuclidStep(5, -1, 0, 1, -5);
    EuclidStop(-1, 1, 5);
  }

  lemma SmallTruncations()
    ensures TruncRem(-1, 5) == -1 && TruncRem(1, 5) == 1 && TruncRem(6, 5) == 1
    ensures TruncDiv(-1, 5) == 0 && TruncDiv(5, -1) == -5
  {
    assert TruncDiv(1, 5) == 0 && TruncDiv(6, 5) == 1;
  }
}
