/** Congruences modulo a positive number. */
module ModArith {

  predicate Cong(a: int, b: int, m: int)
    requires m > 0
  {
    (a - b) % m == 0
  }

  lemma ProductBound(m: int, j: int)
    requires m > 0
    ensures j >= 1 ==> m * j >= m
    ensures j <= -1 ==> m * j <= -m
  {
    assert m * j - m == m * (j - 1);
    assert m * j + m == m * (j + 1);
  }

  lemma QuotientIsExact(k: int, q: int, r: int, m: int)
    requires m > 0 && 0 <= r < m && k * m == m * q + r
    ensures r == 0
  {
    assert r == m * (k - q);
    ProductBound(m, k - q);
  }

  /** A multiple of `m` leaves remainder 0. */
  lemma MultipleOf(k: int, m: int)
    requires m > 0
    ensures (k * m) % m == 0
  {
    var x := k * m;
    QuotientIsExact(k, x / m, x % m, m);
  }

  lemma Quotient(x: int, m: int) returns (k: int)
    requires m > 0 && x % m == 0
    ensures x == k * m
  {
    k := x / m;
  }

  lemma CongFromMultiple(a: int, b: int, k: int, m: int)
    requires m > 0 && a - b == k * m
    ensures Cong(a, b, m)
  {
    MultipleOf(k, m);
  }

  lemma CongReflexive(a: int, m: int)
    requires m > 0
    ensures Cong(a, a, m)
  {
  }

  lemma CongSymmetric(a: int, b: int, m: int)
    requires m > 0 && Cong(a, b, m)
    ensures Cong(b, a, m)
  {
    var k := Quotient(a - b, m);
    CongFromMultiple(b, a, -k, m);
  }

  lemma CongTransitive(a: int, b: int, c: int, m: int)
    requires m > 0 && Cong(a, b, m) && Cong(b, c, m)
    ensures Cong(a, c, m)
  {
    var k := Quotient(a - b, m);
    var l := Quotient(b - c, m);
    CongFromMultiple(a, c, k + l, m);
  }

  lemma CongAdd(a: int, b: int, c: int, d: int, m: int)
    requires m > 0 && Cong(a, b, m) && Cong(c, d, m)
    ensures Cong(a + c, b + d, m)
    ensures Cong(a - c, b - d, m)
  {
    var k := Quotient(a - b, m);
    var l := Quotient(c - d, m);
    CongFromMultiple(a + c, b + d, k + l, m);
    CongFromMultiple(a - c, b - d, k - l, m);
  }

  lemma CongMul(a: int, b: int, c: int, d: int, m: int)
    requires m > 0 && Cong(a, b, m) && Cong(c, d, m)
    ensures Cong(a * c, b * d, m)
  {
    var k := Quotient(a - b, m);
    var l := Quotient(c - d, m);
    var e := a * l + d * k;
    assert a * c - b * d == a * (c - d) + d * (a - b);
    assert a * (c - d) == (a * l) * m;
    assert d * (a - b) == (d * k) * m;
    assert (a * l) * m + (d * k) * m == e * m;
    CongFromMultiple(a * c, b * d, e, m);
  }

  lemma CongReduced(a: int, m: int)
    requires m > 0
    ensures Cong(a % m, a, m) && Cong(a, a % m, m)
  {
    var q := a / m;
    assert a == m * q + a % m;
    assert a % m - a == (-q) * m;
    CongFromMultiple(a % m, a, -q, m);
    CongFromMultiple(a, a % m, q, m);
  }

  lemma CongSmall(a: int, b: int, m: int)
    requires 0 <= a < m && 0 <= b < m && Cong(a, b, m)
    ensures a == b
  {
    var k := Quotient(a - b, m);
    ProductBound(m, k);
  }

  /** Equal remainders and congruence are the same thing. */
  lemma CongIffSameRemainder(a: int, b: int, m: int)
    requires m > 0
    ensures Cong(a, b, m) <==> a % m == b % m
  {
    CongReduced(a, m);
    CongReduced(b, m);
    if Cong(a, b, m) {
      CongTransitive(a % m, a, b, m);
      CongTransitive(a % m, b, b % m, m);
      CongSmall(a % m, b % m, m);
    } else if a % m == b % m {
      CongTransitive(a, a % m, b, m);
    }
  }

  predicate Divides(d: nat, x: int)
    requires d > 0
  {
    x % d == 0
  }

  lemma DividesSelf(d: nat)
    requires d > 0
    ensures Divides(d, d)
  {
  }

  lemma DividesCombination(d: nat, x: int, y: int, q: int)
    requires d > 0 && Divides(d, y)
    ensures Divides(d, x - q * y) <==> Divides(d, x)
  {
    var k := Quotient(y, d);
    var c := q * k;
    assert q * y == c * d;
    if Divides(d, x) {
      var l := Quotient(x, d);
      assert x - q * y == (l - c) * d;
      MultipleOf(l - c, d);
    }
    if Divides(d, x - q * y) {
      var l := Quotient(x - q * y, d);
      assert x == (l + c) * d;
      MultipleOf(l + c, d);
    }
  }

  ghost predicate Coprime(a: int, b: int) {
    forall d: nat | d > 0 && Divides(d, a) && Divides(d, b) :: d == 1
  }

  ghost predicate Prime(p: nat) {
    p > 1 && forall d: nat | 1 < d < p :: !Divides(d, p)
  }

  lemma PrimeIsCoprime(p: nat, x: int)
    requires Prime(p) && x % p != 0
    ensures Coprime(x, p)
  {
    forall d: nat | d > 0 && Divides(d, x) && Divides(d, p)
      ensures d == 1
    {
      var k := Quotient(p, d);
      assert k * d == p;
      ProductBound(d, k);
    }
  }
}
