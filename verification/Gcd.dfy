/**
 The greatest common divisor as the helper library finds it, by counting a candidate down from the
 smaller argument, against Euclid's algorithm.
 */
module Gcd {
  import opened Division

  ghost predicate Divides(d: nat, n: nat) {
    d > 0 && n % d == 0
  }

  ghost predicate Common(d: nat, a: nat, b: nat) {
    Divides(d, a) && Divides(d, b)
  }

  ghost function Euclid(a: nat, b: nat): nat
    decreases b
  {
    if b == 0 then a else Euclid(b, a % b)
  }

  // math_gcd
  method MathGcd(a: nat, b: nat) returns (r: nat)
    ensures r == if a == 0 || b == 0 then 0 else Euclid(a, b)
  {
    hide Euclid, Divides;
    var gcd := if a < b then a else b;
    if a > 0 && b > 0 {
      EuclidIsCommon(a, b);
      CommonIsSmall(Euclid(a, b), a, b);
    }
    while gcd > 0
      invariant gcd <= a && gcd <= b
      invariant a > 0 && b > 0 ==> Euclid(a, b) <= gcd
    {
      CommonIs(gcd, a, b);
      if a % gcd == 0 && b % gcd == 0 {
        CommonDividesEuclid(gcd, a, b);
        DivisorIsSmall(gcd, Euclid(a, b));
        return gcd;
      }
      gcd := gcd - 1;
    }
    return 0;
  }

  // What that means: the result is zero exactly when an argument is, and otherwise it is a common
  // divisor that every common divisor divides.
  lemma {:induction false} GreatestInDivisibility(a: nat, b: nat)
    requires a > 0 && b > 0
    ensures Common(Euclid(a, b), a, b)
    ensures forall d: nat :: Common(d, a, b) <==> Divides(d, Euclid(a, b))
  {
    hide Euclid, Divides;
    var g := Euclid(a, b);
    EuclidIsCommon(a, b);
    forall d: nat ensures Common(d, a, b) <==> Divides(d, g) {
      if Common(d, a, b) {
        CommonDividesEuclid(d, a, b);
      }
      if Divides(d, g) {
        DividesAcross(d, g, a);
        DividesAcross(d, g, b);
      }
    }
  }

  // No other number has that property.
  lemma {:induction false} GreatestIsUnique(a: nat, b: nat, g: nat)
    requires a > 0 && b > 0
    requires Common(g, a, b) && forall d: nat | Common(d, a, b) :: Divides(d, g)
    ensures g == Euclid(a, b)
  {
    hide Euclid, Divides;
    EuclidIsCommon(a, b);
    CommonDividesEuclid(g, a, b);
    DivisorIsSmall(g, Euclid(a, b));
    DivisorIsSmall(Euclid(a, b), g);
  }

  lemma {:induction false} EuclidIsCommon(a: nat, b: nat)
    requires a > 0 || b > 0
    ensures Euclid(a, b) > 0 && Common(Euclid(a, b), a, b)
    decreases b
  {
    if b > 0 {
      EuclidIsCommon(b, a % b);
      DividesBack(Euclid(a, b), a, b);
    }
  }

  lemma {:induction false} CommonDividesEuclid(d: nat, a: nat, b: nat)
    requires (a > 0 || b > 0) && Common(d, a, b)
    ensures Euclid(a, b) > 0 && Divides(d, Euclid(a, b))
    decreases b
  {
    if b > 0 {
      DividesRemainder(d, a, b);
      CommonDividesEuclid(d, b, a % b);
    }
  }

  lemma {:induction false} CommonIs(d: nat, a: nat, b: nat)
    requires d > 0
    ensures Common(d, a, b) <==> a % d == 0 && b % d == 0
  {
  }

  lemma {:induction false} CommonIsSmall(d: nat, a: nat, b: nat)
    requires a > 0 && b > 0 && Common(d, a, b)
    ensures d <= a && d <= b
  {
    DivisorIsSmall(d, a);
    DivisorIsSmall(d, b);
  }

  // ---------------------------------------------------------------- multiples

  lemma {:induction false} Multiple(d: nat, k: nat)
    requires d > 0
    ensures Divides(d, k * d)
  {
    Product(k, d);
    DivideIs(k * d, d, k, 0);
  }

  lemma {:induction false} DivisorIsSmall(d: nat, n: nat)
    requires n > 0 && Divides(d, n)
    ensures d <= n
  {
  }

  lemma {:induction false} DividesAcross(d: nat, m: nat, n: nat)
    requires Divides(d, m) && Divides(m, n)
    ensures Divides(d, n)
  {
    var j, k := m / d, n / m;
    assert n == k * m && m == j * d;
    assert k * (j * d) == (k * j) * d;
    Product(k, j);
    Multiple(d, k * j);
  }

  lemma {:induction false} DividesRemainder(d: nat, a: nat, b: nat)
    requires b > 0 && Common(d, a, b)
    ensures Divides(d, a % b)
  {
    var j, k, q := a / d, b / d, a / b;
    assert a == j * d && b == k * d && a == q * b + a % b;
    assert q * (k * d) == (q * k) * d;
    assert a % b == (j - q * k) * d;
    FactorNotNegative(j - q * k, d);
    Multiple(d, j - q * k);
  }

  lemma {:induction false} FactorNotNegative(m: int, d: nat)
    requires d > 0 && m * d >= 0
    ensures m >= 0
  {
  }

  lemma {:induction false} DividesBack(d: nat, a: nat, b: nat)
    requires b > 0 && Common(d, b, a % b)
    ensures Divides(d, a)
  {
    var j, k, q := a % b / d, b / d, a / b;
    assert a % b == j * d && b == k * d && a == q * b + a % b;
    assert q * (k * d) == (q * k) * d;
    assert a == (q * k + j) * d;
    Product(q, k);
    Multiple(d, q * k + j);
  }
}
