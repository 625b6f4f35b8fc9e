/**
 Facts about division with remainder that the pixel computations share.
 */
module Division {

  lemma {:induction false} Product(a: nat, b: nat)
    ensures a * b >= 0
  {
  }

  lemma {:induction false} LinearIndex(x: nat, y: nat, dimX: nat, dimY: nat)
    requires x < dimX && y < dimY
    ensures y * dimX + x < dimX * dimY
    ensures (y * dimX + x) / dimX == y && (y * dimX + x) % dimX == x
  {
    assert (y + 1) * dimX <= dimY * dimX;
    DivideIs(y * dimX + x, dimX, y, x);
  }

  lemma {:induction false} DivideIs(n: nat, d: nat, q: nat, r: nat)
    requires 0 < d && r < d && n == q * d + r
    ensures n / d == q && n % d == r
    decreases q
  {
    if q > 0 {
      DivideIs(n - d, d, q - 1, r);
      assert n == (n - d) + d;
      DivideNext(n - d, d);
    } else {
      DivideLess(n, d);
    }
  }

  lemma {:induction false} DivideNext(n: nat, d: nat)
    requires 0 < d
    ensures (n + d) / d == n / d + 1 && (n + d) % d == n % d
  {
    var p, q := n / d, (n + d) / d;
    assert n == p * d + n % d && n + d == q * d + (n + d) % d;
    assert (q - p - 1) * d == n % d - (n + d) % d;
    NoMultipleBetween(q - p - 1, d);
  }

  lemma {:induction false} NoMultipleBetween(m: int, d: nat)
    requires 0 < d + m * d && m * d < d
    ensures m == 0
  {
  }

  lemma {:induction false} DivideLess(n: nat, d: nat)
    requires n < d
    ensures n / d == 0 && n % d == n
  {
  }

  lemma {:induction false} MoreRows(m: nat, n: nat, dim: nat)
    requires m <= n
    ensures m * dim <= n * dim
  {
  }

  lemma {:induction false} InRows(i: nat, dimX: nat, dimY: nat)
    requires i < dimX * dimY
    ensures dimX > 0 && i % dimX < dimX && i / dimX < dimY
  {
    var q := i / dimX;
    assert i == q * dimX + i % dimX;
    if q >= dimY {
      MoreRows(dimY, q, dimX);
    }
  }

  lemma {:induction false} NextOnGrid(x: nat, step: nat)
    requires 0 < step && x % step == 0
    ensures (x + step) % step == 0
    ensures forall u: nat | x < u < x + step :: u % step != 0
  {
    DivideNext(x, step);
    var q := x / step;
    forall u: nat | x < u < x + step ensures u % step != 0 {
      DivideIs(u, step, q, u - x);
    }
  }
}
