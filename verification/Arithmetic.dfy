/** Counting, and nonlinear facts, each proved on its own. */
module Arithmetic {

  function Bit(b: bool): nat {
    if b then 1 else 0
  }

  lemma MulAssoc(x: int, y: int, z: int)
    ensures x * (y * z) == (x * y) * z
  {
  }

  lemma MulCommutes(x: int, y: int)
    ensures x * y == y * x
  {
  }

  lemma MulAdd(d: int, x: int, y: int)
    ensures d * (x + y) == d * x + d * y
  {
  }

  lemma MulSub(d: int, x: int, y: int)
    ensures d * (x - y) == d * x - d * y
  {
  }

  lemma MulTwice(x: int, p: int)
    ensures x * (2 * p) == 2 * (x * p)
  {
  }

  lemma MulGrows(d: int, k: int)
    requires d > 0 && k >= 1
    ensures d * k >= d
  {
  }

  lemma MulCancel(p: int, x: int, y: int)
    requires p > 0 && p * x == p * y
    ensures x == y
  {
    MulSub(p, x, y);
    MulSub(p, y, x);
    if x > y {
      MulGrows(p, x - y);
    } else if x < y {
      MulGrows(p, y - x);
    }
  }

  /** Quotient and remainder by a positive divisor are unique. */
  lemma QuotientUnique(a: int, d: int, q: int, r: int)
    requires 0 <= r < d && a == r + d * q
    ensures a / d == q && a % d == r
  {
    var q', r' := a / d, a % d;
    assert a == d * q' + r';
    MulSub(d, q, q');
    MulSub(d, q', q);
    if q > q' {
      MulGrows(d, q - q');
    } else if q < q' {
      MulGrows(d, q' - q);
    }
  }
}
