/** Divisibility of natural numbers: Euclid's algorithm and the lemma of prime factors. */
module Primes {

  import opened Arithmetic

  predicate Divisible(a: nat, g: nat) {
    g > 0 && a % g == 0
  }

  lemma ProductDivisible(g: nat, t: nat)
    requires g > 0
    ensures Divisible(g * t, g)
  {
    QuotientUnique(g * t, g, t, 0);
  }

  lemma SumDivisible(g: nat, a: nat, b: nat)
    requires Divisible(a, g) && Divisible(b, g)
    ensures Divisible(a + b, g)
  {
    var i, j := a / g, b / g;
    assert a + b == 0 + g * (i + j);
    QuotientUnique(a + b, g, i + j, 0);
  }

  lemma DifferenceDivisible(g: nat, a: nat, b: nat)
    requires Divisible(a, g) && Divisible(a + b, g)
    ensures Divisible(b, g)
  {
    var i, j := a / g, (a + b) / g;
    MulSub(g, j, i);
    if j < i {
      MulGrows(g, i - j);
      MulSub(g, i, j);
    }
    assert b == 0 + g * (j - i);
    QuotientUnique(b, g, j - i, 0);
  }

  /** A property that passes from a number and a sum to the other summand. */
  ghost predicate Subtractive(f: nat -> bool) {
    forall x: nat, y: nat :: f(x) && f(x + y) ==> f(y)
  }

  /** Euclid's algorithm: such a property of two numbers holds of a common divisor. */
  lemma {:induction false} Euclid(f: nat -> bool, a: nat, b: nat) returns (g: nat)
    requires Subtractive(f) && f(a) && f(b) && a > 0 && b > 0
    ensures f(g) && Divisible(a, g) && Divisible(b, g)
    decreases a + b
  {
    if a == b {
      g := a;
    } else if a > b {
      assert f(b + (a - b));
      g := Euclid(f, a - b, b);
      SumDivisible(g, a - b, b);
    } else {
      assert f(a + (b - a));
      g := Euclid(f, a, b - a);
      SumDivisible(g, a, b - a);
    }
  }

  ghost predicate Prime(p: nat) {
    1 < p && forall h | 1 < h < p :: !Divisible(p, h)
  }

  predicate DividesProduct(p: nat, g: nat, x: nat) {
    Divisible(g * x, p)
  }

  lemma ProductDifference(p: nat, g: nat, x: nat, y: nat)
    requires DividesProduct(p, g, x) && DividesProduct(p, g, x + y)
    ensures DividesProduct(p, g, y)
  {
    MulAdd(g, x, y);
    DifferenceDivisible(p, g * x, g * y);
  }

  ghost function ProductsDivisible(p: nat, g: nat): nat -> bool {
    (x: nat) => DividesProduct(p, g, x)
  }

  lemma ProductsSubtractive(p: nat, g: nat)
    ensures Subtractive(ProductsDivisible(p, g))
  {
    var f := ProductsDivisible(p, g);
    forall x: nat, y: nat | f(x) && f(x + y) ensures f(y) {
      ProductDifference(p, g, x, y);
    }
  }

  lemma QuotientTimes(a: nat, g: nat)
    requires Divisible(a, g) && a > 0
    ensures g * (a / g) == a && a / g > 0
  {
  }

  lemma DivisorAtMost(a: nat, g: nat)
    requires Divisible(a, g) && a > 0
    ensures g <= a
  {
  }

  /** A prime that divides a product divides one of the factors. */
  lemma PrimeDivides(p: nat, g: nat, m: nat)
    requires Prime(p) && m > 0 && Divisible(g * m, p)
    ensures Divisible(g, p) || Divisible(m, p)
  {
    ProductsSubtractive(p, g);
    MulCommutes(g, p);
    ProductDivisible(p, g);
    var h := Euclid(ProductsDivisible(p, g), m, p);
    DivisorAtMost(p, h);
    assert h == 1 || h == p;
    if h == 1 {
      assert Divisible(g * 1, p);
    }
  }
}
