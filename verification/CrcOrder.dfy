/** x^n leaves the remainder one modulo the divisor exactly if n is a multiple of 32767, so that an error of two
    bits that are less far apart is never a multiple of it. */
module CrcOrders {

  import opened Arithmetic
  import opened CrcPowers
  import opened Polynomials
  import opened Primes

  const PERIOD: nat := 32767

  // ---------------------------------------------------------------- particular powers

  ghost predicate PowerIs(a: nat, v: bv16, n: nat)
    requires n <= 16
  {
    Power(a) == Coefficients(v, n)
  }

  lemma PowerProduct(a: nat, v: bv16, b: nat, w: bv16, u: bv16, n: nat)
    requires n == 16 && PowerIs(a, v, n) && PowerIs(b, w, n) && ProductWord(v, w) == u
    ensures PowerIs(a + b, u, n)
  {
    PowersMultiply(a, b);
    ProductIsProduct(v, w, n);
  }

  lemma FirstPower(n: nat)
    requires n == 16
    ensures PowerIs(1, 2, n)
  {
    WordsOfReduction(n);
    StepIsFeed(1, n);
    assert Power(1) == Feed(Power(0), false);
  }

  lemma SquareWords0()
    ensures ProductWord(0x0002, 0x0002) == 0x0004
    ensures ProductWord(0x0004, 0x0004) == 0x0010
    ensures ProductWord(0x0010, 0x0010) == 0x0100
  {
  }

  lemma SquareWords1()
    ensures ProductWord(0x0100, 0x0100) == 0x1021
    ensures ProductWord(0x1021, 0x1021) == 0x3730
    ensures ProductWord(0x3730, 0x3730) == 0xb861
  {
  }

  lemma SquareWords2()
    ensures ProductWord(0xb861, 0xb861) == 0xaefc
    ensures ProductWord(0xaefc, 0xaefc) == 0x8e29
    ensures ProductWord(0x8e29, 0x8e29) == 0x13fc
  {
  }

  lemma SquareWords3()
    ensures ProductWord(0x13fc, 0x13fc) == 0x36c4
    ensures ProductWord(0x36c4, 0x36c4) == 0xfd50
    ensures ProductWord(0xfd50, 0xfd50) == 0xaa9e
  {
  }

  lemma SquareWords4()
    ensures ProductWord(0xaa9e, 0xaa9e) == 0x881c
    ensures ProductWord(0x881c, 0x881c) == 0x4458
    ensures ProductWord(0x4458, 0x4458) == 0x0002
  {
  }

  lemma OtherProducts()
    ensures ProductWord(0x0002, 0x0100) == 0x0200
    ensures ProductWord(0x0200, 0x1021) == 0x6662
    ensures ProductWord(0x6662, 0xb861) == 0xde8a
    ensures ProductWord(0xde8a, 0xaefc) == 0x48e3
    ensures ProductWord(0x0002, 0x3730) == 0x6e60
    ensures ProductWord(0x6e60, 0x36c4) == 0xf2af
    ensures ProductWord(0x0002, 0x0100) == 0x0200
    ensures ProductWord(0x0200, 0xb861) == 0x8fa6
    ensures ProductWord(0x8fa6, 0x13fc) == 0x4500
    ensures ProductWord(0x4500, 0xaa9e) == 0x2c42
  {
  }

  // The powers of x whose exponents are powers of two, three at a time; the last one is x again.

  lemma Squares8(n: nat)
    requires n == 16
    ensures PowerIs(2, 0x0004, n) && PowerIs(4, 0x0010, n) && PowerIs(8, 0x0100, n)
  {
    FirstPower(n);
    SquareWords0();
    PowerProduct(1, 0x0002, 1, 0x0002, 0x0004, n);
    PowerProduct(2, 0x0004, 2, 0x0004, 0x0010, n);
    PowerProduct(4, 0x0010, 4, 0x0010, 0x0100, n);
  }

  lemma Squares64(n: nat)
    requires n == 16
    ensures PowerIs(16, 0x1021, n) && PowerIs(32, 0x3730, n) && PowerIs(64, 0xb861, n)
  {
    Squares8(n);
    SquareWords1();
    PowerProduct(8, 0x0100, 8, 0x0100, 0x1021, n);
    PowerProduct(16, 0x1021, 16, 0x1021, 0x3730, n);
    PowerProduct(32, 0x3730, 32, 0x3730, 0xb861, n);
  }

  lemma Squares512(n: nat)
    requires n == 16
    ensures PowerIs(128, 0xaefc, n) && PowerIs(256, 0x8e29, n) && PowerIs(512, 0x13fc, n)
  {
    Squares64(n);
    SquareWords2();
    PowerProduct(64, 0xb861, 64, 0xb861, 0xaefc, n);
    PowerProduct(128, 0xaefc, 128, 0xaefc, 0x8e29, n);
    PowerProduct(256, 0x8e29, 256, 0x8e29, 0x13fc, n);
  }

  lemma Squares4096(n: nat)
    requires n == 16
    ensures PowerIs(1024, 0x36c4, n) && PowerIs(2048, 0xfd50, n) && PowerIs(4096, 0xaa9e, n)
  {
    Squares512(n);
    SquareWords3();
    PowerProduct(512, 0x13fc, 512, 0x13fc, 0x36c4, n);
    PowerProduct(1024, 0x36c4, 1024, 0x36c4, 0xfd50, n);
    PowerProduct(2048, 0xfd50, 2048, 0xfd50, 0xaa9e, n);
  }

  lemma Squares32768(n: nat)
    requires n == 16
    ensures PowerIs(8192, 0x881c, n) && PowerIs(16384, 0x4458, n) && PowerIs(32768, 0x0002, n)
  {
    Squares4096(n);
    SquareWords4();
    PowerProduct(4096, 0xaa9e, 4096, 0xaa9e, 0x881c, n);
    PowerProduct(8192, 0x881c, 8192, 0x881c, 0x4458, n);
    PowerProduct(16384, 0x4458, 16384, 0x4458, 0x0002, n);
  }

  lemma Power217(n: nat)
    requires n == 16
    ensures PowerIs(217, 0x48e3, n)
  {
    FirstPower(n);
    Squares8(n);
    Squares64(n);
    Squares512(n);
    OtherProducts();
    PowerProduct(1, 0x0002, 8, 0x0100, 0x0200, n);
    PowerProduct(9, 0x0200, 16, 0x1021, 0x6662, n);
    PowerProduct(25, 0x6662, 64, 0xb861, 0xde8a, n);
    PowerProduct(89, 0xde8a, 128, 0xaefc, 0x48e3, n);
  }

  lemma Power1057(n: nat)
    requires n == 16
    ensures PowerIs(1057, 0xf2af, n)
  {
    FirstPower(n);
    Squares64(n);
    Squares4096(n);
    OtherProducts();
    PowerProduct(1, 0x0002, 32, 0x3730, 0x6e60, n);
    PowerProduct(33, 0x6e60, 1024, 0x36c4, 0xf2af, n);
  }

  lemma Power4681(n: nat)
    requires n == 16
    ensures PowerIs(4681, 0x2c42, n)
  {
    FirstPower(n);
    Squares8(n);
    Squares64(n);
    Squares512(n);
    Squares4096(n);
    OtherProducts();
    PowerProduct(1, 0x0002, 8, 0x0100, 0x0200, n);
    PowerProduct(9, 0x0200, 64, 0xb861, 0x8fa6, n);
    PowerProduct(73, 0x8fa6, 512, 0x13fc, 0x4500, n);
    PowerProduct(585, 0x4500, 4096, 0xaa9e, 0x2c42, n);
  }

  lemma NotOne(v: bv16, k: nat, n: nat)
    requires n == 16 && k < 15 && At(v, k)
    ensures Coefficients(v, n) != One()
  {
    CoefficientIsAt(v, n, k);
  }

  lemma PeriodPower(n: nat)
    requires n == 16
    ensures Power(PERIOD) == One()
  {
    Squares32768(n);
    FirstPower(n);
    FeedInjective(Power(PERIOD), One());
  }

  /** x to 32767 over a prime factor is not one. */
  lemma CofactorPower(p: nat, n: nat) returns (c: nat)
    requires n == 16 && p in {7, 31, 151}
    ensures p * c == PERIOD && Power(c) != One()
  {
    if p == 7 {
      c := 4681;
      Power4681(n);
      NotOne(0x2c42, 2, n);
    } else if p == 31 {
      c := 1057;
      Power1057(n);
      NotOne(0xf2af, 0, n);
    } else {
      c := 217;
      Power217(n);
      NotOne(0x48e3, 1, n);
    }
  }

  lemma FeedInjective(r: Poly, s: Poly)
    requires |r| == |s| == 16 && Feed(r, false) == Feed(s, false)
    ensures r == s
  {
    FeedXor(r, s, false, false);
    EqualIffXorZero(Feed(r, false), Feed(s, false));
    EqualIffXorZero(r, s);
    if Xor(r, s) != Zeros(16) {
      FeedZero(Xor(r, s));
    }
  }

  // ---------------------------------------------------------------- the exponents that give one

  lemma OneSkips(a: nat, b: nat)
    requires Power(a) == One()
    ensures Power(a + b) == Power(b)
  {
    TimesAdd(One(), a, b);
  }

  lemma {:induction false} OneMultiple(d: nat, t: nat)
    requires Power(d) == One()
    ensures Power(d * t) == One()
    decreases t
  {
    if t == 0 {
      assert d * t == 0;
    } else {
      OneMultiple(d, t - 1);
      assert d * t == d + d * (t - 1);
      OneSkips(d, d * (t - 1));
    }
  }

  lemma OneModulo(a: nat, d: nat)
    requires d > 0 && Power(d) == One()
    ensures Power(a) == Power(a % d)
  {
    OneMultiple(d, a / d);
    OneSkips(d * (a / d), a % d);
    assert a == d * (a / d) + a % d;
  }
  lemma FactorsArePrime()
    ensures Prime(7) && Prime(31) && Prime(151)
  {
    forall h: nat | 1 < h < 151 ensures !Divisible(151, h) {
      if Divisible(151, h) {
        SmallFactor(h, 151 / h);
      }
    }
  }

  lemma SmallFactor(h: nat, i: nat)
    requires h > 1 && i > 1
    ensures h * i != 151
  {
    if h > 12 && i > 12 {
      MulGrows(h, i - 12);
      MulAdd(h, i - 12, 12);
    }
  }

  /** A prime that divides a product but not its second factor is taken out of the first. */
  lemma TakeOut(p: nat, c: nat, g: nat, m: nat) returns (rest: nat)
    requires Prime(p) && m > 0 && !Divisible(m, p) && g * m == p * c
    ensures g == p * rest && rest * m == c
  {
    ProductDivisible(p, c);
    PrimeDivides(p, g, m);
    rest := g / p;
    MulAssoc(p, rest, m);
    MulCancel(p, rest * m, c);
  }

  /** If x^g is one and p can be taken out of the other factor of the period, then x^c is one. */
  lemma CofactorOne(g: nat, m: nat, p: nat, c: nat)
    requires Power(g) == One() && p > 0 && g * m == p * c && Divisible(m, p)
    ensures Power(c) == One()
  {
    Cofactor(g, m / p, m, p, c);
    OneMultiple(g, m / p);
  }

  lemma Cofactor(g: nat, t: nat, m: nat, p: nat, c: nat)
    requires p > 0 && m == p * t && g * m == p * c
    ensures c == g * t
  {
    MulCommutes(p, t);
    MulAssoc(g, t, p);
    MulCommutes(p, g * t);
    MulCancel(p, g * t, c);
  }

  ghost function GivesOne(): nat -> bool {
    (d: nat) => Power(d) == One()
  }

  lemma GivesOneSubtractive()
    ensures Subtractive(GivesOne())
  {
    var f := GivesOne();
    forall x: nat, y: nat | f(x) && f(x + y) ensures f(y) {
      OneSkips(x, y);
    }
  }

  lemma NothingTakenOut(g: nat, m: nat)
    requires g * m == PERIOD && m > 0 && !Divisible(m, 7) && !Divisible(m, 31) && !Divisible(m, 151)
    ensures m == 1
  {
    FactorsArePrime();
    var g1 := TakeOut(7, 4681, g, m);
    var g2 := TakeOut(31, 151, g1, m);
    var g3 := TakeOut(151, 1, g2, m);
    if m > 1 {
      MulGrows(m, g3);
    }
  }

  lemma FactorExcluded(g: nat, m: nat, p: nat, n: nat)
    requires n == 16 && g * m == PERIOD && Power(g) == One() && p in {7, 31, 151}
    ensures !Divisible(m, p)
  {
    var c := CofactorPower(p, n);
    if Divisible(m, p) {
      CofactorOne(g, m, p, c);
    }
  }

  lemma OnlyWholePeriod(g: nat, m: nat, n: nat)
    requires n == 16 && g * m == PERIOD && m > 0 && Power(g) == One()
    ensures m == 1
  {
    FactorExcluded(g, m, 7, n);
    FactorExcluded(g, m, 31, n);
    FactorExcluded(g, m, 151, n);
    NothingTakenOut(g, m);
  }

  /** An exponent that gives one is a multiple of the period. */
  lemma PeriodDivides(d: nat, t: nat, n: nat)
    requires n == 16 && t == PERIOD && d > 0 && Power(d) == One() && Power(t) == One()
    ensures Divisible(d, t)
  {
    GivesOneSubtractive();
    var g := Euclid(GivesOne(), d, t);
    QuotientTimes(t, g);
    OnlyWholePeriod(g, t / g, n);
  }

  /** x^d leaves the remainder one exactly for the multiples of 32767. */
  lemma OneIffPeriodDivides(d: nat, n: nat)
    requires n == 16
    ensures Power(d) == One() <==> d % PERIOD == 0
  {
    PeriodPower(n);
    if d % PERIOD == 0 {
      OneMultiple(PERIOD, d / PERIOD);
    } else if Power(d) == One() {
      PeriodDivides(d, PERIOD, n);
    }
  }

  // ---------------------------------------------------------------- errors of two bits

  /** Exactly the coefficients i and j are set. */
  ghost predicate TwoBits(e: Poly, i: nat, j: nat) {
    i < j < |e| && forall k | 0 <= k < |e| :: e[k] <==> k == i || k == j
  }

  lemma FramedRemainder(before: nat, mid: Poly, after: nat)
    ensures Remainder((Zeros(before) + mid) + Zeros(after)) == Zeros(16) <==> Remainder(mid) == Zeros(16)
  {
    LeadingZeros(before, mid);
    if Remainder(mid) == Zeros(16) {
      AppendTimes(Zeros(before) + mid, after);
      TimesZeros(after);
    } else {
      TrailingZeros(Zeros(before) + mid, after);
    }
  }

  /** The remainder of x^d + 1. */
  lemma BinomialRemainder(d: nat)
    requires d > 0
    ensures Remainder(([true] + Zeros(d - 1)) + [true]) == Xor(Power(d), One())
  {
    ShortRemainder([true]);
    AppendTimes([true], d - 1);
    RemainderSnoc([true] + Zeros(d - 1), true);
    FeedOne(Times(One(), d - 1), true);
  }

  lemma TwoBitsSplit(e: Poly, i: nat, j: nat)
    requires TwoBits(e, i, j)
    ensures e == (Zeros(i) + (([true] + Zeros(j - i - 1)) + [true])) + Zeros(|e| - j - 1)
  {
  }

  /** An error of two bits is a multiple of the divisor exactly if their distance is one of 32767. */
  lemma TwoBitsRemainder(e: Poly, i: nat, j: nat, n: nat)
    requires n == 16 && TwoBits(e, i, j)
    ensures Remainder(e) == Zeros(16) <==> (j - i) % PERIOD == 0
  {
    TwoBitsSplit(e, i, j);
    FramedRemainder(i, ([true] + Zeros(j - i - 1)) + [true], |e| - j - 1);
    BinomialRemainder(j - i);
    EqualIffXorZero(Power(j - i), One());
    OneIffPeriodDivides(j - i, n);
  }
}
