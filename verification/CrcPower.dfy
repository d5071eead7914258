/** Powers of x modulo the divisor, as polynomials and, for computing them, as machine words. */
module CrcPowers {

  import opened Polynomials
  import opened Sequences

  // ---------------------------------------------------------------- powers of x

  function One(): (p: Poly)
    ensures |p| == 16
  {
    Zeros(15) + [true]
  }

  /** r times x^n, reduced. */
  function Times(r: Poly, n: nat): (s: Poly)
    requires |r| == 16
    ensures |s| == 16
  {
    if n == 0 then r else Feed(Times(r, n - 1), false)
  }

  function Power(n: nat): (s: Poly)
    ensures |s| == 16
  {
    Times(One(), n)
  }

  lemma {:induction false} TimesAdd(r: Poly, a: nat, b: nat)
    requires |r| == 16
    ensures Times(r, a + b) == Times(Times(r, a), b)
    decreases b
  {
    if b > 0 {
      TimesAdd(r, a, b - 1);
    }
  }

  lemma {:induction false} TimesXor(r: Poly, s: Poly, n: nat)
    requires |r| == |s| == 16
    ensures Times(Xor(r, s), n) == Xor(Times(r, n), Times(s, n))
  {
    if n > 0 {
      TimesXor(r, s, n - 1);
      FeedXor(Times(r, n - 1), Times(s, n - 1), false, false);
    }
  }

  lemma {:induction false} TimesZeros(n: nat)
    ensures Times(Zeros(16), n) == Zeros(16)
  {
    if n > 0 {
      TimesZeros(n - 1);
      FeedZeros();
    }
  }

  lemma ZerosSnoc(p: Poly, n: nat)
    requires n > 0
    ensures p + Zeros(n) == (p + Zeros(n - 1)) + [false]
  {
  }

  lemma RemainderSnoc(p: Poly, b: bool)
    ensures Remainder(p + [b]) == Feed(Remainder(p), b)
  {
    Snoc(p, b);
  }

  /** Appending n zeros multiplies by x^n. */
  lemma {:induction false} AppendTimes(p: Poly, n: nat)
    ensures Remainder(p + Zeros(n)) == Times(Remainder(p), n)
  {
    if n == 0 {
      EmptyConcat(p);
    } else {
      AppendTimes(p, n - 1);
      ZerosSnoc(p, n);
      RemainderSnoc(p + Zeros(n - 1), false);
    }
  }

  /** The sum of the multiples of s by the powers of x in p, highest first. */
  function Product(p: Poly, s: Poly): (r: Poly)
    requires |s| == 16
    ensures |r| == 16
  {
    if p == [] then Zeros(16)
    else Xor(Feed(Product(p[..|p| - 1], s), false), if p[|p| - 1] then s else Zeros(16))
  }

  lemma FeedOne(r: Poly, b: bool)
    requires |r| == 16
    ensures Feed(r, b) == Xor(Feed(r, false), if b then One() else Zeros(16))
  {
  }

  /** A sum of two words, of which one is multiplied by x first and then by x^n. */
  lemma ProductStep(r: Poly, b: bool, n: nat)
    requires |r| == 16
    ensures Times(Feed(r, b), n) == Xor(Feed(Times(r, n), false), if b then Power(n) else Zeros(16))
  {
    FeedOne(r, b);
    TimesXor(Feed(r, false), if b then One() else Zeros(16), n);
    TimesZeros(n);
    TimesStep(r, n);
  }

  lemma {:induction false} TimesStep(r: Poly, n: nat)
    requires |r| == 16
    ensures Times(Feed(r, false), n) == Feed(Times(r, n), false)
  {
    if n > 0 {
      TimesStep(r, n - 1);
    }
  }

  /** Multiplying by x^n depends only on its remainder. */
  lemma {:induction false} ProductIsTimes(p: Poly, n: nat)
    ensures Product(p, Power(n)) == Times(Remainder(p), n)
    decreases |p|
  {
    if p == [] {
      TimesZeros(n);
    } else {
      var m := |p| - 1;
      ProductIsTimes(p[..m], n);
      ProductStep(Remainder(p[..m]), p[m], n);
    }
  }

  lemma PowersMultiply(a: nat, b: nat)
    ensures Product(Power(a), Power(b)) == Power(a + b)
  {
    ProductIsTimes(Power(a), b);
    WordRemainder(Power(a));
    TimesAdd(One(), a, b);
  }

  // ---------------------------------------------------------------- the same on words of sixteen bits

  /** The word whose only bit is k, counted from the top as in a polynomial. */
  function Mask(k: nat): bv16
    requires k < 16
  {
    if k < 8 then
      if k < 4 then (if k == 0 then 0x8000 else if k == 1 then 0x4000 else if k == 2 then 0x2000 else 0x1000)
      else (if k == 4 then 0x0800 else if k == 5 then 0x0400 else if k == 6 then 0x0200 else 0x0100)
    else if k < 12 then (if k == 8 then 0x0080 else if k == 9 then 0x0040 else if k == 10 then 0x0020 else 0x0010)
    else if k == 12 then 0x0008 else if k == 13 then 0x0004 else if k == 14 then 0x0002 else 0x0001
  }

  function At(v: bv16, k: nat): bool
    requires k < 16
  {
    v & Mask(k) != 0
  }

  /** The n highest coefficients of a word. Where all sixteen are meant, n stands for them by name. */
  function Coefficients(v: bv16, n: nat): (p: Poly)
    requires n <= 16
    ensures |p| == n
  {
    if n == 0 then [] else Coefficients(v, n - 1) + [At(v, n - 1)]
  }

  lemma MaskedIsMask(v: bv16, k: nat)
    requires k < 16
    ensures v & Mask(k) in {0, Mask(k)} && Mask(k) != 0
  {
    if k == 0 {} else if k == 1 {} else if k == 2 {} else if k == 3 {} else if k == 4 {} else if k == 5 {}
    else if k == 6 {} else if k == 7 {} else if k == 8 {} else if k == 9 {} else if k == 10 {} else if k == 11 {}
    else if k == 12 {} else if k == 13 {} else if k == 14 {}
  }

  lemma XorMasked(v: bv16, w: bv16, m: bv16)
    ensures (v ^ w) & m == (v & m) ^ (w & m)
  {
  }

  lemma XorIsZero(v: bv16, w: bv16)
    ensures v ^ w == 0 <==> v == w
  {
  }

  lemma XorAt(v: bv16, w: bv16, k: nat)
    requires k < 16
    ensures At(v ^ w, k) <==> At(v, k) != At(w, k)
  {
    MaskedIsMask(v, k);
    MaskedIsMask(w, k);
    XorMasked(v, w, Mask(k));
    XorIsZero(v & Mask(k), w & Mask(k));
  }

  lemma {:induction false} XorCoefficients(v: bv16, w: bv16, n: nat)
    requires n <= 16
    ensures Coefficients(v ^ w, n) == Xor(Coefficients(v, n), Coefficients(w, n))
  {
    if n > 0 {
      XorCoefficients(v, w, n - 1);
      XorAt(v, w, n - 1);
    }
  }

  lemma DoubleAt(v: bv16, k: nat)
    requires k < 16
    ensures At(v + v, k) <==> k < 15 && At(v, k + 1)
  {
    if k == 0 {} else if k == 1 {} else if k == 2 {} else if k == 3 {} else if k == 4 {} else if k == 5 {}
    else if k == 6 {} else if k == 7 {} else if k == 8 {} else if k == 9 {} else if k == 10 {} else if k == 11 {}
    else if k == 12 {} else if k == 13 {} else if k == 14 {}
  }

  lemma {:induction false} DoubleCoefficients(v: bv16, n: nat)
    requires n <= 15
    ensures Coefficients(v + v, n) == Coefficients(v, n + 1)[1..]
  {
    if n > 0 {
      DoubleCoefficients(v, n - 1);
      DoubleAt(v, n - 1);
    }
  }

  lemma {:induction false} CoefficientIsAt(v: bv16, n: nat, k: nat)
    requires k < n <= 16
    ensures Coefficients(v, n)[k] == At(v, k)
  {
    if k < n - 1 {
      CoefficientIsAt(v, n - 1, k);
    }
  }

  lemma LowAt(k: nat)
    requires k < 16
    ensures At(0x1021, k) == (k in {3, 10, 15}) && !At(0, k) && At(1, k) == (k == 15)
  {
    if k == 0 {} else if k == 1 {} else if k == 2 {} else if k == 3 {} else if k == 4 {} else if k == 5 {}
    else if k == 6 {} else if k == 7 {} else if k == 8 {} else if k == 9 {} else if k == 10 {} else if k == 11 {}
    else if k == 12 {} else if k == 13 {} else if k == 14 {}
  }

  lemma WordsOfReduction(n: nat)
    requires n == 16
    ensures Coefficients(0x1021, n) == Low() && Coefficients(0, n) == Zeros(16) && Coefficients(1, n) == One()
  {
    forall k | 0 <= k < 16
      ensures Coefficients(0x1021, n)[k] == Low()[k] && Coefficients(0, n)[k] == Zeros(16)[k] && Coefficients(1, n)[k] == One()[k]
    {
      LowAt(k);
      CoefficientIsAt(0x1021, n, k);
      CoefficientIsAt(0, n, k);
      CoefficientIsAt(1, n, k);
    }
  }

  function StepWord(v: bv16): bv16 {
    (v + v) ^ (if v & 0x8000 != 0 then 0x1021 else 0)
  }

  lemma DoubleIsShift(v: bv16, n: nat)
    requires n == 16
    ensures Coefficients(v + v, n) == Coefficients(v, n)[1..] + [false] && Coefficients(v, n)[0] == (v & 0x8000 != 0)
  {
    DoubleCoefficients(v, n - 1);
    DoubleAt(v, n - 1);
    CoefficientIsAt(v, n, 0);
  }

  lemma StepIsFeed(v: bv16, n: nat)
    requires n == 16
    ensures Coefficients(StepWord(v), n) == Feed(Coefficients(v, n), false)
  {
    WordsOfReduction(n);
    DoubleIsShift(v, n);
    XorWords(v + v, if v & 0x8000 != 0 then 0x1021 else 0, n);
  }

  lemma XorWords(v: bv16, w: bv16, n: nat)
    requires n == 16
    ensures Coefficients(v ^ w, n) == Xor(Coefficients(v, n), Coefficients(w, n))
  {
    XorCoefficients(v, w, n);
  }

  /** One coefficient of a product: bit tells whether s is added. */
  function Accumulate(r: bv16, bit: bv16, s: bv16): bv16 {
    if bit != 0 then StepWord(r) ^ s else StepWord(r)
  }

  function ProductTo(p: bv16, s: bv16, n: nat): bv16
    requires n <= 16
  {
    if n == 0 then 0 else Accumulate(ProductTo(p, s, n - 1), p & Mask(n - 1), s)
  }

  lemma ProductSnoc(q: Poly, b: bool, s: Poly)
    requires |s| == 16
    ensures Product(q + [b], s) == Xor(Feed(Product(q, s), false), if b then s else Zeros(16))
  {
    InitOfAppended(q, b);
  }

  lemma AddIsSnoc(q: Poly, b: bool, v: bv16, s: bv16, n: nat)
    requires n == 16 && Coefficients(v, n) == Feed(Product(q, Coefficients(s, n)), false)
    ensures Coefficients(if b then v ^ s else v, n) == Product(q + [b], Coefficients(s, n))
  {
    ProductSnoc(q, b, Coefficients(s, n));
    if b {
      XorWords(v, s, n);
    } else {
      XorZeros(Coefficients(v, n), n);
    }
  }

  lemma AccumulateAdds(r: bv16, bit: bv16, s: bv16)
    ensures Accumulate(r, bit, s) == if bit != 0 then StepWord(r) ^ s else StepWord(r)
  {
  }

  lemma AccumulateIsSnoc(q: Poly, b: bool, r: bv16, bit: bv16, s: bv16, n: nat)
    requires n == 16 && Coefficients(r, n) == Product(q, Coefficients(s, n)) && b == (bit != 0)
    ensures Coefficients(Accumulate(r, bit, s), n) == Product(q + [b], Coefficients(s, n))
  {
    AccumulateAdds(r, bit, s);
    StepIsSnoc(q, b, r, StepWord(r), Accumulate(r, bit, s), s, n);
  }

  lemma StepIsSnoc(q: Poly, b: bool, r: bv16, v: bv16, a: bv16, s: bv16, n: nat)
    requires n == 16 && Coefficients(r, n) == Product(q, Coefficients(s, n))
    requires v == StepWord(r) && a == if b then v ^ s else v
    ensures Coefficients(a, n) == Product(q + [b], Coefficients(s, n))
  {
    StepIsFeed(r, n);
    AddIsSnoc(q, b, v, s, n);
  }

  lemma ProductToUnfolds(p: bv16, s: bv16, k: nat)
    requires 1 <= k <= 16
    ensures ProductTo(p, s, k) == Accumulate(ProductTo(p, s, k - 1), p & Mask(k - 1), s)
    ensures At(p, k - 1) <==> p & Mask(k - 1) != 0
  {
  }

  lemma {:induction false} ProductToIsProduct(p: bv16, s: bv16, k: nat, n: nat)
    requires k <= 16 && n == 16
    ensures Coefficients(ProductTo(p, s, k), n) == Product(Coefficients(p, k), Coefficients(s, n))
  {
    if k == 0 {
      WordsOfReduction(n);
    } else {
      ProductToIsProduct(p, s, k - 1, n);
      ProductToUnfolds(p, s, k);
      AccumulateIsSnoc(Coefficients(p, k - 1), At(p, k - 1), ProductTo(p, s, k - 1), p & Mask(k - 1), s, n);
    }
  }

  /** The product written out. */
  function ProductWord(p: bv16, s: bv16): bv16 {
    var a := Accumulate(Accumulate(Accumulate(Accumulate(0, p & 0x8000, s), p & 0x4000, s), p & 0x2000, s), p & 0x1000, s);
    var b := Accumulate(Accumulate(Accumulate(Accumulate(a, p & 0x0800, s), p & 0x0400, s), p & 0x0200, s), p & 0x0100, s);
    var c := Accumulate(Accumulate(Accumulate(Accumulate(b, p & 0x0080, s), p & 0x0040, s), p & 0x0020, s), p & 0x0010, s);
    var d := Accumulate(Accumulate(Accumulate(Accumulate(c, p & 0x0008, s), p & 0x0004, s), p & 0x0002, s), p & 0x0001, s);
    d
  }

  lemma FourMore(p: bv16, s: bv16, k: nat)
    requires k <= 12
    ensures ProductTo(p, s, k + 4)
            == Accumulate(
                 Accumulate(
                   Accumulate(
                     Accumulate(ProductTo(p, s, k), p & Mask(k), s), p & Mask(k + 1), s), p & Mask(k + 2), s), p & Mask(k + 3), s)
  {
    assert ProductTo(p, s, k + 1) == Accumulate(ProductTo(p, s, k), p & Mask(k), s);
    assert ProductTo(p, s, k + 2) == Accumulate(ProductTo(p, s, k + 1), p & Mask(k + 1), s);
    assert ProductTo(p, s, k + 3) == Accumulate(ProductTo(p, s, k + 2), p & Mask(k + 2), s);
  }

  lemma ProductIsProduct(p: bv16, s: bv16, n: nat)
    requires n == 16
    ensures Coefficients(ProductWord(p, s), n) == Product(Coefficients(p, n), Coefficients(s, n))
  {
    FourMore(p, s, n - 16);
    FourMore(p, s, n - 12);
    FourMore(p, s, n - 8);
    FourMore(p, s, n - 4);
    ProductToIsProduct(p, s, n, n);
  }
}
