/** Polynomials over GF(2), their long division by x^16 + x^12 + x^5 + 1, and the bit-serial CRC register. */
module Polynomials {

  import opened Sequences

  /** A polynomial by its coefficients, highest power first. */
  type Poly = seq<bool>

  function Zeros(n: nat): (z: Poly)
    ensures |z| == n && forall k | 0 <= k < n :: !z[k]
  {
    Fill(n, false)
  }

  /** Sum of two polynomials written with equally many coefficients. */
  function Xor(a: Poly, b: Poly): (c: Poly)
    requires |a| == |b|
    ensures |c| == |a| && forall k | 0 <= k < |a| :: c[k] == (a[k] != b[k])
  {
    seq(|a|, k requires 0 <= k < |a| => a[k] != b[k])
  }

  /** x^12 + x^5 + 1 with sixteen coefficients. */
  function Low(): (p: Poly)
    ensures |p| == 16 && forall k | 0 <= k < 16 :: p[k] == (k in {3, 10, 15})
  {
    seq(16, k => k in {3, 10, 15})
  }

  /** The divisor, which has x^16 on top. */
  function Divisor(): (p: Poly)
    ensures |p| == 17 && p[0] && forall k | 0 <= k < 16 :: p[k + 1] == Low()[k]
  {
    [true] + Low()
  }

  /** Low if the leading coefficient was set. */
  function Reduction(b: bool): (p: Poly)
    ensures |p| == 16
  {
    if b then Low() else Zeros(16)
  }

  /** One step of long division: bring down the next coefficient, subtract the divisor if it fits. */
  function Feed(r: Poly, b: bool): (s: Poly)
    requires |r| == 16
    ensures |s| == 16
  {
    Xor(r[1..] + [b], Reduction(r[0]))
  }

  /** The remainder of the long division of p by the divisor. */
  function Remainder(p: Poly): (r: Poly)
    ensures |r| == 16
  {
    if p == [] then Zeros(16) else Feed(Remainder(p[..|p| - 1]), p[|p| - 1])
  }

  /** Its quotient, with as many coefficients as p. */
  function Quotient(p: Poly): (q: Poly)
    ensures |q| == |p|
  {
    if p == [] then [] else Quotient(p[..|p| - 1]) + [Remainder(p[..|p| - 1])[0]]
  }

  /** The product of q and the divisor, by schoolbook multiplication. */
  function TimesDivisor(q: Poly): (p: Poly)
    ensures |p| == |q| + 16
  {
    if q == [] then Zeros(16)
    else
      var n := |q| - 1;
      Xor(TimesDivisor(q[..n]) + [false], Zeros(n) + if q[n] then Divisor() else Zeros(17))
  }

  lemma Snoc(p: Poly, b: bool)
    ensures Remainder(p + [b]) == Feed(Remainder(p), b)
    ensures Quotient(p + [b]) == Quotient(p) + [Remainder(p)[0]]
    ensures TimesDivisor(p + [b]) == Xor(TimesDivisor(p) + [false], Zeros(|p|) + if b then Divisor() else Zeros(17))
  {
    InitOfAppended(p, b);
  }

  /** p, written with sixteen leading zeros, is quotient times divisor plus remainder. */
  predicate Divides(p: Poly, q: Poly, r: Poly, n: nat)
    requires |q| == n && |p| == n && |r| == 16
  {
    Zeros(16) + p == Xor(TimesDivisor(q), Zeros(n) + r)
  }

  /** Division with remainder. */
  lemma {:induction false} DivisionIdentity(p: Poly)
    ensures Divides(p, Quotient(p), Remainder(p), |p|)
  {
    if p == [] {
      assert Xor(Zeros(16), Zeros(0) + Zeros(16)) == Zeros(16);
    } else {
      var n := |p| - 1;
      DivisionIdentity(p[..n]);
      DivisionSnoc(p[..n], p[n], n);
      SplitLast(p);
    }
  }

  lemma DivisionSnoc(m: Poly, b: bool, n: nat)
    requires |m| == n && Divides(m, Quotient(m), Remainder(m), n)
    ensures Divides(m + [b], Quotient(m + [b]), Remainder(m + [b]), n + 1)
  {
    Snoc(m, b);
    Snoc(Quotient(m), Remainder(m)[0]);
    DivisionStep(TimesDivisor(Quotient(m)), Remainder(m), b, n);
    ConcatAssoc(Zeros(16), m, [b]);
  }

  lemma DivisionStep(t: Poly, r: Poly, b: bool, n: nat)
    requires |r| == 16 && |t| == n + 16
    ensures Xor(t, Zeros(n) + r) + [b] ==
            Xor(Xor(t + [false], Zeros(n) + if r[0] then Divisor() else Zeros(17)), Zeros(n + 1) + Feed(r, b))
  {
  }

  // ---------------------------------------------------------------- linearity and uniqueness

  lemma FeedXor(r: Poly, s: Poly, a: bool, b: bool)
    requires |r| == |s| == 16
    ensures Feed(Xor(r, s), a != b) == Xor(Feed(r, a), Feed(s, b))
  {
  }

  lemma XorSnoc(p: Poly, q: Poly, n: nat)
    requires |p| == |q| == n + 1
    ensures Xor(p, q) == Xor(p[..n], q[..n]) + [p[n] != q[n]]
  {
  }

  /** The remainder of a sum is the sum of the remainders. */
  lemma {:induction false} RemainderXor(p: Poly, q: Poly)
    requires |p| == |q|
    ensures Remainder(Xor(p, q)) == Xor(Remainder(p), Remainder(q))
  {
    if p == [] {
      assert Xor(Zeros(16), Zeros(16)) == Zeros(16);
    } else {
      var n := |p| - 1;
      RemainderXor(p[..n], q[..n]);
      XorSnoc(p, q, n);
      Snoc(Xor(p[..n], q[..n]), p[n] != q[n]);
      FeedXor(Remainder(p[..n]), Remainder(q[..n]), p[n], q[n]);
    }
  }

  lemma {:induction false} LeadingZeros(n: nat, p: Poly)
    ensures Remainder(Zeros(n) + p) == Remainder(p)
    decreases |p|, n
  {
    if p != [] {
      LeadingZeros(n, p[..|p| - 1]);
      InitOfConcat(Zeros(n), p);
    } else if n > 0 {
      LeadingZeros(n - 1, p);
      EmptyConcat(Zeros(n));
      EmptyConcat(Zeros(n - 1));
      ZerosInit(n);
      FeedZeros();
    }
  }

  lemma ZerosInit(n: nat)
    requires n > 0
    ensures Zeros(n)[..n - 1] == Zeros(n - 1) && !Zeros(n)[n - 1]
  {
  }

  lemma XorZeros(p: Poly, n: nat)
    requires |p| == n
    ensures Xor(Zeros(n), p) == p && Xor(p, Zeros(n)) == p && Zeros(0) + p == p
  {
  }

  lemma EqualIffXorZero(r: Poly, s: Poly)
    requires |r| == |s| == 16
    ensures r == s <==> Xor(r, s) == Zeros(16)
  {
    if Xor(r, s) == Zeros(16) {
      forall k | 0 <= k < 16 ensures r[k] == s[k] {
        assert !Xor(r, s)[k];
      }
    }
  }

  lemma ZerosRemainder(n: nat)
    ensures Remainder(Zeros(n)) == Zeros(16)
  {
    LeadingZeros(n, []);
    EmptyConcat(Zeros(n));
  }

  /** A polynomial of degree below sixteen is its own remainder. */
  lemma {:induction false} ShortRemainder(p: Poly)
    requires |p| <= 16
    ensures Remainder(p) == Zeros(16 - |p|) + p
  {
    if p != [] {
      var n := |p| - 1;
      ShortRemainder(p[..n]);
      SplitLast(p);
      assert Remainder(p) == Remainder(p[..n])[1..] + [p[n]];
    }
  }

  lemma DivisorRemainder()
    ensures Remainder(Divisor()) == Zeros(16)
  {
    var top := Divisor()[..16];
    WordRemainder(top);
    assert Divisor() == top + [true];
    Snoc(top, true);
    assert Feed(top, true) == Zeros(16);
  }

  lemma {:induction false} MultipleRemainder(q: Poly)
    ensures Remainder(TimesDivisor(q)) == Zeros(16)
  {
    if q == [] {
      ZerosRemainder(16);
    } else {
      var n := |q| - 1;
      MultipleRemainder(q[..n]);
      MultipleStep(TimesDivisor(q[..n]), q[n], n);
    }
  }

  lemma MultipleStep(t: Poly, b: bool, n: nat)
    requires |t| == n + 16 && Remainder(t) == Zeros(16)
    ensures Remainder(Xor(t + [false], Zeros(n) + if b then Divisor() else Zeros(17))) == Zeros(16)
  {
    var d := if b then Divisor() else Zeros(17);
    RemainderXor(t + [false], Zeros(n) + d);
    Snoc(t, false);
    FeedZeros();
    LeadingZeros(n, d);
    DivisorRemainder();
    ZerosRemainder(17);
    XorZeros(Zeros(16), 16);
  }

  lemma FeedZeros()
    ensures Feed(Zeros(16), false) == Zeros(16)
  {
  }

  /** The remainder is the only polynomial of degree below sixteen that differs from p by a multiple. */
  lemma RemainderIsUnique(p: Poly, q: Poly, r: Poly, n: nat)
    requires |q| == |p| == n && |r| == 16
    requires Divides(p, q, r, n)
    ensures r == Remainder(p)
  {
    LeadingZeros(16, p);
    RemainderXor(TimesDivisor(q), Zeros(n) + r);
    MultipleRemainder(q);
    LeadingZeros(n, r);
    WordRemainder(r);
    XorZeros(r, 16);
  }

  /** Some multiple of the divisor is p, written with sixteen leading zeros. */
  ghost predicate IsMultiple(p: Poly) {
    exists q: Poly :: |q| == |p| && TimesDivisor(q) == Zeros(16) + p
  }

  lemma MultipleIffNoRemainder(p: Poly)
    ensures IsMultiple(p) <==> Remainder(p) == Zeros(16)
  {
    if Remainder(p) == Zeros(16) {
      DivisionIdentity(p);
      ZerosJoin(|p|, 16);
      XorZeros(TimesDivisor(Quotient(p)), |p| + 16);
    } else if q: Poly :| |q| == |p| && TimesDivisor(q) == Zeros(16) + p {
      MultipleRemainder(q);
      LeadingZeros(16, p);
    }
  }

  lemma ZerosJoin(n: nat, m: nat)
    ensures Zeros(n) + Zeros(m) == Zeros(n + m)
  {
  }

  lemma WordRemainder(r: Poly)
    requires |r| == 16
    ensures Remainder(r) == r
  {
    ShortRemainder(r);
    XorZeros(r, 16);
  }

  // ---------------------------------------------------------------- the bit-serial register

  /** The usual CRC register: the incoming bit meets the leading coefficient. */
  function Serial(r: Poly, b: bool): (s: Poly)
    requires |r| == 16
    ensures |s| == 16
  {
    Xor(r[1..] + [false], Reduction(r[0] != b))
  }

  function SerialFold(p: Poly): (r: Poly)
    ensures |r| == 16
  {
    if p == [] then Zeros(16) else Serial(SerialFold(p[..|p| - 1]), p[|p| - 1])
  }

  /** Multiplying by x^16 appends sixteen zeros. */
  function Shifted(p: Poly): Poly {
    p + Zeros(16)
  }

  /** The register holds the remainder of the message times x^16. */
  lemma {:induction false} SerialIsRemainder(p: Poly)
    ensures SerialFold(p) == Remainder(Shifted(p))
  {
    if p == [] {
      ZerosRemainder(16);
      assert Shifted([]) == Zeros(16);
    } else {
      var n := |p| - 1;
      SerialIsRemainder(p[..n]);
      SerialStep(p[..n], p[n]);
      SplitLast(p);
    }
  }

  /** Appending one more coefficient: the shifted message is the shifted shorter one times x, plus b x^16. */
  lemma SerialStep(m: Poly, b: bool)
    ensures Remainder(Shifted(m + [b])) == Serial(Remainder(Shifted(m)), b)
  {
    var top := [b] + Zeros(16);
    ShiftedSnoc(m, b);
    RemainderXor(Shifted(m) + [false], Zeros(|m|) + top);
    Snoc(Shifted(m), false);
    LeadingZeros(|m|, top);
    TopRemainder(b);
    SerialFromFeed(Remainder(Shifted(m)), b);
  }

  lemma ShiftedSnoc(m: Poly, b: bool)
    ensures Shifted(m + [b]) == Xor(Shifted(m) + [false], Zeros(|m|) + ([b] + Zeros(16)))
  {
  }

  lemma SerialFromFeed(r: Poly, b: bool)
    requires |r| == 16
    ensures Xor(Feed(r, false), Reduction(b)) == Serial(r, b)
  {
  }

  /** The remainder of b x^16. */
  lemma TopRemainder(b: bool)
    ensures Remainder([b] + Zeros(16)) == Reduction(b)
  {
    var top := [b] + Zeros(15);
    WordRemainder(top);
    assert [b] + Zeros(16) == top + [false];
    Snoc(top, false);
    TopFeed(b);
  }

  lemma TopFeed(b: bool)
    ensures Feed([b] + Zeros(15), false) == Reduction(b)
  {
  }

  // ---------------------------------------------------------------- burst errors

  /** An error polynomial whose nonzero coefficients lie within sixteen consecutive ones. */
  ghost predicate Burst(e: Poly, start: nat) {
    && start <= |e|
    && (exists k :: start <= k < |e| && e[k])
    && forall k | 0 <= k < |e| && e[k] :: start <= k < start + 16
  }

  lemma FeedZero(r: Poly)
    requires |r| == 16 && r != Zeros(16)
    ensures Feed(r, false) != Zeros(16)
  {
    var s := Feed(r, false);
    if r[0] {
      assert s[15];
    } else {
      var k :| 0 <= k < 16 && r[k];
      assert s[k - 1];
    }
  }

  lemma {:induction false} TrailingZeros(p: Poly, n: nat)
    requires Remainder(p) != Zeros(16)
    ensures Remainder(p + Zeros(n)) != Zeros(16)
  {
    if n == 0 {
      EmptyConcat(p);
    } else {
      TrailingZeros(p, n - 1);
      ZerosInit(n);
      SplitLast(Zeros(n));
      ConcatAssoc(p, Zeros(n - 1), [false]);
      Snoc(p + Zeros(n - 1), false);
      FeedZero(Remainder(p + Zeros(n - 1)));
    }
  }

  lemma ShortNonzero(p: Poly, k: nat)
    requires |p| <= 16 && k < |p| && p[k]
    ensures Remainder(p) != Zeros(16)
  {
    ShortRemainder(p);
    assert (Zeros(16 - |p|) + p)[16 - |p| + k];
  }

  /** No burst of at most sixteen coefficients is a multiple of the divisor. */
  lemma BurstRemainder(e: Poly, start: nat)
    requires Burst(e, start)
    ensures Remainder(e) != Zeros(16)
  {
    var end := if start + 16 <= |e| then start + 16 else |e|;
    var k :| start <= k < |e| && e[k];
    BurstWithin(e, start, end, k);
  }

  lemma BurstWithin(e: Poly, start: nat, end: nat, k: nat)
    requires start <= k < end <= |e| && end <= start + 16 && e[k]
    requires forall j | 0 <= j < |e| && e[j] :: start <= j < end
    ensures Remainder(e) != Zeros(16)
  {
    BurstSplits(e, start, end);
    SliceAt(e, start, end, k);
    NonzeroBetweenZeros(e[start..end], k - start, start, |e| - end);
  }

  lemma NonzeroBetweenZeros(burst: Poly, k: nat, before: nat, after: nat)
    requires |burst| <= 16 && k < |burst| && burst[k]
    ensures Remainder((Zeros(before) + burst) + Zeros(after)) != Zeros(16)
  {
    ShortNonzero(burst, k);
    LeadingZeros(before, burst);
    TrailingZeros(Zeros(before) + burst, after);
  }

  lemma BurstSplits(e: Poly, start: nat, end: nat)
    requires start <= end <= |e| && forall k | 0 <= k < |e| && e[k] :: start <= k < end
    ensures e == (Zeros(start) + e[start..end]) + Zeros(|e| - end)
  {
  }
}
