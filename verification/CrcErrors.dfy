/** Which damage to a block the CRC check of the SD driver notices. */
module CrcErrors {

  import opened Arithmetic
  import opened Crc16s
  import opened CrcOrders
  import opened Polynomials
  import opened Sequences

  /** A block that was sent with its CRC, and what arrived instead, differ by the error e. */
  ghost predicate Damage(sent: seq<Byte>, sentHi: Byte, sentLo: Byte, got: seq<Byte>, hi: Byte, lo: Byte, e: Poly) {
    && |sent| == |got| && Checks(sent, sentHi, sentLo)
    && e == Xor(BlockBits(sent, sentHi, sentLo), BlockBits(got, hi, lo))
  }

  /** What arrives passes the check exactly if the error is a multiple of the divisor. */
  lemma DamagePassesIffMultiple(sent: seq<Byte>, sentHi: Byte, sentLo: Byte, got: seq<Byte>, hi: Byte, lo: Byte, e: Poly)
    requires Damage(sent, sentHi, sentLo, got, hi, lo, e)
    ensures Checks(got, hi, lo) <==> IsMultiple(e)
    ensures Checks(got, hi, lo) <==> Remainder(e) == Zeros(16)
  {
    CheckIsDivisibility(sent, sentHi, sentLo);
    CheckIsDivisibility(got, hi, lo);
    RemainderXor(BlockBits(sent, sentHi, sentLo), BlockBits(got, hi, lo));
    XorZeros(Remainder(BlockBits(got, hi, lo)), 16);
    MultipleIffNoRemainder(e);
  }

  // ---------------------------------------------------------------- weight

  /** The number of coefficients that are set. */
  function Weight(p: Poly): nat {
    if p == [] then 0 else Weight(p[..|p| - 1]) + Bit(p[|p| - 1])
  }

  predicate Odd(p: Poly) {
    Weight(p) % 2 == 1
  }

  lemma WeightSnoc(p: Poly, b: bool)
    ensures Weight(p + [b]) == Weight(p) + Bit(b)
  {
    InitOfAppended(p, b);
  }

  lemma {:induction false} WeightConcat(p: Poly, q: Poly)
    ensures Weight(p + q) == Weight(p) + Weight(q)
    decreases |q|
  {
    if q == [] {
      EmptyConcat(p);
    } else {
      WeightConcat(p, q[..|q| - 1]);
      InitOfConcat(p, q);
    }
  }

  lemma {:induction false} ZerosWeight(n: nat)
    ensures Weight(Zeros(n)) == 0
  {
    if n > 0 {
      ZerosWeight(n - 1);
      ZerosInit(n);
    }
  }

  lemma {:induction false} XorOdd(p: Poly, q: Poly)
    requires |p| == |q|
    ensures Odd(Xor(p, q)) <==> Odd(p) != Odd(q)
  {
    if p != [] {
      var n := |p| - 1;
      XorOdd(p[..n], q[..n]);
      XorSnoc(p, q, n);
      WeightSnoc(Xor(p[..n], q[..n]), p[n] != q[n]);
    }
  }

  lemma LowWeight()
    ensures Weight(Low()) == 3
  {
    var a, b, c := Zeros(3) + [true], Zeros(6) + [true], Zeros(4) + [true];
    assert Low() == (a + b) + c;
    ZerosWeight(3);
    ZerosWeight(6);
    ZerosWeight(4);
    WeightSnoc(Zeros(3), true);
    WeightSnoc(Zeros(6), true);
    WeightSnoc(Zeros(4), true);
    WeightConcat(a, b);
    WeightConcat(a + b, c);
  }

  lemma RestWeight(r: Poly)
    requires r != []
    ensures Weight(r) == Bit(r[0]) + Weight(r[1..])
  {
    assert r == ([] + [r[0]]) + r[1..];
    WeightConcat([] + [r[0]], r[1..]);
    WeightSnoc([], r[0]);
  }

  /** The divisor has an even weight, so a step of the division keeps the parity. */
  lemma FeedOdd(r: Poly, b: bool)
    requires |r| == 16
    ensures Odd(Feed(r, b)) <==> Odd(r) != b
  {
    XorOdd(r[1..] + [b], Reduction(r[0]));
    WeightSnoc(r[1..], b);
    RestWeight(r);
    LowWeight();
    ZerosWeight(16);
  }

  lemma {:induction false} RemainderOdd(p: Poly)
    ensures Odd(Remainder(p)) <==> Odd(p)
  {
    if p == [] {
      ZerosWeight(16);
    } else {
      RemainderOdd(p[..|p| - 1]);
      FeedOdd(Remainder(p[..|p| - 1]), p[|p| - 1]);
    }
  }

  // ---------------------------------------------------------------- what is detected

  /** Any nonzero error within sixteen consecutive bits of a block fails the check. */
  lemma BurstIsDetected(sent: seq<Byte>, sentHi: Byte, sentLo: Byte, got: seq<Byte>, hi: Byte, lo: Byte, e: Poly, start: nat)
    requires Damage(sent, sentHi, sentLo, got, hi, lo, e) && Burst(e, start)
    ensures !Checks(got, hi, lo)
  {
    DamagePassesIffMultiple(sent, sentHi, sentLo, got, hi, lo, e);
    BurstRemainder(e, start);
  }

  /** Any odd number of wrong bits, in a block of any length, fails the check. */
  lemma OddIsDetected(sent: seq<Byte>, sentHi: Byte, sentLo: Byte, got: seq<Byte>, hi: Byte, lo: Byte, e: Poly)
    requires Damage(sent, sentHi, sentLo, got, hi, lo, e) && Odd(e)
    ensures !Checks(got, hi, lo)
  {
    DamagePassesIffMultiple(sent, sentHi, sentLo, got, hi, lo, e);
    RemainderOdd(e);
    ZerosWeight(16);
  }

  /** Two wrong bits go unnoticed exactly if their distance is a multiple of 32767. */
  lemma TwoBitsPassIffFarApart(sent: seq<Byte>, sentHi: Byte, sentLo: Byte, got: seq<Byte>, hi: Byte, lo: Byte,
      e: Poly, i: nat, j: nat)
    requires Damage(sent, sentHi, sentLo, got, hi, lo, e) && TwoBits(e, i, j)
    ensures Checks(got, hi, lo) <==> (j - i) % PERIOD == 0
  {
    DamagePassesIffMultiple(sent, sentHi, sentLo, got, hi, lo, e);
    TwoBitsRemainder(e, i, j, 16);
  }

  lemma {:induction false} NoBitSet(p: Poly)
    requires Weight(p) == 0
    ensures forall k | 0 <= k < |p| :: !p[k]
  {
    if p != [] {
      NoBitSet(p[..|p| - 1]);
    }
  }

  lemma {:induction false} OneBitSet(p: Poly) returns (i: nat)
    requires Weight(p) == 1
    ensures i < |p| && forall k | 0 <= k < |p| :: p[k] <==> k == i
  {
    var n := |p| - 1;
    if p[n] {
      NoBitSet(p[..n]);
      i := n;
    } else {
      i := OneBitSet(p[..n]);
    }
  }

  lemma {:induction false} TwoBitsSet(p: Poly) returns (i: nat, j: nat)
    requires Weight(p) == 2
    ensures TwoBits(p, i, j)
  {
    var n := |p| - 1;
    if p[n] {
      i := OneBitSet(p[..n]);
      j := n;
    } else {
      i, j := TwoBitsSet(p[..n]);
    }
  }

  /** The errors that are noticed whatever the block: short bursts, odd numbers of bits, and two bits in a block
      that is shorter than the period. */
  ghost predicate Noticeable(e: Poly) {
    (exists start :: Burst(e, start)) || Odd(e) || (Weight(e) == 2 && |e| <= PERIOD)
  }

  lemma NoticeableIsDetected(sent: seq<Byte>, sentHi: Byte, sentLo: Byte, got: seq<Byte>, hi: Byte, lo: Byte, e: Poly)
    requires Damage(sent, sentHi, sentLo, got, hi, lo, e) && Noticeable(e)
    ensures !Checks(got, hi, lo)
  {
    if start :| Burst(e, start) {
      BurstIsDetected(sent, sentHi, sentLo, got, hi, lo, e, start);
    } else if Odd(e) {
      OddIsDetected(sent, sentHi, sentLo, got, hi, lo, e);
    } else {
      var i, j := TwoBitsSet(e);
      TwoBitsPassIffFarApart(sent, sentHi, sentLo, got, hi, lo, e, i, j);
    }
  }

  /** Up to three wrong bits in a block of up to 4093 bytes and its CRC, those of the card being 512 long, fail
      the check wherever they are. */
  lemma ThreeBitsAreDetected(sent: seq<Byte>, sentHi: Byte, sentLo: Byte, got: seq<Byte>, hi: Byte, lo: Byte, e: Poly)
    requires Damage(sent, sentHi, sentLo, got, hi, lo, e) && |sent| <= 4093 && 1 <= Weight(e) <= 3
    ensures !Checks(got, hi, lo)
  {
    NoticeableIsDetected(sent, sentHi, sentLo, got, hi, lo, e);
  }
}
