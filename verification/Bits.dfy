/** Bit vectors of any width as sequences, least significant bit first, and the integers they denote. */
module Bits {

  import opened Arithmetic
  import opened Sequences

  type Vector = seq<bool>

  function Pow2(n: nat): (p: nat)
    ensures p > 0
  {
    if n == 0 then 1 else 2 * Pow2(n - 1)
  }

  /** The unsigned integer of a vector. */
  function Value(v: Vector): (r: nat)
    ensures r < Pow2(|v|)
  {
    if v == [] then 0 else Bit(v[0]) + 2 * Value(v[1..])
  }

  function Top(v: Vector): bool
    requires v != []
  {
    v[|v| - 1]
  }

  /** The two's-complement integer of a vector. */
  function Signed(v: Vector): int
    requires v != []
  {
    if Top(v) then Value(v) - Pow2(|v|) else Value(v)
  }

  lemma {:induction false} ValueFill(n: nat, b: bool)
    ensures Value(Fill(n, b)) == if b then Pow2(n) - 1 else 0
  {
    if n > 0 {
      assert Fill(n, b)[1..] == Fill(n - 1, b);
      ValueFill(n - 1, b);
    }
  }

  /** Two vectors of one width denote the same integer only if they are the same. */
  lemma {:induction false} ValueInjective(a: Vector, b: Vector)
    requires |a| == |b| && Value(a) == Value(b)
    ensures a == b
  {
    if a != [] {
      assert a[0] == b[0];
      ValueInjective(a[1..], b[1..]);
      assert a == [a[0]] + a[1..] && b == [b[0]] + b[1..];
    }
  }

  /** Zero extension keeps the unsigned integer. */
  lemma {:induction false} ZeroExtension(v: Vector, n: nat)
    ensures Value(v + Fill(n, false)) == Value(v)
  {
    if v == [] {
      assert v + Fill(n, false) == Fill(n, false);
      ValueFill(n, false);
    } else {
      assert (v + Fill(n, false))[1..] == v[1..] + Fill(n, false);
      ZeroExtension(v[1..], n);
    }
  }

  /** The lowest bit counts once in two's complement too. */
  lemma SignedTail(v: Vector)
    requires |v| >= 2
    ensures Signed(v) == Bit(v[0]) + 2 * Signed(v[1..])
  {
    assert Top(v[1..]) == Top(v);
  }

  /** Sign extension keeps the two's-complement integer. */
  lemma {:induction false} SignExtension(v: Vector, n: nat)
    requires v != []
    ensures Signed(v + Fill(n, Top(v))) == Signed(v)
  {
    var e := v + Fill(n, Top(v));
    assert Top(e) == Top(v);
    if |v| == 1 {
      assert e[1..] == Fill(n, Top(v));
      ValueFill(n, Top(v));
    } else {
      assert e[1..] == v[1..] + Fill(n, Top(v[1..]));
      SignExtension(v[1..], n);
      SignedTail(v);
      SignedTail(e);
    }
  }

  lemma {:induction false} DropHalvesValue(v: Vector, s: nat)
    requires s < |v|
    ensures Value(v[s..]) == Halved(Value(v), s)
    decreases s
  {
    if s == 0 {
      assert v[0..] == v;
    } else {
      DropFirst(v, s);
      DropHalvesValue(v[1..], s - 1);
    }
  }

  lemma {:induction false} DropHalvesSigned(v: Vector, s: nat)
    requires s < |v|
    ensures Signed(v[s..]) == Halved(Signed(v), s)
    decreases s
  {
    if s == 0 {
      assert v[0..] == v;
    } else {
      SignedTail(v);
      DropFirst(v, s);
      DropHalvesSigned(v[1..], s - 1);
    }
  }

  /** Dropping low bits halves the unsigned and the two's-complement integer. */
  lemma DropHalves(v: Vector, s: nat)
    requires s < |v|
    ensures Value(v[s..]) == Halved(Value(v), s)
    ensures Signed(v[s..]) == Halved(Signed(v), s)
  {
    DropHalvesValue(v, s);
    DropHalvesSigned(v, s);
  }

  function Halved(x: int, n: nat): int
    decreases n
  {
    if n == 0 then x else Halved(x / 2, n - 1)
  }

  function Doubled(x: int, n: nat): int
    decreases n
  {
    if n == 0 then x else 2 * Doubled(x, n - 1)
  }

  /** The low n bits of an integer, in two's complement when it is negative. */
  function Truncate(x: int, n: nat): (v: Vector)
    ensures |v| == n
    decreases n
  {
    if n == 0 then [] else [x % 2 == 1] + Truncate(x / 2, n - 1)
  }

  /** Halving n times is floor division, and doubling multiplication, by a power of two. */
  lemma HalvedIsQuotient(x: int, n: nat)
    ensures Halved(x, n) == x / Pow2(n)
  {
    TruncateSplits(x, n);
    QuotientUnique(x, Pow2(n), Halved(x, n), Value(Truncate(x, n)));
  }

  lemma {:induction false} DoubledIsProduct(x: int, n: nat)
    ensures Doubled(x, n) == x * Pow2(n)
  {
    if n > 0 {
      DoubledIsProduct(x, n - 1);
      MulTwice(x, Pow2(n - 1));
    }
  }

  /** Truncation is the remainder modulo a power of two. */
  lemma TruncateMeaning(x: int, n: nat)
    ensures Value(Truncate(x, n)) == x % Pow2(n)
  {
    TruncateSplits(x, n);
    QuotientUnique(x, Pow2(n), Halved(x, n), Value(Truncate(x, n)));
  }

  lemma {:induction false} TruncateSplits(x: int, n: nat)
    ensures x == Value(Truncate(x, n)) + Pow2(n) * Halved(x, n)
    decreases n
  {
    if n > 0 {
      TruncateSplits(x / 2, n - 1);
      MulAssoc(2, Pow2(n - 1), Halved(x, n));
      assert Truncate(x, n)[1..] == Truncate(x / 2, n - 1);
    }
  }

  lemma {:induction false} TruncateValue(v: Vector, n: nat)
    requires n <= |v|
    ensures Truncate(Value(v), n) == v[..n]
  {
    if n > 0 {
      TruncateValue(v[1..], n - 1);
    }
  }

  lemma {:induction false} TruncateWraps(x: int, n: nat)
    ensures Truncate(x + Pow2(n), n) == Truncate(x, n)
    decreases n
  {
    if n > 0 {
      TruncateWraps(x / 2, n - 1);
    }
  }

  lemma {:induction false} TruncateZero(x: int, n: nat)
    requires -x < Pow2(n) && x < Pow2(n)
    ensures Truncate(x, n) == Fill(n, false) <==> x == 0
    decreases n
  {
    if n > 0 {
      assert Truncate(x, n)[0] == (x % 2 == 1) && Truncate(x, n)[1..] == Truncate(x / 2, n - 1);
      if x % 2 == 0 {
        TruncateZero(x / 2, n - 1);
        assert Fill(n, false)[1..] == Fill(n - 1, false);
        assert Fill(n, false) == [false] + Fill(n - 1, false);
      }
    }
  }

  lemma {:induction false} TruncateDoubled(x: int, s: nat, n: nat)
    requires s <= n
    ensures Truncate(Doubled(x, s), n) == Fill(s, false) + Truncate(x, n - s)
    decreases s
  {
    if s > 0 {
      TruncateDoubled(x, s - 1, n - 1);
      assert Fill(s, false) == [false] + Fill(s - 1, false);
    } else {
      assert Fill(0, false) + Truncate(x, n) == Truncate(x, n);
    }
  }
}
