/** The shared hardware of the ALU at any width (core/alu.sv): one right shifter, one adder with an
    appended carry-in bit, and one comparator with an appended sign bit. */
module Alus {

  import opened Arithmetic
  import opened Bits
  import opened Sequences

  /** Bit reversal. */
  function Reverse(v: Vector): (r: Vector)
    ensures |r| == |v| && forall k | 0 <= k < |v| :: r[k] == v[|v| - 1 - k]
  {
    seq(|v|, k requires 0 <= k < |v| => v[|v| - 1 - k])
  }

  datatype ShiftOp = ShiftLeft | ShiftRightLogical | ShiftRightArithmetic

  /** The one right shifter, on an operand extended by one bit that fills from the left. */
  function RightShift(v: Vector, s: nat, fill: bool): (r: Vector)
    requires s <= |v|
    ensures |r| == |v|
  {
    v[s..] + Fill(s, fill)
  }

  /** shift_result: a left shift reverses its operand, shifts right, and reverses the result. */
  function Shift(op: ShiftOp, v: Vector, s: nat): Vector
    requires s < |v|
  {
    var operand := if op == ShiftLeft then Reverse(v) else v;
    var shifted := RightShift(operand, s, op == ShiftRightArithmetic && Top(operand));
    if op == ShiftLeft then Reverse(shifted) else shifted
  }

  /** Multiplying by a power of two shifts the bits up and lets the highest fall off. */
  lemma ProductBits(v: Vector, s: nat, n: nat)
    requires s < |v| == n
    ensures Truncate(Value(v) * Pow2(s), n) == Fill(s, false) + v[..n - s]
  {
    DoubledIsProduct(Value(v), s);
    TruncateDoubled(Value(v), s, n);
    TruncateValue(v, n - s);
  }

  /** The left shift by reversal multiplies by a power of two modulo the width. */
  lemma LeftShiftMeaning(v: Vector, s: nat, n: nat)
    requires s < |v| == n
    ensures Shift(ShiftLeft, v, s) == Truncate(Value(v) * Pow2(s), n)
  {
    LeftShiftBits(v, s);
    ProductBits(v, s, n);
  }

  /** The logical right shift is floor division of the unsigned operand. */
  lemma RightShiftMeaning(v: Vector, s: nat)
    requires s < |v|
    ensures Value(Shift(ShiftRightLogical, v, s)) == Value(v) / Pow2(s)
  {
    ZeroExtension(v[s..], s);
    DropHalves(v, s);
    HalvedIsQuotient(Value(v), s);
  }

  lemma LeftShiftBits(v: Vector, s: nat)
    requires s < |v|
    ensures Shift(ShiftLeft, v, s) == Fill(s, false) + v[..|v| - s]
  {
  }

  /** The arithmetic right shift is floor division of the two's-complement operand. */
  lemma ArithmeticShiftMeaning(v: Vector, s: nat)
    requires s < |v|
    ensures Signed(Shift(ShiftRightArithmetic, v, s)) == Signed(v) / Pow2(s)
  {
    assert Top(v[s..]) == Top(v);
    SignExtension(v[s..], s);
    DropHalves(v, s);
    HalvedIsQuotient(Signed(v), s);
  }

  // ---------------------------------------------------------------- adder and comparator

  function Complement(v: Vector): (r: Vector)
    ensures |r| == |v|
  {
    seq(|v|, k requires 0 <= k < |v| => !v[k])
  }

  lemma {:induction false} ValueComplement(v: Vector)
    ensures Value(Complement(v)) == Pow2(|v|) - 1 - Value(v)
  {
    if v != [] {
      assert Complement(v)[1..] == Complement(v[1..]);
      ValueComplement(v[1..]);
    }
  }

  /** A vector with one more bit below it. */
  function Below(b: bool, v: Vector): (r: Vector)
    ensures |r| == |v| + 1
  {
    seq(|v| + 1, k requires 0 <= k < |v| + 1 => if k == 0 then b else v[k - 1])
  }

  lemma ValueBelow(b: bool, v: Vector)
    ensures Value(Below(b, v)) == Bit(b) + 2 * Value(v)
  {
    assert Below(b, v)[1..] == v;
  }

  /** adder_result: operand a gets a one below, operand b a zero; negation inverts b with that zero;
      the lowest bit of the sum is discarded. */
  function AdderResult(a: Vector, b: Vector, negate: bool): Vector
    requires |a| == |b|
  {
    var inA := Below(true, a);
    var inB := if negate then Complement(Below(false, b)) else Below(false, b);
    SumBits(Value(inA) + Value(inB), |a|)
  }

  /** The sum without its lowest bit. */
  function SumBits(sum: int, n: nat): Vector {
    Truncate(sum, n + 2)[1..n + 1]
  }

  lemma {:induction false} TruncatePrefix(x: int, m: nat, n: nat)
    requires m <= n
    ensures Truncate(x, n)[..m] == Truncate(x, m)
    decreases m
  {
    if m > 0 {
      TruncatePrefix(x / 2, m - 1, n - 1);
    }
  }

  lemma SumBitsHalve(sum: int, k: int, n: nat)
    requires sum == 2 * k || sum == 2 * k + 1
    ensures SumBits(sum, n) == Truncate(k, n)
  {
    TruncatePrefix(k, n, n + 1);
  }

  /** With the plain operand the adder adds modulo the width. */
  lemma AdderAdds(a: Vector, b: Vector, n: nat)
    requires |a| == |b| == n
    ensures AdderResult(a, b, false) == Truncate(Value(a) + Value(b), n)
  {
    var k, sum := Value(a) + Value(b), Value(Below(true, a)) + Value(Below(false, b));
    ValueBelow(true, a);
    ValueBelow(false, b);
    SumBitsHalve(sum, k, n);
  }

  lemma NegatedOperands(a: Vector, b: Vector, n: nat)
    requires |a| == |b| == n
    ensures Value(Below(true, a)) + Value(Complement(Below(false, b))) == 2 * (Value(a) - Value(b) + Pow2(n))
  {
    ValueBelow(true, a);
    ValueBelow(false, b);
    ValueComplement(Below(false, b));
  }

  /** With the negated operand it subtracts modulo the width. */
  lemma AdderSubtracts(a: Vector, b: Vector, n: nat)
    requires |a| == |b| == n
    ensures AdderResult(a, b, true) == Truncate(Value(a) - Value(b), n)
  {
    var d := Value(a) - Value(b);
    NegatedOperands(a, b, n);
    SumBitsHalve(2 * (d + Pow2(n)), d + Pow2(n), n);
    TruncateWraps(d, n);
  }

  lemma DifferenceDecidesEquality(a: Vector, b: Vector, n: nat)
    requires |a| == |b| == n
    ensures Truncate(Value(a) - Value(b), n) == Fill(n, false) <==> a == b
  {
    TruncateZero(Value(a) - Value(b), n);
    if Value(a) == Value(b) {
      ValueInjective(a, b);
    }
  }

  /** The zero flag of the subtraction decides equality. */
  lemma AdderDecidesEquality(a: Vector, b: Vector, n: nat)
    requires |a| == |b| == n
    ensures AdderResult(a, b, true) == Fill(n, false) <==> a == b
  {
    AdderSubtracts(a, b, n);
    DifferenceDecidesEquality(a, b, n);
  }

  /** less: both operands get one more bit, the sign for signed operations and zero otherwise. */
  function Less(a: Vector, b: Vector, sgn: bool): bool
    requires |a| == |b| > 0
  {
    Signed(a + [sgn && Top(a)]) < Signed(b + [sgn && Top(b)])
  }

  lemma ComparatorMeaning(a: Vector, b: Vector)
    requires |a| == |b| > 0
    ensures Less(a, b, true) <==> Signed(a) < Signed(b)
    ensures Less(a, b, false) <==> Value(a) < Value(b)
  {
    OneMoreBit(a, Top(a));
    OneMoreBit(b, Top(b));
    OneMoreBit(a, false);
    OneMoreBit(b, false);
  }

  lemma OneMoreBit(v: Vector, top: bool)
    requires v != [] && (top ==> Top(v))
    ensures Signed(v + [top]) == if top then Signed(v) else Value(v)
  {
    assert [top] == Fill(1, top);
    if top {
      SignExtension(v, 1);
    } else {
      ZeroExtension(v, 1);
      assert !Top(v + [top]);
    }
  }

  datatype CompareOp = EQ | NE | LTS | LTU | GES | GEU | SLTS | SLTU | MAX | MAXU | MIN | MINU

  predicate SignedCompare(op: CompareOp) {
    op in {SLTS, LTS, GES, MAX, MIN}
  }

  /** alu_branch_res_o: equality from the subtracting adder, order from the comparator. */
  function BranchResult(op: CompareOp, a: Vector, b: Vector): bool
    requires |a| == |b| > 0
  {
    var zero := AdderResult(a, b, op in {EQ, NE}) == Fill(|a|, false);
    var less := Less(a, b, SignedCompare(op));
    match op
    case EQ => zero
    case NE => !zero
    case LTS | LTU => less
    case GES | GEU => !less
    case _ => true
  }

  /** result_o of the minimum and maximum operations. */
  function Extremum(op: CompareOp, a: Vector, b: Vector): Vector
    requires |a| == |b| > 0 && op in {MAX, MAXU, MIN, MINU}
  {
    var less := Less(a, b, SignedCompare(op));
    if op in {MAX, MAXU} then (if less then b else a) else (if !less then b else a)
  }

  /** The integer a compare operation looks at. */
  function Operand(op: CompareOp, v: Vector): int
    requires v != []
  {
    if SignedCompare(op) then Signed(v) else Value(v)
  }

  lemma BranchMeaning(op: CompareOp, a: Vector, b: Vector)
    requires |a| == |b| > 0
    ensures op == EQ ==> (BranchResult(op, a, b) <==> a == b)
    ensures op == NE ==> (BranchResult(op, a, b) <==> a != b)
    ensures op in {LTS, LTU} ==> (BranchResult(op, a, b) <==> Operand(op, a) < Operand(op, b))
    ensures op in {GES, GEU} ==> (BranchResult(op, a, b) <==> Operand(op, a) >= Operand(op, b))
    ensures op in {SLTS, SLTU, MAX, MAXU, MIN, MINU} ==> BranchResult(op, a, b)
  {
    AdderDecidesEquality(a, b, |a|);
    ComparatorMeaning(a, b);
  }

  lemma ExtremumMeaning(op: CompareOp, a: Vector, b: Vector)
    requires |a| == |b| > 0
    ensures op in {MAX, MAXU} ==> var r := Extremum(op, a, b);
              r in {a, b} && Operand(op, r) >= Operand(op, a) && Operand(op, r) >= Operand(op, b)
    ensures op in {MIN, MINU} ==> var r := Extremum(op, a, b);
              r in {a, b} && Operand(op, r) <= Operand(op, a) && Operand(op, r) <= Operand(op, b)
  {
    ComparatorMeaning(a, b);
  }

  // ---------------------------------------------------------------- rotation

  function Or(a: Vector, b: Vector): (r: Vector)
    requires |a| == |b|
    ensures |r| == |a|
  {
    seq(|a|, k requires 0 <= k < |a| => a[k] || b[k])
  }

  function ZeroLeft(v: Vector, s: nat): (r: Vector)
    requires s <= |v|
    ensures |r| == |v|
  {
    Fill(s, false) + v[..|v| - s]
  }

  function RotateRight(v: Vector, s: nat): Vector
    requires s < |v|
  {
    Or(RightShift(v, s, false), ZeroLeft(v, |v| - s))
  }

  function RotateLeft(v: Vector, s: nat): Vector
    requires s < |v|
  {
    Or(ZeroLeft(v, s), RightShift(v, |v| - s, false))
  }

  lemma RotateRightMoves(v: Vector, s: nat)
    requires s < |v|
    ensures RotateRight(v, s) == v[s..] + v[..s]
  {
  }

  lemma RotateLeftMoves(v: Vector, s: nat)
    requires s < |v|
    ensures RotateLeft(v, s) == v[|v| - s..] + v[..|v| - s]
  {
  }

  /** The two shifts or-ed together move every bit around by s places, and the two rotations undo each other. */
  lemma RotationMeaning(v: Vector, s: nat)
    requires s < |v|
    ensures RotateRight(v, s) == v[s..] + v[..s]
    ensures RotateLeft(v, s) == v[|v| - s..] + v[..|v| - s]
    ensures RotateLeft(RotateRight(v, s), s) == v && RotateRight(RotateLeft(v, s), s) == v
  {
    RotateRightMoves(v, s);
    RotateLeftMoves(v, s);
    RotateLeftMoves(RotateRight(v, s), s);
    RotateRightMoves(RotateLeft(v, s), s);
    SwapBack(v, s);
    SwapBack(v, |v| - s);
  }

  /** Swapping the two parts of a sequence twice. */
  lemma SwapBack(v: Vector, s: nat)
    requires s <= |v|
    ensures var w := v[s..] + v[..s]; w[|v| - s..] + w[..|v| - s] == v
  {
  }
}
