/** Sign extension of a returned load word (core/load_unit.sv, 64-bit configuration). */
module LoadResults {

  import opened Bits
  import opened Sequences

  datatype LoadOp = LD | LW | LWU | LH | LHU | LB | LBU | FLD | FLW | FLH | FLB

  type Offset = n: nat | n < 8

  /** Number of bytes read. */
  function Size(op: LoadOp): nat {
    match op
    case LD | FLD => 8
    case LW | LWU | FLW => 4
    case LH | LHU | FLH => 2
    case LB | LBU | FLB => 1
  }

  /** The access lies inside the returned word. */
  predicate InRange(op: LoadOp, offset: Offset) {
    offset + Size(op) <= 8
  }

  predicate IsSigned(op: LoadOp) {
    op in {LW, LH, LB}
  }

  predicate IsFpNarrow(op: LoadOp) {
    op in {FLW, FLH, FLB}
  }

  /** The word shifted right by whole bytes. */
  function Shifted(word: Vector, offset: Offset): (data: Vector)
    requires |word| == 64
    ensures |data| == 64
  {
    word[8 * offset..] + Fill(8 * offset, false)
  }

  /** The byte whose sign is selected in parallel to the shifter; the index is three bits wide. */
  function SignOffset(op: LoadOp, offset: Offset): Offset {
    if op in {LW, FLW} then (offset + 3) % 8
    else if op in {LH, FLH} then (offset + 1) % 8
    else offset
  }

  function SignBit(op: LoadOp, word: Vector, offset: Offset): bool
    requires |word| == 64
  {
    (IsSigned(op) && word[8 * (SignOffset(op, offset) + 1) - 1]) || IsFpNarrow(op)
  }

  /** The fast result mux: low part of the shifted word, all bits above equal to the selected sign bit. */
  function FastResult(op: LoadOp, word: Vector, offset: Offset): (r: Vector)
    requires |word| == 64
  {
    Shifted(word, offset)[..8 * Size(op)] + Fill(64 - 8 * Size(op), SignBit(op, word, offset))
  }

  /** The lean mux: integer loads extend the low part of the shifted word by its own top bit or by zero;
      all others, the narrow FP loads among them, take the shifted word as it is. */
  function LeanResult(op: LoadOp, word: Vector, offset: Offset): Vector
    requires |word| == 64
  {
    var n, data := 8 * Size(op), Shifted(word, offset);
    match op
    case LWU | LHU | LBU => data[..n] + Fill(64 - n, false)
    case LW | LH | LB => data[..n] + Fill(64 - n, Top(data[..n]))
    case _ => data
  }

  lemma MuxesAgree(op: LoadOp, word: Vector, offset: Offset)
    requires |word| == 64 && !IsFpNarrow(op) && (!IsSigned(op) || InRange(op, offset))
    ensures FastResult(op, word, offset) == LeanResult(op, word, offset)
  {
    if IsSigned(op) {
      assert Top(Shifted(word, offset)[..8 * Size(op)]) == SignBit(op, word, offset);
    } else if Size(op) == 8 {
      assert FastResult(op, word, offset) == Shifted(word, offset);
    }
  }

  /** Where they do not agree, bit n differs on one of the two constant words: a narrow FP load is boxed
      by the fast mux only, and a signed load that leaves the word has its sign taken from inside it. */
  lemma MuxesDiffer(op: LoadOp, word: Vector, offset: Offset)
    requires IsFpNarrow(op) || (IsSigned(op) && !InRange(op, offset))
    requires word == Fill(64, !IsFpNarrow(op))
    ensures FastResult(op, word, offset)[8 * Size(op)] && !LeanResult(op, word, offset)[8 * Size(op)]
  {
    if IsSigned(op) {
      assert !Top(Shifted(word, offset)[..8 * Size(op)]);
    }
  }

  /** The fast mux equals the lean one on every word exactly for the loads that are not narrow FP ones
      and, if signed, lie inside the word. */
  lemma FastEqualsLean(op: LoadOp, offset: Offset)
    ensures (forall word: Vector | |word| == 64 :: FastResult(op, word, offset) == LeanResult(op, word, offset))
            <==> !IsFpNarrow(op) && (!IsSigned(op) || InRange(op, offset))
  {
    if !IsFpNarrow(op) && (!IsSigned(op) || InRange(op, offset)) {
      forall word: Vector | |word| == 64 ensures FastResult(op, word, offset) == LeanResult(op, word, offset) {
        MuxesAgree(op, word, offset);
      }
    } else {
      MuxesDiffer(op, Fill(64, !IsFpNarrow(op)), offset);
    }
  }

  /** The bytes that a load in range reads, as they stand in the returned word. */
  function Field(op: LoadOp, word: Vector, offset: Offset): Vector
    requires |word| == 64 && InRange(op, offset)
  {
    word[8 * offset..8 * (offset + Size(op))]
  }

  /** What the result means: signed loads keep the two's-complement integer of the bytes read, unsigned
      loads the unsigned one, and narrow FP loads are boxed with ones above. */
  lemma ResultMeaning(op: LoadOp, word: Vector, offset: Offset)
    requires |word| == 64 && InRange(op, offset)
    ensures var r, field := FastResult(op, word, offset), Field(op, word, offset);
            && |r| == 64
            && (IsSigned(op) || Size(op) == 8 ==> Signed(r) == Signed(field))
            && (!IsSigned(op) && !IsFpNarrow(op) ==> Value(r) == Value(field))
            && (IsFpNarrow(op) ==> r == field + Fill(64 - |field|, true))
  {
    var field, n := Field(op, word, offset), 8 * Size(op);
    assert Shifted(word, offset)[..n] == field;
    assert FastResult(op, word, offset) == field + Fill(64 - n, SignBit(op, word, offset));
    assert IsSigned(op) ==> SignBit(op, word, offset) == Top(field);
    assert Size(op) == 8 ==> field + Fill(0, SignBit(op, word, offset)) == field;
    SignExtension(field, 64 - n);
    ZeroExtension(field, 64 - n);
  }
}
