/** crc16 of the SD driver (corev_apu/fpga/src/bootrom/src/sd.c) against polynomial division over GF(2)
    by x^16 + x^12 + x^5 + 1 (section 4.5 of the SD Physical Layer Simplified Specification). Machine words
    are vectors of bits, most significant first, so a word is also the polynomial of its bits. */
module Crc16s {

  import opened Polynomials
  import opened Sequences

  type Byte = b: Poly | |b| == 8 witness Zeros(8)
  type Word = w: Poly | |w| == 16 witness Zeros(16)

  /** Swap the bytes and add the data to the lower one. */
  function Swapped(c: Word, data: Byte): (w: Word)
    ensures forall k: nat | k < 16 :: w[k] == if k < 8 then c[k + 8] else c[k - 8] != data[k - 8]
  {
    Xor(c[8..] + c[..8], Zeros(8) + data)
  }

  /** Add the upper nibble of the lower byte to its lower nibble. */
  function NibbleFolded(c: Word): (w: Word)
    ensures forall k: nat | k < 16 :: w[k] == (c[k] != (12 <= k && c[k - 4]))
  {
    Xor(c, Zeros(12) + c[8..12])
  }

  /** Add the word shifted left by twelve. */
  function TopFolded(c: Word): (w: Word)
    ensures forall k: nat | k < 16 :: w[k] == (c[k] != (k < 4 && c[k + 12]))
  {
    Xor(c, c[12..] + Zeros(12))
  }

  /** Add the lower byte shifted left by five. */
  function ByteFolded(c: Word): (w: Word)
    ensures forall k: nat | k < 16 :: w[k] == (c[k] != (3 <= k < 11 && c[k + 5]))
  {
    Xor(c, Zeros(3) + c[8..] + Zeros(5))
  }

  /** The byte-wise update: swap the bytes, add the data, then three times a shifted part of the word itself. */
  function Crc16(crc: Word, data: Byte): Word {
    ByteFolded(TopFolded(NibbleFolded(Swapped(crc, data))))
  }

  /** crc16 as the source runs it, one assignment at a time. */
  method UpdateCrc(crc: Word, data: Byte) returns (c: Word)
    ensures c == Crc16(crc, data)
    ensures c == SerialRun(crc, data)
  {
    c := crc[8..] + crc[..8];
    c := Xor(c, Zeros(8) + data);
    c := Xor(c, Zeros(12) + c[8..12]);
    c := Xor(c, c[12..] + Zeros(12));
    c := Xor(c, Zeros(3) + c[8..] + Zeros(5));
    Crc16IsEightSteps(crc, data);
  }

  /** crc16 folded over bytes. */
  function CrcFold(crc: Word, bytes: seq<Byte>): Word
    decreases |bytes|
  {
    if bytes == [] then crc else CrcFold(Crc16(crc, bytes[0]), bytes[1..])
  }

  function CrcOf(bytes: seq<Byte>): Word {
    CrcFold(Zeros(16), bytes)
  }

  lemma {:induction false} CrcFoldConcat(crc: Word, a: seq<Byte>, b: seq<Byte>)
    ensures CrcFold(crc, a + b) == CrcFold(CrcFold(crc, a), b)
    decreases |a|
  {
    if a == [] {
      EmptyConcat(b);
    } else {
      RestOfConcat(a, b);
      CrcFoldConcat(Crc16(crc, a[0]), a[1..], b);
    }
  }

  /** The message polynomial: the bytes in order. */
  function Message(bytes: seq<Byte>): (p: Poly)
    ensures |p| == 8 * |bytes|
  {
    if bytes == [] then [] else bytes[0] + Message(bytes[1..])
  }

  /** The serial register after a stretch of bits. */
  function SerialRun(r: Word, p: Poly): Word
    decreases |p|
  {
    if p == [] then r else SerialRun(Serial(r, p[0]), p[1..])
  }

  lemma {:induction false} SerialRunConcat(r: Word, p: Poly, q: Poly)
    ensures SerialRun(r, p + q) == SerialRun(SerialRun(r, p), q)
    decreases |p|
  {
    if p == [] {
      EmptyConcat(q);
    } else {
      RestOfConcat(p, q);
      SerialRunConcat(Serial(r, p[0]), p[1..], q);
    }
  }

  lemma {:induction false} SerialRunIsFold(p: Poly)
    ensures SerialRun(Zeros(16), p) == SerialFold(p)
  {
    if p != [] {
      var n := |p| - 1;
      SerialRunIsFold(p[..n]);
      SplitLast(p);
      SerialRunConcat(Zeros(16), p[..n], [p[n]]);
    }
  }

  /** Four serial steps at once: the four feedback bits enter at three places. */
  function FourBits(r: Word, p: Poly): Word
    requires |p| == 4
  {
    var f := Xor(r[..4], p);
    Xor(Xor(r[4..] + f, f + Zeros(12)), Zeros(7) + f + Zeros(5))
  }

  /** Bit k after one serial step; the bits beyond the end are zero. */
  function SerialBit(r: Word, b: bool, k: nat): bool {
    (k < 15 && r[k + 1]) != (k in {3, 10, 15} && r[0] != b)
  }

  lemma SerialAt(r: Word, b: bool)
    ensures forall k | 0 <= k < 16 :: Serial(r, b)[k] == SerialBit(r, b, k)
  {
  }

  lemma FourSteps(r: Word, p: Poly)
    requires |p| == 4
    ensures SerialRun(r, p) == FourBits(r, p)
  {
    assert p == [p[0], p[1], p[2], p[3]];
    RunOfFour(r, p[0], p[1], p[2], p[3]);
    FourSerial(r, p);
  }

  /** Whether feedback bit i, fed in j - 1 - i steps before the last of j, reaches bit k. */
  predicate Reaches(i: nat, j: nat, k: nat) {
    k + (j - 1 - i) == 3 || k + (j - 1 - i) == 10 || k + (j - 1 - i) == 15
  }

  /** Bit k after j steps whose feedback bits were f. */
  predicate AfterSteps(r: Word, f: Poly, j: nat, k: nat)
    requires j <= 4 == |f|
  {
    ((((k < 16 - j && r[k + j]) != (j > 0 && f[0] && Reaches(0, j, k))) != (j > 1 && f[1] && Reaches(1, j, k)))
     != (j > 2 && f[2] && Reaches(2, j, k))) != (j > 3 && f[3] && Reaches(3, j, k))
  }

  lemma NextStep(r: Word, f: Poly, j: nat, now: Word, b: bool)
    requires j < 4 == |f| && f[j] == (r[j] != b)
    requires forall k: nat | k < 16 :: now[k] == AfterSteps(r, f, j, k)
    ensures forall k: nat | k < 16 :: Serial(now, b)[k] == AfterSteps(r, f, j + 1, k)
  {
    SerialAt(now, b);
    assert now[0] == AfterSteps(r, f, j, 0) == r[j];
    forall k: nat | k < 16 ensures Serial(now, b)[k] == AfterSteps(r, f, j + 1, k) {
      if k < 15 {
        assert now[k + 1] == AfterSteps(r, f, j, k + 1);
      }
    }
  }

  lemma AfterFour(r: Word, f: Poly, k: nat)
    requires |f| == 4 && k < 16
    ensures AfterSteps(r, f, 4, k) == FourBit(if k < 12 then r[k + 4] else f[k - 12], f, k)
  {
    forall i: nat | i < 4 ensures Reaches(i, 4, k) <==> k == i || k == 7 + i || k == 12 + i {
    }
  }

  lemma FourMatch(r: Word, f: Poly, s: Word, z: Word)
    requires |f| == 4
    requires forall k: nat | k < 16 :: s[k] == AfterSteps(r, f, 4, k)
    requires forall k | 0 <= k < 16 :: z[k] == FourBit(if k < 12 then r[k + 4] else f[k - 12], f, k)
    ensures s == z
  {
    forall k: nat | k < 16 ensures s[k] == z[k] {
      AfterFour(r, f, k);
    }
  }

  /** Bit k before any step. */
  lemma AtTheStart(r: Word, f: Poly)
    requires |f| == 4
    ensures forall k: nat | k < 16 :: r[k] == AfterSteps(r, f, 0, k)
  {
  }

  lemma AllFourSteps(r: Word, p: Poly, f: Poly)
    requires |p| == |f| == 4 && forall j | 0 <= j < 4 :: f[j] == (r[j] != p[j])
    ensures forall k: nat | k < 16 :: Serial(Serial(Serial(Serial(r, p[0]), p[1]), p[2]), p[3])[k] == AfterSteps(r, f, 4, k)
  {
    var r1 := Serial(r, p[0]);
    var r2 := Serial(r1, p[1]);
    AtTheStart(r, f);
    NextStep(r, f, 0, r, p[0]);
    NextStep(r, f, 1, r1, p[1]);
    NextStep(r, f, 2, r2, p[2]);
    NextStep(r, f, 3, Serial(r2, p[2]), p[3]);
  }

  lemma FourSerial(r: Word, p: Poly)
    requires |p| == 4
    ensures Serial(Serial(Serial(Serial(r, p[0]), p[1]), p[2]), p[3]) == FourBits(r, p)
  {
    var f := Xor(r[..4], p);
    AllFourSteps(r, p, f);
    FourBitsAt(r, p, f);
    FourMatch(r, f, Serial(Serial(Serial(Serial(r, p[0]), p[1]), p[2]), p[3]), FourBits(r, p));
  }

  lemma RunOfFour(r: Word, b0: bool, b1: bool, b2: bool, b3: bool)
    ensures SerialRun(r, [b0, b1, b2, b3]) == Serial(Serial(Serial(Serial(r, b0), b1), b2), b3)
  {
    var r1 := Serial(r, b0);
    var r2 := Serial(r1, b1);
    var r3 := Serial(r2, b2);
    assert SerialRun(r3, [b3]) == Serial(r3, b3);
    assert [b2, b3][1..] == [b3];
    assert SerialRun(r2, [b2, b3]) == SerialRun(r3, [b3]);
    assert [b1, b2, b3][1..] == [b2, b3];
    assert SerialRun(r1, [b1, b2, b3]) == SerialRun(r2, [b2, b3]);
    assert [b0, b1, b2, b3][1..] == [b1, b2, b3];
  }

  /** One byte-wise update is eight serial steps. */
  lemma Crc16IsEightSteps(r: Word, d: Byte)
    ensures Crc16(r, d) == SerialRun(r, d)
  {
    SplitSlice(d, 0, 4, 8);
    assert d[0..8] == d;
    SerialRunConcat(r, d[..4], d[4..]);
    FourSteps(r, d[..4]);
    FourSteps(FourBits(r, d[..4]), d[4..]);
    Crc16IsTwoNibbles(r, d);
  }

  lemma FourBitsAt(r: Word, p: Poly, f: Poly)
    requires |p| == 4 && f == Xor(r[..4], p)
    ensures forall k | 0 <= k < 16 :: FourBits(r, p)[k] == FourBit(if k < 12 then r[k + 4] else f[k - 12], f, k)
  {
    var top, middle, low := f + Zeros(12), Zeros(7) + f + Zeros(5), r[4..] + f;
    assert forall k | 0 <= k < 16 :: low[k] == if k < 12 then r[k + 4] else f[k - 12];
    assert forall k | 0 <= k < 16 :: top[k] == (k < 4 && f[k]);
    assert forall k | 0 <= k < 16 :: middle[k] == (7 <= k < 11 && f[k - 7]);
    assert FourBits(r, p) == Xor(Xor(low, top), middle);
  }

  /** The two nibbles of feedback: data against the top of the word, and then against that. */
  lemma Crc16IsTwoNibbles(r: Word, d: Byte)
    ensures Crc16(r, d) == FourBits(FourBits(r, d[..4]), d[4..])
  {
    var q := FourBits(r, d[..4]);
    var f, g := Xor(r[..4], d[..4]), Xor(q[..4], d[4..]);
    FourBitsAt(r, d[..4], f);
    FourBitsAt(q, d[4..], g);
    assert forall k | 0 <= k < 4 :: f[k] == (r[k] != d[k]) && g[k] == ((r[k + 4] != d[k + 4]) != f[k]);
    Crc16At(r, d, f, g);
    SameBits(r, f, g, Crc16(r, d), q, FourBits(q, d[4..]));
  }

  /** The bits of both forms, side by side. */
  lemma SameBits(r: Word, f: Poly, g: Poly, c: Word, q: Word, z: Word)
    requires |f| == |g| == 4
    requires forall k | 0 <= k < 16 :: c[k] == NibbleBit(if k < 8 then r[k + 8] else if k < 12 then f[k - 8] else g[k - 12], f, g, k)
    requires forall k | 0 <= k < 16 :: q[k] == FourBit(if k < 12 then r[k + 4] else f[k - 12], f, k)
    requires forall k | 0 <= k < 16 :: z[k] == FourBit(if k < 12 then q[k + 4] else g[k - 12], g, k)
    ensures c == z
  {
    forall k | 0 <= k < 16 ensures c[k] == z[k] {
      if k < 12 {
        assert q[k + 4] == FourBit(if k < 8 then r[k + 8] else f[k - 8], f, k + 4);
      }
    }
  }

  predicate FourBit(low: bool, f: Poly, k: nat)
    requires |f| == 4
  {
    (low != (k < 4 && f[k])) != (7 <= k < 11 && f[k - 7])
  }

  predicate NibbleBit(low: bool, f: Poly, g: Poly, k: nat)
    requires |f| == |g| == 4
  {
    (low != (if k < 4 then g[k] else 7 <= k < 11 && g[k - 7])) != (3 <= k < 7 && f[k - 3])
  }

  /** The statements of crc16, bit by bit. */
  lemma Crc16At(r: Word, d: Byte, f: Poly, g: Poly)
    requires |f| == |g| == 4
    requires forall k | 0 <= k < 4 :: f[k] == (r[k] != d[k]) && g[k] == ((r[k + 4] != d[k + 4]) != f[k])
    ensures forall k | 0 <= k < 16 :: Crc16(r, d)[k] == NibbleBit(if k < 8 then r[k + 8] else if k < 12 then f[k - 8] else g[k - 12], f, g, k)
  {
    var c1 := Swapped(r, d);
    var c2 := NibbleFolded(c1);
    var c3 := TopFolded(c2);
    forall k: nat | k < 16 ensures c2[k] == if k < 8 then r[k + 8] else if k < 12 then f[k - 8] else g[k - 12] {
      if k >= 12 {
        assert c1[k - 4] == f[k - 12];
      }
    }
    forall k: nat | k < 16 ensures c3[k] == (c2[k] != (k < 4 && g[k])) {
      if k < 4 {
        assert c2[k + 12] == g[k];
      }
    }
  }

  lemma {:induction false} CrcFoldIsSerial(r: Word, bytes: seq<Byte>)
    ensures CrcFold(r, bytes) == SerialRun(r, Message(bytes))
    decreases |bytes|
  {
    if bytes != [] {
      Crc16IsEightSteps(r, bytes[0]);
      CrcFoldIsSerial(Crc16(r, bytes[0]), bytes[1..]);
      SerialRunConcat(r, bytes[0], Message(bytes[1..]));
    }
  }

  /** For every byte sequence, folding crc16 from zero gives the remainder of the message times x^16. */
  lemma CrcIsRemainder(bytes: seq<Byte>)
    ensures CrcOf(bytes) == Remainder(Shifted(Message(bytes)))
  {
    CrcFoldIsSerial(Zeros(16), bytes);
    SerialRunIsFold(Message(bytes));
    SerialIsRemainder(Message(bytes));
  }

  /** Bytewise sum of two messages. */
  function XorBytes(a: seq<Byte>, b: seq<Byte>): (c: seq<Byte>)
    requires |a| == |b|
    ensures |c| == |a|
  {
    seq(|a|, k requires 0 <= k < |a| => Xor(a[k], b[k]))
  }

  lemma {:induction false} MessageXor(a: seq<Byte>, b: seq<Byte>)
    requires |a| == |b|
    ensures Message(XorBytes(a, b)) == Xor(Message(a), Message(b))
  {
    if a != [] {
      assert XorBytes(a, b)[1..] == XorBytes(a[1..], b[1..]);
      MessageXor(a[1..], b[1..]);
    }
  }

  /** On messages of one length the CRC of a sum is the sum of the CRCs. */
  lemma CrcIsLinear(a: seq<Byte>, b: seq<Byte>)
    requires |a| == |b|
    ensures CrcOf(XorBytes(a, b)) == Xor(CrcOf(a), CrcOf(b))
  {
    CrcIsRemainder(a);
    CrcIsRemainder(b);
    CrcIsRemainder(XorBytes(a, b));
    MessageXor(a, b);
    assert Shifted(Xor(Message(a), Message(b))) == Xor(Shifted(Message(a)), Shifted(Message(b)));
    RemainderXor(Shifted(Message(a)), Shifted(Message(b)));
  }

  // ---------------------------------------------------------------- the check of a block

  /** The check in sd_copy: the CRC of the data equals the two bytes that follow. */
  predicate Checks(data: seq<Byte>, hi: Byte, lo: Byte) {
    CrcOf(data) == CrcWord(hi, lo)
  }

  /** The two CRC bytes as one word. */
  function CrcWord(hi: Byte, lo: Byte): (w: Word)
    ensures forall k | 0 <= k < 8 :: w[k] == hi[k] && w[8 + k] == lo[k]
  {
    var p: Poly := hi;
    p + lo
  }

  /** All bits of a block, its CRC included. */
  function BlockBits(data: seq<Byte>, hi: Byte, lo: Byte): Poly {
    Message(data) + CrcWord(hi, lo)
  }

  /** A block passes exactly when data and CRC bytes together are a multiple of the divisor. */
  lemma CheckIsDivisibility(data: seq<Byte>, hi: Byte, lo: Byte)
    ensures Checks(data, hi, lo) <==> Remainder(BlockBits(data, hi, lo)) == Zeros(16)
  {
    var m, c, r := Message(data), CrcWord(hi, lo), CrcOf(data);
    CrcIsRemainder(data);
    AppendIsXor(m, c);
    RemainderXor(Shifted(m), Zeros(|m|) + c);
    LeadingZeros(|m|, c);
    WordRemainder(c);
    EqualIffXorZero(r, c);
  }

  lemma AppendIsXor(m: Poly, c: Word)
    ensures m + c == Xor(Shifted(m), Zeros(|m|) + c)
  {
  }
}
