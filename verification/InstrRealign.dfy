/** The instruction realigner at a fetch width of 32 bits (core/instr_realign.sv). It cuts fetch words
    into 16- and 32-bit instructions and carries one half-word from one fetch to the next. */
module InstrRealigners {

  import opened Sequences

  type Half = n: nat | n < 0x1_0000

  /** A 32-bit word as two half-words. */
  datatype Word = Word(lo: Half, hi: Half)

  /** The two low bits of a 32-bit instruction are both set. */
  predicate Compressed(h: Half) {
    h % 4 != 3
  }

  datatype RealignInput = RealignInput(flush: bool, valid: bool, address: nat, data: Word)

  datatype Slot = Slot(valid: bool, addr: nat, instr: Word)

  datatype RealignOutput = RealignOutput(servingUnaligned: bool, slot0: Slot, slot1: Slot)

  datatype Carry = Carry(unaligned: bool, instr: Half, address: nat)

  const RESET_CARRY := Carry(false, 0, 0)

  /** Address of the upper half-word of the fetched word. */
  function UpperHalf(address: nat): nat {
    address / 4 * 4 + 2
  }

  predicate OddHalf(address: nat) {
    address / 2 % 2 == 1
  }

  /** The first slot: a carried instruction completed by the lower half, or what the fetch starts with. */
  function Slot0(s: Carry, i: RealignInput): Slot {
    var waits := OddHalf(i.address) && !Compressed(i.data.lo);
    Slot(
      i.valid && !waits,
      if s.unaligned then s.address else i.address,
      if s.unaligned then Word(s.instr, i.data.lo) else i.data)
  }

  /** The upper half of an aligned fetch is an instruction start. */
  predicate UpperStarts(s: Carry, i: RealignInput) {
    s.unaligned || Compressed(i.data.lo)
  }

  function Slot1(s: Carry, i: RealignInput): Slot {
    var short := UpperStarts(s, i) && Compressed(i.data.hi);
    Slot(
      i.valid && short && !OddHalf(i.address),
      UpperHalf(i.address),
      if short then Word(i.data.hi, 0) else Word(0, 0))
  }

  function Realigned(s: Carry, i: RealignInput): RealignOutput {
    RealignOutput(s.unaligned, Slot0(s, i), Slot1(s, i))
  }

  function NextUnaligned(s: Carry, i: RealignInput): bool {
    if OddHalf(i.address) && !Compressed(i.data.lo) then true
    else if UpperStarts(s, i) then !Compressed(i.data.hi)
    else s.unaligned
  }

  function NextCarry(s: Carry, i: RealignInput): Carry {
    var carried := if OddHalf(i.address) && !Compressed(i.data.lo) then i.data.lo else i.data.hi;
    Carry(
      !i.flush && (if i.valid then NextUnaligned(s, i) else s.unaligned),
      if i.valid then carried else s.instr,
      if i.valid then UpperHalf(i.address) else s.address)
  }

  class InstrRealign {
    var unaligned: bool
    var unalignedInstr: Half
    var unalignedAddress: nat

    ghost function Snapshot(): Carry
      reads this
    {
      Carry(unaligned, unalignedInstr, unalignedAddress)
    }

    constructor ()
      ensures Snapshot() == RESET_CARRY
    {
      unaligned, unalignedInstr, unalignedAddress := false, 0, 0;
    }

    method Clock(i: RealignInput) returns (o: RealignOutput)
      modifies this
      ensures Snapshot() == NextCarry(old(Snapshot()), i)
      ensures o == Realigned(old(Snapshot()), i)
    {
      var compressed0, compressed1 := Compressed(i.data.lo), Compressed(i.data.hi);
      var unalignedD, addressD, instrD := unaligned, UpperHalf(i.address), i.data.hi;
      var valid0, instr0 := i.valid, if unaligned then Word(unalignedInstr, i.data.lo) else i.data;
      var addr0 := if unaligned then unalignedAddress else i.address;
      var valid1, instr1, addr1 := false, Word(0, 0), UpperHalf(i.address);
      if compressed0 || unaligned {
        if compressed1 {
          unalignedD := false;
          valid1 := i.valid;
          instr1 := Word(i.data.hi, 0);
        } else {
          unalignedD := true;
          instrD := i.data.hi;
          addressD := UpperHalf(i.address);
        }
      }
      if i.valid && OddHalf(i.address) {
        if !compressed0 {
          valid0, valid1 := false, false;
          unalignedD := true;
          addressD := UpperHalf(i.address);
          instrD := i.data.lo;
        } else {
          valid0, valid1 := true, false;
        }
      }
      o := RealignOutput(unaligned, Slot(valid0, addr0, instr0), Slot(valid1, addr1, instr1));
      if i.valid {
        unalignedAddress, unalignedInstr := addressD, instrD;
      }
      if i.flush {
        unaligned := false;
      } else if i.valid {
        unaligned := unalignedD;
      }
    }
  }

  // ---------------------------------------------------------------- reference parser

  /** Memory as half-words. */
  type Memory = nat -> Half

  datatype Instr = Short(h: Half) | Long(lo: Half, hi: Half)

  /** An instruction at its byte address. */
  datatype Item = Item(addr: nat, instr: Instr)

  /** The instructions that lie wholly in the half-words from p up to end, in order. */
  function Parse(mem: Memory, p: nat, end: nat): seq<Item>
    decreases end - p
  {
    if p >= end then []
    else if Compressed(mem(p)) then [Item(2 * p, Short(mem(p)))] + Parse(mem, p + 1, end)
    else if p + 1 >= end then []
    else [Item(2 * p, Long(mem(p), mem(p + 1)))] + Parse(mem, p + 2, end)
  }

  /** Where that parse stops: at end, or one before it when a 32-bit instruction straddles end. */
  function Rest(mem: Memory, p: nat, end: nat): (r: nat)
    requires p <= end
    ensures r == end || (r + 1 == end && !Compressed(mem(r)))
    decreases end - p
  {
    if p == end then p
    else if Compressed(mem(p)) then Rest(mem, p + 1, end)
    else if p + 1 == end then p
    else Rest(mem, p + 2, end)
  }

  /** Parsing further continues where the shorter parse stopped. */
  lemma {:induction false} ParseExtends(mem: Memory, p: nat, mid: nat, end: nat)
    requires p <= mid <= end
    ensures Parse(mem, p, end) == Parse(mem, p, mid) + Parse(mem, Rest(mem, p, mid), end)
    ensures Rest(mem, p, end) == Rest(mem, Rest(mem, p, mid), end)
    decreases mid - p
  {
    if p < mid {
      var next := if Compressed(mem(p)) then p + 1 else p + 2;
      if next <= mid {
        ParseExtends(mem, next, mid, end);
        var first := [Item(2 * p, if Compressed(mem(p)) then Short(mem(p)) else Long(mem(p), mem(p + 1)))];
        ConcatAssoc(first, Parse(mem, next, mid), Parse(mem, Rest(mem, next, mid), end));
      }
    }
  }

  function ByteSize(instr: Instr): nat {
    if instr.Short? then 2 else 4
  }

  /** The parse leaves no gap and no overlap: each instruction starts where the one before ends,
      the first at p, and the last ends where the parse stops. */
  lemma {:induction false} ParseIsContiguous(mem: Memory, p: nat, end: nat)
    requires p <= end
    ensures var items := Parse(mem, p, end);
            && (forall k | 0 <= k < |items| - 1 :: items[k + 1].addr == items[k].addr + ByteSize(items[k].instr))
            && (items == [] ==> Rest(mem, p, end) == p)
            && (items != [] ==>
                && items[0].addr == 2 * p
                && items[|items| - 1].addr + ByteSize(items[|items| - 1].instr) == 2 * Rest(mem, p, end))
    decreases end - p
  {
    if p < end {
      if Compressed(mem(p)) {
        ParseIsContiguous(mem, p + 1, end);
      } else if p + 1 < end {
        ParseIsContiguous(mem, p + 2, end);
      }
    }
  }

  // ---------------------------------------------------------------- refinement

  /** What the fetch stage delivers: the addressed word, shifted down and zero-filled for an odd half-word. */
  function FetchWord(mem: Memory, address: nat): Word {
    if OddHalf(address) then Word(mem(address / 2), 0) else Word(mem(address / 2), mem(address / 2 + 1))
  }

  /** The half-words fetched since the last redirect, as an interval. */
  datatype Stream = Empty | Fetched(start: nat, end: nat)

  function NextStream(f: Stream, i: RealignInput): Stream {
    if i.flush then Empty
    else if !i.valid then f
    else Fetched(if f.Empty? then i.address / 2 else f.start, UpperHalf(i.address) / 2 + 1)
  }

  /** Fetches return memory, start at any half-word after a redirect and then go on word by word. */
  ghost predicate FetchOk(mem: Memory, f: Stream, i: RealignInput) {
    i.valid ==>
      && i.address % 2 == 0
      && i.data == FetchWord(mem, i.address)
      && (f.Fetched? ==> i.address == 2 * f.end)
  }

  /** What a slot holds: only the low half of a compressed instruction counts. */
  function Decode(w: Word): Instr {
    if Compressed(w.lo) then Short(w.lo) else Long(w.lo, w.hi)
  }

  function Emit(slot: Slot): seq<Item> {
    if slot.valid then [Item(slot.addr, Decode(slot.instr))] else []
  }

  function Emitted(o: RealignOutput): seq<Item> {
    Emit(o.slot0) + Emit(o.slot1)
  }

  /** The registers say exactly what is left of the stream. */
  ghost predicate CarryAgrees(mem: Memory, f: Stream, s: Carry) {
    match f
    case Empty => !s.unaligned
    case Fetched(start, end) =>
      && start < end && end % 2 == 0
      && (s.unaligned <==> Rest(mem, start, end) != end)
      && (s.unaligned ==> s.instr == mem(end - 1) && s.address == 2 * (end - 1))
  }

  function ParseOf(mem: Memory, f: Stream): seq<Item> {
    if f.Empty? then [] else Parse(mem, f.start, f.end)
  }

  /** An aligned fetch of the half-words h and h + 1. */
  ghost predicate AlignedFetch(mem: Memory, i: RealignInput, h: nat) {
    && i.valid && !i.flush && i.address == 2 * h && !OddHalf(i.address) && UpperHalf(i.address) == 2 * (h + 1)
    && i.data == Word(mem(h), mem(h + 1))
  }

  /** The carry stands for the half-word before h. */
  predicate CarriesFrom(mem: Memory, s: Carry, h: nat, r: nat) {
    if s.unaligned then r + 1 == h && s.instr == mem(r) && !Compressed(mem(r)) && s.address == 2 * r else r == h
  }

  /** What the cycle must emit and keep when the stream grows from r to end. */
  ghost predicate Extends(mem: Memory, s: Carry, i: RealignInput, r: nat, end: nat)
    requires r <= end
  {
    var s' := NextCarry(s, i);
    && Emitted(Realigned(s, i)) == Parse(mem, r, end)
    && (s'.unaligned <==> Rest(mem, r, end) != end)
    && (s'.unaligned ==> end > 0 && s'.instr == mem(end - 1) && s'.address == 2 * (end - 1))
  }

  /** The first instruction ends before the upper half-word. */
  lemma UpperStartsStep(mem: Memory, s: Carry, i: RealignInput, h: nat, r: nat)
    requires AlignedFetch(mem, i, h) && CarriesFrom(mem, s, h, r) && UpperStarts(s, i)
    ensures Extends(mem, s, i, r, h + 2)
  {
    TailStep(mem, h + 1);
    assert Emit(Slot1(s, i)) == Parse(mem, h + 1, h + 2);
    assert Parse(mem, r, h + 2) == Emit(Slot0(s, i)) + Parse(mem, h + 1, h + 2);
    assert Rest(mem, r, h + 2) == Rest(mem, h + 1, h + 2);
  }

  /** The word is one 32-bit instruction. */
  lemma WholeWordStep(mem: Memory, s: Carry, i: RealignInput, h: nat)
    requires AlignedFetch(mem, i, h) && !UpperStarts(s, i)
    ensures Extends(mem, s, i, h, h + 2)
  {
    TailStep(mem, h + 1);
    assert Parse(mem, h, h + 2) == [Item(2 * h, Long(mem(h), mem(h + 1)))] + Parse(mem, h + 2, h + 2);
    assert Emit(Slot1(s, i)) == [];
  }

  /** One fetch of an aligned word after position r, which is its start or one half-word before it. */
  lemma WordStep(mem: Memory, s: Carry, i: RealignInput, h: nat, r: nat)
    requires i.valid && !i.flush && i.address == 2 * h && h % 2 == 0 && i.data == FetchWord(mem, i.address)
    requires CarriesFrom(mem, s, h, r)
    ensures Extends(mem, s, i, r, h + 2)
  {
    WordAddress(h, i.address);
    assert AlignedFetch(mem, i, h);
    if UpperStarts(s, i) {
      UpperStartsStep(mem, s, i, h, r);
    } else {
      WholeWordStep(mem, s, i, h);
    }
  }

  /** The parse of a single half-word. */
  lemma TailStep(mem: Memory, p: nat)
    ensures Parse(mem, p, p + 1) == if Compressed(mem(p)) then [Item(2 * p, Short(mem(p)))] else []
    ensures Rest(mem, p, p + 1) == if Compressed(mem(p)) then p + 1 else p
    ensures Parse(mem, p + 1, p + 1) == [] && Rest(mem, p + 1, p + 1) == p + 1
  {
  }

  /** A valid fetch without a flush. */
  lemma FetchRefinesParse(mem: Memory, f: Stream, s: Carry, i: RealignInput)
    requires CarryAgrees(mem, f, s) && FetchOk(mem, f, i) && i.valid && !i.flush
    ensures ParseOf(mem, f) + Emitted(Realigned(s, i)) == ParseOf(mem, NextStream(f, i))
    ensures CarryAgrees(mem, NextStream(f, i), NextCarry(s, i))
  {
    if f.Fetched? {
      NextWordStep(mem, f, s, i);
    } else if OddHalf(i.address) {
      FirstOddStep(mem, s, i);
    } else {
      WordStep(mem, s, i, i.address / 2, i.address / 2);
    }
  }

  /** A flush drops the carry only after the emission of its own cycle. */
  lemma FlushIsLate(s: Carry, i: RealignInput)
    ensures Realigned(s, i) == Realigned(s, i.(flush := false))
    ensures i.flush ==> !NextCarry(s, i).unaligned
  {
  }

  /** A cycle emits exactly what the parse of the longer stream adds, and keeps the registers in agreement. */
  lemma CycleRefinesParse(mem: Memory, f: Stream, s: Carry, i: RealignInput)
    requires CarryAgrees(mem, f, s) && FetchOk(mem, f, i)
    ensures ParseOf(mem, f) + Emitted(Realigned(s, i)) == ParseOf(mem, NextStream(f, i.(flush := false)))
    ensures CarryAgrees(mem, NextStream(f, i), NextCarry(s, i))
  {
    FlushIsLate(s, i);
    if i.valid {
      FetchRefinesParse(mem, f, s, i.(flush := false));
    } else {
      assert Emitted(Realigned(s, i)) == [];
    }
  }

  /** A later fetch of the stretch. */
  lemma NextWordStep(mem: Memory, f: Stream, s: Carry, i: RealignInput)
    requires f.Fetched? && CarryAgrees(mem, f, s) && FetchOk(mem, f, i) && i.valid && !i.flush
    ensures NextStream(f, i) == Fetched(f.start, f.end + 2)
    ensures ParseOf(mem, f) + Emitted(Realigned(s, i)) == ParseOf(mem, NextStream(f, i))
    ensures CarryAgrees(mem, NextStream(f, i), NextCarry(s, i))
  {
    NextStreamWord(f, i);
    CarryStart(mem, f.start, f.end, s);
    StretchStep(mem, s, i, f.start, f.end, Rest(mem, f.start, f.end));
  }

  lemma CarryStart(mem: Memory, start: nat, end: nat, s: Carry)
    requires CarryAgrees(mem, Fetched(start, end), s)
    ensures CarriesFrom(mem, s, end, Rest(mem, start, end))
  {
  }

  lemma NextStreamWord(f: Stream, i: RealignInput)
    requires f.Fetched? && f.end % 2 == 0 && i.valid && !i.flush && i.address == 2 * f.end
    ensures NextStream(f, i) == Fetched(f.start, f.end + 2)
  {
    WordAddress(f.end, i.address);
  }

  /** What extends the rest of a stretch extends the stretch. */
  lemma StretchStep(mem: Memory, s: Carry, i: RealignInput, start: nat, end: nat, r: nat)
    requires start <= end && r == Rest(mem, start, end) && CarriesFrom(mem, s, end, r)
    requires i.valid && !i.flush && i.address == 2 * end && end % 2 == 0 && i.data == FetchWord(mem, i.address)
    ensures Parse(mem, start, end) + Emitted(Realigned(s, i)) == Parse(mem, start, end + 2)
    ensures CarryAgrees(mem, Fetched(start, end + 2), NextCarry(s, i))
  {
    WordStep(mem, s, i, end, r);
    ParseExtends(mem, start, end, end + 2);
  }

  lemma WordAddress(end: nat, address: nat)
    requires end % 2 == 0 && address == 2 * end
    ensures address % 4 == 0 && address / 2 == end && !OddHalf(address) && UpperHalf(address) == 2 * (end + 1)
    ensures UpperHalf(address) / 2 + 1 == end + 2
  {
  }

  /** The first fetch after a redirect may start at the upper half of a word. */
  lemma FirstOddStep(mem: Memory, s: Carry, i: RealignInput)
    requires i.valid && !i.flush && i.address % 2 == 0 && OddHalf(i.address) && i.data == FetchWord(mem, i.address)
    requires !s.unaligned
    ensures Emitted(Realigned(s, i)) == ParseOf(mem, NextStream(Empty, i))
    ensures CarryAgrees(mem, NextStream(Empty, i), NextCarry(s, i))
  {
    var h := i.address / 2;
    assert UpperHalf(i.address) == i.address == 2 * h;
    TailStep(mem, h);
  }

  /** A finished stretch between two redirects: where it was fetched and what was emitted in it. */
  datatype Segment = Segment(stream: Stream, items: seq<Item>)

  datatype Front = Front(carry: Carry, stream: Stream, items: seq<Item>, segments: seq<Segment>)

  const RESET_FRONT := Front(RESET_CARRY, Empty, [], [])

  function NextFront(y: Front, i: RealignInput): Front {
    var items := y.items + Emitted(Realigned(y.carry, i));
    if i.flush then
      Front(NextCarry(y.carry, i), Empty, [], y.segments + [Segment(NextStream(y.stream, i.(flush := false)), items)])
    else
      Front(NextCarry(y.carry, i), NextStream(y.stream, i), items, y.segments)
  }

  ghost predicate FetchRun(mem: Memory, y: Front, xs: seq<RealignInput>)
    decreases |xs|
  {
    xs == [] || (FetchOk(mem, y.stream, xs[0]) && FetchRun(mem, NextFront(y, xs[0]), xs[1..]))
  }

  function FinalFront(y: Front, xs: seq<RealignInput>): Front
    decreases |xs|
  {
    if xs == [] then y else FinalFront(NextFront(y, xs[0]), xs[1..])
  }

  ghost predicate FrontInvariant(mem: Memory, y: Front) {
    && CarryAgrees(mem, y.stream, y.carry)
    && y.items == ParseOf(mem, y.stream)
    && forall k | 0 <= k < |y.segments| :: y.segments[k].items == ParseOf(mem, y.segments[k].stream)
  }

  lemma {:induction false} FrontRun(mem: Memory, y: Front, xs: seq<RealignInput>)
    requires FrontInvariant(mem, y) && FetchRun(mem, y, xs)
    ensures FrontInvariant(mem, FinalFront(y, xs))
    decreases |xs|
  {
    if xs != [] {
      CycleRefinesParse(mem, y.stream, y.carry, xs[0]);
      FrontRun(mem, NextFront(y, xs[0]), xs[1..]);
    }
  }

  /** For every memory and every run of fetches, idle cycles and flushes: each stretch between redirects
      has emitted exactly the sequential parse of the memory fetched in it, so has the current one, and
      a half-word is carried exactly when a 32-bit instruction straddles the end of the fetched memory. */
  lemma RealignerRefinesParser(mem: Memory, xs: seq<RealignInput>)
    requires FetchRun(mem, RESET_FRONT, xs)
    ensures var y := FinalFront(RESET_FRONT, xs);
            && y.items == ParseOf(mem, y.stream)
            && (forall k | 0 <= k < |y.segments| :: y.segments[k].items == ParseOf(mem, y.segments[k].stream))
            && (y.carry.unaligned <==>
                y.stream.Fetched? && y.stream.start < y.stream.end
                && Rest(mem, y.stream.start, y.stream.end) != y.stream.end)
  {
    FrontRun(mem, RESET_FRONT, xs);
  }

  lemma ServingIsCarried(mem: Memory, y: Front, x: RealignInput)
    requires FrontInvariant(mem, y) && FetchOk(mem, y.stream, x) && x.valid
    ensures var o := Realigned(y.carry, x);
            && (o.servingUnaligned <==> o.slot0.valid && o.slot0.addr < x.address)
            && o.slot0.addr == if o.servingUnaligned then x.address - 2 else x.address
  {
    if y.stream.Fetched? {
      WordAddress(y.stream.end, x.address);
    }
  }

  /** After every run, serving_unaligned marks exactly the fetches whose first instruction began in the word before. */
  lemma ServingMarksStraddlers(mem: Memory, xs: seq<RealignInput>, x: RealignInput)
    requires FetchRun(mem, RESET_FRONT, xs) && x.valid && FetchOk(mem, FinalFront(RESET_FRONT, xs).stream, x)
    ensures var o := Realigned(FinalFront(RESET_FRONT, xs).carry, x);
            && (o.servingUnaligned <==> o.slot0.valid && o.slot0.addr < x.address)
            && o.slot0.addr == if o.servingUnaligned then x.address - 2 else x.address
  {
    FrontRun(mem, RESET_FRONT, xs);
    ServingIsCarried(mem, FinalFront(RESET_FRONT, xs), x);
  }
}
