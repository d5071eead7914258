/** The commit stage (core/commit_stage.sv): two ports that retire from the scoreboard, and the choice of
    the exception to take; and what its outputs do to the architectural state. */
module Commits {

  import opened Arithmetic
  import opened Bits
  import opened Options
  import opened RegisterFiles

  type Word = nat

  datatype Unit = ALU | LOAD | STORE | CTRL_FLOW | MULT | FPU | FPU_VEC | CSR | NONE

  /** Operators as far as the commit stage tells them apart: the result goes to an integer register or to
      a floating-point one; atomics; the fences; the CSR accesses. ADD stands for the other integer ones. */
  datatype Op = ADD | ToFpr | AMO | FENCE | FENCE_I | SFENCE_VMA | CsrAccess

  datatype Exception = Exception(valid: bool, cause: Word, tval: Word)

  /** A scoreboard entry at the commit ports. */
  datatype Instr = Instr(valid: bool, fu: Unit, op: Op, rd: nat, result: Word, ex: Exception)

  /** Extensions, and whether the data cache is write-back. */
  datatype Config = Config(rva: bool, rvs: bool, fpPresent: bool, writeBack: bool)

  /** What the stage sees in a cycle, halt_i and flush_dcache_i aside. */
  datatype Window = Window(
    i0: Instr, i1: Instr, csrException: Exception, csrRdata: Word, lsuReady: bool, noStPending: bool,
    amoAck: bool, amoResult: Word, singleStep: bool)

  /** A commit port: acknowledge, write enables of the two register files, write data. */
  datatype Port = Port(ack: bool, weGpr: bool, weFpr: bool, wdata: Word)

  /** What commit tells the CSR file. */
  datatype CsrPort = CsrPort(commit: bool, op: Op, wdata: Word, writeFflags: bool)

  /** Requests to the controller, the store buffer and the cache. */
  datatype Requests = Requests(commitLsu: bool, amoValid: bool, fenceI: bool, fence: bool, sfenceVma: bool, flushCommit: bool)

  datatype Outputs = Outputs(p0: Port, p1: Port, csr: CsrPort, req: Requests, dirtyFp: bool, ex: Exception)

  const NO_EXCEPTION := Exception(false, 0, 0)

  predicate IsFpu(i: Instr) {
    i.fu == FPU || i.fu == FPU_VEC
  }

  // ---------------------------------------------------------------- what the stage decides

  /** The exception that is taken. */
  function Taken(w: Window, halt: bool): Exception {
    if halt || !w.i0.valid then NO_EXCEPTION
    else if w.i0.ex.valid then w.i0.ex
    else if w.csrException.valid then w.csrException.(tval := w.i0.ex.tval)
    else NO_EXCEPTION
  }

  predicate Considered(w: Window, halt: bool) {
    w.i0.valid && !w.i0.ex.valid && !halt
  }

  predicate IsAtomic(c: Config, i: Instr) {
    c.rva && i.op == AMO
  }

  /** The operations that wait for the store buffer to drain; with a write-back cache being flushed,
      that is everything but stores. */
  predicate Drains(c: Config, i: Instr, flush: bool) {
    i.op == FENCE || i.op == FENCE_I || (c.rvs && i.op == SFENCE_VMA) || (flush && c.writeBack && i.fu != STORE)
  }

  /** Whether port 0 retires. */
  predicate Retires0(c: Config, w: Window, halt: bool, flush: bool) {
    Considered(w, halt) &&
    if IsAtomic(c, w.i0) then w.amoAck
    else if Drains(c, w.i0, flush) then w.noStPending
    else if w.i0.fu == CSR then !w.csrException.valid
    else if w.i0.fu == STORE then w.lsuReady
    else true
  }

  predicate SecondUnit(i: Instr) {
    i.fu in {ALU, LOAD, CTRL_FLOW, MULT, FPU, FPU_VEC}
  }

  /** Whether port 1 retires. */
  predicate Retires1(c: Config, w: Window, halt: bool, flush: bool) {
    && Retires0(c, w, halt, flush) && !flush && !w.singleStep
    && w.i0.fu != CSR && w.i0.op != AMO && !w.csrException.valid
    && w.i1.valid && !w.i1.ex.valid && SecondUnit(w.i1)
  }

  /** Whether an instruction that retires writes a floating-point register. */
  predicate WritesFpr(c: Config, i: Instr) {
    c.fpPresent && i.op == ToFpr
  }

  /** The five flag bits of a word. */
  function Flags(v: Word): Word {
    v % 32
  }

  /** Bitwise or. */
  function Or(a: Word, b: Word): Word {
    if a == 0 && b == 0 then 0
    else 2 * Or(a / 2, b / 2) + if a % 2 == 1 || b % 2 == 1 then 1 else 0
  }

  /** Flags that an instruction raises when it retires. */
  function Raised(c: Config, i: Instr): Word {
    if c.fpPresent && IsFpu(i) then Flags(i.ex.cause) else 0
  }

  /** The word that port 0 writes to the register file. */
  function Value0(c: Config, w: Window): Word {
    if w.i0.fu == CSR && !w.csrException.valid then w.csrRdata
    else if c.rva && w.amoAck then w.amoResult
    else w.i0.result
  }

  predicate TouchesFp(c: Config, i: Instr) {
    IsFpu(i) || WritesFpr(c, i)
  }

  /** Whether the integer register of port 0 is written. */
  predicate WritesGpr0(c: Config, w: Window) {
    if IsAtomic(c, w.i0) then w.amoAck else !WritesFpr(c, w.i0) && !(w.i0.fu == CSR && w.csrException.valid)
  }

  /** Port 0. */
  function Port0(c: Config, w: Window, halt: bool, flush: bool): Port {
    if Considered(w, halt)
    then Port(Retires0(c, w, halt, flush), WritesGpr0(c, w), WritesFpr(c, w.i0), Value0(c, w))
    else Port(false, false, false, if c.rva && w.amoAck then w.amoResult else w.i0.result)
  }

  /** Port 1. */
  function Port1(c: Config, w: Window, halt: bool, flush: bool): Port {
    var r1 := Retires1(c, w, halt, flush);
    Port(r1, r1 && !WritesFpr(c, w.i1), r1 && WritesFpr(c, w.i1), w.i1.result)
  }

  /** The CSR signals as far as port 0 goes. */
  function CsrOf0(c: Config, w: Window, halt: bool): CsrPort {
    if !Considered(w, halt) then CsrPort(false, ADD, 0, false)
    else if w.i0.fu == CSR then CsrPort(!w.csrException.valid, w.i0.op, w.i0.result, false)
    else CsrPort(false, ADD, Raised(c, w.i0), c.fpPresent && IsFpu(w.i0))
  }

  /** All of them: port 1 adds its flags to those of port 0. */
  function CsrOf(c: Config, w: Window, halt: bool, flush: bool): CsrPort {
    var p := CsrOf0(c, w, halt);
    if !Retires1(c, w, halt, flush) || !c.fpPresent || !IsFpu(w.i1) then p
    else p.(wdata := if p.writeFflags then Or(Raised(c, w.i0), Raised(c, w.i1)) else Raised(c, w.i1), writeFflags := true)
  }

  function RequestsOf(c: Config, w: Window, halt: bool, flush: bool): Requests {
    if !Considered(w, halt) then Requests(false, false, false, false, false, false) else
    Requests(
      w.i0.fu == STORE && !IsAtomic(c, w.i0) && w.lsuReady,
      IsAtomic(c, w.i0),
      (w.i0.op == FENCE_I || (flush && c.writeBack && w.i0.fu != STORE)) && w.noStPending,
      w.i0.op == FENCE && w.noStPending,
      c.rvs && w.i0.op == SFENCE_VMA && w.noStPending,
      IsAtomic(c, w.i0) && w.amoAck)
  }

  predicate Dirties(c: Config, w: Window, halt: bool, flush: bool) {
    (Retires0(c, w, halt, flush) && TouchesFp(c, w.i0)) || (Retires1(c, w, halt, flush) && TouchesFp(c, w.i1))
  }

  /** All outputs. */
  function Decided(c: Config, w: Window, halt: bool, flush: bool): Outputs {
    Outputs(Port0(c, w, halt, flush), Port1(c, w, halt, flush), CsrOf(c, w, halt, flush), RequestsOf(c, w, halt, flush),
            Dirties(c, w, halt, flush), Taken(w, halt))
  }

  /** exception_handling: later assignments take precedence. */
  method ExceptionHandling(w: Window, halt: bool) returns (ex: Exception)
    ensures ex.valid == Taken(w, halt).valid
    ensures ex.valid ==> ex == Taken(w, halt)
  {
    ex := NO_EXCEPTION;
    if w.i0.valid {
      if w.csrException.valid {
        ex := w.csrException.(tval := w.i0.ex.tval);
      }
      if w.i0.ex.valid {
        ex := w.i0.ex;
      }
    }
    if halt {
      ex := ex.(valid := false);
    }
  }

  /** The first half of commit: port 0, its signals overwritten in the order of the source. */
  method CommitPort0(c: Config, w: Window, halt: bool, flush: bool) returns (p: Port, csr: CsrPort, req: Requests)
    ensures p == Port0(c, w, halt, flush)
    ensures csr == CsrOf0(c, w, halt)
    ensures req == RequestsOf(c, w, halt, flush)
  {
    var amo := w.i0.op == AMO;
    var ack, weGpr, weFpr, wdata := false, false, false, if c.rva && w.amoAck then w.amoResult else w.i0.result;
    csr := CsrPort(false, ADD, 0, false);
    var lsu, fenceI, fence, sfence, flushCommit, amoValid := false, false, false, false, false, false;
    if w.i0.valid && !w.i0.ex.valid && !halt {
      ack := true;
      if c.fpPresent && w.i0.op == ToFpr {
        weFpr := true;
      } else {
        weGpr := true;
      }
      if (!c.rva && w.i0.fu == STORE) || (c.rva && w.i0.fu == STORE && !amo) {
        ack, lsu := w.lsuReady, w.lsuReady;
      }
      if c.fpPresent && IsFpu(w.i0) {
        csr, ack := csr.(wdata := Flags(w.i0.ex.cause), writeFflags := true), true;
      }
      if w.i0.fu == CSR {
        csr := csr.(op := w.i0.op, wdata := w.i0.result);
        if !w.csrException.valid {
          csr, wdata, ack := csr.(commit := true), w.csrRdata, true;
        } else {
          ack, weGpr := false, false;
        }
      }
      if c.rvs && w.i0.op == SFENCE_VMA {
        sfence, ack := w.noStPending, w.noStPending;
      }
      if w.i0.op == FENCE_I || (flush && c.writeBack && w.i0.fu != STORE) {
        ack, fenceI := w.noStPending, w.noStPending;
      }
      if w.i0.op == FENCE {
        ack, fence := w.noStPending, w.noStPending;
      }
      if c.rva && amo {
        ack, flushCommit, amoValid, weGpr := w.amoAck, w.amoAck, true, w.amoAck;
      }
    }
    p := Port(ack, weGpr, weFpr, wdata);
    req := Requests(lsu, amoValid, fenceI, fence, sfence, flushCommit);
  }

  /** The second half: port 1 retires next to port 0 and adds its flags to the shared CSR data. */
  method CommitPort1(c: Config, w: Window, halt: bool, flush: bool, ack0: bool, exValid: bool, csr0: CsrPort) returns (p: Port, csr: CsrPort)
    requires ack0 == Retires0(c, w, halt, flush) && exValid == Taken(w, halt).valid && csr0 == CsrOf0(c, w, halt)
    ensures p == Port1(c, w, halt, flush) && csr == CsrOf(c, w, halt, flush)
  {
    p, csr := Port(false, false, false, w.i1.result), csr0;
    if ack0 && w.i1.valid && !halt && w.i0.fu != CSR && !flush && w.i0.op != AMO && !w.singleStep {
      if !exValid && !w.i1.ex.valid && SecondUnit(w.i1) {
        var toFpr := c.fpPresent && w.i1.op == ToFpr;
        p := p.(ack := true, weFpr := toFpr, weGpr := !toFpr);
        if c.fpPresent && IsFpu(w.i1) {
          var flags := Flags(w.i1.ex.cause);
          if csr.writeFflags {
            flags := Or(Flags(w.i0.ex.cause), flags);
          }
          csr := csr.(wdata := flags, writeFflags := true);
        }
      }
    }
  }

  /** The loop over the ports that finds whether the floating-point state is dirtied. */
  method DirtyFpState(c: Config, instrs: seq<Instr>, acks: seq<bool>) returns (dirty: bool)
    requires |instrs| == |acks|
    ensures dirty <==> exists i | 0 <= i < |instrs| :: acks[i] && TouchesFp(c, instrs[i])
  {
    dirty := false;
    var i := 0;
    while i < |instrs|
      invariant 0 <= i <= |instrs|
      invariant dirty <==> exists k | 0 <= k < i :: acks[k] && TouchesFp(c, instrs[k])
    {
      dirty := dirty || (acks[i] && (IsFpu(instrs[i]) || (c.fpPresent && instrs[i].op == ToFpr)));
      i := i + 1;
    }
  }

  /** All of the stage. */
  method Commit(c: Config, w: Window, halt: bool, flush: bool) returns (o: Outputs)
    ensures o.ex.valid == Taken(w, halt).valid && (o.ex.valid ==> o.ex == Taken(w, halt))
    ensures o.(ex := Taken(w, halt)) == Decided(c, w, halt, flush)
  {
    var ex := ExceptionHandling(w, halt);
    var p0, csr0, req := CommitPort0(c, w, halt, flush);
    var p1, csr := CommitPort1(c, w, halt, flush, p0.ack, ex.valid, csr0);
    var instrs, acks := [w.i0, w.i1], [p0.ack, p1.ack];
    var dirty := DirtyFpState(c, instrs, acks);
    if Dirties(c, w, halt, flush) {
      assert (acks[0] && TouchesFp(c, instrs[0])) || (acks[1] && TouchesFp(c, instrs[1]));
    }
    o := Outputs(p0, p1, csr, req, dirty, ex);
  }

  // ---------------------------------------------------------------- architectural state

  const WORDS := 32
  const WRAP := 0x1_0000_0000_0000_0000

  /** Registers, accrued flags, the retired-instruction counter, and the dirty mark of the FP state. */
  datatype Arch = Arch(gpr: seq<Word>, fpr: seq<Word>, fflags: Word, instret: nat, fpDirty: bool)

  /** What a CSR write puts in the parts of the state that retirement also touches. */
  datatype CsrEffect = CsrEffect(fflags: Option<Word>, instret: Option<nat>, fpDirty: bool)

  /** A cycle seen from the state: the outputs, the destination registers, and the CSR file's inputs. */
  datatype Cycle = Cycle(w: Window, effect: CsrEffect, inhibit: bool)

  ghost predicate Legal(a: Arch) {
    |a.gpr| == |a.fpr| == WORDS && a.gpr[0] == 0
  }

  function Inc(n: nat): nat {
    if n == WRAP - 1 then 0 else n + 1
  }

  /** One cycle of the register files and of the counter and flags in the CSR file. */
  function Hardware(a: Arch, o: Outputs, y: Cycle): Arch {
    var gprPorts := [Write(o.p0.weGpr, y.w.i0.rd, o.p0.wdata), Write(o.p1.weGpr, y.w.i1.rd, o.p1.wdata)];
    var fprPorts := [Write(o.p0.weFpr, y.w.i0.rd, o.p0.wdata), Write(o.p1.weFpr, y.w.i1.rd, o.p1.wdata)];
    var counted := if o.p0.ack && !o.ex.valid && !y.inhibit then Inc(a.instret) else a.instret;
    var counted2 := if o.p1.ack && !o.ex.valid && !y.inhibit then Inc(counted) else counted;
    var flags := if o.csr.commit && y.effect.fflags.Some? then y.effect.fflags.value else a.fflags;
    Arch(
      FlopsNext(a.gpr, gprPorts, 0, true),
      FlopsNext(a.fpr, fprPorts, 0, false),
      if o.csr.writeFflags then Or(Flags(o.csr.wdata), a.fflags) else flags,
      if o.csr.commit && y.effect.instret.Some? then y.effect.instret.value else counted2,
      a.fpDirty || o.dirtyFp || (o.csr.commit && y.effect.fpDirty))
  }

  // ---------------------------------------------------------------- one instruction after another

  /** A retired instruction with the word it delivers and, for a CSR instruction, what it writes. */
  datatype Retired = Retired(i: Instr, value: Word, effect: CsrEffect, counted: bool)

  const NO_EFFECT := CsrEffect(None, None, false)

  function SetGpr(regs: seq<Word>, rd: nat, v: Word): (r: seq<Word>)
    ensures |r| == |regs|
  {
    if 0 < rd < |regs| then regs[rd := v] else regs
  }

  function SetFpr(regs: seq<Word>, rd: nat, v: Word): (r: seq<Word>)
    ensures |r| == |regs|
  {
    if rd < |regs| then regs[rd := v] else regs
  }

  /** The reference: what retiring one instruction means. */
  function Retire(c: Config, a: Arch, r: Retired): Arch {
    Arch(
      if WritesFpr(c, r.i) then a.gpr else SetGpr(a.gpr, r.i.rd, r.value),
      if WritesFpr(c, r.i) then SetFpr(a.fpr, r.i.rd, r.value) else a.fpr,
      if r.effect.fflags.Some? then r.effect.fflags.value else Or(Raised(c, r.i), a.fflags),
      if r.effect.instret.Some? then r.effect.instret.value else if r.counted then Inc(a.instret) else a.instret,
      a.fpDirty || TouchesFp(c, r.i) || r.effect.fpDirty)
  }

  function RetireAll(c: Config, a: Arch, rs: seq<Retired>): Arch
    decreases |rs|
  {
    if rs == [] then a else RetireAll(c, Retire(c, a, rs[0]), rs[1..])
  }

  /** What an instruction at port 0 delivers. */
  function Delivered(c: Config, w: Window): Word {
    if IsAtomic(c, w.i0) then w.amoResult else if w.i0.fu == CSR then w.csrRdata else w.i0.result
  }

  /** The instruction at port 0 as the reference sees it. */
  function First(c: Config, y: Cycle): Retired {
    Retired(y.w.i0, Delivered(c, y.w), if y.w.i0.fu == CSR then y.effect else NO_EFFECT, !y.inhibit)
  }

  function Second(y: Cycle): Retired {
    Retired(y.w.i1, y.w.i1.result, NO_EFFECT, !y.inhibit)
  }

  /** The instructions that retire in a cycle, oldest first. */
  function RetiredIn(c: Config, y: Cycle, halt: bool, flush: bool): seq<Retired> {
    (if Retires0(c, y.w, halt, flush) then [First(c, y)] else []) +
    (if Retires1(c, y.w, halt, flush) then [Second(y)] else [])
  }

  // ---------------------------------------------------------------- what the neighbours promise

  /** Facts of the decoder about every instruction. */
  predicate WellDecoded(c: Config, i: Instr) {
    && i.rd < WORDS
    && (i.op == AMO ==> c.rva && i.fu == STORE)
    && (i.fu == STORE && i.op != AMO ==> i.op == ADD && i.rd == 0)
    && (i.op in {FENCE, FENCE_I, SFENCE_VMA} ==> i.fu == CSR && i.rd == 0)
    && (i.op == CsrAccess ==> i.fu == CSR)
    && (i.op == ToFpr ==> c.fpPresent && i.fu in {LOAD, FPU, FPU_VEC})
    && (IsFpu(i) ==> c.fpPresent)
  }

  /** The CSR file faults only on a CSR access that commit shows it, and the cache acknowledges an
      atomic only while commit requests one. */
  predicate Answers(c: Config, w: Window, halt: bool) {
    && (w.csrException.valid ==> Considered(w, halt) && w.i0.fu == CSR && w.i0.op == CsrAccess)
    && (w.amoAck ==> Considered(w, halt) && IsAtomic(c, w.i0))
  }

  /** Only a CSR access writes a CSR. */
  predicate EffectOfAccess(y: Cycle) {
    y.w.i0.op != CsrAccess ==> y.effect == NO_EFFECT
  }

  predicate Environment(c: Config, w: Window, halt: bool) {
    && (w.i0.valid ==> WellDecoded(c, w.i0)) && (w.i1.valid ==> WellDecoded(c, w.i1))
    && w.i0.rd < WORDS && w.i1.rd < WORDS
    && Answers(c, w, halt)
  }

  /** What precision asks of one cycle: an exception and an acknowledge never meet, an exception leaves
      memory, CSRs, flags and registers alone, and only an acknowledged instruction changes anything. */
  predicate Precise(c: Config, w: Window, o: Outputs) {
    && (o.ex.valid ==> !o.p0.ack && !o.p1.ack && !o.req.commitLsu && !o.csr.commit && !o.req.amoValid)
    && (o.p1.ack ==> o.p0.ack)
    && (!o.p0.ack ==> (o.p0.weGpr ==> w.i0.rd == 0) && !o.p0.weFpr && !o.csr.writeFflags && !o.req.commitLsu)
    && (!o.p1.ack ==> !o.p1.weGpr && !o.p1.weFpr)
  }

  /** Outside a cache flush every cycle is precise. */
  lemma CycleIsPrecise(c: Config, w: Window, halt: bool, flush: bool)
    requires Environment(c, w, halt) && (flush && c.writeBack ==> halt)
    ensures Precise(c, w, Decided(c, w, halt, flush))
  {
  }

  /** With the flush signal of a write-back cache up and the stage not halted, an ordinary instruction
      writes its register while the store buffer keeps it from retiring. The closed loop never brings the
      stage such a cycle, because a fence that raises the signal also halts. */
  function UnhaltedFlush(rd: nat, v: Word): Window {
    Window(Instr(true, ALU, ADD, rd, v, NO_EXCEPTION), Instr(false, NONE, ADD, 0, 0, NO_EXCEPTION),
           NO_EXCEPTION, 0, true, false, false, 0, false)
  }

  lemma FlushWithoutHaltIsImprecise(c: Config, rd: nat, v: Word)
    requires c.writeBack && 0 < rd < WORDS
    ensures var w := UnhaltedFlush(rd, v);
            Environment(c, w, false) && !Precise(c, w, Decided(c, w, false, true))
            && Port0(c, w, false, true).weGpr && !Port0(c, w, false, true).ack
  {
  }

  /** The stage is precise on every window exactly when no flush of a write-back cache meets it unhalted. */
  lemma PreciseIffHaltedWhileFlushing(c: Config, halt: bool, flush: bool)
    ensures (forall w | Environment(c, w, halt) :: Precise(c, w, Decided(c, w, halt, flush))) <==> (flush && c.writeBack ==> halt)
  {
    if flush && c.writeBack && !halt {
      FlushWithoutHaltIsImprecise(c, 1, 0);
    } else {
      forall w | Environment(c, w, halt) ensures Precise(c, w, Decided(c, w, halt, flush)) {
        CycleIsPrecise(c, w, halt, flush);
      }
    }
  }

  // ---------------------------------------------------------------- who retires, and what it asks for

  /** A plain store waits for room in the store buffer, a fence for that buffer to drain, an atomic for the cache. */
  predicate ReadyToRetire(c: Config, w: Window) {
    && (w.i0.fu == STORE && w.i0.op != AMO ==> w.lsuReady)
    && (w.i0.op in {FENCE, FENCE_I} || (c.rvs && w.i0.op == SFENCE_VMA) ==> w.noStPending)
    && (w.i0.op == AMO ==> w.amoAck)
  }

  /** Port 0 never holds anything back for longer: a valid instruction of a running stage retires or takes its
      exception as soon as its unit is ready, and never before. */
  lemma FirstRetiresIff(c: Config, w: Window, halt: bool, flush: bool)
    requires Environment(c, w, halt) && (flush && c.writeBack ==> halt)
    ensures var o := Decided(c, w, halt, flush);
            o.p0.ack <==> w.i0.valid && !halt && !o.ex.valid && ReadyToRetire(c, w)
  {
  }

  /** Port 1 retires next to port 0 what neither stores nor accesses a CSR nor faults, unless a cache is flushed,
      the hart is stepped, or port 0 holds an atomic or a CSR instruction. */
  lemma SecondRetiresIff(c: Config, w: Window, halt: bool, flush: bool)
    requires Environment(c, w, halt)
    ensures var o := Decided(c, w, halt, flush);
            o.p1.ack <==>
              && o.p0.ack && !flush && !w.singleStep && w.i0.fu != CSR && w.i0.op != AMO
              && w.i1.valid && !w.i1.ex.valid && w.i1.fu !in {STORE, CSR, NONE}
  {
  }

  /** Each request is made exactly in the cycle that retires its own instruction: the store buffer is told of a
      plain store, the controller of a fence or an atomic. An atomic is asked of the cache, and an instruction of the
      CSR unit shown to the CSR file with its operand, as long as it waits. */
  lemma RequestsAreRetirements(c: Config, w: Window, halt: bool, flush: bool)
    requires Environment(c, w, halt) && (flush && c.writeBack ==> halt)
    ensures var o := Decided(c, w, halt, flush);
            && (o.req.commitLsu <==> o.p0.ack && w.i0.fu == STORE && w.i0.op != AMO)
            && (o.req.fence <==> o.p0.ack && w.i0.op == FENCE)
            && (o.req.fenceI <==> o.p0.ack && w.i0.op == FENCE_I)
            && (o.req.sfenceVma <==> o.p0.ack && c.rvs && w.i0.op == SFENCE_VMA)
            && (o.req.flushCommit <==> o.p0.ack && w.i0.op == AMO)
            && (o.req.amoValid <==> w.i0.valid && !halt && !o.ex.valid && w.i0.op == AMO)
            && (o.csr.commit <==> w.i0.valid && !halt && !o.ex.valid && w.i0.fu == CSR)
            && (o.csr.commit ==> o.csr.op == w.i0.op && o.csr.wdata == w.i0.result && !o.csr.writeFflags)
  {
  }

  /** An instruction that retires writes one file, the floating-point one if its result goes there, with the answer
      of the cache for an atomic, the word read for a CSR instruction, and else its own result. */
  lemma PortsDeliver(c: Config, w: Window, halt: bool, flush: bool)
    requires Environment(c, w, halt) && (flush && c.writeBack ==> halt)
    ensures var p := Decided(c, w, halt, flush).p0;
            p.ack ==> (p.weFpr <==> w.i0.op == ToFpr) && p.weGpr == !p.weFpr
                      && p.wdata == if w.i0.op == AMO then w.amoResult else if w.i0.fu == CSR then w.csrRdata else w.i0.result
    ensures var p := Decided(c, w, halt, flush).p1;
            p.ack ==> (p.weFpr <==> w.i1.op == ToFpr) && p.weGpr == !p.weFpr && p.wdata == w.i1.result
  {
  }

  /** An exception is taken exactly if the instruction at port 0 brings one or the CSR file refuses it, unless
      halted, with the cause of the former first and always the value that the instruction brings. */
  lemma ExceptionIsOwn(c: Config, w: Window, halt: bool, flush: bool)
    ensures var o := Decided(c, w, halt, flush);
            && (o.ex.valid <==> w.i0.valid && !halt && (w.i0.ex.valid || w.csrException.valid))
            && (o.ex.valid ==> o.ex.tval == w.i0.ex.tval)
            && (o.ex.valid ==> o.ex.cause == if w.i0.ex.valid then w.i0.ex.cause else w.csrException.cause)
  {
  }

  // ---------------------------------------------------------------- dual commit refines single commit

  lemma GprStep(a: seq<Word>, we0: bool, rd0: nat, v0: Word, we1: bool, rd1: nat, v1: Word)
    requires |a| == WORDS && a[0] == 0 && rd0 < WORDS && rd1 < WORDS
    ensures FlopsNext(a, [Write(we0, rd0, v0), Write(we1, rd1, v1)], 0, true)
            == (var b := if we0 then SetGpr(a, rd0, v0) else a; if we1 then SetGpr(b, rd1, v1) else b)
  {
    var ws := [Write(we0, rd0, v0), Write(we1, rd1, v1)];
    var b := if we0 then SetGpr(a, rd0, v0) else a;
    var e := if we1 then SetGpr(b, rd1, v1) else b;
    forall i | 0 <= i < WORDS ensures FlopAfter(a[i], ws, i, 0, true) == e[i] {
      TwoPorts(ws, i);
    }
  }

  lemma FprStep(a: seq<Word>, we0: bool, rd0: nat, v0: Word, we1: bool, rd1: nat, v1: Word)
    requires |a| == WORDS && rd0 < WORDS && rd1 < WORDS
    ensures FlopsNext(a, [Write(we0, rd0, v0), Write(we1, rd1, v1)], 0, false)
            == (var b := if we0 then SetFpr(a, rd0, v0) else a; if we1 then SetFpr(b, rd1, v1) else b)
  {
    var ws := [Write(we0, rd0, v0), Write(we1, rd1, v1)];
    var b := if we0 then SetFpr(a, rd0, v0) else a;
    var e := if we1 then SetFpr(b, rd1, v1) else b;
    forall i | 0 <= i < WORDS ensures FlopAfter(a[i], ws, i, 0, false) == e[i] {
      TwoPorts(ws, i);
    }
  }

  lemma TwoPorts(ws: seq<Write<Word>>, i: nat)
    requires |ws| == 2
    ensures LastWriter(ws, i) == if Hits(ws[1], i) then 1 else if Hits(ws[0], i) then 0 else -1
  {
  }

  /** The integer registers after a cycle, one port after the other. */
  function GprOf(a: Arch, o: Outputs, w: Window): seq<Word> {
    var b := if o.p0.weGpr then SetGpr(a.gpr, w.i0.rd, o.p0.wdata) else a.gpr;
    if o.p1.weGpr then SetGpr(b, w.i1.rd, o.p1.wdata) else b
  }

  function FprOf(a: Arch, o: Outputs, w: Window): seq<Word> {
    var b := if o.p0.weFpr then SetFpr(a.fpr, w.i0.rd, o.p0.wdata) else a.fpr;
    if o.p1.weFpr then SetFpr(b, w.i1.rd, o.p1.wdata) else b
  }

  lemma FilesOf(a: Arch, o: Outputs, y: Cycle)
    requires Legal(a) && y.w.i0.rd < WORDS && y.w.i1.rd < WORDS
    ensures Hardware(a, o, y).gpr == GprOf(a, o, y.w) && Hardware(a, o, y).fpr == FprOf(a, o, y.w)
  {
    GprStep(a.gpr, o.p0.weGpr, y.w.i0.rd, o.p0.wdata, o.p1.weGpr, y.w.i1.rd, o.p1.wdata);
    FprStep(a.fpr, o.p0.weFpr, y.w.i0.rd, o.p0.wdata, o.p1.weFpr, y.w.i1.rd, o.p1.wdata);
  }

  /** A cycle that retires nothing leaves the state alone. */
  lemma NothingRetires(c: Config, a: Arch, y: Cycle, halt: bool, flush: bool)
    requires Legal(a) && Environment(c, y.w, halt) && EffectOfAccess(y) && (flush && c.writeBack ==> halt)
    requires !Retires0(c, y.w, halt, flush)
    ensures Hardware(a, Decided(c, y.w, halt, flush), y) == a
  {
    CycleIsPrecise(c, y.w, halt, flush);
    FilesOf(a, Decided(c, y.w, halt, flush), y);
  }

  lemma OneRetires(c: Config, a: Arch, y: Cycle, halt: bool, flush: bool)
    requires Legal(a) && Environment(c, y.w, halt) && EffectOfAccess(y) && (flush && c.writeBack ==> halt)
    requires Retires0(c, y.w, halt, flush) && !Retires1(c, y.w, halt, flush)
    ensures Hardware(a, Decided(c, y.w, halt, flush), y) == Retire(c, a, First(c, y))
  {
    FilesOf(a, Decided(c, y.w, halt, flush), y);
    FirstOfTwo(c, y.w, halt, flush);
    OrZero(a.fflags);
    SmallFlags(Raised(c, y.w.i0));
  }

  lemma TwoRetire(c: Config, a: Arch, y: Cycle, halt: bool, flush: bool)
    requires Legal(a) && Environment(c, y.w, halt) && EffectOfAccess(y) && (flush && c.writeBack ==> halt)
    requires Retires1(c, y.w, halt, flush)
    ensures Hardware(a, Decided(c, y.w, halt, flush), y) == Retire(c, Retire(c, a, First(c, y)), Second(y))
  {
    var w := y.w;
    FilesOf(a, Decided(c, w, halt, flush), y);
    FirstOfTwo(c, w, halt, flush);
    FlagsOfTwo(Raised(c, w.i0), Raised(c, w.i1), a.fflags);
    SmallFlags(Raised(c, w.i0));
    SmallFlags(Raised(c, w.i1));
    OrZero(a.fflags);
    OrZero(Or(Raised(c, w.i0), a.fflags));
  }

  /** Both ports in one cycle do to the state what their instructions do one after the other. */
  lemma CycleRefinesSequence(c: Config, a: Arch, y: Cycle, halt: bool, flush: bool)
    requires Legal(a) && Environment(c, y.w, halt) && EffectOfAccess(y) && (flush && c.writeBack ==> halt)
    ensures Hardware(a, Decided(c, y.w, halt, flush), y) == RetireAll(c, a, RetiredIn(c, y, halt, flush))
  {
    if !Retires0(c, y.w, halt, flush) {
      NothingRetires(c, a, y, halt, flush);
    } else if !Retires1(c, y.w, halt, flush) {
      OneRetires(c, a, y, halt, flush);
      assert RetiredIn(c, y, halt, flush) == [First(c, y)];
      RetireOne(c, a, First(c, y));
    } else {
      TwoRetire(c, a, y, halt, flush);
      assert RetiredIn(c, y, halt, flush) == [First(c, y), Second(y)];
      RetireTwo(c, a, [First(c, y), Second(y)]);
    }
  }

  lemma RetireOne(c: Config, a: Arch, r: Retired)
    ensures RetireAll(c, a, [r]) == Retire(c, a, r)
  {
    assert RetireAll(c, Retire(c, a, r), [r][1..]) == Retire(c, a, r);
  }

  lemma OrZero(q: Word)
    ensures Or(0, q) == q
  {
  }

  lemma OrCommutes(a: Word, b: Word)
    ensures Or(a, b) == Or(b, a)
  {
  }

  lemma {:induction false} OrAssociates(a: Word, b: Word, d: Word)
    ensures Or(Or(a, b), d) == Or(a, Or(b, d))
  {
    if a != 0 || b != 0 || d != 0 {
      OrAssociates(a / 2, b / 2, d / 2);
      OrHalves(a, b);
      OrHalves(b, d);
    }
  }

  lemma OrHalves(a: Word, b: Word)
    ensures Or(a, b) / 2 == Or(a / 2, b / 2)
    ensures Or(a, b) % 2 == 1 <==> a % 2 == 1 || b % 2 == 1
    ensures Or(a, b) == 0 <==> a == 0 && b == 0
  {
    if a == 0 && b == 0 {
    } else {
      var h := Or(a / 2, b / 2);
      var bit := if a % 2 == 1 || b % 2 == 1 then 1 else 0;
      assert Or(a, b) == 2 * h + bit;
      if h == 0 {
        OrHalves(a / 2, b / 2);
      }
    }
  }

  lemma {:induction false} OrBelow(a: Word, b: Word, bits: nat, bound: nat)
    requires bound == Pow2(bits) && a < bound && b < bound
    ensures Or(a, b) < bound
  {
    if bits > 0 {
      OrBelow(a / 2, b / 2, bits - 1, Pow2(bits - 1));
    }
  }

  lemma Pow2Five()
    ensures Pow2(5) == 32
  {
    assert Pow2(3) == 8;
  }

  /** Flags of both ports joined first, or one after the other. */
  lemma FlagsOfTwo(f0: Word, f1: Word, q: Word)
    requires f0 < 32 && f1 < 32
    ensures Or(Flags(Or(f0, f1)), q) == Or(f1, Or(f0, q))
  {
    Pow2Five();
    OrBelow(f0, f1, 5, 32);
    SmallFlags(Or(f0, f1));
    OrCommutes(f0, f1);
    OrAssociates(f1, f0, q);
  }

  lemma SmallFlags(f: Word)
    requires f < 32
    ensures Flags(f) == f
  {
  }

  /** At port 0 the values on the wires are those the instruction delivers. */
  lemma FirstOfTwo(c: Config, w: Window, halt: bool, flush: bool)
    requires Environment(c, w, halt) && (flush && c.writeBack ==> halt)
    requires Retires0(c, w, halt, flush)
    ensures Port0(c, w, halt, flush).wdata == Delivered(c, w)
    ensures Port0(c, w, halt, flush).weGpr == !WritesFpr(c, w.i0)
    ensures Port0(c, w, halt, flush).weFpr == WritesFpr(c, w.i0)
  {
  }

  lemma RetireTwo(c: Config, a: Arch, rs: seq<Retired>)
    requires |rs| == 2
    ensures RetireAll(c, a, rs) == Retire(c, Retire(c, a, rs[0]), rs[1])
  {
    assert RetireAll(c, Retire(c, a, rs[0]), rs[1..]) == RetireAll(c, Retire(c, Retire(c, a, rs[0]), rs[1]), rs[1..][1..]);
  }

  // ---------------------------------------------------------------- what retirement adds up to

  /** Bit k of a word. */
  predicate IsSet(v: Word, k: nat) {
    if k == 0 then v % 2 == 1 else IsSet(v / 2, k - 1)
  }

  lemma {:induction false} OrSets(a: Word, b: Word, k: nat)
    ensures IsSet(Or(a, b), k) <==> IsSet(a, k) || IsSet(b, k)
    decreases k
  {
    OrHalves(a, b);
    if k > 0 {
      OrSets(a / 2, b / 2, k - 1);
    }
  }

  lemma {:induction false} ZeroSetsNothing(k: nat)
    ensures !IsSet(0, k)
  {
    if k > 0 {
      ZeroSetsNothing(k - 1);
    }
  }

  /** The remainder by a power of two keeps the low bits. */
  lemma {:induction false} LowBits(v: Word, q: nat, r: nat, n: nat, k: nat)
    requires v == Pow2(n) * q + r && r < Pow2(n)
    ensures IsSet(r, k) <==> k < n && IsSet(v, k)
    decreases n
  {
    if n == 0 {
      ZeroSetsNothing(k);
    } else {
      MulAssoc(2, Pow2(n - 1), q);
      HalfOfSum(v, Pow2(n - 1) * q, r);
      if k > 0 {
        LowBits(v / 2, q, r / 2, n - 1, k - 1);
      }
    }
  }

  lemma HalfOfSum(v: Word, p: nat, r: nat)
    requires v == 2 * p + r
    ensures v / 2 == p + r / 2 && v % 2 == r % 2
  {
  }

  /** A floating-point instruction raises the flags among the low five bits of what it brings. */
  predicate RaisesFlag(c: Config, r: Retired, k: nat) {
    c.fpPresent && r.i.fu in {FPU, FPU_VEC} && k < 5 && IsSet(r.i.ex.cause, k)
  }

  /** An instruction dirties the floating-point state if it computes there, writes a register there, or a CSR. */
  predicate MarksFp(c: Config, r: Retired) {
    r.i.fu in {FPU, FPU_VEC} || (c.fpPresent && r.i.op == ToFpr) || r.effect.fpDirty
  }

  /** The word that the last of them to write register rd of a file delivers. */
  function LastTo(c: Config, rs: seq<Retired>, fpr: bool, rd: nat): Option<Word> {
    if rs == [] then None
    else
      var r := rs[|rs| - 1];
      if r.i.rd == rd && fpr == (c.fpPresent && r.i.op == ToFpr) then Some(r.value) else LastTo(c, rs[..|rs| - 1], fpr, rd)
  }

  /** How many are counted. */
  function Counted(rs: seq<Retired>): nat {
    if rs == [] then 0 else Counted(rs[..|rs| - 1]) + Bit(rs[|rs| - 1].counted)
  }

  lemma {:induction false} RetireLast(c: Config, a: Arch, rs: seq<Retired>)
    requires rs != []
    ensures RetireAll(c, a, rs) == Retire(c, RetireAll(c, a, rs[..|rs| - 1]), rs[|rs| - 1])
    decreases |rs|
  {
    if |rs| == 1 {
      assert rs == [rs[0]];
      RetireOne(c, a, rs[0]);
    } else {
      assert rs[1..][..|rs| - 2] == rs[..|rs| - 1][1..];
      RetireLast(c, Retire(c, a, rs[0]), rs[1..]);
    }
  }

  lemma RetireSets(c: Config, a: Arch, r: Retired, k: nat)
    requires r.effect.fflags.None?
    ensures IsSet(Retire(c, a, r).fflags, k) <==> IsSet(a.fflags, k) || RaisesFlag(c, r, k)
  {
    OrSets(Raised(c, r.i), a.fflags, k);
    Pow2Five();
    LowBits(r.i.ex.cause, r.i.ex.cause / 32, Flags(r.i.ex.cause), 5, k);
    ZeroSetsNothing(k);
  }

  /** Unless a CSR write sets them, the accrued flags are those from before and those that some instruction raised. */
  lemma {:induction false} FlagsAccrue(c: Config, a: Arch, rs: seq<Retired>, k: nat)
    requires forall j | 0 <= j < |rs| :: rs[j].effect.fflags.None?
    ensures IsSet(RetireAll(c, a, rs).fflags, k) <==> IsSet(a.fflags, k) || exists j | 0 <= j < |rs| :: RaisesFlag(c, rs[j], k)
    decreases |rs|
  {
    if rs != [] {
      var n := |rs| - 1;
      FlagsAccrue(c, a, rs[..n], k);
      RetireLast(c, a, rs);
      RetireSets(c, RetireAll(c, a, rs[..n]), rs[n], k);
      assert forall j | 0 <= j < n :: rs[..n][j] == rs[j];
    }
  }

  /** Each register holds what the last instruction to write it delivered, register 0 of the integer file zero. */
  lemma {:induction false} RegistersHoldLast(c: Config, a: Arch, rs: seq<Retired>, rd: nat)
    requires Legal(a) && rd < WORDS
    ensures var n, g, f := RetireAll(c, a, rs), LastTo(c, rs, false, rd), LastTo(c, rs, true, rd);
            && Legal(n)
            && n.gpr[rd] == (if rd == 0 then 0 else if g.Some? then g.value else a.gpr[rd])
            && n.fpr[rd] == (if f.Some? then f.value else a.fpr[rd])
    decreases |rs|
  {
    if rs != [] {
      RegistersHoldLast(c, a, rs[..|rs| - 1], rd);
      RetireLast(c, a, rs);
    }
  }

  /** The floating-point state is dirty once some instruction has marked it. */
  lemma {:induction false} DirtyIffMarked(c: Config, a: Arch, rs: seq<Retired>)
    ensures RetireAll(c, a, rs).fpDirty <==> a.fpDirty || exists j | 0 <= j < |rs| :: MarksFp(c, rs[j])
    decreases |rs|
  {
    if rs != [] {
      var n := |rs| - 1;
      DirtyIffMarked(c, a, rs[..n]);
      RetireLast(c, a, rs);
      assert forall j | 0 <= j < n :: rs[..n][j] == rs[j];
    }
  }

  /** Unless a CSR write sets it, the counter has moved on by the instructions counted, modulo its width. */
  lemma {:induction false} CounterCounts(c: Config, a: Arch, rs: seq<Retired>)
    requires a.instret < WRAP && forall j | 0 <= j < |rs| :: rs[j].effect.instret.None?
    ensures RetireAll(c, a, rs).instret == (a.instret + Counted(rs)) % WRAP
    decreases |rs|
  {
    if rs != [] {
      CounterCounts(c, a, rs[..|rs| - 1]);
      RetireLast(c, a, rs);
    }
  }

  /** What a list of retired instructions makes of the state: each register holds what the last of them to write it
      delivered; the floating-point state is dirty once one has marked it; unless a CSR write sets them, the flags are
      those from before and those that one has raised, and the counter has moved on by their number. */
  ghost predicate AddsUp(c: Config, a: Arch, rs: seq<Retired>, n: Arch, rd: nat, bit: nat)
    requires Legal(a) && rd < WORDS
  {
    var g, f := LastTo(c, rs, false, rd), LastTo(c, rs, true, rd);
    && Legal(n)
    && n.gpr[rd] == (if rd == 0 then 0 else if g.Some? then g.value else a.gpr[rd])
    && n.fpr[rd] == (if f.Some? then f.value else a.fpr[rd])
    && (n.fpDirty <==> a.fpDirty || exists j | 0 <= j < |rs| :: MarksFp(c, rs[j]))
    && ((forall j | 0 <= j < |rs| :: rs[j].effect.instret.None?) ==> n.instret == (a.instret + Counted(rs)) % WRAP)
    && ((forall j | 0 <= j < |rs| :: rs[j].effect.fflags.None?) ==>
        (IsSet(n.fflags, bit) <==> IsSet(a.fflags, bit) || exists j | 0 <= j < |rs| :: RaisesFlag(c, rs[j], bit)))
  }

  lemma RetiringAddsUp(c: Config, a: Arch, rs: seq<Retired>, rd: nat, bit: nat)
    requires Legal(a) && a.instret < WRAP && rd < WORDS
    ensures AddsUp(c, a, rs, RetireAll(c, a, rs), rd, bit)
  {
    RegistersHoldLast(c, a, rs, rd);
    DirtyIffMarked(c, a, rs);
    if forall j | 0 <= j < |rs| :: rs[j].effect.instret.None? {
      CounterCounts(c, a, rs);
    }
    if forall j | 0 <= j < |rs| :: rs[j].effect.fflags.None? {
      FlagsAccrue(c, a, rs, bit);
    }
  }
}
