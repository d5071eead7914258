/** Commit stage and flush controller closed into a loop, with the cache's acknowledge, the halt requests
    and the scoreboard as free inputs. */
module CommitLoops {

  import opened Arithmetic
  import opened Commits
  import opened Sequences
  import C = Controllers

  datatype Tick = Tick(y: Cycle, haltRequest: bool, dcacheAck: bool, others: C.Causes)

  function ControlOf(c: Config): C.Config {
    C.Config(c.rva, c.rvs, c.writeBack)
  }

  /** halt_o of the controller. */
  predicate Halt(c: Config, r: C.Regs, t: Tick) {
    t.haltRequest || (c.writeBack && r.fenceActive)
  }

  function Out(c: Config, r: C.Regs, t: Tick): Outputs {
    Decided(c, t.y.w, Halt(c, r, t), r.flushDcache)
  }

  /** The controller's inputs: those of the commit stage, and the others as they come. */
  function CausesOf(c: Config, r: C.Regs, t: Tick): C.Causes {
    var o := Out(c, r, t);
    t.others.(fence := o.req.fence, fenceI := o.req.fenceI, sfenceVma := o.req.sfenceVma, flushCommit := o.req.flushCommit,
              exValid := o.ex.valid, dcacheAck := t.dcacheAck)
  }

  function Next(c: Config, r: C.Regs, t: Tick): C.Regs {
    C.NextRegs(ControlOf(c), r, CausesOf(c, r, t))
  }

  /** The registers after the first k ticks since reset. */
  function RegsAt(c: Config, ticks: seq<Tick>, k: nat): C.Regs
    requires k <= |ticks|
  {
    if k == 0 then C.RESET_REGS else Next(c, RegsAt(c, ticks, k - 1), ticks[k - 1])
  }

  function OutAt(c: Config, ticks: seq<Tick>, k: nat): Outputs
    requires k < |ticks|
  {
    Out(c, RegsAt(c, ticks, k), ticks[k])
  }

  predicate TickPromised(c: Config, r: C.Regs, t: Tick) {
    Environment(c, t.y.w, Halt(c, r, t)) && EffectOfAccess(t.y)
  }

  /** The first k ticks meet the promises of decoder, CSR file and cache. */
  predicate Promised(c: Config, ticks: seq<Tick>, k: nat)
    requires k <= |ticks|
  {
    k == 0 || (Promised(c, ticks, k - 1) && TickPromised(c, RegsAt(c, ticks, k - 1), ticks[k - 1]))
  }

  /** In every reachable state the flush request to the cache is up exactly while a fence is active,
      and with another kind of cache neither ever happens. */
  lemma {:induction false} FlushIsFence(c: Config, ticks: seq<Tick>, k: nat)
    requires k <= |ticks|
    ensures var r := RegsAt(c, ticks, k); r.flushDcache == r.fenceActive && (r.fenceActive ==> c.writeBack)
  {
    if k > 0 {
      FlushIsFence(c, ticks, k - 1);
      HaltedStageIsSilent(c, RegsAt(c, ticks, k - 1), ticks[k - 1]);
    }
  }

  /** A stage halted by a fence acknowledges nothing, writes nothing, requests nothing, takes nothing. */
  predicate Silent(o: Outputs) {
    && !o.p0.ack && !o.p1.ack && !o.p0.weGpr && !o.p1.weGpr && !o.p0.weFpr && !o.p1.weFpr
    && !o.csr.commit && !o.csr.writeFflags && !o.ex.valid && !o.dirtyFp
    && o.req == Requests(false, false, false, false, false, false)
  }

  lemma HaltedStageIsSilent(c: Config, r: C.Regs, t: Tick)
    ensures Halt(c, r, t) ==> Silent(Out(c, r, t))
  {
  }

  /** Every cycle of every run is precise: an exception never meets an acknowledge, and an instruction
      that is not acknowledged writes no register but x0. */
  lemma RunIsPrecise(c: Config, ticks: seq<Tick>, k: nat)
    requires k < |ticks| && Promised(c, ticks, k + 1)
    ensures Precise(c, ticks[k].y.w, OutAt(c, ticks, k))
  {
    FlushIsFence(c, ticks, k);
    CycleIsPrecise(c, ticks[k].y.w, Halt(c, RegsAt(c, ticks, k), ticks[k]), RegsAt(c, ticks, k).flushDcache);
  }

  /** From the cycle after a fence up to and including that of the cache's acknowledge nothing retires
      and the request stays up; the cycle after the acknowledge is free again. */
  lemma {:induction false} FenceHoldsUntilAck(c: Config, ticks: seq<Tick>, k: nat, m: nat)
    requires c.writeBack && k < m < |ticks|
    requires OutAt(c, ticks, k).req.fence || OutAt(c, ticks, k).req.fenceI
    requires forall j | k < j < m :: !ticks[j].dcacheAck
    ensures RegsAt(c, ticks, m).flushDcache && Silent(OutAt(c, ticks, m))
    ensures ticks[m].dcacheAck ==> RegsAt(c, ticks, m + 1) == C.RESET_REGS
    decreases m
  {
    FlushIsFence(c, ticks, k);
    HaltedStageIsSilent(c, RegsAt(c, ticks, k), ticks[k]);
    if m > k + 1 {
      FenceHoldsUntilAck(c, ticks, k, m - 1);
    }
    FlushIsFence(c, ticks, m);
    HaltedStageIsSilent(c, RegsAt(c, ticks, m), ticks[m]);
  }

  // ---------------------------------------------------------------- the architectural state over a run

  function ArchNext(c: Config, a: Arch, r: C.Regs, t: Tick): Arch {
    Hardware(a, Out(c, r, t), t.y)
  }

  /** The instructions acknowledged in one tick. */
  function RetiredAt(c: Config, r: C.Regs, t: Tick): seq<Retired> {
    RetiredIn(c, t.y, Halt(c, r, t), r.flushDcache)
  }

  function ArchAt(c: Config, a: Arch, ticks: seq<Tick>, k: nat): Arch
    requires k <= |ticks|
  {
    if k == 0 then a else ArchNext(c, ArchAt(c, a, ticks, k - 1), RegsAt(c, ticks, k - 1), ticks[k - 1])
  }

  /** All instructions acknowledged in the first k ticks, oldest first. */
  function RetiredBy(c: Config, ticks: seq<Tick>, k: nat): seq<Retired>
    requires k <= |ticks|
  {
    if k == 0 then [] else RetiredBy(c, ticks, k - 1) + RetiredAt(c, RegsAt(c, ticks, k - 1), ticks[k - 1])
  }

  lemma {:induction false} RetireAllConcat(c: Config, a: Arch, xs: seq<Retired>, ys: seq<Retired>)
    ensures RetireAll(c, a, xs + ys) == RetireAll(c, RetireAll(c, a, xs), ys)
    decreases |xs|
  {
    if xs == [] {
      assert xs + ys == ys;
    } else {
      assert (xs + ys)[1..] == xs[1..] + ys;
      RetireAllConcat(c, Retire(c, a, xs[0]), xs[1..], ys);
    }
  }

  lemma LegalKept(a: Arch, o: Outputs, y: Cycle)
    requires Legal(a) && y.w.i0.rd < WORDS && y.w.i1.rd < WORDS
    ensures Legal(Hardware(a, o, y))
  {
    FilesOf(a, o, y);
  }

  lemma TickRefines(c: Config, a: Arch, before: Arch, rs: seq<Retired>, r: C.Regs, t: Tick)
    requires TickPromised(c, r, t) && r.flushDcache == r.fenceActive
    requires Legal(before) && before == RetireAll(c, a, rs)
    ensures ArchNext(c, before, r, t) == RetireAll(c, a, rs + RetiredAt(c, r, t))
  {
    CycleRefinesSequence(c, before, t.y, Halt(c, r, t), r.flushDcache);
    RetireAllConcat(c, a, rs, RetiredAt(c, r, t));
  }

  lemma {:induction false} ArchStaysLegal(c: Config, a: Arch, ticks: seq<Tick>, k: nat)
    requires k <= |ticks| && Legal(a) && Promised(c, ticks, k)
    ensures Legal(ArchAt(c, a, ticks, k))
  {
    if k > 0 {
      var r, t, before := RegsAt(c, ticks, k - 1), ticks[k - 1], ArchAt(c, a, ticks, k - 1);
      ArchStaysLegal(c, a, ticks, k - 1);
      assert TickPromised(c, r, t);
      LegalKept(before, Out(c, r, t), t.y);
      assert ArchAt(c, a, ticks, k) == ArchNext(c, before, r, t);
    }
  }

  /** For every run the registers, flags and counters are those of the acknowledged instructions
      retired one at a time. */
  lemma {:induction false} RunRefinesSequence(c: Config, a: Arch, ticks: seq<Tick>, k: nat)
    requires k <= |ticks| && Legal(a) && Promised(c, ticks, k)
    ensures ArchAt(c, a, ticks, k) == RetireAll(c, a, RetiredBy(c, ticks, k))
  {
    if k > 0 {
      var r, t, before, rs := RegsAt(c, ticks, k - 1), ticks[k - 1], ArchAt(c, a, ticks, k - 1), RetiredBy(c, ticks, k - 1);
      RunRefinesSequence(c, a, ticks, k - 1);
      FlushIsFence(c, ticks, k - 1);
      ArchStaysLegal(c, a, ticks, k - 1);
      TickRefines(c, a, before, rs, r, t);
    }
  }

  /** After every run the state is what its retired instructions add up to. */
  lemma RunAddsUp(c: Config, a: Arch, ticks: seq<Tick>, k: nat, rd: nat, bit: nat)
    requires k <= |ticks| && Legal(a) && a.instret < WRAP && Promised(c, ticks, k) && rd < WORDS
    ensures AddsUp(c, a, RetiredBy(c, ticks, k), ArchAt(c, a, ticks, k), rd, bit)
  {
    RunRefinesSequence(c, a, ticks, k);
    RetiringAddsUp(c, a, RetiredBy(c, ticks, k), rd, bit);
  }

  /** A cycle that takes an exception leaves the architectural state as it was. */
  lemma ExceptionChangesNothing(c: Config, a: Arch, ticks: seq<Tick>, k: nat)
    requires k < |ticks| && Legal(a) && Promised(c, ticks, k + 1) && OutAt(c, ticks, k).ex.valid
    ensures ArchAt(c, a, ticks, k + 1) == ArchAt(c, a, ticks, k)
    ensures RetiredBy(c, ticks, k + 1) == RetiredBy(c, ticks, k)
  {
    var r, t := RegsAt(c, ticks, k), ticks[k];
    RunIsPrecise(c, ticks, k);
    ArchStaysLegal(c, a, ticks, k);
    FlushIsFence(c, ticks, k);
    NothingRetires(c, ArchAt(c, a, ticks, k), t.y, Halt(c, r, t), r.flushDcache);
    assert RetiredIn(c, t.y, Halt(c, r, t), r.flushDcache) == [];
  }

  // ---------------------------------------------------------------- what retirement asks for, over a run

  /** In every cycle of every run port 0 retires or takes its exception as soon as it can, and each request goes out
      exactly with its own instruction. */
  lemma RunRequestsAreRetirements(c: Config, ticks: seq<Tick>, k: nat)
    requires k < |ticks| && Promised(c, ticks, k + 1)
    ensures var o, w := OutAt(c, ticks, k), ticks[k].y.w;
            && (o.p0.ack <==> w.i0.valid && !Halt(c, RegsAt(c, ticks, k), ticks[k]) && !o.ex.valid && ReadyToRetire(c, w))
            && (o.req.commitLsu <==> o.p0.ack && w.i0.fu == STORE && w.i0.op != AMO)
            && (o.req.fence <==> o.p0.ack && w.i0.op == FENCE)
            && (o.req.fenceI <==> o.p0.ack && w.i0.op == FENCE_I)
            && (o.req.sfenceVma <==> o.p0.ack && c.rvs && w.i0.op == SFENCE_VMA)
            && (o.req.flushCommit <==> o.p0.ack && w.i0.op == AMO)
  {
    var r := RegsAt(c, ticks, k);
    FlushIsFence(c, ticks, k);
    FirstRetiresIff(c, ticks[k].y.w, Halt(c, r, ticks[k]), r.flushDcache);
    RequestsAreRetirements(c, ticks[k].y.w, Halt(c, r, ticks[k]), r.flushDcache);
  }

  predicate RetiresFence(c: Config, ticks: seq<Tick>, k: nat)
    requires k < |ticks|
  {
    OutAt(c, ticks, k).p0.ack && ticks[k].y.w.i0.op in {FENCE, FENCE_I}
  }

  /** A fence has retired in the first k ticks and the cache has not acknowledged it since. */
  predicate FencePending(c: Config, ticks: seq<Tick>, k: nat)
    requires k <= |ticks|
  {
    k > 0 && (RetiresFence(c, ticks, k - 1) || (FencePending(c, ticks, k - 1) && !ticks[k - 1].dcacheAck))
  }

  lemma {:induction false} FenceActiveWhilePending(c: Config, ticks: seq<Tick>, k: nat)
    requires k <= |ticks| && Promised(c, ticks, k)
    ensures RegsAt(c, ticks, k).fenceActive <==> c.writeBack && FencePending(c, ticks, k)
  {
    if k > 0 {
      FenceActiveWhilePending(c, ticks, k - 1);
      FlushIsFence(c, ticks, k - 1);
      RunRequestsAreRetirements(c, ticks, k - 1);
      HaltedStageIsSilent(c, RegsAt(c, ticks, k - 1), ticks[k - 1]);
    }
  }

  /** Over every run commit is halted exactly on request, or while the cache has yet to acknowledge a fence and is one
      that writes back. */
  lemma HaltedWhileFencePending(c: Config, ticks: seq<Tick>, k: nat)
    requires k < |ticks| && Promised(c, ticks, k)
    ensures Halt(c, RegsAt(c, ticks, k), ticks[k]) <==> ticks[k].haltRequest || (c.writeBack && FencePending(c, ticks, k))
  {
    FenceActiveWhilePending(c, ticks, k);
  }

  /** Cycles among the first k that commit a store to the store buffer. */
  function StoresCommitted(c: Config, ticks: seq<Tick>, k: nat): nat
    requires k <= |ticks|
  {
    if k == 0 then 0 else StoresCommitted(c, ticks, k - 1) + Bit(OutAt(c, ticks, k - 1).req.commitLsu)
  }

  /** Plain stores in a list of retired instructions. */
  function PlainStores(rs: seq<Retired>): nat {
    if rs == [] then 0 else Bit(rs[0].i.fu == STORE && rs[0].i.op != AMO) + PlainStores(rs[1..])
  }

  lemma {:induction false} PlainStoresConcat(xs: seq<Retired>, ys: seq<Retired>)
    ensures PlainStores(xs + ys) == PlainStores(xs) + PlainStores(ys)
    decreases |xs|
  {
    if xs == [] {
      EmptyConcat(ys);
    } else {
      RestOfConcat(xs, ys);
      PlainStoresConcat(xs[1..], ys);
    }
  }

  lemma PlainStoresOfCycle(c: Config, y: Cycle, halt: bool, flush: bool)
    requires Environment(c, y.w, halt) && (flush && c.writeBack ==> halt)
    ensures PlainStores(RetiredIn(c, y, halt, flush)) == Bit(Decided(c, y.w, halt, flush).req.commitLsu)
  {
    RequestsAreRetirements(c, y.w, halt, flush);
    PlainStoresConcat(if Retires0(c, y.w, halt, flush) then [First(c, y)] else [],
                      if Retires1(c, y.w, halt, flush) then [Second(y)] else []);
  }

  /** Over every run the store buffer is told of a store as often as a plain store retires, so that none retires
      without reaching memory and none reaches it unretired. */
  lemma {:induction false} StoresReachMemory(c: Config, ticks: seq<Tick>, k: nat)
    requires k <= |ticks| && Promised(c, ticks, k)
    ensures StoresCommitted(c, ticks, k) == PlainStores(RetiredBy(c, ticks, k))
  {
    if k > 0 {
      var r, t := RegsAt(c, ticks, k - 1), ticks[k - 1];
      StoresReachMemory(c, ticks, k - 1);
      FlushIsFence(c, ticks, k - 1);
      PlainStoresOfCycle(c, t.y, Halt(c, r, t), r.flushDcache);
      PlainStoresConcat(RetiredBy(c, ticks, k - 1), RetiredAt(c, r, t));
    }
  }

  /** The flush outputs of the controller in a cycle of a run. */
  function FlushesAt(c: Config, ticks: seq<Tick>, k: nat): C.Flushes
    requires k < |ticks|
  {
    C.FlushesOf(ControlOf(c), CausesOf(c, RegsAt(c, ticks, k), ticks[k]))
  }

  /** The instruction at port 0 retires and changes what those behind it have already read. */
  predicate RetiresWithEffect(c: Config, t: Tick, o: Outputs) {
    (o.p0.ack && (t.y.w.i0.op in {FENCE, FENCE_I, AMO} || (c.rvs && t.y.w.i0.op == SFENCE_VMA)))
    || t.others.flushCsr || t.others.flushAcc
  }

  /** Over every run the instruction cache is flushed exactly in the cycles that retire a FENCE.I, and the TLBs in
      those that retire an SFENCE.VMA. Everything behind commit goes when a fence or an atomic retires, the CSR file
      asks for it, or a trap or return diverts the hart; a mispredict spares decode and execute. */
  lemma RetirementFlushes(c: Config, ticks: seq<Tick>, k: nat)
    requires k < |ticks| && Promised(c, ticks, k + 1)
    ensures var f, o, t := FlushesAt(c, ticks, k), OutAt(c, ticks, k), ticks[k];
            var diverts := o.ex.valid || t.others.eret;
            && (f.icache <==> o.p0.ack && t.y.w.i0.op == FENCE_I)
            && (f.tlb <==> c.rvs && o.p0.ack && t.y.w.i0.op == SFENCE_VMA)
            && (f.execute <==> RetiresWithEffect(c, t, o) || diverts) && f.decode == f.execute
            && (f.fetch <==> f.execute || t.others.mispredict) && f.unissued == f.fetch
            && (f.setPcCommit <==> RetiresWithEffect(c, t, o) && !diverts)
            && (f.predictors <==> diverts)
  {
    RunRequestsAreRetirements(c, ticks, k);
    C.StagesFlushed(ControlOf(c), CausesOf(c, RegsAt(c, ticks, k), ticks[k]));
    assert TickPromised(c, RegsAt(c, ticks, k), ticks[k]);
  }
}
