/** The flush controller (core/controller.sv): which pipeline stages a cycle flushes, and the handshake that
    holds the core while a write-back data cache is flushed. */
module Controllers {

  datatype Causes = Causes(
    mispredict: bool, fence: bool, fenceI: bool, sfenceVma: bool, flushCsr: bool, flushAcc: bool, flushCommit: bool,
    exValid: bool, eret: bool, dcacheAck: bool)

  datatype Config = Config(rva: bool, rvs: bool, writeBack: bool)

  datatype Flushes = Flushes(
    setPcCommit: bool, fetch: bool, unissued: bool, decode: bool, execute: bool, icache: bool, tlb: bool, predictors: bool)

  datatype Regs = Regs(fenceActive: bool, flushDcache: bool)

  const RESET_REGS := Regs(false, false)

  /** Something at commit that the following instructions must not have overtaken. */
  predicate AtCommit(c: Config, i: Causes) {
    i.fence || i.fenceI || (c.rvs && i.sfenceVma) || i.flushCsr || i.flushAcc || (c.rva && i.flushCommit)
  }

  predicate Diverts(i: Causes) {
    i.exValid || i.eret
  }

  /** Everything behind commit goes for causes at commit; a mispredict spares what was issued; on a trap
      or a return the fetch address comes from elsewhere. */
  function FlushesOf(c: Config, i: Causes): Flushes {
    var all := AtCommit(c, i) || Diverts(i);
    Flushes(AtCommit(c, i) && !Diverts(i), all || i.mispredict, all || i.mispredict, all, all, i.fenceI, c.rvs && i.sfenceVma, Diverts(i))
  }

  predicate StartsFence(c: Config, i: Causes) {
    c.writeBack && (i.fence || i.fenceI)
  }

  /** The handshake registers after a cycle. */
  function NextRegs(c: Config, r: Regs, i: Causes): Regs {
    if !c.writeBack then r.(flushDcache := false)
    else Regs(
      if r.fenceActive && i.dcacheAck then false else r.fenceActive || StartsFence(c, i),
      StartsFence(c, i) || (r.fenceActive && !i.dcacheAck))
  }

  class Controller {
    var fenceActive: bool
    var flushDcache: bool

    ghost function Snapshot(): Regs
      reads this
    {
      Regs(fenceActive, flushDcache)
    }

    constructor ()
      ensures Snapshot() == RESET_REGS
    {
      fenceActive, flushDcache := false, false;
    }

    /** flush_ctrl and the registers; assignments in the order of the source. */
    method Clock(c: Config, i: Causes) returns (f: Flushes)
      modifies this
      ensures Snapshot() == NextRegs(c, old(Snapshot()), i)
      ensures f == FlushesOf(c, i)
    {
      var active, flush := fenceActive, false;
      var setPc, icache, tlb, predictors := false, false, false, false;
      var fetch, unissued, decode, execute := false, false, false, false;
      if i.mispredict {
        unissued, fetch := true, true;
      }
      if i.fence {
        setPc, fetch, unissued, decode, execute := true, true, true, true, true;
        if c.writeBack {
          flush, active := true, true;
        }
      }
      if i.fenceI {
        setPc, fetch, unissued, decode, execute, icache := true, true, true, true, true, true;
        if c.writeBack {
          flush, active := true, true;
        }
      }
      if c.writeBack {
        if i.dcacheAck && fenceActive {
          active := false;
        } else if fenceActive {
          flush := true;
        }
      }
      if c.rvs && i.sfenceVma {
        setPc, fetch, unissued, decode, execute, tlb := true, true, true, true, true, true;
      }
      if i.flushCsr || i.flushAcc {
        setPc, fetch, unissued, decode, execute := true, true, true, true, true;
      } else if c.rva && i.flushCommit {
        setPc, fetch, unissued, decode, execute := true, true, true, true, true;
      }
      if i.exValid || i.eret {
        setPc, fetch, unissued, decode, execute, predictors := false, true, true, true, true, true;
      }
      f := Flushes(setPc, fetch, unissued, decode, execute, icache, tlb, predictors);
      fenceActive, flushDcache := active, flush;
    }
  }

  /** The handshake alone does not keep its two registers together: a fence in the cycle of an
      acknowledge leaves the flush signal up with nobody waiting. They part exactly then. */
  lemma RegistersPartIff(c: Config, r: Regs, i: Causes)
    requires c.writeBack && r.flushDcache == r.fenceActive
    ensures NextRegs(c, r, i).flushDcache != NextRegs(c, r, i).fenceActive
            <==> r.fenceActive && i.dcacheAck && (i.fence || i.fenceI)
  {
  }

  /** Which stages a cycle flushes: a mispredict only what is not yet issued; anything at commit, an exception or a
      return everything behind commit. The next pc comes from commit unless it comes from a trap or a return. */
  lemma StagesFlushed(c: Config, i: Causes)
    ensures var f := FlushesOf(c, i);
            var commits := i.fence || i.fenceI || (c.rvs && i.sfenceVma) || i.flushCsr || i.flushAcc || (c.rva && i.flushCommit);
            && (f.execute <==> commits || i.exValid || i.eret) && f.decode == f.execute
            && (f.fetch <==> f.execute || i.mispredict) && f.unissued == f.fetch
            && (f.setPcCommit <==> commits && !i.exValid && !i.eret)
            && (f.predictors <==> i.exValid || i.eret)
            && (f.icache <==> i.fenceI) && (f.tlb <==> c.rvs && i.sfenceVma)
  {
  }
}
