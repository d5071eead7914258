/** The issue stage as the LSU sees it (core/issue_read_operands.sv): when an instruction is
    acknowledged, and the registered valid that follows one cycle later. */
module IssueHandshake {

  import opened LoadResults
  import opened LoadUnits
  import opened LsuBypasses

  datatype Fu = NoneFu | AluFu | CtrlFlowFu | CsrFu | MultFu | LoadFu | StoreFu | CvxifFu | FpuFu | FpuVecFu | AccelFu

  /** The instruction offered for issue and the state of the units around it. */
  datatype IssueInput = IssueInput(
    valid: bool,
    exValid: bool,
    fu: Fu,
    load: Load,
    stall: bool,
    rdFree: bool,
    rdWrittenNow: bool,
    fluReady: bool,
    cvxifReady: bool,
    fpuReady: bool,
    fpPresent: bool,
    multValid: bool,
    flush: bool)

  function FuBusy(i: IssueInput, lsuReady: bool): bool {
    match i.fu
    case NoneFu => false
    case AluFu | CtrlFlowFu | CsrFu | MultFu => !i.fluReady
    case LoadFu | StoreFu => !lsuReady
    case CvxifFu => !i.cvxifReady
    case FpuFu | FpuVecFu => i.fpPresent && !i.fpuReady
    case AccelFu => false
  }

  function IssueAck(i: IssueInput, lsuReady: bool): bool {
    && i.valid
    && ((!i.stall && !FuBusy(i, lsuReady) && (i.rdFree || i.rdWrittenNow)) || i.exValid || i.fu == NoneFu)
    && !(i.multValid && i.fu in {AluFu, CtrlFlowFu, CsrFu})
  }

  /** The request register after the clock edge. */
  function NextRequest(i: IssueInput, lsuReady: bool): LsuCtrl {
    LsuCtrl(
      !i.exValid && i.valid && IssueAck(i, lsuReady) && i.fu in {LoadFu, StoreFu} && !i.flush,
      i.fu == StoreFu,
      i.load)
  }

  class IssueStage {
    var lsuValid: bool
    var store: bool
    var load: Load

    ghost function Request(): LsuCtrl
      reads this
    {
      LsuCtrl(lsuValid, store, load)
    }

    constructor ()
      ensures !Request().valid
    {
      lsuValid, store, load := false, false, Load(0, 0, LD);
    }

    /** issue_scoreboard, with unit_busy. */
    method Acknowledge(i: IssueInput, lsuReady: bool) returns (ack: bool)
      ensures ack == IssueAck(i, lsuReady)
    {
      var fuBusy := false;
      match i.fu {
        case NoneFu => fuBusy := false;
        case AluFu | CtrlFlowFu | CsrFu | MultFu => fuBusy := !i.fluReady;
        case LoadFu | StoreFu => fuBusy := !lsuReady;
        case CvxifFu => fuBusy := !i.cvxifReady;
        case _ =>
          if i.fpPresent && (i.fu == FpuFu || i.fu == FpuVecFu) {
            fuBusy := !i.fpuReady;
          }
      }
      ack := false;
      if i.valid {
        if !i.stall && !fuBusy {
          if i.rdFree {
            ack := true;
          }
          if i.rdWrittenNow {
            ack := true;
          }
        }
        if i.exValid {
          ack := true;
        }
        if i.fu == NoneFu {
          ack := true;
        }
      }
      if i.multValid && i.fu in {AluFu, CtrlFlowFu, CsrFu} {
        ack := false;
      }
    }

    method Clock(i: IssueInput, lsuReady: bool)
      modifies this
      ensures Request() == NextRequest(i, lsuReady)
    {
      var ack := Acknowledge(i, lsuReady);
      lsuValid := false;
      if !i.exValid && i.valid && ack && (i.fu == LoadFu || i.fu == StoreFu) {
        lsuValid := true;
      }
      if i.flush {
        lsuValid := false;
      }
      store, load := i.fu == StoreFu, i.load;
    }
  }

  /** A valid LSU request appears only in the cycle after the queue was ready, and not after a flush. */
  lemma ValidFollowsReady(i: IssueInput, lsuReady: bool)
    ensures NextRequest(i, lsuReady).valid ==> lsuReady && !i.flush && !i.exValid
  {
  }

  /** A load or store enters the LSU exactly if it is offered without an exception and without a flush, nothing stalls
      issue, the LSU is ready, and its destination is free or being written. */
  lemma RequestEntersIff(i: IssueInput, lsuReady: bool)
    ensures NextRequest(i, lsuReady).valid <==>
              && i.fu in {LoadFu, StoreFu} && i.valid && !i.exValid && !i.flush
              && !i.stall && lsuReady && (i.rdFree || i.rdWrittenNow)
  {
  }

  /** No instruction is acknowledged to a unit that is busy or against a pending write of its destination, and none
      to an integer unit while the multiplier takes the result port, save one with an exception or without a unit. */
  lemma AcknowledgeIsSafe(i: IssueInput, lsuReady: bool)
    requires IssueAck(i, lsuReady) && !i.exValid && i.fu != NoneFu
    ensures i.valid && !i.stall && (i.rdFree || i.rdWrittenNow)
    ensures i.fu in {AluFu, CtrlFlowFu, CsrFu, MultFu} ==> i.fluReady
    ensures i.fu in {AluFu, CtrlFlowFu, CsrFu} ==> !i.multValid
    ensures i.fu in {LoadFu, StoreFu} ==> lsuReady
    ensures i.fu == CvxifFu ==> i.cvxifReady
    ensures i.fu in {FpuFu, FpuVecFu} && i.fpPresent ==> i.fpuReady
  {
  }

  /** With every unit ready and the destination free nothing but the multiplier holds an instruction back. */
  lemma ReadyIsAcknowledged(i: IssueInput)
    requires i.valid && !i.stall && i.fluReady && i.cvxifReady && i.fpuReady && (i.rdFree || i.rdWrittenNow)
    ensures IssueAck(i, true) <==> !(i.multValid && i.fu in {AluFu, CtrlFlowFu, CsrFu})
  {
  }
}
