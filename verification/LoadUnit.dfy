/** The load unit (core/load_unit.sv): a nine-state request FSM over a buffer of
    outstanding loads indexed by the cache request id. */
module LoadUnits {

  import opened LoadResults

  datatype FsmState =
    | Idle
    | WaitGnt
    | SendTag
    | WaitPageOffset
    | AbortTransaction
    | AbortTransactionNi
    | WaitTranslation
    | WaitFlush
    | WaitWbEmpty

  /** One entry of the load buffer; also what the LSU queue presents. */
  datatype Load = Load(transId: nat, offset: Offset, operation: LoadOp)

  /** Static configuration: load-buffer entries, MMU present, non-idempotent regions supported, atomics supported. */
  datatype Config = Config(entries: nat, mmu: bool, nonIdempotent: bool, rva: bool)

  datatype Input = Input(
    flush: bool,
    valid: bool,
    request: Load,
    exValid: bool,
    dtlbHit: bool,
    pageOffsetMatches: bool,
    storeBufferEmpty: bool,
    wbufferNotNi: bool,
    commitTransId: nat,
    pageNonIdempotent: bool,
    dataGnt: bool,
    dataRvalid: bool,
    dataRid: nat)

  datatype Output = Output(
    popLd: bool,
    valid: bool,
    transId: nat,
    entry: Load,
    exValid: bool,
    translationReq: bool,
    dataReq: bool,
    dataId: nat,
    killReq: bool,
    tagValid: bool)

  /** The registers. */
  datatype State = State(
    fsm: FsmState,
    valid: seq<bool>,
    flushed: seq<bool>,
    buffer: seq<Load>,
    lastId: nat)

  ghost predicate WellFormed(c: Config, s: State) {
    && 0 < c.entries
    && |s.valid| == |s.flushed| == |s.buffer| == c.entries
    && s.lastId < c.entries
  }

  /** The response id is one that the unit can have given to a request. */
  ghost predicate IdInRange(c: Config, i: Input) {
    i.dataRid < c.entries
  }

  function ReadIndex(c: Config, i: Input): nat {
    if 1 < c.entries then i.dataRid else 0
  }

  predicate FallThrough(c: Config) {
    c.entries == 1
  }

  predicate Full(s: State) {
    forall k | 0 <= k < |s.valid| :: s.valid[k]
  }

  predicate StallNi(c: Config, i: Input) {
    && c.nonIdempotent
    && i.pageNonIdempotent
    && (!i.wbufferNotNi || !i.storeBufferEmpty || i.commitTransId != i.request.transId)
  }

  /** Waiting states keep the load at the head of the LSU queue for another attempt. */
  predicate Waiting(f: FsmState) {
    f in {WaitGnt, WaitPageOffset, AbortTransaction, AbortTransactionNi, WaitTranslation, WaitWbEmpty}
  }

  /** A fresh load is looked at: only in the two states that may accept one. */
  predicate Accepts(c: Config, s: State, i: Input) {
    && s.fsm in {Idle, SendTag}
    && i.valid
    && (!Full(s) || (FallThrough(c) && i.dataRvalid))
  }

  predicate Requests(c: Config, s: State, i: Input) {
    s.fsm == WaitGnt || (Accepts(c, s, i) && !i.pageOffsetMatches)
  }

  predicate Grants(c: Config, s: State, i: Input) {
    Requests(c, s, i) && i.dataGnt
  }

  /** Where a granted request goes: the tag is sent only for a translated, non-stalled load. */
  function AfterGrant(c: Config, i: Input): FsmState {
    if c.mmu && !i.dtlbHit then AbortTransaction
    else if StallNi(c, i) then AbortTransactionNi
    else SendTag
  }

  predicate Kills(c: Config, s: State, i: Input) {
    match s.fsm
    case WaitFlush => true
    case AbortTransaction => c.mmu
    case AbortTransactionNi => c.nonIdempotent
    case SendTag => i.exValid
    case _ => false
  }

  predicate TranslationState(c: Config, s: State) {
    s.fsm == WaitTranslation && (c.mmu || c.nonIdempotent)
  }

  predicate Pops(c: Config, s: State, i: Input) {
    || (Grants(c, s, i) && AfterGrant(c, i) == SendTag)
    || (TranslationState(c, s) && i.exValid && !i.dataRvalid)
  }

  /** A fresh attempt from IDLE or SEND_TAG. */
  function AfterRequest(c: Config, s: State, i: Input): FsmState {
    if !Accepts(c, s, i) then Idle
    else if i.pageOffsetMatches then WaitPageOffset
    else if !i.dataGnt then WaitGnt
    else AfterGrant(c, i)
  }

  function NextFsm(c: Config, s: State, i: Input): FsmState {
    if i.flush then WaitFlush else
    match s.fsm
    case Idle => AfterRequest(c, s, i)
    case SendTag => AfterRequest(c, s, i)
    case WaitPageOffset => if i.pageOffsetMatches then WaitPageOffset else WaitGnt
    case WaitGnt => if i.dataGnt then AfterGrant(c, i) else WaitGnt
    case AbortTransaction => if c.mmu then WaitTranslation else Idle
    case AbortTransactionNi => if c.nonIdempotent then WaitWbEmpty else Idle
    case WaitWbEmpty => if c.nonIdempotent && i.wbufferNotNi then WaitTranslation else Idle
    case WaitTranslation =>
      if !(c.mmu || c.nonIdempotent) || i.exValid then Idle
      else if i.dtlbHit then WaitGnt
      else WaitTranslation
    case WaitFlush => Idle
  }

  /** Index of the lowest free slot, 0 when there is none (lzc counting from the low end). */
  function FreeIndex(valid: seq<bool>): (k: nat)
    ensures valid != [] ==> k < |valid|
    ensures (exists j | 0 <= j < |valid| :: !valid[j]) ==> !valid[k] && forall j | 0 <= j < k :: valid[j]
  {
    if valid == [] || !valid[0] then 0
    else
      var rest := FreeIndex(valid[1..]);
      assert forall j | 1 <= j < |valid| :: valid[j] == valid[1..][j - 1];
      if rest < |valid[1..]| && !valid[1..][rest] then rest + 1 else 0
  }

  function WriteIndex(c: Config, s: State, i: Input): nat {
    if c.entries == 1 then 0 else FreeIndex(s.valid)
  }

  /** A response of a load that was not flushed and is not being killed without an exception. */
  predicate Retires(c: Config, s: State, i: Input)
    requires WellFormed(c, s) && IdInRange(c, i)
  {
    var r := ReadIndex(c, i);
    && i.dataRvalid
    && !s.flushed[r]
    && (r != s.lastId || !Kills(c, s, i) || (i.exValid && s.fsm == SendTag))
  }

  /** An exception of the translation retires the head load, unless a response has priority. */
  predicate RetiresHead(c: Config, s: State, i: Input) {
    TranslationState(c, s) && !i.dataRvalid && i.exValid && i.valid
  }

  function Outputs(c: Config, s: State, i: Input): Output
    requires WellFormed(c, s) && IdInRange(c, i)
  {
    var entry := s.buffer[ReadIndex(c, i)];
    Output(
      Pops(c, s, i),
      Retires(c, s, i) || RetiresHead(c, s, i),
      if RetiresHead(c, s, i) then i.request.transId else entry.transId,
      entry,
      (Retires(c, s, i) && i.exValid && s.fsm == SendTag) || RetiresHead(c, s, i),
      Accepts(c, s, i) || s.fsm == WaitGnt || TranslationState(c, s),
      Requests(c, s, i),
      WriteIndex(c, s, i),
      Kills(c, s, i),
      s.fsm == SendTag || Kills(c, s, i))
  }

  /** The granted slot becomes occupied, the answered one free. */
  function NextValid(c: Config, s: State, i: Input): seq<bool>
    requires WellFormed(c, s)
  {
    var w, g, r := WriteIndex(c, s, i), Grants(c, s, i), ReadIndex(c, i);
    seq(c.entries, k requires 0 <= k < c.entries =>
      (g && k == w) || (s.valid[k] && !(i.dataRvalid && k == r)))
  }

  /** A flush marks every slot but the one granted in the same cycle. */
  function NextFlushed(c: Config, s: State, i: Input): seq<bool>
    requires WellFormed(c, s)
  {
    var w, g := WriteIndex(c, s, i), Grants(c, s, i);
    seq(c.entries, k requires 0 <= k < c.entries => !(g && k == w) && (i.flush || s.flushed[k]))
  }

  function Next(c: Config, s: State, i: Input): (r: State)
    requires WellFormed(c, s)
    ensures WellFormed(c, r)
  {
    var w, g := WriteIndex(c, s, i), Grants(c, s, i);
    State(
      NextFsm(c, s, i),
      NextValid(c, s, i),
      NextFlushed(c, s, i),
      if g then s.buffer[w := i.request] else s.buffer,
      if g then w else s.lastId)
  }

  /** The unit as clocked logic: one method per combinational process, and Clock for the edge. */
  class LoadUnit {
    const config: Config
    var state: FsmState
    var ldbufValid: seq<bool>
    var ldbufFlushed: seq<bool>
    var ldbuf: array<Load>
    var ldbufLastId: nat

    ghost function Snapshot(): State
      reads this, ldbuf
    {
      State(state, ldbufValid, ldbufFlushed, ldbuf[..], ldbufLastId)
    }

    ghost predicate Valid()
      reads this, ldbuf
    {
      WellFormed(config, Snapshot())
    }

    constructor (config: Config)
      requires 0 < config.entries
      ensures Valid() && fresh(ldbuf) && this.config == config
      ensures Snapshot() == ResetState(config)
    {
      this.config := config;
      state := Idle;
      ldbufValid := seq(config.entries, _ => false);
      ldbufFlushed := seq(config.entries, _ => false);
      ldbuf := new Load[config.entries](_ => Load(0, 0, LB));
      ldbufLastId := 0;
    }

    /** always_comb load_control: the FSM, written in the source's order of assignments. */
    method LoadControl(i: Input, ldbufFull: bool) returns (stateD: FsmState, translationReq: bool,
        dataReq: bool, killReq: bool, tagValid: bool, popLd: bool)
      requires Valid() && IdInRange(config, i)
      requires ldbufFull == Full(Snapshot())
      ensures var s := Snapshot();
              && stateD == NextFsm(config, s, i)
              && dataReq == Requests(config, s, i)
              && killReq == Kills(config, s, i)
              && popLd == Pops(config, s, i)
              && translationReq == (Accepts(config, s, i) || state == WaitGnt || TranslationState(config, s))
              && tagValid == (state == SendTag || Kills(config, s, i))
    {
      ghost var s := Snapshot();
      assert s.fsm == state;
      var notCommitTime := i.commitTransId != i.request.transId;
      var inflightStores := !i.wbufferNotNi || !i.storeBufferEmpty;
      var stallNi := (inflightStores || notCommitTime) && (i.pageNonIdempotent && config.nonIdempotent);

      stateD := state;
      translationReq, dataReq, killReq, tagValid, popLd := false, false, false, false, false;
      var acceptReq := i.valid && (!ldbufFull || (config.entries == 1 && i.dataRvalid));
      match state {
        case Idle | SendTag =>
          if state == SendTag {
            tagValid := true;
            stateD := Idle;
          }
          if acceptReq {
            translationReq := true;
            if !i.pageOffsetMatches {
              dataReq := true;
              if !i.dataGnt {
                stateD := WaitGnt;
              } else if config.mmu && !i.dtlbHit {
                stateD := AbortTransaction;
              } else if !stallNi {
                stateD := SendTag;
                popLd := true;
              } else if config.nonIdempotent {
                stateD := AbortTransactionNi;
              }
            } else {
              stateD := WaitPageOffset;
            }
          }
          if state == SendTag && i.exValid {
            killReq := true;
          }
        case WaitPageOffset =>
          if !i.pageOffsetMatches {
            stateD := WaitGnt;
          }
        case WaitGnt =>
          translationReq := true;
          dataReq := true;
          if i.dataGnt {
            if config.mmu && !i.dtlbHit {
              stateD := AbortTransaction;
            } else if !stallNi {
              stateD := SendTag;
              popLd := true;
            } else if config.nonIdempotent {
              stateD := AbortTransactionNi;
            }
          }
        case WaitFlush =>
          killReq := true;
          tagValid := true;
          stateD := Idle;
        case _ =>
          if state == AbortTransaction && config.mmu {
            killReq := true;
            tagValid := true;
            stateD := WaitTranslation;
          } else if state == AbortTransactionNi && config.nonIdempotent {
            killReq := true;
            tagValid := true;
            stateD := WaitWbEmpty;
          } else if state == WaitWbEmpty && config.nonIdempotent && i.wbufferNotNi {
            stateD := WaitTranslation;
          } else if state == WaitTranslation && (config.mmu || config.nonIdempotent) {
            translationReq := true;
            if i.dtlbHit {
              stateD := WaitGnt;
            }
            if i.exValid {
              stateD := Idle;
              popLd := !i.dataRvalid;
            }
          } else {
            stateD := Idle;
          }
      }
      if i.flush {
        stateD := WaitFlush;
      }
    }

    /** always_comb rvalid_output. */
    method RvalidOutput(i: Input, rindex: nat, killReq: bool) returns (validO: bool, transId: nat, exO: bool)
      requires Valid() && IdInRange(config, i)
      requires rindex == ReadIndex(config, i) && killReq == Kills(config, Snapshot(), i)
      ensures validO == (Retires(config, Snapshot(), i) || RetiresHead(config, Snapshot(), i))
      ensures transId == if RetiresHead(config, Snapshot(), i) then i.request.transId else ldbuf[rindex].transId
      ensures exO == ((Retires(config, Snapshot(), i) && i.exValid && state == SendTag)
                      || RetiresHead(config, Snapshot(), i))
    {
      transId := ldbuf[rindex].transId;
      validO, exO := false, false;
      if i.dataRvalid && !ldbufFlushed[rindex] {
        if ldbufLastId != rindex || !killReq {
          validO := true;
        }
        if i.exValid && state == SendTag {
          validO := true;
          exO := true;
        }
      }
      if (config.mmu || config.nonIdempotent) && state == WaitTranslation && !i.dataRvalid && i.exValid && i.valid {
        transId := i.request.transId;
        validO := true;
        exO := true;
      }
    }

    /** always_comb ldbuf_comb: mark on flush, free the answered slot, claim the granted one. */
    method LdbufComb(i: Input, ldbufW: bool, rindex: nat, windex: nat) returns (validD: seq<bool>, flushedD: seq<bool>)
      requires Valid() && IdInRange(config, i)
      requires ldbufW == Grants(config, Snapshot(), i)
      requires rindex == ReadIndex(config, i) && windex == WriteIndex(config, Snapshot(), i)
      ensures validD == NextValid(config, Snapshot(), i)
      ensures flushedD == NextFlushed(config, Snapshot(), i)
    {
      flushedD := if i.flush then seq(|ldbufFlushed|, _ => true) else ldbufFlushed;
      validD := ldbufValid;
      if i.dataRvalid && (config.entries != 1 || !ldbufW) {
        validD := validD[rindex := false];
      }
      if ldbufW {
        flushedD := flushedD[windex := false];
        validD := validD[windex := true];
      }
    }

    /** The two always_ff processes: state_q, and the buffer with its bookkeeping. */
    method Registers(stateD: FsmState, validD: seq<bool>, flushedD: seq<bool>, ldbufW: bool, windex: nat, wdata: Load)
      requires Valid() && |validD| == |flushedD| == config.entries && windex < config.entries
      modifies this, ldbuf
      ensures Valid() && ldbuf == old(ldbuf)
      ensures Snapshot() == (var s := old(Snapshot());
                             State(stateD, validD, flushedD, if ldbufW then s.buffer[windex := wdata] else s.buffer,
                                   if ldbufW then windex else s.lastId))
    {
      state, ldbufValid, ldbufFlushed := stateD, validD, flushedD;
      if ldbufW {
        ldbufLastId := windex;
        ldbuf[windex] := wdata;
      }
    }

    /** The indices and the outputs of a cycle, from the combinational processes. */
    method Evaluate(i: Input) returns (o: Output, stateD: FsmState)
      requires Valid() && IdInRange(config, i)
      ensures o == Outputs(config, Snapshot(), i) && stateD == NextFsm(config, Snapshot(), i)
    {
      ghost var s := Snapshot();
      var rindex := if config.entries > 1 then i.dataRid else 0;
      var freeIndex := if config.entries > 1 then FreeIndex(ldbufValid) else 0;
      var windex := if config.entries == 1 && i.dataRvalid then rindex else freeIndex;
      var ldbufFull := forall k | 0 <= k < |ldbufValid| :: ldbufValid[k];
      assert rindex == ReadIndex(config, i) && windex == WriteIndex(config, s, i);
      var translationReq, dataReq, killReq, tagValid, popLd;
      stateD, translationReq, dataReq, killReq, tagValid, popLd := LoadControl(i, ldbufFull);
      var validO, transId, exO := RvalidOutput(i, rindex, killReq);
      var entry := ldbuf[rindex];
      assert entry == s.buffer[rindex];
      assert validO == Outputs(config, s, i).valid && exO == Outputs(config, s, i).exValid;
      assert transId == Outputs(config, s, i).transId;
      o := Output(popLd, validO, transId, entry, exO, translationReq, dataReq, windex, killReq, tagValid);
    }

    /** One clock cycle: evaluate the combinational processes, then update the registers. */
    method Clock(i: Input) returns (o: Output)
      requires Valid() && IdInRange(config, i)
      modifies this, ldbuf
      ensures Valid() && ldbuf == old(ldbuf)
      ensures Snapshot() == Next(config, old(Snapshot()), i)
      ensures o == Outputs(config, old(Snapshot()), i)
    {
      var stateD;
      o, stateD := Evaluate(i);
      var rindex := if config.entries > 1 then i.dataRid else 0;
      var ldbufW := o.dataReq && i.dataGnt;
      var validD, flushedD := LdbufComb(i, ldbufW, rindex, o.dataId);
      Registers(stateD, validD, flushedD, ldbufW, o.dataId, i.request);
    }
  }

  function ResetState(c: Config): State {
    State(Idle, seq(c.entries, _ => false), seq(c.entries, _ => false),
          seq(c.entries, _ => Load(0, 0, LB)), 0)
  }
}
