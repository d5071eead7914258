/** The read port of the write-back data cache (core/cache_subsystem/cache_ctrl.sv), as a load unit drives
    it. It keeps the cache contract too, though it answers every kill, even one of nothing. */
module WbDcachePorts {

  import opened LoadUnits
  import opened LoadLedgers
  import opened LoadPaths

  /** The states that a load can bring the controller to; STORE_REQ is entered by writes only. */
  datatype CtrlFsm =
    | CtrlIdle
    | WaitTag
    | WaitTagBypassed
    | WaitArray
    | WaitArraySaved
    | WaitRefillValid
    | WaitRefillGnt
    | WaitTagSaved
    | WaitMshr
    | WaitCriticalWord

  /** The state and, of mem_req_q, the id and the killed mark. */
  datatype Ctrl = Ctrl(fsm: CtrlFsm, id: nat, killed: bool)

  /** Wires from the load unit, the cache array, the address map and the miss unit. */
  datatype CtrlInput = CtrlInput(
    dataReq: bool,
    dataId: nat,
    killReq: bool,
    tagValid: bool,
    flush: bool,
    bypass: bool,
    gnt: bool,
    hit: bool,
    cacheable: bool,
    mshrAddr: bool,
    mshrIndex: bool,
    missGnt: bool,
    activeServing: bool,
    bypassGnt: bool,
    bypassValid: bool,
    criticalValid: bool)

  const RESET_CTRL := Ctrl(CtrlIdle, 0, false)

  predicate InTag(f: CtrlFsm) {
    f.WaitTag? || f.WaitTagSaved?
  }

  predicate Serves(f: CtrlFsm) {
    f.CtrlIdle? || f.WaitCriticalWord? || f.WaitRefillValid?
  }

  predicate AwaitsTag(f: CtrlFsm) {
    f.WaitTag? || f.WaitTagBypassed?
  }

  /** The tag is there and not killed. */
  predicate TagSeen(p: Ctrl, i: CtrlInput) {
    InTag(p.fsm) && !i.killReq && (i.tagValid || p.fsm == WaitTagSaved)
  }

  /** The controller looks at the next request: idle, on a hit, and when the critical word arrives. */
  predicate Looks(p: Ctrl, i: CtrlInput) {
    && i.dataReq && !i.flush
    && (p.fsm == CtrlIdle || (TagSeen(p, i) && i.hit) || (p.fsm == WaitCriticalWord && i.criticalValid))
  }

  predicate CtrlGrant(p: Ctrl, i: CtrlInput) {
    Looks(p, i) && (i.gnt || (p.fsm == CtrlIdle && i.bypass))
  }

  /** The access of the current request ends with data in this cycle. */
  predicate Completes(p: Ctrl, i: CtrlInput) {
    || (TagSeen(p, i) && i.hit)
    || (p.fsm == WaitCriticalWord && i.criticalValid)
    || (p.fsm == WaitRefillValid && i.bypassValid)
  }

  predicate CtrlResponse(p: Ctrl, i: CtrlInput) {
    i.killReq || (Completes(p, i) && !p.killed)
  }

  /** A request that was looked at: granted for the tag cycle, or back to idle. */
  function AfterLook(p: Ctrl, i: CtrlInput): CtrlFsm {
    if !CtrlGrant(p, i) then CtrlIdle
    else if p.fsm == CtrlIdle && i.bypass then WaitTagBypassed
    else WaitTag
  }

  function NextCtrlFsm(p: Ctrl, i: CtrlInput): CtrlFsm {
    if i.killReq && !p.fsm.WaitRefillGnt? && !p.fsm.WaitCriticalWord? then CtrlIdle else Unkilled(p, i)
  }

  /** The next state where a kill does not end the access at once. */
  function Unkilled(p: Ctrl, i: CtrlInput): CtrlFsm {
    match p.fsm
    case CtrlIdle => AfterLook(p, i)
    case WaitTag | WaitTagSaved =>
      if !TagSeen(p, i) then (if i.gnt then p.fsm else WaitArray)
      else if !i.cacheable then WaitRefillGnt
      else if i.mshrAddr then WaitMshr
      else if i.hit then AfterLook(p, i)
      else WaitRefillGnt
    case WaitArray | WaitArraySaved =>
      if i.tagValid || p.fsm == WaitArraySaved then (if i.gnt then WaitTagSaved else WaitArraySaved)
      else if i.gnt then WaitTag
      else WaitArray
    case WaitMshr => if !i.mshrIndex && i.gnt then WaitTagSaved else WaitMshr
    case WaitTagBypassed => if !i.killReq && i.tagValid then WaitRefillGnt else WaitTagBypassed
    case WaitRefillGnt =>
      if i.mshrAddr && !i.activeServing then WaitMshr
      else if i.missGnt then WaitCriticalWord
      else if i.bypassGnt then WaitRefillValid
      else WaitRefillGnt
    case WaitCriticalWord => if i.criticalValid then AfterLook(p, i) else WaitCriticalWord
    case WaitRefillValid => if i.bypassValid then CtrlIdle else WaitRefillValid
  }

  function NextCtrl(p: Ctrl, i: CtrlInput): Ctrl {
    Ctrl(NextCtrlFsm(p, i), if Looks(p, i) then i.dataId else p.id, i.killReq || (p.killed && !Looks(p, i)))
  }

  class CacheCtrl {
    var state: CtrlFsm
    var id: nat
    var killed: bool

    ghost function Snapshot(): Ctrl
      reads this
    {
      Ctrl(state, id, killed)
    }

    constructor ()
      ensures Snapshot() == RESET_CTRL
    {
      state, id, killed := CtrlIdle, 0, false;
    }

    /** cache_ctrl_fsm in the states that wait for the tag. */
    method WithTag(i: CtrlInput) returns (stateD: CtrlFsm, idD: nat, killedD: bool, gnt: bool, rvalid: bool)
      requires InTag(state)
      ensures stateD == Unkilled(Snapshot(), i)
      ensures idD == (if Looks(Snapshot(), i) then i.dataId else id)
      ensures killedD == (if Looks(Snapshot(), i) then i.killReq else killed || i.killReq)
      ensures gnt == CtrlGrant(Snapshot(), i) && rvalid == (Completes(Snapshot(), i) && !killed)
    {
      stateD, idD, killedD, gnt, rvalid := state, id, killed || i.killReq, false, false;
      if !i.killReq && (i.tagValid || state == WaitTagSaved) {
        if i.hit {
          if i.dataReq && !i.flush {
            stateD := WaitTag;
            idD, killedD := i.dataId, i.killReq;
            gnt := i.gnt;
            if !i.gnt {
              stateD := CtrlIdle;
            }
          } else {
            stateD := CtrlIdle;
          }
          rvalid := !killed;
        } else {
          stateD := WaitRefillGnt;
        }
        if i.mshrAddr {
          stateD := WaitMshr;
        }
        if !i.cacheable {
          stateD := WaitRefillGnt;
        }
      } else if !i.gnt {
        stateD := WaitArray;
      }
    }

    /** cache_ctrl_fsm in the states that wait for the array or the miss unit. */
    method AwaitMemory(i: CtrlInput) returns (stateD: CtrlFsm)
      requires !InTag(state) && !Serves(state)
      ensures stateD == Unkilled(Snapshot(), i)
      ensures !Looks(Snapshot(), i) && !CtrlGrant(Snapshot(), i) && !Completes(Snapshot(), i)
    {
      stateD := state;
      match state {
        case WaitArray | WaitArraySaved =>
          if i.tagValid {
            stateD := WaitArraySaved;
          }
          if i.gnt {
            stateD := if stateD == WaitArray then WaitTag else WaitTagSaved;
          }
        case WaitMshr =>
          if !i.mshrIndex && i.gnt {
            stateD := WaitTagSaved;
          }
        case WaitTagBypassed =>
          if !i.killReq && i.tagValid {
            stateD := WaitRefillGnt;
          }
        case _ =>
          if i.bypassGnt {
            stateD := WaitRefillValid;
          }
          if i.missGnt {
            stateD := WaitCriticalWord;
          }
          if i.mshrAddr && !i.activeServing {
            stateD := WaitMshr;
          }
      }
    }

    /** cache_ctrl_fsm when idle or when the answer of the miss unit may come. */
    method Serve(i: CtrlInput) returns (stateD: CtrlFsm, idD: nat, killedD: bool, gnt: bool, rvalid: bool)
      requires Serves(state)
      ensures stateD == Unkilled(Snapshot(), i)
      ensures idD == (if Looks(Snapshot(), i) then i.dataId else id)
      ensures killedD == (if Looks(Snapshot(), i) then i.killReq else killed || i.killReq)
      ensures gnt == CtrlGrant(Snapshot(), i) && rvalid == (Completes(Snapshot(), i) && !killed)
    {
      stateD, idD, killedD, gnt, rvalid := state, id, killed || i.killReq, false, false;
      match state {
        case CtrlIdle =>
          if i.dataReq && !i.flush {
            idD, killedD := i.dataId, i.killReq;
            if i.bypass {
              stateD := WaitTagBypassed;
              gnt := true;
            } else if i.gnt {
              stateD := WaitTag;
              gnt := true;
            }
          }
        case WaitCriticalWord =>
          if i.criticalValid {
            rvalid := !killed;
            stateD := CtrlIdle;
            if i.dataReq && !i.flush {
              idD, killedD := i.dataId, i.killReq;
              if i.gnt {
                stateD := WaitTag;
                gnt := true;
              }
            }
          }
        case _ =>
          if i.bypassValid {
            rvalid := !killed;
            stateD := CtrlIdle;
          }
      }
    }

    /** The whole process and its registers, for a port that only reads. */
    method Clock(i: CtrlInput) returns (gnt: bool, rvalid: bool, rid: nat)
      modifies this
      ensures Snapshot() == NextCtrl(old(Snapshot()), i)
      ensures gnt == CtrlGrant(old(Snapshot()), i) && rvalid == CtrlResponse(old(Snapshot()), i) && rid == old(id)
    {
      var stateD, idD, killedD;
      rid := id;
      if InTag(state) {
        stateD, idD, killedD, gnt, rvalid := WithTag(i);
      } else if Serves(state) {
        stateD, idD, killedD, gnt, rvalid := Serve(i);
      } else {
        idD, killedD, gnt, rvalid := id, killed || i.killReq, false, false;
        stateD := AwaitMemory(i);
      }
      if i.killReq {
        rvalid := true;
        if state != WaitRefillGnt && state != WaitCriticalWord {
          stateD := CtrlIdle;
        }
      }
      state, id, killed := stateD, idD, killedD;
    }
  }

  // ---------------------------------------------------------------- contract

  /** Signals of the load unit and of the controller joined together. */
  ghost predicate Wired(p: Ctrl, w: CtrlInput, i: Input, o: Output) {
    && w.dataReq == o.dataReq && w.dataId == o.dataId && w.killReq == o.killReq && w.tagValid == o.tagValid
    && i.dataGnt == CtrlGrant(p, w)
    && i.dataRvalid == CtrlResponse(p, w)
    && i.dataRid == p.id
  }

  /** A line that hits is cacheable and is not the one that the miss unit is serving. */
  predicate HitsAreExclusive(p: Ctrl, w: CtrlInput) {
    TagSeen(p, w) && w.hit ==> w.cacheable && !w.mshrAddr
  }

  /** The controller holds the one outstanding request, unless it was killed; and a request is in its
      tag cycle only while the controller waits for the tag. */
  ghost predicate CtrlTracks(p: Ctrl, entries: nat, l: Ledger) {
    && p.id < entries
    && l.outstanding.Keys == (if Holds(p) then {p.id} else {})
    && (l.tag.Some? ==> AwaitsTag(p.fsm) && !p.killed && l.tag.value == p.id)
  }

  /** A load is held until it is answered. */
  predicate Holds(p: Ctrl) {
    p.fsm != CtrlIdle && !p.killed
  }

  /** What a cycle does to the load held: it is given up exactly when answered, and a granted one takes its
      place. A kill and a request meet only in a tag cycle, in which nothing is granted. */
  lemma HeldLoad(p: Ctrl, w: CtrlInput)
    requires HitsAreExclusive(p, w) && (w.killReq && w.dataReq ==> AwaitsTag(p.fsm))
    ensures var p', g, r := NextCtrl(p, w), CtrlGrant(p, w), CtrlResponse(p, w);
            && (Holds(p') <==> g || (Holds(p) && !r))
            && (g ==> (Holds(p) ==> r) && p'.id == w.dataId && AwaitsTag(p'.fsm))
            && (Holds(p') && !g ==> p'.id == p.id)
            && (r && !w.killReq ==> Holds(p))
  {
  }

  /** The controller keeps the contract in every cycle and keeps tracking the ledger. */
  lemma CtrlMeetsContract(p: Ctrl, w: CtrlInput, entries: nat, l: Ledger, i: Input, o: Output)
    requires CtrlTracks(p, entries, l) && Wired(p, w, i, o) && HitsAreExclusive(p, w)
    requires (o.dataReq ==> o.dataId < entries) && (o.killReq && o.dataReq ==> l.tag.Some?)
    ensures i.dataRid < entries && CacheContract(l, i, o)
    ensures CtrlTracks(NextCtrl(p, w), entries, Observe(entries, l, i, o))
  {
    HeldLoad(p, w);
    LedgerFollows(p.id, Holds(p), NextCtrl(p, w).id, Holds(NextCtrl(p, w)), entries, l, i, o);
  }

  /** The ledger of a cache that holds one load at a time. */
  lemma LedgerFollows(id: nat, held: bool, id': nat, held': bool, entries: nat, l: Ledger, i: Input, o: Output)
    requires l.outstanding.Keys == (if held then {id} else {}) && i.dataRid == id
    requires held' <==> (o.dataReq && i.dataGnt) || (held && !i.dataRvalid)
    requires o.dataReq && i.dataGnt ==> (held ==> i.dataRvalid) && id' == o.dataId
    requires held' && !(o.dataReq && i.dataGnt) ==> id' == id
    ensures Observe(entries, l, i, o).outstanding.Keys == if held' then {id'} else {}
  {
    assert Observe(entries, l, i, o).outstanding.Keys ==
           (l.outstanding.Keys - if i.dataRvalid then {i.dataRid} else {})
           + if o.dataReq && i.dataGnt then {o.dataId} else {};
  }

  /** The first clause of the contract cannot be had without its exception: the controller answers a
      kill also when it is idle and nothing was ever requested. */
  lemma IdleKillIsAnswered(p: Ctrl, w: CtrlInput, i: Input, o: Output, l: Ledger)
    requires p == RESET_CTRL && w.killReq && Wired(p, w, i, o) && l.outstanding == map[]
    ensures i.dataRvalid && i.dataRid !in l.outstanding
  {
  }

  // ---------------------------------------------------------------- answers and progress

  /** A load that is not killed is answered only with data: that of a hit under a tag that is there, the critical word
      of a miss, or that of the bypass; the first never for an uncacheable line. */
  lemma AnswersHaveData(p: Ctrl, w: CtrlInput)
    requires CtrlResponse(p, w) && !w.killReq && HitsAreExclusive(p, w)
    ensures !p.killed
    ensures (p.fsm in {WaitTag, WaitTagSaved} && w.hit && w.cacheable && (w.tagValid || p.fsm == WaitTagSaved))
            || (p.fsm == WaitCriticalWord && w.criticalValid)
            || (p.fsm == WaitRefillValid && w.bypassValid)
  {
  }

  /** What a miss, an uncacheable line, or one being served leads to. */
  lemma MissesGoOut(p: Ctrl, w: CtrlInput)
    requires TagSeen(p, w) && HitsAreExclusive(p, w)
    ensures var f := NextCtrl(p, w).fsm;
            && (!w.cacheable || (!w.hit && !w.mshrAddr) ==> f == WaitRefillGnt)
            && (w.cacheable && w.mshrAddr ==> f == WaitMshr)
            && (w.hit ==> f in {CtrlIdle, WaitTag})
  {
  }

  /** A state that waits for a word of the miss unit is entered only when that unit grants it. */
  lemma WaitsOnlyForGranted(p: Ctrl, w: CtrlInput)
    ensures var f := NextCtrl(p, w).fsm;
            && (f == WaitCriticalWord && p.fsm != WaitCriticalWord ==> p.fsm == WaitRefillGnt && w.missGnt)
            && (f == WaitRefillValid && p.fsm != WaitRefillValid ==> p.fsm == WaitRefillGnt && w.bypassGnt)
  {
  }

  /** A request is granted to an idle controller with the array, or past it in bypass mode, and else only with the array
      in the cycle that ends the access before it with a hit or a critical word; its tag is due in the next cycle. */
  lemma GrantBringsTag(p: Ctrl, w: CtrlInput)
    requires HitsAreExclusive(p, w)
    ensures p.fsm == CtrlIdle ==> (CtrlGrant(p, w) <==> w.dataReq && !w.flush && (w.gnt || w.bypass))
    ensures p.fsm != CtrlIdle ==>
              (CtrlGrant(p, w) <==> w.dataReq && !w.flush && w.gnt && Completes(p, w) && p.fsm != WaitRefillValid)
    ensures CtrlGrant(p, w) && (!w.killReq || p.fsm == WaitCriticalWord) ==>
              NextCtrl(p, w).fsm == if p.fsm == CtrlIdle && w.bypass then WaitTagBypassed else WaitTag
  {
  }

  /** The array is read under a tag only in the cycle behind its grant, which brings that cycle on: for a request that
      still waits for its tag or for the array, and for one whose line was being served once the index no longer matches. */
  lemma ArrayIsGranted(p: Ctrl, w: CtrlInput)
    ensures InTag(NextCtrl(p, w).fsm) ==> w.gnt
    ensures var f := NextCtrl(p, w).fsm;
            !w.killReq ==>
              && (p.fsm in {WaitArray, WaitArraySaved} || (InTag(p.fsm) && !TagSeen(p, w)) ==>
                  if w.gnt then InTag(f) else f in {WaitArray, WaitArraySaved})
              && (p.fsm == WaitMshr ==> f == if w.gnt && !w.mshrIndex then WaitTagSaved else WaitMshr)
  {
  }

  /** The states in which the tag is in mem_req_q. */
  predicate TagKnown(f: CtrlFsm) {
    f in {WaitArraySaved, WaitTagSaved, WaitMshr, WaitRefillGnt, WaitRefillValid, WaitCriticalWord}
  }

  /** A tag is saved when it comes and only then, and kept until the access ends. */
  lemma TagIsKept(p: Ctrl, w: CtrlInput)
    ensures TagKnown(NextCtrl(p, w).fsm) ==> TagKnown(p.fsm) || w.tagValid
    ensures !w.killReq && p.fsm != CtrlIdle && (TagKnown(p.fsm) || w.tagValid) ==>
              TagKnown(NextCtrl(p, w).fsm) || Completes(p, w)
    ensures !w.killReq && p.fsm == WaitTagBypassed ==>
              NextCtrl(p, w).fsm == if w.tagValid then WaitRefillGnt else WaitTagBypassed
  {
  }

  /** A kill ends the access at once, unless it is with the miss unit, which is asked on, and whose critical word is
      awaited from its grant to its arrival; the word of a bypass is not awaited any more. */
  lemma WordsAreAwaited(p: Ctrl, w: CtrlInput)
    ensures var f := NextCtrl(p, w).fsm;
            var served := w.mshrAddr && !w.activeServing;
            && (w.killReq && p.fsm !in {WaitRefillGnt, WaitCriticalWord} ==> f == CtrlIdle)
            && (f == WaitCriticalWord <==>
                (p.fsm == WaitRefillGnt && w.missGnt && !served) || (p.fsm == WaitCriticalWord && !w.criticalValid))
            && (f == WaitRefillValid <==>
                (p.fsm == WaitRefillGnt && w.bypassGnt && !w.missGnt && !served)
                || (p.fsm == WaitRefillValid && !w.bypassValid && !w.killReq))
            && (p.fsm == WaitRefillGnt ==> (f == WaitMshr <==> served) && f != CtrlIdle && !InTag(f) && f != WaitArray)
  {
  }

  /** Cycles to the answer of a memory that is never busy. */
  function CtrlDistance(f: CtrlFsm): nat {
    match f
    case CtrlIdle => 0
    case WaitCriticalWord => 1
    case WaitRefillValid => 1
    case WaitRefillGnt => 2
    case WaitTag => 3
    case WaitTagSaved => 3
    case WaitTagBypassed => 3
    case WaitArray => 4
    case WaitArraySaved => 4
    case WaitMshr => 4
  }

  predicate MemoryPrompt(w: CtrlInput) {
    && w.gnt && w.tagValid && !w.mshrAddr && !w.mshrIndex && (w.missGnt || w.bypassGnt)
    && w.bypassValid && w.criticalValid && !w.killReq && !w.flush
  }

  /** Every access comes nearer to its end in each cycle, which is its answer unless it was killed, and an idle
      controller grants what is requested. */
  lemma CtrlAdvances(p: Ctrl, w: CtrlInput)
    requires MemoryPrompt(w)
    ensures p.fsm == CtrlIdle && w.dataReq ==> CtrlGrant(p, w)
    ensures p.fsm != CtrlIdle ==>
              (CtrlResponse(p, w) || (p.killed && Completes(p, w))) || CtrlDistance(NextCtrl(p, w).fsm) < CtrlDistance(p.fsm)
    ensures Holds(p) && !CtrlResponse(p, w) ==> Holds(NextCtrl(p, w))
  {
  }

  // ---------------------------------------------------------------- runs

  /** A run of the load path over this controller. */
  ghost predicate CtrlRun(c: Config, y: System, p: Ctrl, xs: seq<PathInput>, ws: seq<CtrlInput>)
    requires p.id < c.entries
    decreases |xs|
  {
    |xs| == |ws| &&
    (xs == [] ||
     (&& Shaped(c, y.path)
      && xs[0].mem.dataRid == p.id
      && Wired(p, ws[0], UnitInput(y.path, xs[0]), Outputs(c, y.path.unit, UnitInput(y.path, xs[0])))
      && HitsAreExclusive(p, ws[0])
      && CtrlRun(c, NextSystem(c, y, xs[0]), NextCtrl(p, ws[0]), xs[1..], ws[1..])))
  }

  /** Every run over the write-back cache port is a run in the sense of the load path results. */
  lemma {:induction false} CtrlRunIsRun(c: Config, y: System, p: Ctrl, xs: seq<PathInput>, ws: seq<CtrlInput>)
    requires SystemInvariant(c, y) && CtrlTracks(p, c.entries, y.ledger) && CtrlRun(c, y, p, xs, ws)
    ensures Run(c, y, xs)
    decreases |xs|
  {
    if xs != [] {
      var i := UnitInput(y.path, xs[0]);
      CtrlMeetsContract(p, ws[0], c.entries, y.ledger, i, Outputs(c, y.path.unit, i));
      SystemStep(c, y, xs[0]);
      CtrlRunIsRun(c, NextSystem(c, y, xs[0]), NextCtrl(p, ws[0]), xs[1..], ws[1..]);
    }
  }

  /** Exactly-once write-back over the write-back cache. */
  lemma ExactlyOnceOverWbCache(c: Config, watched: nat, xs: seq<PathInput>, ws: seq<CtrlInput>)
    requires 0 < c.entries && CtrlRun(c, ResetSystem(c, watched), RESET_CTRL, xs, ws)
    ensures Run(c, ResetSystem(c, watched), xs)
    ensures var y := Final(c, ResetSystem(c, watched), xs);
            && y.ledger.taken
               == y.ledger.written + y.ledger.dropped + Pending(y.ledger, c.entries) + y.ledger.lost
            && (y.events.overPops == 0 ==> y.ledger.lost == 0)
  {
    ResetInvariant(c, watched);
    CtrlRunIsRun(c, ResetSystem(c, watched), RESET_CTRL, xs, ws);
    ExactlyOnce(c, watched, xs);
  }
}
