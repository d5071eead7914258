/** The read port of the write-through data cache (core/cache_subsystem/wt_dcache_ctrl.sv). It
    discharges the cache contract, so that the load path over it needs no assumption on the cache. */
module WtDcachePorts {

  import opened LoadUnits
  import opened LoadLedgers
  import opened LoadPaths

  datatype PortFsm = PortIdle | Read | MissReq | MissWait | KillMiss | KillMissAck | ReplayReq | ReplayRead

  datatype Port = Port(fsm: PortFsm, id: nat)

  /** Wires from the load unit, the cache memory arbiter and the miss unit. */
  datatype PortInput = PortInput(
    dataReq: bool,
    dataId: nat,
    killReq: bool,
    tagValid: bool,
    rdAck: bool,
    mustReplay: bool,
    hit: bool,
    missAck: bool,
    missReplay: bool,
    missReturn: bool)

  function PortReads(f: PortFsm): bool {
    f in {Read, ReplayRead}
  }

  /** A hit ends the access and lets the next request in at once. */
  function PortHit(p: Port, i: PortInput): bool {
    PortReads(p.fsm) && !i.killReq && (i.tagValid || p.fsm == ReplayRead) && !i.mustReplay && i.hit
  }

  function PortGrant(p: Port, i: PortInput): bool {
    i.dataReq && i.rdAck && (p.fsm == PortIdle || PortHit(p, i))
  }

  function PortResponse(p: Port, i: PortInput): bool {
    match p.fsm
    case Read | ReplayRead => i.killReq || PortHit(p, i)
    case MissReq | ReplayReq => i.killReq
    case MissWait => i.killReq || i.missReturn
    case _ => false
  }

  function NextPortFsm(p: Port, i: PortInput): PortFsm {
    match p.fsm
    case PortIdle => if PortGrant(p, i) then Read else PortIdle
    case Read | ReplayRead =>
      if i.killReq then PortIdle
      else if !(i.tagValid || p.fsm == ReplayRead) then p.fsm
      else if i.mustReplay then ReplayReq
      else if !i.hit then MissReq
      else if PortGrant(p, i) then Read
      else PortIdle
    case MissReq =>
      if i.killReq then (if i.missAck then KillMiss else KillMissAck)
      else if i.missReplay then ReplayReq
      else if i.missAck then MissWait
      else MissReq
    case MissWait =>
      if i.killReq then (if i.missReturn then PortIdle else KillMiss)
      else if i.missReturn then PortIdle
      else MissWait
    case ReplayReq => if i.killReq then PortIdle else if i.rdAck then ReplayRead else ReplayReq
    case KillMissAck => if i.missReplay then PortIdle else if i.missAck then KillMiss else KillMissAck
    case KillMiss => if i.missReturn then PortIdle else KillMiss
  }

  function NextPort(p: Port, i: PortInput): Port {
    Port(NextPortFsm(p, i), if PortGrant(p, i) then i.dataId else p.id)
  }

  class WtDcacheCtrl {
    var state: PortFsm
    var id: nat

    ghost function Snapshot(): Port
      reads this
    {
      Port(state, id)
    }

    constructor ()
      ensures Snapshot() == Port(PortIdle, 0)
    {
      state, id := PortIdle, 0;
    }

    method Clock(i: PortInput) returns (gnt: bool, rvalid: bool, rid: nat)
      modifies this
      ensures Snapshot() == NextPort(old(Snapshot()), i)
      ensures gnt == PortGrant(old(Snapshot()), i) && rvalid == PortResponse(old(Snapshot()), i) && rid == old(id)
    {
      var stateD := state;
      gnt, rvalid, rid := false, false, id;
      match state {
        case PortIdle =>
          if i.dataReq {
            if i.rdAck {
              stateD := Read;
              gnt := true;
            }
          }
        case Read | ReplayRead =>
          if i.killReq {
            stateD := PortIdle;
            rvalid := true;
          } else if i.tagValid || state == ReplayRead {
            if i.mustReplay {
              stateD := ReplayReq;
            } else if i.hit {
              stateD := PortIdle;
              rvalid := true;
              if i.rdAck && i.dataReq {
                stateD := Read;
                gnt := true;
              }
            } else {
              stateD := MissReq;
            }
          }
        case MissReq =>
          if i.killReq {
            rvalid := true;
            stateD := if i.missAck then KillMiss else KillMissAck;
          } else if i.missReplay {
            stateD := ReplayReq;
          } else if i.missAck {
            stateD := MissWait;
          }
        case MissWait =>
          if i.killReq {
            rvalid := true;
            stateD := if i.missReturn then PortIdle else KillMiss;
          } else if i.missReturn {
            stateD := PortIdle;
            rvalid := true;
          }
        case ReplayReq =>
          if i.killReq {
            rvalid := true;
            stateD := PortIdle;
          } else if i.rdAck {
            stateD := ReplayRead;
          }
        case KillMissAck =>
          if i.missReplay {
            stateD := PortIdle;
          } else if i.missAck {
            stateD := KillMiss;
          }
        case KillMiss =>
          if i.missReturn {
            stateD := PortIdle;
          }
      }
      state := stateD;
      if gnt {
        id := i.dataId;
      }
    }
  }

  // ---------------------------------------------------------------- contract

  /** Signals of the load unit and of the port joined together. */
  ghost predicate Wired(p: Port, w: PortInput, i: Input, o: Output) {
    && w.dataReq == o.dataReq && w.dataId == o.dataId && w.killReq == o.killReq && w.tagValid == o.tagValid
    && i.dataGnt == PortGrant(p, w)
    && i.dataRvalid == PortResponse(p, w)
    && i.dataRid == p.id
  }

  predicate Busy(f: PortFsm) {
    f in {Read, ReplayRead, MissReq, MissWait, ReplayReq}
  }

  /** The port holds the one outstanding request, and a request is in its tag cycle only in READ. */
  ghost predicate PortTracks(p: Port, entries: nat, l: Ledger) {
    && p.id < entries
    && l.outstanding.Keys == (if Busy(p.fsm) then {p.id} else {})
    && (l.tag.Some? ==> p.fsm == Read && l.tag.value == p.id)
  }

  /** The port keeps the contract in every cycle and keeps tracking the ledger. */
  lemma PortMeetsContract(p: Port, w: PortInput, entries: nat, l: Ledger, i: Input, o: Output)
    requires PortTracks(p, entries, l) && Wired(p, w, i, o) && (o.dataReq ==> o.dataId < entries)
    ensures i.dataRid < entries && CacheContract(l, i, o)
    ensures PortTracks(NextPort(p, w), entries, Observe(entries, l, i, o))
  {
    var l', p' := Observe(entries, l, i, o), NextPort(p, w);
    assert l'.outstanding.Keys ==
           (l.outstanding.Keys - if i.dataRvalid then {i.dataRid} else {})
           + if o.dataReq && i.dataGnt then {o.dataId} else {};
  }

  // ---------------------------------------------------------------- answers and progress

  /** A load that is not killed is answered only with data: that of a hit under a tag that is there, on a read that need
      not be repeated, or that which the miss unit returns. */
  lemma AnswersHaveData(p: Port, w: PortInput)
    requires PortResponse(p, w) && !w.killReq
    ensures (p.fsm in {Read, ReplayRead} && w.hit && !w.mustReplay && (w.tagValid || p.fsm == ReplayRead))
            || (p.fsm == MissWait && w.missReturn)
  {
  }

  /** A read that must be repeated, or a miss sent back, is read again before anything is answered but a kill. */
  lemma ReplayReadsAgain(p: Port, w: PortInput, w': PortInput)
    requires !w.killReq
    requires (p.fsm == Read && w.tagValid && w.mustReplay) || (p.fsm == ReplayRead && w.mustReplay)
             || (p.fsm == MissReq && w.missReplay)
    ensures !PortResponse(p, w)
    ensures var p' := NextPort(p, w);
            && (PortResponse(p', w') <==> w'.killReq) && !PortGrant(p', w') && p'.id == p.id
            && (!w'.killReq && !w'.rdAck ==> NextPort(p', w') == p')
            && (!w'.killReq && w'.rdAck ==> PortReads(NextPort(p', w').fsm))
  {
  }

  /** Cycles to an answer, or for a killed access to the idle state, of a memory that is never busy. */
  function PortDistance(f: PortFsm): nat {
    match f
    case PortIdle => 0
    case MissWait => 1
    case KillMiss => 1
    case MissReq => 2
    case KillMissAck => 2
    case Read => 3
    case ReplayRead => 3
    case ReplayReq => 4
  }

  /** Such a memory takes a read at once, repeats nothing, and serves a miss in the cycle after it is asked. */
  predicate MemoryPrompt(w: PortInput) {
    w.rdAck && w.tagValid && !w.mustReplay && !w.missReplay && w.missAck && w.missReturn && !w.killReq
  }

  /** Every access comes nearer to its answer in each cycle, and an idle port grants what is requested. */
  lemma PortAdvances(p: Port, w: PortInput)
    requires MemoryPrompt(w)
    ensures p.fsm == PortIdle && w.dataReq ==> PortGrant(p, w)
    ensures p.fsm != PortIdle ==> PortResponse(p, w) || PortDistance(NextPort(p, w).fsm) < PortDistance(p.fsm)
    ensures Busy(p.fsm) && !PortResponse(p, w) ==> Busy(NextPort(p, w).fsm)
  {
  }

  /** A kill is answered at once; a miss that is already with the memory is waited for before anything else is granted. */
  lemma KilledMissIsAwaited(p: Port, w: PortInput, w': PortInput)
    requires w.killReq && Busy(p.fsm)
    ensures PortResponse(p, w)
    ensures p.fsm == MissReq || (p.fsm == MissWait && !w.missReturn) ==>
              var p' := NextPort(p, w);
              !PortGrant(p', w') && !PortResponse(p', w') && (NextPort(p', w').fsm == PortIdle ==> w'.missReturn || w'.missReplay)
  {
  }

  /** The states that ask the miss unit, and those that a return is owed to. */
  predicate AsksMiss(f: PortFsm) {
    f in {MissReq, KillMissAck}
  }

  predicate AwaitsReturn(f: PortFsm) {
    f in {MissWait, KillMiss}
  }

  /** A return is awaited exactly from the acknowledge of a miss to the return, killed or not; and until the acknowledge
      the miss unit is asked on, unless it sends the miss back, which counts only once a kill has been seen through. */
  lemma ReturnAwaitedWhileOwed(p: Port, w: PortInput)
    requires !(w.missAck && w.missReplay)
    ensures AwaitsReturn(NextPort(p, w).fsm) <==>
            (AsksMiss(p.fsm) && w.missAck) || (AwaitsReturn(p.fsm) && !w.missReturn)
    ensures AsksMiss(p.fsm) && !w.missAck ==>
              (AsksMiss(NextPort(p, w).fsm) <==> !w.missReplay || (p.fsm == MissReq && w.killReq))
  {
  }

  // ---------------------------------------------------------------- runs

  /** A run of the load path over this port. */
  ghost predicate PortRun(c: Config, y: System, p: Port, xs: seq<PathInput>, ws: seq<PortInput>)
    requires p.id < c.entries
    decreases |xs|
  {
    |xs| == |ws| &&
    (xs == [] ||
     (&& Shaped(c, y.path)
      && xs[0].mem.dataRid == p.id
      && Wired(p, ws[0], UnitInput(y.path, xs[0]), Outputs(c, y.path.unit, UnitInput(y.path, xs[0])))
      && PortRun(c, NextSystem(c, y, xs[0]), NextPort(p, ws[0]), xs[1..], ws[1..])))
  }

  /** Every run over the write-through cache port is a run in the sense of the load path results. */
  lemma {:induction false} PortRunIsRun(c: Config, y: System, p: Port, xs: seq<PathInput>, ws: seq<PortInput>)
    requires PortTracks(p, c.entries, y.ledger) && PortRun(c, y, p, xs, ws)
    ensures Run(c, y, xs)
    decreases |xs|
  {
    if xs != [] {
      var i := UnitInput(y.path, xs[0]);
      PortMeetsContract(p, ws[0], c.entries, y.ledger, i, Outputs(c, y.path.unit, i));
      PortRunIsRun(c, NextSystem(c, y, xs[0]), NextPort(p, ws[0]), xs[1..], ws[1..]);
    }
  }

  /** Exactly-once write-back over the write-through cache, with nothing assumed of the cache. */
  lemma ExactlyOnceOverWtCache(c: Config, watched: nat, xs: seq<PathInput>, ws: seq<PortInput>)
    requires 0 < c.entries && PortRun(c, ResetSystem(c, watched), Port(PortIdle, 0), xs, ws)
    ensures Run(c, ResetSystem(c, watched), xs)
    ensures var y := Final(c, ResetSystem(c, watched), xs);
            && y.ledger.taken
               == y.ledger.written + y.ledger.dropped + Pending(y.ledger, c.entries) + y.ledger.lost
            && (y.events.overPops == 0 ==> y.ledger.lost == 0)
  {
    PortRunIsRun(c, ResetSystem(c, watched), Port(PortIdle, 0), xs, ws);
    ExactlyOnce(c, watched, xs);
  }
}
