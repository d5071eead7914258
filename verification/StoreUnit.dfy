/** The store unit (core/store_unit.sv): the four-state FSM that removes stores from the head of the LSU
    queue, answers them one cycle later and posts them to the store buffer. */
module StoreUnits {

  import opened Arithmetic
  import opened LoadUnits

  datatype StoreFsm = StoreIdle | ValidStore | StoreWaitTranslation | StoreWaitReady

  /** The state, and the id that was at the head in the cycle before. */
  datatype Store = Store(fsm: StoreFsm, transId: nat)

  datatype StoreInput = StoreInput(
    flush: bool,
    valid: bool,
    amo: bool,
    transId: nat,
    exValid: bool,
    dtlbHit: bool,
    ready: bool)

  datatype StoreOutput = StoreOutput(
    popSt: bool,
    valid: bool,
    transId: nat,
    posted: bool,
    postedWithoutFlush: bool,
    translationReq: bool)

  const RESET_STORE := Store(StoreIdle, 0)

  predicate StoreWaits(f: StoreFsm) {
    f.StoreWaitTranslation? || f.StoreWaitReady?
  }

  /** A store at the head is looked at; behind another store an atomic has to wait, for want of a buffer. */
  predicate Takes(c: Config, s: Store, i: StoreInput) {
    i.valid && (s.fsm == StoreIdle || (s.fsm == ValidStore && !(c.rva && i.amo)))
  }

  /** The exception of the translation asked for in the cycle before. */
  predicate Excepts(s: Store, i: StoreInput) {
    i.exValid && s.fsm != StoreIdle
  }

  predicate TakesNow(c: Config, s: Store, i: StoreInput) {
    Takes(c, s, i) && i.ready && (!c.mmu || i.dtlbHit)
  }

  /** A store leaves the queue when it is taken, and something does when an exception arrives. */
  predicate PopsStore(c: Config, s: Store, i: StoreInput) {
    TakesNow(c, s, i) || Excepts(s, i)
  }

  function AfterTake(c: Config, i: StoreInput): StoreFsm {
    if !i.ready then StoreWaitReady
    else if c.mmu && !i.dtlbHit then StoreWaitTranslation
    else ValidStore
  }

  function NextStoreFsm(c: Config, s: Store, i: StoreInput): StoreFsm {
    if i.flush || Excepts(s, i) then StoreIdle
    else if Takes(c, s, i) then AfterTake(c, i)
    else match s.fsm
      case StoreIdle => StoreIdle
      case ValidStore => StoreIdle
      case StoreWaitReady => if i.ready && i.dtlbHit then StoreIdle else StoreWaitReady
      case StoreWaitTranslation => if c.mmu && i.dtlbHit then StoreIdle else StoreWaitTranslation
  }

  function NextStore(c: Config, s: Store, i: StoreInput): Store {
    Store(NextStoreFsm(c, s, i), i.transId)
  }

  /** A store is answered in VALID_STORE, and posted unless flushed or faulty; an exception is an answer too. */
  function StoreOutputs(c: Config, s: Store, i: StoreInput): StoreOutput {
    StoreOutput(
      PopsStore(c, s, i),
      s.fsm == ValidStore || Excepts(s, i),
      s.transId,
      s.fsm == ValidStore && !i.flush && !i.exValid,
      s.fsm == ValidStore,
      Takes(c, s, i) || s.fsm == StoreWaitReady || (s.fsm == StoreWaitTranslation && c.mmu))
  }

  class StoreUnit {
    const config: Config
    var state: StoreFsm
    var transId: nat

    ghost function Snapshot(): Store
      reads this
    {
      Store(state, transId)
    }

    constructor (config: Config)
      ensures this.config == config && Snapshot() == RESET_STORE
    {
      this.config := config;
      state, transId := StoreIdle, 0;
    }

    /** always_comb store_control, written in the source's order of assignments. */
    method StoreControl(i: StoreInput) returns (stateD: StoreFsm, o: StoreOutput)
      ensures stateD == NextStoreFsm(config, Snapshot(), i) && o == StoreOutputs(config, Snapshot(), i)
    {
      var translationReq, valid, stValid, stValidWithoutFlush, popSt := false, false, false, false, false;
      stateD := state;
      match state {
        case StoreIdle =>
          if i.valid {
            stateD := ValidStore;
            translationReq, popSt := true, true;
            if config.mmu && !i.dtlbHit {
              stateD := StoreWaitTranslation;
              popSt := false;
            }
            if !i.ready {
              stateD := StoreWaitReady;
              popSt := false;
            }
          }
        case ValidStore =>
          valid := true;
          if !i.flush {
            stValid := true;
          }
          stValidWithoutFlush := true;
          if (i.valid && config.rva && !i.amo) || (i.valid && !config.rva) {
            translationReq := true;
            stateD := ValidStore;
            popSt := true;
            if config.mmu && !i.dtlbHit {
              stateD := StoreWaitTranslation;
              popSt := false;
            }
            if !i.ready {
              stateD := StoreWaitReady;
              popSt := false;
            }
          } else {
            stateD := StoreIdle;
          }
        case StoreWaitReady =>
          translationReq := true;
          if i.ready && i.dtlbHit {
            stateD := StoreIdle;
          }
        case StoreWaitTranslation =>
          if config.mmu {
            translationReq := true;
            if i.dtlbHit {
              stateD := StoreIdle;
            }
          }
      }
      if i.exValid && state != StoreIdle {
        popSt := true;
        stValid := false;
        stateD := StoreIdle;
        valid := true;
      }
      if i.flush {
        stateD := StoreIdle;
      }
      o := StoreOutput(popSt, valid, transId, stValid, stValidWithoutFlush, translationReq);
    }

    method Clock(i: StoreInput) returns (o: StoreOutput)
      modifies this
      ensures Snapshot() == NextStore(config, old(Snapshot()), i)
      ensures o == StoreOutputs(config, old(Snapshot()), i)
    {
      var stateD;
      stateD, o := StoreControl(i);
      state, transId := stateD, i.transId;
    }
  }

  // ---------------------------------------------------------------- every store is answered once

  /** The counters watch one id. Skipped: removed from the head by the exception of the store before,
      without an answer of its own. */
  datatype StoreLedger = StoreLedger(watched: nat, removed: nat, answered: nat, dropped: nat, skipped: nat)

  function EmptyStoreLedger(watched: nat): StoreLedger {
    StoreLedger(watched, 0, 0, 0, 0)
  }

  /** A store that was taken and waits for its answer. */
  predicate Unanswered(s: Store, id: nat) {
    s.fsm == ValidStore && s.transId == id
  }

  function ObserveStore(c: Config, s: Store, l: StoreLedger, i: StoreInput): StoreLedger {
    var o, mine := StoreOutputs(c, s, i), i.valid && i.transId == l.watched;
    l.(removed := l.removed + Bit(o.popSt && mine),
       answered := l.answered + Bit(o.valid && o.transId == l.watched),
       dropped := l.dropped + Bit(TakesNow(c, s, i) && !Excepts(s, i) && i.flush && mine),
       skipped := l.skipped + Bit(s.fsm == ValidStore && i.exValid && mine))
  }

  predicate StoresConserved(s: Store, l: StoreLedger) {
    l.removed == l.answered + l.dropped + l.skipped + Bit(Unanswered(s, l.watched))
  }

  /** A waiting store sees itself at the head. */
  predicate WaitsForHead(s: Store, i: StoreInput) {
    StoreWaits(s.fsm) ==> i.valid && i.transId == s.transId
  }

  lemma StoreStep(c: Config, s: Store, l: StoreLedger, i: StoreInput)
    requires StoresConserved(s, l) && WaitsForHead(s, i)
    ensures StoresConserved(NextStore(c, s, i), ObserveStore(c, s, l, i))
  {
  }

  // ---------------------------------------------------------------- when a store may leave

  /** The unit waits for a translation only if there is an MMU. */
  predicate StoreReachable(c: Config, s: Store) {
    s.fsm == StoreWaitTranslation ==> c.mmu
  }

  lemma StoreStaysReachable(c: Config, s: Store, i: StoreInput)
    requires StoreReachable(c, s)
    ensures StoreReachable(c, NextStore(c, s, i)) && StoreReachable(c, RESET_STORE)
  {
  }

  /** Short of an exception a store leaves the queue only with room for it behind and translated in that cycle, and
      an atomic only in a cycle that posts no other store, for want of a second buffer. */
  lemma TakenStoreHasRoom(c: Config, s: Store, i: StoreInput)
    ensures var o := StoreOutputs(c, s, i);
            o.popSt && !i.exValid ==>
              && i.valid && i.ready && (c.mmu ==> i.dtlbHit) && o.translationReq
              && (c.rva && i.amo ==> !o.postedWithoutFlush)
  {
  }

  /** With room and a translation a store leaves at once, or in the next cycle if the unit had been waiting or an
      atomic follows another store. */
  lemma StoreLeavesSoon(c: Config, s: Store, i: StoreInput, i': StoreInput)
    requires StoreReachable(c, s)
    requires i.valid && i.ready && i.dtlbHit && !i.exValid && !i.flush
    requires i'.valid && i'.ready && i'.dtlbHit && !i'.exValid && !i'.flush
    ensures StoreOutputs(c, s, i).popSt || StoreOutputs(c, NextStore(c, s, i), i').popSt
    ensures s.fsm == StoreIdle || (s.fsm == ValidStore && !(c.rva && i.amo)) ==> StoreOutputs(c, s, i).popSt
  {
  }

  /** What is posted, and answered, in a cycle is what was taken in the one before, under its own id, unless a flush or
      an exception came then or comes now; an exception is an answer too, of the store taken or waited for. */
  lemma PostedIffTaken(c: Config, s: Store, i: StoreInput, i': StoreInput)
    ensures var o, o' := StoreOutputs(c, s, i), StoreOutputs(c, NextStore(c, s, i), i');
            var taken := o.popSt && !(o.valid && i.exValid) && !i.flush;
            && (o'.postedWithoutFlush <==> taken)
            && (o'.posted <==> taken && !i'.flush && !i'.exValid)
            && (taken ==> o'.valid && o'.transId == i.transId)
            && (o'.valid && !i'.exValid ==> taken)
            && (i'.exValid && o'.valid <==> i'.exValid && NextStore(c, s, i).fsm != StoreIdle)
  {
  }

  /** A translation is asked for while the unit waits, and for a store that is looked at, which is any but an atomic
      behind another store; a waiting unit does nothing else short of an exception. */
  lemma AsksTranslationIff(c: Config, s: Store, i: StoreInput)
    requires StoreReachable(c, s)
    ensures StoreOutputs(c, s, i).translationReq <==>
            StoreWaits(s.fsm) || (i.valid && !(s.fsm == ValidStore && c.rva && i.amo))
    ensures StoreWaits(s.fsm) && !i.exValid ==> !StoreOutputs(c, s, i).popSt && !StoreOutputs(c, s, i).valid
  {
  }

  /** What holds a store back: in the wait for a translation only that, else room as well. */
  predicate HeldBack(c: Config, s: Store, i: StoreInput) {
    match s.fsm
    case StoreIdle => !i.ready || (c.mmu && !i.dtlbHit)
    case ValidStore => !(c.rva && i.amo) && (!i.ready || (c.mmu && !i.dtlbHit))
    case StoreWaitTranslation => !i.dtlbHit
    case StoreWaitReady => !i.ready || !i.dtlbHit
  }

  /** A store that is held back keeps the unit waiting, so that an exception of its translation is answered under its
      id and removes it. */
  lemma HeldStoreFaults(c: Config, s: Store, i: StoreInput, i': StoreInput)
    requires StoreReachable(c, s) && i.valid && !i.flush && !i.exValid && HeldBack(c, s, i) && i'.exValid
    ensures var o, o' := StoreOutputs(c, s, i), StoreOutputs(c, NextStore(c, s, i), i');
            && !o.popSt && o.translationReq && o'.popSt && o'.valid && o'.transId == i.transId && !o'.posted
  {
  }

  /** A store that waited for its translation alone is tried again in the cycle after the hit, whether or not there was
      room at the hit. */
  lemma TranslatedStoreRetries(c: Config, s: Store, i: StoreInput, i': StoreInput, i'': StoreInput)
    requires c.mmu && s.fsm == StoreIdle && i.valid && i.ready && !i.dtlbHit && !i.flush
    requires i'.dtlbHit && !i'.exValid && !i'.flush && i''.valid && i''.ready && i''.dtlbHit
    ensures StoreOutputs(c, NextStore(c, NextStore(c, s, i), i'), i'').popSt
  {
  }
}
