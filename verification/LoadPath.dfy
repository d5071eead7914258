/** The closed loop of issue register, LSU queue, load unit and store unit. Of its surroundings only the
    cache contract is assumed, and every run writes each load back exactly once. The queue keeps its order
    as long as the store unit does not pop for the exception of a store that has already left. */
module LoadPaths {

  import opened Arithmetic
  import opened IssueHandshake
  import opened LoadLedgers
  import opened LoadUnits
  import opened LsuBypasses
  import opened Options
  import opened StoreUnits

  datatype Path = Path(issued: LsuCtrl, queue: Queue, unit: State, store: Store)

  /** One cycle of the environment; amo tells whether the head is an atomic. The fields of mem that come
      from the queue and from the flush controller are replaced by the loop. */
  datatype PathInput = PathInput(flush: bool, amo: bool, storeReady: bool, issue: IssueInput, mem: Input)

  function ResetPath(c: Config): Path {
    Path(NO_REQUEST, EMPTY_QUEUE, ResetState(c), RESET_STORE)
  }

  ghost predicate Shaped(c: Config, p: Path) {
    Sized(p.queue) && WellFormed(c, p.unit)
  }

  function HeadOf(p: Path): LsuCtrl
    requires Sized(p.queue)
  {
    Head(p.queue, p.issued)
  }

  predicate HeadIsLoad(p: Path)
    requires Sized(p.queue)
  {
    HeadOf(p).valid && !HeadOf(p).store
  }

  predicate HeadIsStore(p: Path)
    requires Sized(p.queue)
  {
    HeadOf(p).valid && HeadOf(p).store
  }

  /** What the load unit sees: the head of the queue, if that is a load. */
  function UnitInput(p: Path, x: PathInput): Input
    requires Sized(p.queue)
  {
    x.mem.(flush := x.flush, valid := HeadIsLoad(p), request := HeadOf(p).load)
  }

  /** What the store unit sees; the answer of the translation is shared with the load unit. */
  function StoreWires(p: Path, x: PathInput): StoreInput
    requires Sized(p.queue)
  {
    StoreInput(x.flush, HeadIsStore(p), x.amo, HeadOf(p).load.transId, x.mem.exValid, x.mem.dtlbHit, x.storeReady)
  }

  predicate PopsLd(c: Config, p: Path, x: PathInput)
    requires Sized(p.queue)
  {
    Pops(c, p.unit, UnitInput(p, x))
  }

  predicate PopsSt(c: Config, p: Path, x: PathInput)
    requires Sized(p.queue)
  {
    PopsStore(c, p.store, StoreWires(p, x))
  }

  function QueueStep(c: Config, p: Path, x: PathInput): QueueInput
    requires Sized(p.queue)
  {
    QueueInput(x.flush, p.issued, p.issued.valid, PopsLd(c, p, x), PopsSt(c, p, x))
  }

  /** The flush of the execute stage always comes with a flush of unissued instructions. */
  function IssueStep(x: PathInput): IssueInput {
    x.issue.(flush := x.issue.flush || x.flush)
  }

  ghost function NextPath(c: Config, p: Path, x: PathInput): Path
    requires Shaped(c, p)
  {
    Path(
      NextRequest(IssueStep(x), Ready(p.queue)),
      NextQueue(p.queue, QueueStep(c, p, x)),
      Next(c, p.unit, UnitInput(p, x)),
      NextStore(c, p.store, StoreWires(p, x)))
  }

  /** All that is assumed of a cycle: the cache keeps its contract. */
  ghost predicate Environment(c: Config, p: Path, l: Ledger, x: PathInput) {
    && Shaped(c, p)
    && IdInRange(c, x.mem)
    && CacheContract(l, UnitInput(p, x), Outputs(c, p.unit, UnitInput(p, x)))
  }

  // ---------------------------------------------------------------- which unit removes what

  /** A load pops only a valid load or from a waiting state, which is not left waiting then. */
  lemma LoadUnitAndHead(c: Config, p: Path, x: PathInput)
    requires Shaped(c, p)
    ensures PopsLd(c, p, x) ==> HeadIsLoad(p) || Waiting(p.unit.fsm)
    ensures Waiting(Next(c, p.unit, UnitInput(p, x)).fsm) ==>
              !x.flush && !PopsLd(c, p, x) && (HeadIsLoad(p) || Waiting(p.unit.fsm))
  {
  }

  /** The store unit pops for the exception of a store that left the queue in the cycle before, although
      there is no store at the head. */
  predicate OverPops(p: Path, x: PathInput)
    requires Sized(p.queue)
  {
    p.store.fsm == ValidStore && x.mem.exValid && !HeadIsStore(p)
  }

  /** Each unit removes only a valid request of its own kind. */
  predicate OwnPops(c: Config, p: Path, x: PathInput)
    requires Sized(p.queue)
  {
    (PopsLd(c, p, x) ==> HeadIsLoad(p)) && (PopsSt(c, p, x) ==> HeadIsStore(p))
  }

  /** The queue is in order, a unit that waits sees its request at the head, and behind a store that has
      left there is at most one request. */
  ghost predicate Clean(c: Config, p: Path) {
    && Shaped(c, p)
    && Consistent(p.queue) && Tidy(p.queue)
    && (p.issued.valid ==> p.queue.count <= 1)
    && (Waiting(p.unit.fsm) ==> HeadIsLoad(p))
    && (StoreWaits(p.store.fsm) ==> HeadIsStore(p) && p.store.transId == HeadOf(p).load.transId)
    && (p.store.fsm == ValidStore ==> p.queue.count == 0 || (p.queue.count == 1 && !p.issued.valid))
  }

  lemma OwnPopsIffNoOverPop(c: Config, p: Path, x: PathInput)
    requires Clean(c, p)
    ensures OwnPops(c, p, x) <==> !OverPops(p, x)
  {
    LoadUnitAndHead(c, p, x);
  }

  lemma QueueIsOrderly(c: Config, p: Path, x: PathInput)
    requires Clean(c, p) && !OverPops(p, x)
    ensures Orderly(p.queue, QueueStep(c, p, x))
  {
    OwnPopsIffNoOverPop(c, p, x);
    var i := QueueStep(c, p, x);
    if HeadOf(p).valid {
      assert |Offered(p.queue, i)| >= 1;
    }
  }

  /** The head changes only when it is popped or the pipeline is flushed. */
  lemma HeadIsStable(c: Config, p: Path, x: PathInput)
    requires Clean(c, p) && HeadOf(p).valid && !x.flush && Removed(QueueStep(c, p, x)) == 0
    ensures HeadOf(NextPath(c, p, x)) == HeadOf(p)
  {
    OwnPopsIffNoOverPop(c, p, x);
    QueueIsOrderly(c, p, x);
    FifoStep(p.queue, QueueStep(c, p, x));
    HeadIsOldest(p.queue, QueueStep(c, p, x));
  }

  /** A unit is left waiting only for the head, which nobody removes meanwhile: it is there in the next cycle. */
  lemma WaitingKeepsHead(c: Config, p: Path, x: PathInput)
    requires Clean(c, p) && !OverPops(p, x)
    ensures var p' := NextPath(c, p, x);
            && (Waiting(p'.unit.fsm) ==> HeadIsLoad(p))
            && (StoreWaits(p'.store.fsm) ==> HeadIsStore(p) && p'.store.transId == HeadOf(p).load.transId)
            && (Waiting(p'.unit.fsm) || StoreWaits(p'.store.fsm) ==> HeadOf(p') == HeadOf(p))
  {
    LoadUnitAndHead(c, p, x);
    OwnPopsIffNoOverPop(c, p, x);
    var p' := NextPath(c, p, x);
    if Waiting(p'.unit.fsm) || StoreWaits(p'.store.fsm) {
      HeadIsStable(c, p, x);
    }
  }

  /** Behind a store that is taken there is no room for two. */
  lemma BehindTakenStore(c: Config, p: Path, x: PathInput)
    requires Clean(c, p) && NextPath(c, p, x).store.fsm == ValidStore
    ensures var p' := NextPath(c, p, x);
            p'.queue.count == 0 || (p'.queue.count == 1 && !p'.issued.valid)
  {
    LoadUnitAndHead(c, p, x);
    ValidFollowsReady(IssueStep(x), Ready(p.queue));
  }

  /** Without an over-pop the loop stays in order. */
  lemma LoopStep(c: Config, p: Path, x: PathInput)
    requires Clean(c, p) && !OverPops(p, x)
    ensures Clean(c, NextPath(c, p, x))
  {
    WaitingKeepsHead(c, p, x);
    QueueIsOrderly(c, p, x);
    FifoStep(p.queue, QueueStep(c, p, x));
    ValidFollowsReady(IssueStep(x), Ready(p.queue));
    if NextPath(c, p, x).store.fsm == ValidStore {
      BehindTakenStore(c, p, x);
    }
  }

  /** A flush puts the loop in order from any state. */
  lemma FlushCleans(c: Config, p: Path, x: PathInput)
    requires Shaped(c, p) && x.flush
    ensures Clean(c, NextPath(c, p, x))
    ensures !NextPath(c, p, x).issued.valid && NextPath(c, p, x).queue.count == 0
  {
  }

  /** What an over-pop does: a load at the head that is not popped in this cycle leaves without having been
      taken; otherwise the two-bit count wraps and the queue is never ready. */
  lemma OverPopBreaks(c: Config, p: Path, x: PathInput)
    requires Clean(c, p) && OverPops(p, x) && !x.flush
    ensures NextPath(c, p, x).queue.count == if HeadIsLoad(p) && !PopsLd(c, p, x) then 0 else 3
  {
    LoadUnitAndHead(c, p, x);
  }

  // ---------------------------------------------------------------- runs

  /** The requests that arrived at and left the queue since the last flush. */
  datatype Traffic = Traffic(arrived: seq<LsuCtrl>, left: seq<LsuCtrl>)

  /** Flushes and over-pops so far, and the id of the store whose exception made the first over-pop since the
      last flush. */
  datatype Events = Events(flushes: nat, overPops: nat, fault: Option<nat>)

  /** The loop with its observers. */
  datatype System = System(path: Path, ledger: Ledger, stores: StoreLedger, traffic: Traffic, events: Events)

  function ResetSystem(c: Config, watched: nat): System {
    System(ResetPath(c), EmptyLedger(watched), EmptyStoreLedger(watched), Traffic([], []), Events(0, 0, None))
  }

  function NextTraffic(c: Config, p: Path, t: Traffic, x: PathInput): Traffic
    requires Sized(p.queue)
  {
    if x.flush then Traffic([], []) else
    var q := QueueStep(c, p, x);
    Traffic(
      t.arrived + if q.reqValid then [q.req] else [],
      t.left + if Removed(q) > 0 && HeadOf(p).valid then [HeadOf(p)] else [])
  }

  function NextEvents(p: Path, e: Events, x: PathInput): Events
    requires Sized(p.queue)
  {
    var over := e.fault.None? && OverPops(p, x);
    Events(
      e.flushes + Bit(x.flush),
      e.overPops + Bit(over),
      if x.flush then None else if over then Some(p.store.transId) else e.fault)
  }

  ghost function NextSystem(c: Config, y: System, x: PathInput): System
    requires Shaped(c, y.path) && IdInRange(c, x.mem)
  {
    System(
      NextPath(c, y.path, x),
      After(c, y.path.unit, y.ledger, UnitInput(y.path, x)),
      ObserveStore(c, y.path.store, y.stores, StoreWires(y.path, x)),
      NextTraffic(c, y.path, y.traffic, x),
      NextEvents(y.path, y.events, x))
  }

  /** Every cycle of the run meets the cache contract. */
  ghost predicate Run(c: Config, y: System, xs: seq<PathInput>)
    decreases |xs|
  {
    xs == [] ||
    (Environment(c, y.path, y.ledger, xs[0]) && Run(c, NextSystem(c, y, xs[0]), xs[1..]))
  }

  ghost function Final(c: Config, y: System, xs: seq<PathInput>): System
    requires Run(c, y, xs)
    decreases |xs|
  {
    if xs == [] then y else Final(c, NextSystem(c, y, xs[0]), xs[1..])
  }

  /** The queue is in order unless an over-pop has happened since the last flush. */
  ghost predicate InOrder(c: Config, y: System) {
    Clean(c, y.path) && y.traffic.arrived == y.traffic.left + Contents(y.path.queue)
  }

  ghost predicate SystemInvariant(c: Config, y: System) {
    && Shaped(c, y.path)
    && Invariant(c, y.path.unit, y.ledger)
    && (y.events.fault.None? ==> InOrder(c, y))
    && (y.events.overPops == 0 ==>
        y.events.fault.None? && y.ledger.lost == 0 && StoresConserved(y.path.store, y.stores))
    && (y.events.flushes == 0 ==> y.ledger.dropped == 0)
  }

  /** The two logs of the queue stay in step with its contents. */
  lemma OrderStep(c: Config, y: System, x: PathInput)
    requires Shaped(c, y.path) && IdInRange(c, x.mem)
    requires y.events.fault.None? ==> InOrder(c, y)
    requires NextEvents(y.path, y.events, x).fault.None?
    ensures InOrder(c, NextSystem(c, y, x))
  {
    if x.flush {
      FlushCleans(c, y.path, x);
    } else {
      LoopStep(c, y.path, x);
      QueueIsOrderly(c, y.path, x);
      HeadIsOldest(y.path.queue, QueueStep(c, y.path, x));
      FifoLog(y.path.queue, QueueStep(c, y.path, x), y.traffic.arrived, y.traffic.left);
    }
  }

  /** Nothing is lost, and no store goes unanswered, without an over-pop. */
  lemma NoLossStep(c: Config, y: System, x: PathInput)
    requires Environment(c, y.path, y.ledger, x) && Clean(c, y.path) && !OverPops(y.path, x)
    ensures NextSystem(c, y, x).ledger.lost == y.ledger.lost
    ensures StoresConserved(y.path.store, y.stores) ==>
              StoresConserved(NextSystem(c, y, x).path.store, NextSystem(c, y, x).stores)
  {
    OwnPopsIffNoOverPop(c, y.path, x);
    if StoresConserved(y.path.store, y.stores) {
      StoreStep(c, y.path.store, y.stores, StoreWires(y.path, x));
    }
  }

  lemma SystemStep(c: Config, y: System, x: PathInput)
    requires SystemInvariant(c, y) && Environment(c, y.path, y.ledger, x)
    ensures SystemInvariant(c, NextSystem(c, y, x))
  {
    var y' := NextSystem(c, y, x);
    if y'.events.fault.None? {
      OrderStep(c, y, x);
    }
    if y'.events.overPops == 0 {
      NoLossStep(c, y, x);
    }
    if y'.events.flushes == 0 {
      OnlyFlushDrops(c.entries, y.ledger, UnitInput(y.path, x), Outputs(c, y.path.unit, UnitInput(y.path, x)));
    }
    Step(c, y.path.unit, y.ledger, UnitInput(y.path, x));
  }

  lemma {:induction false} RunKeepsInvariant(c: Config, y: System, xs: seq<PathInput>)
    requires SystemInvariant(c, y) && Run(c, y, xs)
    ensures SystemInvariant(c, Final(c, y, xs))
    decreases |xs|
  {
    if xs != [] {
      SystemStep(c, y, xs[0]);
      RunKeepsInvariant(c, NextSystem(c, y, xs[0]), xs[1..]);
    }
  }

  lemma ResetInvariant(c: Config, watched: nat)
    requires 0 < c.entries
    ensures SystemInvariant(c, ResetSystem(c, watched))
  {
    NothingPending(EmptyLedger(watched), c.entries);
    assert !ResetState(c).valid[0];
  }

  /** What the results below start from. */
  lemma Reached(c: Config, watched: nat, xs: seq<PathInput>)
    requires 0 < c.entries && Run(c, ResetSystem(c, watched), xs)
    ensures SystemInvariant(c, Final(c, ResetSystem(c, watched), xs))
  {
    ResetInvariant(c, watched);
    RunKeepsInvariant(c, ResetSystem(c, watched), xs);
  }

  // ---------------------------------------------------------------- main results

  /** Exactly-once: after any run, the loads taken from the queue with a given transaction id are those
      written back, those dropped by a flush, those still pending in the buffer, and those lost, each counted
      once. Without a flush none is dropped, and without an over-pop none is lost; when nothing is outstanding
      none is pending. */
  lemma ExactlyOnce(c: Config, watched: nat, xs: seq<PathInput>)
    requires 0 < c.entries && Run(c, ResetSystem(c, watched), xs)
    ensures var y := Final(c, ResetSystem(c, watched), xs);
            && y.ledger.taken
               == y.ledger.written + y.ledger.dropped + Pending(y.ledger, c.entries) + y.ledger.lost
            && (y.events.flushes == 0 ==> y.ledger.dropped == 0)
            && (y.events.overPops == 0 ==> y.ledger.lost == 0)
            && (y.ledger.outstanding == map[] ==> Pending(y.ledger, c.entries) == 0)
  {
    Reached(c, watched, xs);
    var y := Final(c, ResetSystem(c, watched), xs);
    if y.ledger.outstanding == map[] {
      NothingPending(y.ledger, c.entries);
    }
  }

  /** The same for stores: those removed from the queue are those answered, those dropped by a flush in
      the cycle that takes them, those skipped, and the one that waits for its answer. */
  lemma StoresExactlyOnce(c: Config, watched: nat, xs: seq<PathInput>)
    requires 0 < c.entries && Run(c, ResetSystem(c, watched), xs)
    ensures var y := Final(c, ResetSystem(c, watched), xs);
            y.events.overPops == 0 ==>
              y.stores.removed == y.stores.answered + y.stores.dropped + y.stores.skipped
                                  + Bit(Unanswered(y.path.store, y.stores.watched))
  {
    Reached(c, watched, xs);
  }

  /** In the next cycle of any run: a write-back is either the answer of a load granted after the last
      flush and taken from the queue, carrying that load's id, offset and operation, or the translation
      exception of the load at the head, which is popped with it. An answer of such a load is always
      written back, and so is an exception that comes in its tag cycle. */
  lemma WriteBacksAreLive(c: Config, watched: nat, xs: seq<PathInput>, x: PathInput)
    requires 0 < c.entries && Run(c, ResetSystem(c, watched), xs)
    requires Environment(c, Final(c, ResetSystem(c, watched), xs).path, Final(c, ResetSystem(c, watched), xs).ledger, x)
    ensures var y := Final(c, ResetSystem(c, watched), xs);
            var i := UnitInput(y.path, x);
            var o := Outputs(c, y.path.unit, i);
            && (o.valid && i.dataRvalid ==>
                && i.dataRid in y.ledger.outstanding
                && var g := y.ledger.outstanding[i.dataRid];
                   && g.taken && g.cycle > y.ledger.lastFlush
                   && o.transId == g.load.transId && o.entry == g.load)
            && (o.valid && !i.dataRvalid ==>
                o.exValid && o.popLd && o.transId == HeadOf(y.path).load.transId && HeadIsLoad(y.path))
            && (i.dataRvalid && Live(y.ledger, i.dataRid) ==> o.valid)
            && ExceptionIsReported(y.ledger, i, o)
  {
    Reached(c, watched, xs);
    var y := Final(c, ResetSystem(c, watched), xs);
    ExceptionOfTag(c, y.path.unit, y.ledger, UnitInput(y.path, x));
    WriteBackIffLive(c, y.path.unit, y.ledger, UnitInput(y.path, x));
  }

  /** In the next cycle of any run a grant never lands on a slot that stays outstanding, although
      WAIT_GNT requests without looking at the buffer. */
  lemma GrantsNeverOverwrite(c: Config, watched: nat, xs: seq<PathInput>, x: PathInput)
    requires 0 < c.entries && Run(c, ResetSystem(c, watched), xs)
    requires Environment(c, Final(c, ResetSystem(c, watched), xs).path, Final(c, ResetSystem(c, watched), xs).ledger, x)
    ensures var y := Final(c, ResetSystem(c, watched), xs);
            var i := UnitInput(y.path, x);
            var o := Outputs(c, y.path.unit, i);
            o.dataReq && i.dataGnt ==>
              o.dataId < c.entries && (o.dataId in y.ledger.outstanding ==> i.dataRvalid && i.dataRid == o.dataId)
  {
    Reached(c, watched, xs);
    var y := Final(c, ResetSystem(c, watched), xs);
    if Grants(c, y.path.unit, UnitInput(y.path, x)) {
      GrantFindsRoom(c, y.path.unit, y.ledger, UnitInput(y.path, x));
    }
  }

  /** After any run without an over-pop since the last flush the queue holds at most two requests, which are
      the arrivals since then less those that left, in order, and every waiting state of a unit sees a
      valid request of its kind. */
  lemma QueueKeepsOrder(c: Config, watched: nat, xs: seq<PathInput>)
    requires 0 < c.entries && Run(c, ResetSystem(c, watched), xs)
    ensures var y := Final(c, ResetSystem(c, watched), xs);
            y.events.fault.None? ==>
              && Consistent(y.path.queue) && y.path.queue.count <= 2
              && y.traffic.arrived == y.traffic.left + Contents(y.path.queue)
              && (Waiting(y.path.unit.fsm) ==> HeadIsLoad(y.path))
              && (StoreWaits(y.path.store.fsm) ==> HeadIsStore(y.path))
  {
    Reached(c, watched, xs);
  }

  /** In every cycle of the run each unit removes only valid requests of its own kind. */
  ghost predicate AlwaysOwnPops(c: Config, y: System, xs: seq<PathInput>)
    requires Run(c, y, xs)
    decreases |xs|
  {
    xs == [] || (OwnPops(c, y.path, xs[0]) && AlwaysOwnPops(c, NextSystem(c, y, xs[0]), xs[1..]))
  }

  lemma {:induction false} OverPopsOnlyGrow(c: Config, y: System, xs: seq<PathInput>)
    requires Run(c, y, xs)
    ensures y.events.overPops <= Final(c, y, xs).events.overPops
    decreases |xs|
  {
    if xs != [] {
      OverPopsOnlyGrow(c, NextSystem(c, y, xs[0]), xs[1..]);
    }
  }

  lemma {:induction false} OwnPopsFrom(c: Config, y: System, xs: seq<PathInput>)
    requires SystemInvariant(c, y) && y.events.overPops == 0 && Run(c, y, xs)
    ensures AlwaysOwnPops(c, y, xs) <==> Final(c, y, xs).events.overPops == 0
    decreases |xs|
  {
    if xs != [] {
      OwnPopsIffNoOverPop(c, y.path, xs[0]);
      if OverPops(y.path, xs[0]) {
        OverPopsOnlyGrow(c, NextSystem(c, y, xs[0]), xs[1..]);
      } else {
        SystemStep(c, y, xs[0]);
        OwnPopsFrom(c, NextSystem(c, y, xs[0]), xs[1..]);
      }
    }
  }

  /** Over every run each unit removes only valid requests of its own kind, if and only if no exception meets
      VALID_STORE without a store at the head. */
  lemma OwnPopsIffNeverOverPops(c: Config, watched: nat, xs: seq<PathInput>)
    requires 0 < c.entries && Run(c, ResetSystem(c, watched), xs)
    ensures var y := ResetSystem(c, watched);
            AlwaysOwnPops(c, y, xs) <==> Final(c, y, xs).events.overPops == 0
  {
    ResetInvariant(c, watched);
    OwnPopsFrom(c, ResetSystem(c, watched), xs);
  }
}
