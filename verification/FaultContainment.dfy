/** What an over-pop leaves alone: from the fault of a store to the flush that it causes, only requests
    younger than that store are touched. */
module FaultContainment {

  import opened IssueHandshake
  import opened LoadLedgers
  import opened LoadPaths
  import opened LoadUnits
  import opened LsuBypasses
  import opened Sequences
  import opened StoreUnits

  /** Ids number the instructions in program order: the one offered for issue is not older than the one in
      the request register, and younger if that one was issued. */
  predicate InProgramOrder(p: Path, x: PathInput) {
    && p.issued.load.transId <= x.issue.load.transId
    && (p.issued.valid ==> p.issued.load.transId < x.issue.load.transId)
  }

  function Id(r: LsuCtrl): nat {
    r.load.transId
  }

  /** Ids grow from the head through the queue to the request register. */
  ghost predicate Numbered(q: Queue, issued: LsuCtrl) {
    && Sized(q)
    && var h, o := Id(q.mem[q.readPtr]), Id(q.mem[1 - q.readPtr]);
       && h <= Id(issued) && o <= Id(issued)
       && (q.count >= 1 ==> h < Id(issued))
       && (q.count == 2 ==> h < o < Id(issued))
  }

  /** A store that has just left is older than the head and than the request register. */
  ghost predicate StoreIsOlder(q: Queue, issued: LsuCtrl, s: Store)
    requires Sized(q)
  {
    s.fsm == ValidStore ==> s.transId < Id(issued) && (q.count >= 1 ==> s.transId < Id(q.mem[q.readPtr]))
  }

  lemma NumberedStep(q: Queue, i: QueueInput, issued': LsuCtrl)
    requires Numbered(q, i.req) && Orderly(q, i)
    requires Id(i.req) <= Id(issued') && (i.req.valid ==> Id(i.req) < Id(issued'))
    ensures Numbered(NextQueue(q, i), issued')
  {
  }

  lemma StoreIsOlderStep(q: Queue, i: QueueInput, issued': LsuCtrl, s': Store)
    requires Numbered(q, i.req) && Orderly(q, i) && !i.flush
    requires Id(i.req) <= Id(issued') && (i.req.valid ==> Id(i.req) < Id(issued'))
    requires s'.fsm == ValidStore ==> i.popSt && s'.transId == Id(Head(q, i.req))
    ensures StoreIsOlder(NextQueue(q, i), issued', s')
  {
  }

  /** After the fault of store f every valid slot is younger than f. */
  ghost predicate SlotsYounger(q: Queue, issued: LsuCtrl, f: nat) {
    && Sized(q)
    && q.writePtr == Flip(q.count % 2 == 1, q.readPtr)
    && f < Id(issued)
    && (forall k | 0 <= k < 2 :: Id(q.mem[k]) <= Id(issued) && (q.mem[k].valid ==> f < Id(q.mem[k])))
  }

  /** If a slot is not younger, then no unit that waits, or has taken a store, has its eye on it. */
  ghost predicate Contained(q: Queue, issued: LsuCtrl, waiting: bool, store: StoreFsm, f: nat) {
    && SlotsYounger(q, issued, f)
    && var h, o := q.mem[q.readPtr], q.mem[1 - q.readPtr];
       var young := f < Id(h) && f < Id(o);
       && (waiting ==>
           young || (store == StoreIdle && if q.count == 0 then f < Id(o) else h.valid && !h.store))
       && (StoreWaits(store) && !young ==> q.count != 0 && h.valid && h.store && !waiting)
       && (store == ValidStore && !young ==> !h.valid && !waiting)
       && (issued.valid && q.count == 2 ==> store == StoreIdle && !waiting && !h.valid && !o.valid)
  }

  /** What the two units can do to the queue, whatever is in it. */
  predicate UnitsStep(head: LsuCtrl, w: bool, w': bool, popLd: bool, s: StoreFsm, s': StoreFsm, popSt: bool) {
    var ld, st := head.valid && !head.store, head.valid && head.store;
    && (popLd ==> ld || w)
    && (w' ==> !popLd && (ld || w))
    && (s == StoreIdle ==>
        (popSt ==> st && s' == ValidStore) && (!popSt ==> s' == StoreIdle || (st && StoreWaits(s'))))
    && (s == ValidStore ==>
        (popSt ==> s' == StoreIdle || (st && s' == ValidStore)) && (!popSt ==> s' == StoreIdle || (st && StoreWaits(s'))))
    && (StoreWaits(s) ==> s' == StoreIdle || (!popSt && s' == s))
  }

  lemma UnitsFollow(c: Config, p: Path, x: PathInput)
    requires Shaped(c, p) && !x.flush
    ensures UnitsStep(
              HeadOf(p), Waiting(p.unit.fsm), Waiting(Next(c, p.unit, UnitInput(p, x)).fsm), PopsLd(c, p, x),
              p.store.fsm, NextStore(c, p.store, StoreWires(p, x)).fsm, PopsSt(c, p, x))
  {
    LoadUnitAndHead(c, p, x);
  }

  lemma SlotsYoungerStep(q: Queue, i: QueueInput, issued': LsuCtrl, f: nat)
    requires SlotsYounger(q, i.req, f) && Id(i.req) <= Id(issued')
    ensures SlotsYounger(NextQueue(q, i), issued', f)
  {
  }

  lemma ContainedStep(q: Queue, i: QueueInput, w: bool, w': bool, s: StoreFsm, s': StoreFsm, issued': LsuCtrl, f: nat)
    requires Contained(q, i.req, w, s, f) && i.reqValid == i.req.valid && !i.flush
    requires UnitsStep(Head(q, i.req), w, w', i.popLd, s, s', i.popSt)
    requires Id(i.req) <= Id(issued') && (issued'.valid ==> q.count == 0)
    ensures Contained(NextQueue(q, i), issued', w', s', f)
  {
    SlotsYoungerStep(q, i, issued', f);
  }

  /** The over-pop on a queue in order starts a contained fault. */
  lemma FaultStarts(q: Queue, i: QueueInput, w: bool, w': bool, s: Store, issued': LsuCtrl)
    requires Consistent(q) && Tidy(q) && (q.count == 0 || (q.count == 1 && !i.req.valid))
    requires i.reqValid == i.req.valid && i.popSt && !i.flush
    requires var h := Head(q, i.req); !(h.valid && h.store) && (w || i.popLd || w' ==> h.valid) && !(w' && i.popLd)
    requires Numbered(q, i.req) && s.fsm == ValidStore && StoreIsOlder(q, i.req, s)
    requires Id(i.req) <= Id(issued') && (issued'.valid ==> q.count == 0)
    ensures Contained(NextQueue(q, i), issued', w', StoreIdle, s.transId)
  {
  }

  lemma FaultStep(c: Config, p: Path, x: PathInput)
    requires Clean(c, p) && OverPops(p, x) && !x.flush && InProgramOrder(p, x)
    requires Numbered(p.queue, p.issued) && StoreIsOlder(p.queue, p.issued, p.store)
    ensures var p' := NextPath(c, p, x);
            Contained(p'.queue, p'.issued, Waiting(p'.unit.fsm), p'.store.fsm, p.store.transId)
  {
    var p' := NextPath(c, p, x);
    LoadUnitAndHead(c, p, x);
    ValidFollowsReady(IssueStep(x), Ready(p.queue));
    FaultStarts(p.queue, QueueStep(c, p, x), Waiting(p.unit.fsm), Waiting(p'.unit.fsm), p.store, p'.issued);
  }

  // ---------------------------------------------------------------- the log

  /** The requests of a log that are not younger than f, in order. */
  function Older(s: seq<LsuCtrl>, f: nat): seq<LsuCtrl> {
    if s == [] then [] else (if Id(s[0]) <= f then [s[0]] else []) + Older(s[1..], f)
  }

  lemma {:induction false} OlderOfConcat(a: seq<LsuCtrl>, b: seq<LsuCtrl>, f: nat)
    ensures Older(a + b, f) == Older(a, f) + Older(b, f)
  {
    if a == [] {
      EmptyConcat(b);
      EmptyConcat(Older(b, f));
    } else {
      RestOfConcat(a, b);
      OlderOfConcat(a[1..], b, f);
      ConcatAssoc(if Id(a[0]) <= f then [a[0]] else [], Older(a[1..], f), Older(b, f));
    }
  }

  lemma {:induction false} YoungerAdd(a: seq<LsuCtrl>, b: seq<LsuCtrl>, f: nat)
    requires forall k | 0 <= k < |b| :: f < Id(b[k])
    ensures Older(a + b, f) == Older(a, f)
    decreases |b|
  {
    if b == [] {
      EmptyConcat(a);
    } else {
      OlderOfConcat(a, b, f);
      YoungerAdd([], b[1..], f);
      EmptyConcat(b[1..]);
      EmptyConcat(Older(a, f));
    }
  }

  /** Arrivals and departures that are younger leave the older part of both logs alone. */
  lemma YoungerTraffic(c: Config, p: Path, t: Traffic, x: PathInput, f: nat)
    requires Sized(p.queue) && !x.flush && Older(t.arrived, f) == Older(t.left, f)
    requires (p.issued.valid ==> f < Id(p.issued)) && (HeadOf(p).valid ==> f < Id(HeadOf(p)))
    ensures var t' := NextTraffic(c, p, t, x); Older(t'.arrived, f) == Older(t'.left, f)
  {
    var q := QueueStep(c, p, x);
    YoungerAdd(t.arrived, if q.reqValid then [q.req] else [], f);
    YoungerAdd(t.left, if Removed(q) > 0 && HeadOf(p).valid then [HeadOf(p)] else [], f);
  }

  // ---------------------------------------------------------------- the invariant

  ghost predicate FaultInvariant(c: Config, y: System) {
    && SystemInvariant(c, y)
    && var p, t := y.path, y.traffic;
       match y.events.fault
       case None => Numbered(p.queue, p.issued) && StoreIsOlder(p.queue, p.issued, p.store)
       case Some(f) =>
         && Contained(p.queue, p.issued, Waiting(p.unit.fsm), p.store.fsm, f)
         && Older(t.arrived, f) == Older(t.left, f)
  }

  /** Whatever is at the head and valid, or is requested or removed by the load unit, is younger than the fault. */
  lemma TouchesYounger(c: Config, p: Path, x: PathInput, f: nat)
    requires Shaped(c, p) && Contained(p.queue, p.issued, Waiting(p.unit.fsm), p.store.fsm, f)
    ensures HeadOf(p).valid || PopsLd(c, p, x) || Requests(c, p.unit, UnitInput(p, x)) ==>
              f < Id(HeadOf(p)) <= Id(p.issued)
  {
    LoadUnitAndHead(c, p, x);
  }

  lemma OrderedStep(c: Config, p: Path, x: PathInput)
    requires Clean(c, p) && !OverPops(p, x) && InProgramOrder(p, x)
    requires Numbered(p.queue, p.issued) && !x.flush
    ensures var p' := NextPath(c, p, x);
            Numbered(p'.queue, p'.issued) && StoreIsOlder(p'.queue, p'.issued, p'.store)
  {
    var p' := NextPath(c, p, x);
    QueueIsOrderly(c, p, x);
    NumberedStep(p.queue, QueueStep(c, p, x), p'.issued);
    StoreIsOlderStep(p.queue, QueueStep(c, p, x), p'.issued, p'.store);
  }

  lemma StillContained(c: Config, p: Path, x: PathInput, f: nat)
    requires Shaped(c, p) && Contained(p.queue, p.issued, Waiting(p.unit.fsm), p.store.fsm, f)
    requires InProgramOrder(p, x) && !x.flush
    ensures var p' := NextPath(c, p, x);
            Contained(p'.queue, p'.issued, Waiting(p'.unit.fsm), p'.store.fsm, f)
  {
    var p' := NextPath(c, p, x);
    UnitsFollow(c, p, x);
    ValidFollowsReady(IssueStep(x), Ready(p.queue));
    ContainedStep(p.queue, QueueStep(c, p, x), Waiting(p.unit.fsm), Waiting(p'.unit.fsm),
                  p.store.fsm, p'.store.fsm, p'.issued, f);
  }

  /** When the fault starts, all that is not younger has left. */
  lemma OlderHaveLeft(q: Queue, issued: LsuCtrl, s: Store, t: Traffic)
    requires Consistent(q) && q.count <= 1 && s.fsm == ValidStore && StoreIsOlder(q, issued, s)
    requires t.arrived == t.left + Contents(q)
    ensures Older(t.arrived, s.transId) == Older(t.left, s.transId)
  {
    YoungerAdd(t.left, Contents(q), s.transId);
  }

  lemma FaultInvariantStep(c: Config, y: System, x: PathInput)
    requires FaultInvariant(c, y) && Environment(c, y.path, y.ledger, x) && InProgramOrder(y.path, x)
    ensures FaultInvariant(c, NextSystem(c, y, x))
  {
    var p := y.path;
    SystemStep(c, y, x);
    if x.flush {
    } else if y.events.fault.Some? {
      var f := y.events.fault.value;
      StillContained(c, p, x, f);
      TouchesYounger(c, p, x, f);
      YoungerTraffic(c, p, y.traffic, x, f);
    } else if OverPops(p, x) {
      FaultStep(c, p, x);
      OlderHaveLeft(p.queue, p.issued, p.store, y.traffic);
      YoungerTraffic(c, p, y.traffic, x, p.store.transId);
    } else {
      OrderedStep(c, p, x);
    }
  }

  // ---------------------------------------------------------------- runs

  ghost predicate NumberedRun(c: Config, y: System, xs: seq<PathInput>)
    decreases |xs|
  {
    xs == [] ||
    (&& Environment(c, y.path, y.ledger, xs[0]) && InProgramOrder(y.path, xs[0])
     && NumberedRun(c, NextSystem(c, y, xs[0]), xs[1..]))
  }

  lemma {:induction false} NumberedRunIsRun(c: Config, y: System, xs: seq<PathInput>)
    requires FaultInvariant(c, y) && NumberedRun(c, y, xs)
    ensures Run(c, y, xs) && FaultInvariant(c, Final(c, y, xs))
    decreases |xs|
  {
    if xs != [] {
      FaultInvariantStep(c, y, xs[0]);
      NumberedRunIsRun(c, NextSystem(c, y, xs[0]), xs[1..]);
    }
  }

  lemma ResetFaultInvariant(c: Config, watched: nat)
    requires 0 < c.entries
    ensures FaultInvariant(c, ResetSystem(c, watched))
  {
    ResetInvariant(c, watched);
  }

  /** After any run with a fault since the last flush: the requests not younger than the faulting store have
      all left the queue, in order; and in the next cycle the load unit requests and removes, and the queue
      loses or presents, only requests that are younger and were issued before. */
  lemma FaultTouchesOnlyYounger(c: Config, watched: nat, xs: seq<PathInput>, x: PathInput)
    requires 0 < c.entries && NumberedRun(c, ResetSystem(c, watched), xs)
    ensures Run(c, ResetSystem(c, watched), xs) && Shaped(c, Final(c, ResetSystem(c, watched), xs).path)
    ensures var y := Final(c, ResetSystem(c, watched), xs);
            var p := y.path;
            y.events.fault.Some? ==>
              var f := y.events.fault.value;
              && Older(y.traffic.arrived, f) == Older(y.traffic.left, f)
              && (HeadOf(p).valid || PopsLd(c, p, x) || Requests(c, p.unit, UnitInput(p, x)) ==>
                  f < Id(HeadOf(p)) <= Id(p.issued))
  {
    ResetFaultInvariant(c, watched);
    NumberedRunIsRun(c, ResetSystem(c, watched), xs);
    var y := Final(c, ResetSystem(c, watched), xs);
    if y.events.fault.Some? {
      TouchesYounger(c, y.path, x, y.events.fault.value);
    }
  }

  /** The watched id is not younger than the faulting store, or has not yet been issued. */
  predicate Spared(y: System) {
    y.events.fault.Some? ==> y.ledger.watched <= y.events.fault.value || Id(y.path.issued) < y.ledger.watched
  }

  ghost predicate AlwaysSpared(c: Config, y: System, xs: seq<PathInput>)
    requires Run(c, y, xs)
    decreases |xs|
  {
    Spared(y) && (xs == [] || AlwaysSpared(c, NextSystem(c, y, xs[0]), xs[1..]))
  }

  /** Short of a flush, the request with this id is removed only by its own unit, and only when valid. */
  predicate OwnTurn(c: Config, p: Path, x: PathInput, id: nat)
    requires Sized(p.queue)
  {
    Id(HeadOf(p)) == id && !x.flush ==>
      (PopsLd(c, p, x) ==> HeadIsLoad(p)) && (PopsSt(c, p, x) && HeadOf(p).valid ==> HeadIsStore(p))
  }

  ghost predicate AlwaysOwnTurn(c: Config, y: System, xs: seq<PathInput>)
    requires Run(c, y, xs)
    decreases |xs|
  {
    xs == [] ||
    (OwnTurn(c, y.path, xs[0], y.ledger.watched) && AlwaysOwnTurn(c, NextSystem(c, y, xs[0]), xs[1..]))
  }

  /** In order, a head that is over-popped is younger than the store whose exception does it. */
  lemma OverPoppedIsYounger(c: Config, y: System, x: PathInput)
    requires FaultInvariant(c, y) && y.events.fault.None? && Environment(c, y.path, y.ledger, x)
    requires InProgramOrder(y.path, x) && !x.flush && Spared(NextSystem(c, y, x))
    ensures OwnTurn(c, y.path, x, y.ledger.watched)
  {
    OwnPopsIffNoOverPop(c, y.path, x);
  }

  lemma SparedTurn(c: Config, y: System, x: PathInput)
    requires FaultInvariant(c, y) && Environment(c, y.path, y.ledger, x) && InProgramOrder(y.path, x)
    requires Spared(y) && Spared(NextSystem(c, y, x))
    ensures OwnTurn(c, y.path, x, y.ledger.watched)
  {
    if y.events.fault.Some? {
      TouchesYounger(c, y.path, x, y.events.fault.value);
    } else if !x.flush {
      OverPoppedIsYounger(c, y, x);
    }
  }

  /** A load with this id is not lost. */
  lemma SparedIsNotLost(c: Config, y: System, x: PathInput)
    requires FaultInvariant(c, y) && Environment(c, y.path, y.ledger, x) && Spared(y)
    ensures NextSystem(c, y, x).ledger.lost == y.ledger.lost
  {
    if y.events.fault.Some? {
      TouchesYounger(c, y.path, x, y.events.fault.value);
    } else {
      LoadUnitAndHead(c, y.path, x);
    }
  }

  lemma {:induction false} SparedRun(c: Config, y: System, xs: seq<PathInput>)
    requires FaultInvariant(c, y) && NumberedRun(c, y, xs)
    requires Run(c, y, xs) && AlwaysSpared(c, y, xs)
    ensures Final(c, y, xs).ledger.lost == y.ledger.lost && AlwaysOwnTurn(c, y, xs)
    decreases |xs|
  {
    if xs != [] {
      SparedTurn(c, y, xs[0]);
      SparedIsNotLost(c, y, xs[0]);
      FaultInvariantStep(c, y, xs[0]);
      SparedRun(c, NextSystem(c, y, xs[0]), xs[1..]);
    }
  }

  /** Exactly-once for the spared: whatever faults occur, if the watched id is never younger than a fault that
      is not yet flushed, except while it is still to be issued, then its loads are removed from the queue by
      the load unit only, and each one taken is written back, dropped by a flush, or pending. */
  lemma SparedExactlyOnce(c: Config, watched: nat, xs: seq<PathInput>)
    requires 0 < c.entries && NumberedRun(c, ResetSystem(c, watched), xs)
    ensures Run(c, ResetSystem(c, watched), xs)
    ensures AlwaysSpared(c, ResetSystem(c, watched), xs) ==>
              var y := Final(c, ResetSystem(c, watched), xs);
              && AlwaysOwnTurn(c, ResetSystem(c, watched), xs)
              && y.ledger.taken == y.ledger.written + y.ledger.dropped + Pending(y.ledger, c.entries)
  {
    ResetFaultInvariant(c, watched);
    NumberedRunIsRun(c, ResetSystem(c, watched), xs);
    if AlwaysSpared(c, ResetSystem(c, watched), xs) {
      SparedRun(c, ResetSystem(c, watched), xs);
      ExactlyOnce(c, watched, xs);
    }
  }
}
