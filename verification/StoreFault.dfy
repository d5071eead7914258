/** A run on which the LSU queue fails: the exception of a store that has already left an empty queue. */
module StoreFaults {

  import opened IssueHandshake
  import opened LoadLedgers
  import opened LoadPaths
  import opened LoadResults
  import opened LoadUnits
  import opened LsuBypasses
  import opened Sequences
  import opened StoreUnits

  /** The count has wrapped below zero on an empty queue, and both units are idle. */
  ghost predicate Stuck(c: Config, p: Path) {
    && Shaped(c, p)
    && p.queue.count == 3 && !p.queue.mem[0].valid && !p.queue.mem[1].valid
    && !p.issued.valid
    && !Waiting(p.unit.fsm) && p.store.fsm == StoreIdle
  }

  /** An over-pop with nothing at the head and nothing on the way ends there. */
  lemma OverPopOnEmpty(c: Config, p: Path, x: PathInput)
    requires Clean(c, p) && OverPops(p, x) && !x.flush
    requires !HeadOf(p).valid && !NextPath(c, p, x).issued.valid
    ensures Stuck(c, NextPath(c, p, x))
  {
    LoadUnitAndHead(c, p, x);
    OverPopBreaks(c, p, x);
  }

  lemma StuckStep(c: Config, p: Path, x: PathInput)
    requires Stuck(c, p) && !x.flush
    ensures Stuck(c, NextPath(c, p, x)) && !Ready(p.queue)
  {
    LoadUnitAndHead(c, p, x);
    ValidFollowsReady(IssueStep(x), Ready(p.queue));
  }

  predicate NoFlush(xs: seq<PathInput>) {
    forall k | 0 <= k < |xs| :: !xs[k].flush
  }

  lemma {:induction false} StuckUntilFlush(c: Config, y: System, xs: seq<PathInput>)
    requires Stuck(c, y.path) && Run(c, y, xs) && NoFlush(xs)
    ensures Stuck(c, Final(c, y, xs).path)
    decreases |xs|
  {
    if xs != [] {
      StuckStep(c, y.path, xs[0]);
      StuckUntilFlush(c, NextSystem(c, y, xs[0]), xs[1..]);
    }
  }

  lemma {:induction false} SplitRun(c: Config, y: System, xs: seq<PathInput>, zs: seq<PathInput>)
    requires Run(c, y, xs + zs)
    ensures Run(c, y, xs) && Run(c, Final(c, y, xs), zs)
    ensures Final(c, y, xs + zs) == Final(c, Final(c, y, xs), zs)
    decreases |xs|
  {
    if xs == [] {
      EmptyConcat(zs);
    } else {
      RestOfConcat(xs, zs);
      SplitRun(c, NextSystem(c, y, xs[0]), xs[1..], zs);
    }
  }

  /** Nothing for the load unit to do. */
  ghost predicate LoadUnitIdle(c: Config, y: System) {
    Shaped(c, y.path) && y.path.unit.fsm == Idle && y.ledger.tag.None? && !HeadIsLoad(y.path)
  }

  lemma IdleUnit(c: Config, s: State, l: Ledger, i: Input)
    requires WellFormed(c, s) && IdInRange(c, i) && s.fsm == Idle && l.tag.None?
    requires !i.flush && !i.valid && !i.dataRvalid
    ensures CacheContract(l, i, Outputs(c, s, i)) && !Pops(c, s, i)
    ensures Next(c, s, i).fsm == Idle && After(c, s, l, i).tag.None?
  {
  }

  predicate NothingReturned(x: PathInput) {
    !x.flush && !x.mem.dataRvalid && x.mem.dataRid == 0
  }

  predicate IssuesStore(x: PathInput) {
    NothingReturned(x) && NextRequest(x.issue, true).valid && x.issue.fu == StoreFu
  }

  predicate TakesStore(x: PathInput) {
    NothingReturned(x) && !x.issue.valid && x.storeReady && x.mem.dtlbHit
  }

  predicate RefusesStore(x: PathInput) {
    NothingReturned(x) && !x.issue.valid && x.mem.exValid
  }

  lemma IdleCycle(c: Config, y: System, x: PathInput)
    requires LoadUnitIdle(c, y) && NothingReturned(x)
    ensures Environment(c, y.path, y.ledger, x) && !PopsLd(c, y.path, x)
    ensures var y' := NextSystem(c, y, x);
            Shaped(c, y'.path) && y'.path.unit.fsm == Idle && y'.ledger.tag.None?
  {
    IdleUnit(c, y.path.unit, y.ledger, UnitInput(y.path, x));
  }

  /** The store is on its way to the queue, and has nothing behind it. */
  lemma FirstCycle(c: Config, y: System, x: PathInput)
    requires IssuesStore(x) && LoadUnitIdle(c, y) && y.path.queue == EMPTY_QUEUE && y.path.store.fsm == StoreIdle && !y.path.issued.valid
    ensures Environment(c, y.path, y.ledger, x)
    ensures var y' := NextSystem(c, y, x);
            && LoadUnitIdle(c, y') && HeadIsStore(y'.path)
            && y'.path.queue == EMPTY_QUEUE && y'.path.store.fsm == StoreIdle
  {
    IdleCycle(c, y, x);
  }

  /** The store passes the queue by and leaves it empty. */
  lemma SecondCycle(c: Config, y: System, x: PathInput)
    requires TakesStore(x) && LoadUnitIdle(c, y) && y.path.queue == EMPTY_QUEUE && y.path.store.fsm == StoreIdle && HeadIsStore(y.path)
    ensures Environment(c, y.path, y.ledger, x)
    ensures var y' := NextSystem(c, y, x);
            LoadUnitIdle(c, y') && Clean(c, y'.path) && !HeadOf(y'.path).valid && y'.path.store.fsm == ValidStore
  {
    IdleCycle(c, y, x);
  }

  /** Its exception removes what is not there. */
  lemma ThirdCycle(c: Config, y: System, x: PathInput)
    requires RefusesStore(x) && LoadUnitIdle(c, y) && Clean(c, y.path) && !HeadOf(y.path).valid && y.path.store.fsm == ValidStore
    ensures Environment(c, y.path, y.ledger, x)
    ensures Stuck(c, NextSystem(c, y, x).path)
  {
    IdleCycle(c, y, x);
    OverPopOnEmpty(c, y.path, x);
  }

  lemma {:induction false} ExtendRun(c: Config, y: System, xs: seq<PathInput>, x: PathInput)
    requires Run(c, y, xs) && Environment(c, Final(c, y, xs).path, Final(c, y, xs).ledger, x)
    ensures Run(c, y, xs + [x]) && Final(c, y, xs + [x]) == NextSystem(c, Final(c, y, xs), x)
    decreases |xs|
  {
    if xs == [] {
      EmptyConcat([x]);
      assert [x][1..] == [];
    } else {
      RestOfConcat(xs, [x]);
      ExtendRun(c, NextSystem(c, y, xs[0]), xs[1..], x);
    }
  }

  /** One store is issued, leaves the queue, and turns out to be faulty. */
  lemma FaultyStoreRuns(c: Config, y: System, x0: PathInput, x1: PathInput, x2: PathInput)
    requires LoadUnitIdle(c, y) && y.path.queue == EMPTY_QUEUE && y.path.store.fsm == StoreIdle && !y.path.issued.valid
    requires IssuesStore(x0) && TakesStore(x1) && RefusesStore(x2)
    ensures Run(c, y, [x0] + [x1] + [x2]) && Stuck(c, Final(c, y, [x0] + [x1] + [x2]).path)
  {
    FirstCycle(c, y, x0);
    ExtendRun(c, y, [], x0);
    EmptyConcat([x0]);
    SecondCycle(c, Final(c, y, [x0]), x1);
    ExtendRun(c, y, [x0], x1);
    ThirdCycle(c, Final(c, y, [x0] + [x1]), x2);
    ExtendRun(c, y, [x0] + [x1], x2);
  }

  /** A cycle in which nothing is issued, answered or refused. */
  const QUIET := PathInput(
    false, false, true,
    IssueInput(false, false, NoneFu, Load(0, 0, LD), false, true, false, true, true, true, false, false, false),
    Input(false, false, Load(0, 0, LD), false, true, false, true, true, 0, false, false, false, 0))

  const FAULTY_STORE := [QUIET.(issue := QUIET.issue.(valid := true, fu := StoreFu))]
                        + [QUIET] + [QUIET.(mem := QUIET.mem.(exValid := true))]

  lemma FaultyStoreIsRun(c: Config, watched: nat)
    requires 0 < c.entries
    ensures Run(c, ResetSystem(c, watched), FAULTY_STORE)
    ensures Stuck(c, Final(c, ResetSystem(c, watched), FAULTY_STORE).path)
  {
    FaultyStoreRuns(
      c, ResetSystem(c, watched), QUIET.(issue := QUIET.issue.(valid := true, fu := StoreFu)),
      QUIET, QUIET.(mem := QUIET.mem.(exValid := true)));
  }

  /** The queue does not hold at most two requests in every run: after a single faulty store it counts three,
      and whatever comes then, short of a flush, it is never ready again. */
  lemma FaultyStoreStopsQueue(c: Config, watched: nat, zs: seq<PathInput>)
    requires 0 < c.entries && NoFlush(zs)
    ensures Run(c, ResetSystem(c, watched), FAULTY_STORE)
    ensures Run(c, ResetSystem(c, watched), FAULTY_STORE + zs) ==>
              var p := Final(c, ResetSystem(c, watched), FAULTY_STORE + zs).path;
              p.queue.count == 3 && !Ready(p.queue) && !p.issued.valid
  {
    var y := ResetSystem(c, watched);
    FaultyStoreIsRun(c, watched);
    if Run(c, y, FAULTY_STORE + zs) {
      SplitRun(c, y, FAULTY_STORE, zs);
      StuckUntilFlush(c, Final(c, y, FAULTY_STORE), zs);
    }
  }
}
