/** When a load may go to memory: not while a store with the same page offset may be ahead of it, not without a
    translation, and to a non-idempotent page only alone. Stated on the wires, over every run of the loop. */
module LoadHazards {

  import opened IssueHandshake
  import opened LoadLedgers
  import opened LoadPaths
  import opened LoadUnits
  import opened LsuBypasses
  import opened Sequences
  import opened StoreFaults
  import opened StoreUnits

  // ---------------------------------------------------------------- observers

  /** Whether some cycle has shown no page-offset match: since the load now at the head came there, and since
      the last load was removed or the last flush. */
  datatype Sight = Sight(head: bool, attempt: bool)

  const NOTHING_SEEN := Sight(false, false)

  function NextSight(c: Config, p: Path, x: PathInput, v: Sight): Sight
    requires Sized(p.queue)
  {
    Sight(
      !x.flush && HeadIsLoad(p) && Removed(QueueStep(c, p, x)) == 0 && (v.head || !x.mem.pageOffsetMatches),
      !x.flush && !PopsLd(c, p, x) && (v.attempt || !x.mem.pageOffsetMatches))
  }

  ghost function SightAfter(c: Config, y: System, xs: seq<PathInput>, v: Sight): Sight
    requires Run(c, y, xs)
    decreases |xs|
  {
    if xs == [] then v else SightAfter(c, NextSystem(c, y, xs[0]), xs[1..], NextSight(c, y.path, xs[0], v))
  }

  // ---------------------------------------------------------------- page offsets

  /** The states that a load reaches only by a request, or from the wait for its page offset. */
  predicate PastOffset(f: FsmState) {
    Waiting(f) && f != WaitPageOffset
  }

  ghost predicate SightOk(y: System, v: Sight) {
    PastOffset(y.path.unit.fsm) ==> v.attempt && (y.events.fault.None? ==> v.head)
  }

  lemma SightStep(c: Config, y: System, x: PathInput, v: Sight)
    requires SystemInvariant(c, y) && Environment(c, y.path, y.ledger, x) && SightOk(y, v)
    ensures SightOk(NextSystem(c, y, x), NextSight(c, y.path, x, v))
  {
    LoadUnitAndHead(c, y.path, x);
    if y.events.fault.None? {
      OwnPopsIffNoOverPop(c, y.path, x);
    }
  }

  lemma {:induction false} SightRun(c: Config, y: System, xs: seq<PathInput>, v: Sight)
    requires SystemInvariant(c, y) && Run(c, y, xs) && SightOk(y, v)
    ensures SightOk(Final(c, y, xs), SightAfter(c, y, xs, v))
    decreases |xs|
  {
    if xs != [] {
      SightStep(c, y, xs[0], v);
      SystemStep(c, y, xs[0]);
      SightRun(c, NextSystem(c, y, xs[0]), xs[1..], NextSight(c, y.path, xs[0], v));
    }
  }

  /** The cycle makes no request; or some cycle since the load came to the head showed no page-offset match, this
      one if the unit is idle or sending a tag. After an over-pop, until the flush, the same holds of the time since
      the last load left, so that the load requested may be another. */
  ghost predicate RequestIsClear(c: Config, y: System, x: PathInput, v: Sight)
    requires Shaped(c, y.path) && IdInRange(c, x.mem)
  {
    Outputs(c, y.path.unit, UnitInput(y.path, x)).dataReq ==>
      && (y.path.unit.fsm in {Idle, SendTag} ==> !x.mem.pageOffsetMatches)
      && (x.mem.pageOffsetMatches ==> v.attempt)
      && (y.events.fault.None? ==> HeadIsLoad(y.path) && (x.mem.pageOffsetMatches ==> v.head))
  }

  lemma RequestSeesClear(c: Config, y: System, x: PathInput, v: Sight)
    requires SystemInvariant(c, y) && IdInRange(c, x.mem) && SightOk(y, v)
    ensures RequestIsClear(c, y, x, v)
  {
  }

  /** In the next cycle of any run a load is requested only behind a cycle without a page-offset match. */
  lemma NoRequestBeforeOffsetClears(c: Config, watched: nat, xs: seq<PathInput>, x: PathInput)
    requires 0 < c.entries && Run(c, ResetSystem(c, watched), xs) && IdInRange(c, x.mem)
    ensures var y := Final(c, ResetSystem(c, watched), xs);
            Shaped(c, y.path) && RequestIsClear(c, y, x, SightAfter(c, ResetSystem(c, watched), xs, NOTHING_SEEN))
  {
    var y0 := ResetSystem(c, watched);
    Reached(c, watched, xs);
    ResetInvariant(c, watched);
    SightRun(c, y0, xs, NOTHING_SEEN);
    RequestSeesClear(c, Final(c, y0, xs), x, SightAfter(c, y0, xs, NOTHING_SEEN));
  }

  // ---------------------------------------------------------------- another load after an over-pop

  predicate IssuesLoad(x: PathInput) {
    NothingReturned(x) && NextRequest(x.issue, true).valid && x.issue.fu == LoadFu
  }

  lemma {:induction false} SightExtends(c: Config, y: System, xs: seq<PathInput>, x: PathInput, v: Sight)
    requires Run(c, y, xs) && Environment(c, Final(c, y, xs).path, Final(c, y, xs).ledger, x) && Run(c, y, xs + [x])
    ensures SightAfter(c, y, xs + [x], v) == NextSight(c, Final(c, y, xs).path, x, SightAfter(c, y, xs, v))
    decreases |xs|
  {
    if xs == [] {
      EmptyConcat([x]);
      assert [x][1..] == [];
    } else {
      RestOfConcat(xs, [x]);
      SightExtends(c, NextSystem(c, y, xs[0]), xs[1..], x, NextSight(c, y.path, xs[0], v));
    }
  }

  /** A load follows the store that passes the queue by. */
  lemma LoadFollowsStore(c: Config, y: System, x: PathInput)
    requires IssuesLoad(x) && x.storeReady && x.mem.dtlbHit && LoadUnitIdle(c, y) && !Full(y.path.unit)
    requires y.path.queue == EMPTY_QUEUE && y.path.store.fsm == StoreIdle && HeadIsStore(y.path)
    ensures Environment(c, y.path, y.ledger, x)
    ensures var y' := NextSystem(c, y, x);
            && Shaped(c, y'.path) && y'.path.unit.fsm == Idle && !Full(y'.path.unit) && y'.ledger.tag.None?
            && Clean(c, y'.path) && y'.path.queue.count == 0 && HeadIsLoad(y'.path) && y'.path.store.fsm == ValidStore
  {
    IdleCycle(c, y, x);
    StaysFree(c, y.path.unit, UnitInput(y.path, x));
  }

  /** The load is requested, without a grant, in the cycle in which the exception of the store removes it; another
      one takes its place. */
  lemma WrongLoadRemoved(c: Config, y: System, x: PathInput)
    requires IssuesLoad(x) && x.mem.exValid && !x.mem.pageOffsetMatches && !x.mem.dataGnt
    requires Clean(c, y.path) && y.path.unit.fsm == Idle && !Full(y.path.unit) && y.ledger.tag.None?
    requires y.path.queue.count == 0 && HeadIsLoad(y.path) && y.path.store.fsm == ValidStore
    ensures Environment(c, y.path, y.ledger, x)
    ensures var y' := NextSystem(c, y, x);
            Shaped(c, y'.path) && y'.path.unit.fsm == WaitGnt && HeadIsLoad(y'.path)
    ensures Removed(QueueStep(c, y.path, x)) == 1
  {
    UngrantedWaits(c, y.path.unit, y.ledger, UnitInput(y.path, x));
  }

  lemma UngrantedWaits(c: Config, s: State, l: Ledger, i: Input)
    requires WellFormed(c, s) && IdInRange(c, i) && s.fsm == Idle && !Full(s) && l.tag.None?
    requires i.valid && !i.flush && !i.pageOffsetMatches && !i.dataGnt && !i.dataRvalid
    ensures CacheContract(l, i, Outputs(c, s, i)) && !Pops(c, s, i) && Next(c, s, i).fsm == WaitGnt
  {
  }

  const STALE_LOAD := [QUIET.(issue := QUIET.issue.(valid := true, fu := StoreFu))]
                      + [QUIET.(issue := QUIET.issue.(valid := true, fu := LoadFu))]
                      + [QUIET.(issue := QUIET.issue.(valid := true, fu := LoadFu), mem := QUIET.mem.(exValid := true))]

  lemma StaleLoadRuns(c: Config, y: System, x0: PathInput, x1: PathInput, x2: PathInput)
    requires LoadUnitIdle(c, y) && !Full(y.path.unit)
    requires y.path.queue == EMPTY_QUEUE && y.path.store.fsm == StoreIdle && !y.path.issued.valid
    requires IssuesStore(x0) && IssuesLoad(x1) && x1.storeReady && x1.mem.dtlbHit
    requires IssuesLoad(x2) && x2.mem.exValid && !x2.mem.pageOffsetMatches && !x2.mem.dataGnt
    ensures Run(c, y, [x0] + [x1] + [x2])
    ensures var y' := Final(c, y, [x0] + [x1] + [x2]);
            && Shaped(c, y'.path) && y'.path.unit.fsm == WaitGnt && HeadIsLoad(y'.path)
            && !SightAfter(c, y, [x0] + [x1] + [x2], NOTHING_SEEN).head
  {
    FirstCycle(c, y, x0);
    StaysFree(c, y.path.unit, UnitInput(y.path, x0));
    ExtendRun(c, y, [], x0);
    EmptyConcat([x0]);
    LoadFollowsStore(c, Final(c, y, [x0]), x1);
    ExtendRun(c, y, [x0], x1);
    WrongLoadRemoved(c, Final(c, y, [x0] + [x1]), x2);
    ExtendRun(c, y, [x0] + [x1], x2);
    SightExtends(c, y, [x0] + [x1], x2, NOTHING_SEEN);
  }

  /** After an over-pop a load can be requested that matches a page offset and never showed otherwise: the unit waits for
      the grant of the load that the exception of a store has removed. That load is younger than the store, and is
      flushed with it. */
  lemma StaleLoadIsRequested(c: Config, watched: nat, x: PathInput)
    requires 0 < c.entries && x.mem.pageOffsetMatches && IdInRange(c, x.mem)
    ensures Run(c, ResetSystem(c, watched), STALE_LOAD)
    ensures var y := Final(c, ResetSystem(c, watched), STALE_LOAD);
            && Shaped(c, y.path) && HeadIsLoad(y.path) && Outputs(c, y.path.unit, UnitInput(y.path, x)).dataReq
            && !SightAfter(c, ResetSystem(c, watched), STALE_LOAD, NOTHING_SEEN).head
  {
    assert !ResetState(c).valid[0];
    StaleLoadRuns(
      c, ResetSystem(c, watched), QUIET.(issue := QUIET.issue.(valid := true, fu := StoreFu)),
      QUIET.(issue := QUIET.issue.(valid := true, fu := LoadFu)),
      QUIET.(issue := QUIET.issue.(valid := true, fu := LoadFu), mem := QUIET.mem.(exValid := true)));
  }

  // ---------------------------------------------------------------- translation and idempotence

  /** The page of the load may be read early, or the load is alone: both buffers are clear and it is at commit. */
  predicate MayBeRead(c: Config, i: Input) {
    c.nonIdempotent && i.pageNonIdempotent ==>
      i.wbufferNotNi && i.storeBufferEmpty && i.commitTransId == i.request.transId
  }

  /** A granted load leaves the queue exactly if it is translated and may be read; any other removal is that of an
      exception met while waiting for the translation, in a cycle without an answer. */
  lemma PopsIff(c: Config, s: State, i: Input)
    requires WellFormed(c, s) && IdInRange(c, i)
    ensures var o := Outputs(c, s, i);
            if o.dataReq && i.dataGnt then o.popLd <==> (c.mmu ==> i.dtlbHit) && MayBeRead(c, i)
            else o.popLd <==> (c.mmu || c.nonIdempotent) && s.fsm == WaitTranslation && i.exValid && !i.dataRvalid
  {
  }

  /** A load removed with a grant is translated, and safe to read; one removed without has an exception; and none is
      requested or removed without asking for its translation, nor any asked for without a load. */
  ghost predicate RemovalIsSafe(c: Config, y: System, x: PathInput)
    requires Shaped(c, y.path) && IdInRange(c, x.mem)
  {
    var i := UnitInput(y.path, x);
    var o := Outputs(c, y.path.unit, i);
    && (o.popLd && o.dataReq ==> i.dataGnt && (c.mmu ==> i.dtlbHit) && MayBeRead(c, i))
    && (o.popLd && !o.dataReq ==> i.exValid)
    && (o.popLd || o.dataReq ==> o.translationReq)
    && (y.events.fault.None? && o.translationReq ==> HeadIsLoad(y.path))
  }

  lemma RemovalSafe(c: Config, y: System, x: PathInput)
    requires SystemInvariant(c, y) && IdInRange(c, x.mem)
    ensures RemovalIsSafe(c, y, x)
  {
    PopsIff(c, y.path.unit, UnitInput(y.path, x));
  }

  lemma RemovalsAreSafe(c: Config, watched: nat, xs: seq<PathInput>, x: PathInput)
    requires 0 < c.entries && Run(c, ResetSystem(c, watched), xs) && IdInRange(c, x.mem)
    ensures Shaped(c, Final(c, ResetSystem(c, watched), xs).path)
    ensures RemovalIsSafe(c, Final(c, ResetSystem(c, watched), xs), x)
  {
    Reached(c, watched, xs);
    RemovalSafe(c, Final(c, ResetSystem(c, watched), xs), x);
  }

  // ---------------------------------------------------------------- loads that were refused

  /** The unit asks for a translation and nothing else; an exception in a cycle without an answer removes the load and
      is written back under its id. */
  predicate AsksTranslation(i: Input, o: Output) {
    && o.translationReq && !o.dataReq && !o.killReq && !o.tagValid
    && (o.popLd <==> i.exValid && !i.dataRvalid)
    && (o.popLd && i.valid ==> o.valid && o.exValid && o.transId == i.request.transId)
  }

  /** A load is looked at as if for the first time: it is requested exactly if a slot is free, or being freed where
      there is only one, and no page offset matches. */
  predicate LooksAfresh(c: Config, s: State, i: Input, o: Output) {
    o.dataReq <==> i.valid && !i.pageOffsetMatches
                   && ((exists k | 0 <= k < |s.valid| :: !s.valid[k]) || (c.entries == 1 && i.dataRvalid))
  }

  lemma IdleLooksAfresh(c: Config, s: State, i: Input)
    requires WellFormed(c, s) && IdInRange(c, i) && s.fsm in {Idle, SendTag}
    ensures LooksAfresh(c, s, i, Outputs(c, s, i))
  {
  }

  /** A load granted without a translation asks for it from the second cycle on. */
  lemma RefusedForTranslation(c: Config, s: State, i: Input, i1: Input, i2: Input)
    requires WellFormed(c, s) && IdInRange(c, i) && IdInRange(c, i2) && Outputs(c, s, i).dataReq && i.dataGnt
    requires c.mmu && !i.dtlbHit && !i.flush && !i1.flush
    ensures var s2 := Next(c, Next(c, s, i), i1);
            s2.fsm == WaitTranslation && AsksTranslation(i2, Outputs(c, s2, i2))
  {
  }

  /** It goes on asking until the hit, and is requested in the next cycle, whatever its page offset; behind an
      exception the unit looks afresh. */
  lemma AsksUntilHit(c: Config, s: State, i: Input, i': Input)
    requires WellFormed(c, s) && IdInRange(c, i') && s.fsm == WaitTranslation && (c.mmu || c.nonIdempotent) && !i.flush
    ensures var s' := Next(c, s, i);
            if i.exValid then LooksAfresh(c, s', i', Outputs(c, s', i'))
            else if i.dtlbHit then Outputs(c, s', i').dataReq
            else s'.fsm == WaitTranslation && AsksTranslation(i', Outputs(c, s', i'))
  {
    if i.exValid {
      IdleLooksAfresh(c, Next(c, s, i), i');
    }
  }

  /** A load granted that may not yet be read is silent for two cycles, the first of them killing the request; if the write
      buffer is clear in the second, it asks for its translation again, and else the unit looks afresh. */
  lemma RefusedForOrder(c: Config, s: State, i: Input, i1: Input, i2: Input, i3: Input)
    requires WellFormed(c, s) && IdInRange(c, i) && IdInRange(c, i2) && IdInRange(c, i3)
    requires Outputs(c, s, i).dataReq && i.dataGnt && (c.mmu ==> i.dtlbHit) && !MayBeRead(c, i)
    requires !i.flush && !i1.flush && !i2.flush
    ensures var s2 := Next(c, Next(c, s, i), i1);
            var s3 := Next(c, s2, i2);
            var o2, o3 := Outputs(c, s2, i2), Outputs(c, s3, i3);
            && !o2.dataReq && !o2.translationReq && !o2.popLd && !o2.killReq
            && if i2.wbufferNotNi then s3.fsm == WaitTranslation && AsksTranslation(i3, o3) else LooksAfresh(c, s3, i3, o3)
  {
    var s3 := Next(c, Next(c, Next(c, s, i), i1), i2);
    if !i2.wbufferNotNi {
      IdleLooksAfresh(c, s3, i3);
    }
  }
}
