/** Bounded progress of loads: how soon the load at the head leaves the queue when the cache grants and answers
    within bounds, and how soon a load that was taken is written back. */
module LoadProgress {

  import opened LoadLedgers
  import opened LoadPaths
  import opened LoadUnits
  import opened LsuBypasses

  /** Every outstanding request was granted at most so many cycles ago. */
  ghost predicate AnswersWithin(l: Ledger, answer: nat) {
    forall id | id in l.outstanding :: l.now - l.outstanding[id].cycle <= answer
  }

  /** Nothing holds the head back but the cache: no flush or exception, the TLB hits, no store matches the
      page offset, and the load need not wait for its turn. */
  ghost predicate Calm(c: Config, p: Path, x: PathInput)
    requires Sized(p.queue)
  {
    !x.flush && !x.mem.exValid && x.mem.dtlbHit && !x.mem.pageOffsetMatches && !StallNi(c, UnitInput(p, x))
  }

  /** A request of this cycle goes without a grant. */
  predicate Stands(c: Config, p: Path, x: PathInput)
    requires Sized(p.queue)
  {
    Requests(c, p.unit, UnitInput(p, x)) && !x.mem.dataGnt
  }

  /** Cycles without a flush in which no answer takes longer than answer cycles. */
  ghost predicate AnsweredRun(c: Config, y: System, xs: seq<PathInput>, answer: nat)
    decreases |xs|
  {
    && AnswersWithin(y.ledger, answer)
    && (xs == [] ||
        (&& Environment(c, y.path, y.ledger, xs[0]) && !xs[0].flush
         && AnsweredRun(c, NextSystem(c, y, xs[0]), xs[1..], answer)))
  }

  /** Until the head is removed, calm cycles in which no request stands for grant cycles, of which stood have
      gone by; and no answer takes longer than answer cycles. */
  ghost predicate PromptRun(c: Config, y: System, xs: seq<PathInput>, stood: nat, grant: nat, answer: nat)
    decreases |xs|
  {
    && AnswersWithin(y.ledger, answer)
    && (xs == [] ||
        (&& Environment(c, y.path, y.ledger, xs[0]) && Calm(c, y.path, xs[0])
         && (Stands(c, y.path, xs[0]) ==> stood + 1 < grant)
         && var y', stood' := NextSystem(c, y, xs[0]), if Stands(c, y.path, xs[0]) then stood + 1 else 0;
            if PopsLd(c, y.path, xs[0]) then AnsweredRun(c, y', xs[1..], answer)
            else PromptRun(c, y', xs[1..], stood', grant, answer)))
  }

  /** In one of the cycles an answer is written back for load r. */
  ghost predicate WritesBackWithin(c: Config, y: System, xs: seq<PathInput>, r: Load)
    requires Run(c, y, xs)
    decreases |xs|
  {
    xs != [] &&
    (WritesBack(Outputs(c, y.path.unit, UnitInput(y.path, xs[0])), r)
     || WritesBackWithin(c, NextSystem(c, y, xs[0]), xs[1..], r))
  }

  predicate WritesBack(o: Output, r: Load) {
    o.valid && o.entry == r && o.transId == r.transId
  }

  /** Cycles that a state is away from its next request, the buffer aside. */
  function Lag(f: FsmState): nat {
    match f
    case AbortTransactionNi => 3
    case WaitWbEmpty => 2
    case AbortTransaction => 2
    case WaitTranslation => 1
    case WaitPageOffset => 1
    case WaitFlush => 1
    case _ => 0
  }

  /** How long slot 0 may still be occupied, if the unit has to look for a free slot and there is none. */
  ghost function UntilFree(s: State, l: Ledger, answer: nat): int {
    if s.fsm == WaitFlush then answer + 1
    else if s.fsm in {Idle, SendTag} && Full(s) && 0 in l.outstanding then answer + 1 - (l.now - l.outstanding[0].cycle)
    else 0
  }

  /** An upper bound of the cycles until the head is granted. */
  ghost function Wait(s: State, l: Ledger, stood: nat, grant: nat, answer: nat): int {
    Lag(s.fsm) + UntilFree(s, l, answer) + grant - stood
  }

  /** A request stands only in WAIT_GNT. */
  predicate StoodOk(s: State, stood: nat, grant: nat) {
    (stood > 0 ==> s.fsm == WaitGnt) && stood < grant
  }

  /** Each cycle brings the grant nearer, or removes the head. */
  lemma WaitShrinks(c: Config, s: State, l: Ledger, i: Input, stood: nat, grant: nat, answer: nat)
    requires Invariant(c, s, l) && Admissible(c, s, l, i) && AnswersWithin(l, answer)
    requires AnswersWithin(After(c, s, l, i), answer) && StoodOk(s, stood, grant)
    requires i.valid && !i.flush && !i.exValid && i.dtlbHit && !i.pageOffsetMatches && !StallNi(c, i)
    requires !Pops(c, s, i) && (Requests(c, s, i) && !i.dataGnt ==> stood + 1 < grant)
    ensures var stood' := if Requests(c, s, i) && !i.dataGnt then stood + 1 else 0;
            && StoodOk(Next(c, s, i), stood', grant)
            && Wait(Next(c, s, i), After(c, s, l, i), stood', grant, answer) < Wait(s, l, stood, grant, answer)
  {
    if !Grants(c, s, i) && !Full(s) {
      StaysFree(c, s, i);
    }
  }

  // ---------------------------------------------------------------- the answer

  /** A live load stays where it is until it is answered, and is written back then. */
  lemma LiveUntilAnswered(c: Config, s: State, l: Ledger, i: Input, id: nat)
    requires Invariant(c, s, l) && Admissible(c, s, l, i) && Live(l, id) && !i.flush
    ensures if i.dataRvalid && i.dataRid == id then
              Retires(c, s, i) && Outputs(c, s, i).entry == l.outstanding[id].load
            else
              var l' := After(c, s, l, i);
              Live(l', id) && l'.outstanding[id] == l.outstanding[id] && l'.now == l.now + 1
  {
    WriteBackIffLive(c, s, l, i);
    LiveAfter(c, s, l, i, id);
    if Grants(c, s, i) {
      GrantFindsRoom(c, s, l, i);
    }
  }

  lemma {:induction false} AnsweredRunIsRun(c: Config, y: System, xs: seq<PathInput>, answer: nat)
    requires AnsweredRun(c, y, xs, answer)
    ensures Run(c, y, xs)
    decreases |xs|
  {
    if xs != [] {
      AnsweredRunIsRun(c, NextSystem(c, y, xs[0]), xs[1..], answer);
    }
  }

  /** A load that was taken is written back as soon as the cache has had its time. */
  lemma {:induction false} AnsweredInTime(c: Config, y: System, xs: seq<PathInput>, id: nat, answer: nat)
    requires SystemInvariant(c, y) && Live(y.ledger, id) && AnsweredRun(c, y, xs, answer)
    requires y.ledger.now - y.ledger.outstanding[id].cycle + |xs| > answer
    ensures Run(c, y, xs) && WritesBackWithin(c, y, xs, y.ledger.outstanding[id].load)
    decreases |xs|
  {
    AnsweredRunIsRun(c, y, xs, answer);
    if xs != [] {
      LiveUntilAnswered(c, y.path.unit, y.ledger, UnitInput(y.path, xs[0]), id);
      if !(xs[0].mem.dataRvalid && xs[0].mem.dataRid == id) {
        SystemStep(c, y, xs[0]);
        AnsweredInTime(c, NextSystem(c, y, xs[0]), xs[1..], id, answer);
      }
    }
  }

  // ---------------------------------------------------------------- the whole way

  /** In a calm cycle a load leaves the queue only by being granted, and is live then. */
  lemma PoppedIsLive(c: Config, y: System, x: PathInput)
    requires SystemInvariant(c, y) && Environment(c, y.path, y.ledger, x) && Calm(c, y.path, x) && PopsLd(c, y.path, x)
    ensures var l', w := NextSystem(c, y, x).ledger, WriteIndex(c, y.path.unit, UnitInput(y.path, x));
            && Live(l', w) && l'.outstanding[w].load == HeadOf(y.path).load
            && l'.now - l'.outstanding[w].cycle == 1
  {
  }

  /** A load at the head that is not removed in a calm cycle is still there. */
  lemma HeadRemains(c: Config, y: System, x: PathInput)
    requires Clean(c, y.path) && HeadIsLoad(y.path) && Calm(c, y.path, x) && !PopsLd(c, y.path, x)
    ensures HeadOf(NextPath(c, y.path, x)) == HeadOf(y.path)
  {
    OwnPopsIffNoOverPop(c, y.path, x);
    HeadIsStable(c, y.path, x);
  }

  lemma {:induction false} ServedFrom(c: Config, y: System, xs: seq<PathInput>, stood: nat, grant: nat, answer: nat)
    requires SystemInvariant(c, y) && y.events.fault.None? && HeadIsLoad(y.path)
    requires PromptRun(c, y, xs, stood, grant, answer) && StoodOk(y.path.unit, stood, grant)
    requires |xs| >= Wait(y.path.unit, y.ledger, stood, grant, answer) + answer
    ensures Run(c, y, xs) && WritesBackWithin(c, y, xs, HeadOf(y.path).load)
    decreases |xs|
  {
    var x, y', rest := xs[0], NextSystem(c, y, xs[0]), xs[1..];
    SystemStep(c, y, x);
    if PopsLd(c, y.path, x) {
      PoppedIsLive(c, y, x);
      AnsweredInTime(c, y', rest, WriteIndex(c, y.path.unit, UnitInput(y.path, x)), answer);
    } else {
      WaitShrinks(c, y.path.unit, y.ledger, UnitInput(y.path, x), stood, grant, answer);
      HeadRemains(c, y, x);
      ServedFrom(c, y', rest, if Stands(c, y.path, x) then stood + 1 else 0, grant, answer);
    }
  }

  lemma WaitBound(c: Config, s: State, l: Ledger, grant: nat, answer: nat)
    requires Invariant(c, s, l)
    ensures Wait(s, l, 0, grant, answer) <= grant + answer + 3
  {
  }

  /** After any run that has left the queue in order: if from then on no request stands for grant cycles and no
      answer takes longer than answer cycles, then the load at the head is written back within
      grant + 2 * answer + 3 calm cycles, of which those behind its removal need only be free of a flush. */
  lemma LoadIsServed(c: Config, watched: nat, zs: seq<PathInput>, xs: seq<PathInput>, grant: nat, answer: nat)
    requires 0 < c.entries && Run(c, ResetSystem(c, watched), zs) && 0 < grant
    requires var y := Final(c, ResetSystem(c, watched), zs);
             y.events.fault.None? && Sized(y.path.queue) && HeadIsLoad(y.path) && PromptRun(c, y, xs, 0, grant, answer)
    requires |xs| >= grant + 2 * answer + 3
    ensures var y := Final(c, ResetSystem(c, watched), zs);
            Run(c, y, xs) && WritesBackWithin(c, y, xs, HeadOf(y.path).load)
  {
    Reached(c, watched, zs);
    var y := Final(c, ResetSystem(c, watched), zs);
    WaitBound(c, y.path.unit, y.ledger, grant, answer);
    ServedFrom(c, y, xs, 0, grant, answer);
  }
}
