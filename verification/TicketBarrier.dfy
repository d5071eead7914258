/** The ticket-counter barrier (corev_apu/openpiton/bootrom/linux/src/smp.h), for any number of harts,
    one memory access a step, sequentially consistent. */
module TicketBarriers {

  import opened Barriers

  datatype Pc = Before | Working | WaitingTurn | Swapping | WaitingAll | Passed

  /** n harts exist; the last loop waits for the counter to equal maxHarts. */
  datatype Params = Params(n: nat, maxHarts: nat, leader: nat)

  datatype State = State(pc: seq<Pc>, counter: nat)

  ghost predicate ParamsOk(c: Params) {
    0 < c.n && c.leader < c.n
  }

  function Initial(c: Params): State {
    State(seq(c.n, _ => Before), 0)
  }

  /** One step of hart h; the swap stores one more than the counter value read, which was h. */
  function Step(c: Params, s: State, h: nat): State {
    if h >= |s.pc| then s else
    match s.pc[h]
    case Before => s.(pc := s.pc[h := if h == c.leader then Working else WaitingTurn])
    case Working => s.(pc := s.pc[h := WaitingTurn])
    case WaitingTurn => if s.counter == h then s.(pc := s.pc[h := Swapping]) else s
    case Swapping => State(s.pc[h := WaitingAll], h + 1)
    case WaitingAll => if s.counter == c.maxHarts then s.(pc := s.pc[h := Passed]) else s
    case Passed => s
  }

  function StandOf(p: Pc): Stand {
    match p
    case Before => Outside
    case Working => Outside
    case Passed => Through
    case _ => Inside
  }

  function View(s: State): seq<Stand> {
    Stands(s.pc, StandOf)
  }

  // ---------------------------------------------------------------- invariant

  predicate HasSwapped(s: State, h: nat)
    requires h < |s.pc|
  {
    s.pc[h].WaitingAll? || s.pc[h].Passed?
  }

  /** The counter counts the harts that have swapped, which are the lowest ones; only the hart whose
      number it shows can be between its id check and its swap. */
  ghost predicate HartOk(c: Params, s: State, h: nat)
    requires h < |s.pc|
  {
    && (HasSwapped(s, h) <==> h < s.counter)
    && (s.pc[h].Swapping? ==> h == s.counter)
    && (s.pc[h].Working? ==> h == c.leader)
    && (s.pc[h].Passed? ==> 0 < c.maxHarts <= s.counter)
  }

  ghost predicate Invariant(c: Params, s: State) {
    && ParamsOk(c)
    && |s.pc| == c.n && s.counter <= c.n
    && forall h | 0 <= h < c.n :: HartOk(c, s, h)
  }

  lemma InitialInvariant(c: Params)
    requires ParamsOk(c)
    ensures Invariant(c, Initial(c))
  {
  }

  lemma StepInvariant(c: Params, s: State, h: nat)
    requires Invariant(c, s) && h < c.n
    ensures Invariant(c, Step(c, s, h))
  {
    var s' := Step(c, s, h);
    assert HartOk(c, s, h);
    forall j | 0 <= j < c.n ensures HartOk(c, s', j) {
      assert HartOk(c, s, j);
      assert HasSwapped(s', j) <==> j < s'.counter;
    }
  }

  /** At most one hart is between its id check and its swap. */
  lemma OneHartSwaps(c: Params, s: State, h: nat, j: nat)
    requires Invariant(c, s) && h < c.n && j < c.n && s.pc[h].Swapping? && s.pc[j].Swapping?
    ensures h == j == s.counter
  {
    assert HartOk(c, s, h) && HartOk(c, s, j);
  }

  // The protocol as functions of the state, for the scheduling results.

  ghost function Stepper(c: Params): (State, nat) -> State {
    (s, h: nat) => Step(c, s, h)
  }

  ghost function Kept(c: Params): State -> bool {
    s => Invariant(c, s)
  }

  ghost function KeptSafe(c: Params): State -> bool {
    s => Invariant(c, s) && Safe(c)
  }

  ghost function Remaining(c: Params): State -> nat {
    s => Measure(c, s)
  }

  // ---------------------------------------------------------------- refinement

  /** Where the barrier is safe: the loop bound is not below the hart count, or is the zero that the
      counter never shows again. */
  predicate Safe(c: Params) {
    c.maxHarts == 0 || c.n <= c.maxHarts
  }

  /** Whoever passes there finds that every hart has arrived. */
  lemma AllArrivedAtPass(c: Params, s: State, h: nat)
    requires Invariant(c, s) && Safe(c) && h < c.n && s.pc[h].WaitingAll? && s.counter == c.maxHarts
    ensures forall j: nat | j < c.n :: HasArrived(View(s), j)
  {
    assert HartOk(c, s, h);
    forall j: nat | j < c.n ensures HasArrived(View(s), j) {
      assert HartOk(c, s, j);
      assert HasSwapped(s, j);
    }
  }

  /** There each step of a hart is a step of the abstract barrier or leaves it alone. */
  lemma StepRefines(c: Params, s: State, h: nat)
    requires Invariant(c, s) && Safe(c) && h < c.n
    ensures BarrierStep(c.n, c.leader, h, BarrierOf(c.leader, View(s)), BarrierOf(c.leader, View(Step(c, s, h))))
  {
    var to := StandOf(Step(c, s, h).pc[h]);
    assert HartOk(c, s, h);
    assert View(Step(c, s, h)) == View(s)[h := to];
    if to == Through && !HasPassed(View(s), h) {
      AllArrivedAtPass(c, s, h);
    }
    StandStep(c.n, c.leader, h, View(s), to);
  }

  lemma Simulation(c: Params)
    requires ParamsOk(c)
    ensures Simulates(c.n, c.leader, Stepper(c), KeptSafe(c), View)
  {
    forall s: State, h: nat | Invariant(c, s) && Safe(c) && h < c.n
      ensures Invariant(c, Step(c, s, h))
      ensures BarrierStep(c.n, c.leader, h, BarrierOf(c.leader, View(s)), BarrierOf(c.leader, View(Step(c, s, h))))
    {
      StepInvariant(c, s, h);
      StepRefines(c, s, h);
    }
  }

  /** On every schedule nobody passes early, because the run is one of the abstract barrier. */
  lemma SafeRun(c: Params, hs: seq<nat>)
    requires ParamsOk(c) && Safe(c) && IsSchedule(c.n, hs)
    ensures SafeStands(View(Execute(Stepper(c), Initial(c), hs)))
  {
    InitialInvariant(c);
    Simulation(c);
    SimulationIsClosed(c.n, c.leader, Stepper(c), KeptSafe(c), View, Initial(c), hs);
  }

  // ---------------------------------------------------------------- progress

  function Rank(p: Pc): nat {
    match p
    case Before => 5
    case Working => 4
    case WaitingTurn => 3
    case Swapping => 2
    case WaitingAll => 1
    case Passed => 0
  }

  function Ranks(s: State): seq<nat> {
    seq(|s.pc|, h requires 0 <= h < |s.pc| => Rank(s.pc[h]))
  }

  function Measure(c: Params, s: State): nat {
    Sum(Ranks(s))
  }

  ghost predicate Done(s: State) {
    AllPassed(View(s))
  }

  lemma StepDescends(c: Params, s: State, h: nat)
    requires Invariant(c, s) && h < c.n
    ensures Step(c, s, h) == s || Measure(c, Step(c, s, h)) < Measure(c, s)
  {
    var s' := Step(c, s, h);
    if s' != s {
      var r := Rank(s'.pc[h]);
      assert Ranks(s') == Ranks(s)[h := r];
      SumUpdate(Ranks(s), h, r);
    }
  }

  /** While some hart has not passed, some hart can move: the one whose turn it is, or a waiting one. */
  lemma SomeHartMoves(c: Params, s: State) returns (h: nat)
    requires Invariant(c, s) && c.maxHarts == c.n && !Done(s)
    ensures h < c.n && Step(c, s, h) != s
  {
    if s.counter < c.n {
      h := s.counter;
      assert HartOk(c, s, h);
    } else {
      h :| h < c.n && !HasPassed(View(s), h);
      assert HartOk(c, s, h);
    }
  }

  lemma IsProgressive(c: Params)
    requires ParamsOk(c) && c.maxHarts == c.n
    ensures Progressive(c.n, Stepper(c), Kept(c), Done, Remaining(c))
  {
    var step := Stepper(c);
    forall s: State, h: nat | Invariant(c, s) && h < c.n
      ensures Invariant(c, Step(c, s, h)) && (Step(c, s, h) == s || Measure(c, Step(c, s, h)) < Measure(c, s))
      ensures Done(s) ==> Step(c, s, h) == s
    {
      StepInvariant(c, s, h);
      StepDescends(c, s, h);
      if Done(s) {
        assert HasPassed(View(s), h);
      }
    }
    forall s: State | Invariant(c, s) && !Done(s) ensures exists h: nat :: h < c.n && step(s, h) != s {
      var h := SomeHartMoves(c, s);
      assert step(s, h) != s;
    }
  }

  /** No deadlock: under fair scheduling every hart leaves the barrier within a known number of rounds. */
  lemma EveryHartPasses(c: Params, rounds: seq<seq<nat>>)
    requires ParamsOk(c) && c.maxHarts == c.n
    requires forall k | 0 <= k < |rounds| :: IsRound(c.n, rounds[k])
    requires c.n * 5 <= |rounds|
    ensures Done(ExecuteRounds(Stepper(c), Initial(c), rounds))
  {
    InitialInvariant(c);
    IsProgressive(c);
    assert Ranks(Initial(c)) == seq(c.n, _ => 5);
    SumConstant(c.n, 5);
    FairRunsFinish(c.n, Stepper(c), Kept(c), Done, Remaining(c), Initial(c), rounds);
  }

  // ---------------------------------------------------------------- why the bound must be the hart count

  /** No hart can change anything, and some hart has not passed. */
  ghost predicate Stuck(c: Params, s: State) {
    !Done(s) && forall h: nat | h < c.n :: Step(c, s, h) == s
  }

  /** The state in which the first k harts have taken their turn and the rest have not arrived. */
  function TurnsTaken(c: Params, k: nat): State
    requires k <= c.n
  {
    State(seq(c.n, h requires 0 <= h < c.n => if h < k then WaitingAll else Before), k)
  }

  /** The steps that bring hart h from its arrival to the last loop. */
  function Turn(c: Params, h: nat): seq<nat> {
    if h == c.leader then [h, h, h, h] else [h, h, h]
  }

  lemma TurnTaken(c: Params, k: nat)
    requires ParamsOk(c) && k < c.n
    ensures Execute(Stepper(c), TurnsTaken(c, k), Turn(c, k)) == TurnsTaken(c, k + 1)
  {
    var s := TurnsTaken(c, k);
    var s1 := Step(c, s, k);
    var waiting := s.(pc := s.pc[k := WaitingTurn]);
    var s2 := Step(c, waiting, k);
    var s3 := Step(c, s2, k);
    assert s2 == s.(pc := s.pc[k := Swapping]);
    assert s3 == TurnsTaken(c, k + 1);
    assert Execute(Stepper(c), s2, [k]) == s3;
    assert Execute(Stepper(c), waiting, [k, k]) == s3;
    if k == c.leader {
      assert Step(c, s1, k) == waiting;
      assert [k, k, k, k][1..] == [k, k, k] && [k, k, k][1..] == [k, k];
      assert Execute(Stepper(c), s1, [k, k, k]) == s3;
    } else {
      assert s1 == waiting;
      assert [k, k, k][1..] == [k, k];
    }
  }

  lemma {:induction false} AllTakeTurns(c: Params, k: nat) returns (hs: seq<nat>)
    requires ParamsOk(c) && k <= c.n
    ensures IsSchedule(c.n, hs) && Execute(Stepper(c), Initial(c), hs) == TurnsTaken(c, k)
  {
    if k == 0 {
      hs := [];
      assert Initial(c) == TurnsTaken(c, 0);
    } else {
      var earlier := AllTakeTurns(c, k - 1);
      hs := earlier + Turn(c, k - 1);
      TurnTaken(c, k - 1);
      ExecuteConcat(Stepper(c), Initial(c), earlier, Turn(c, k - 1));
    }
  }

  /** The barrier cannot get stuck on any schedule exactly when the loop bound is the hart count. */
  lemma NeverStuckIffBoundIsHartCount(c: Params)
    requires ParamsOk(c)
    ensures (forall hs | IsSchedule(c.n, hs) :: !Stuck(c, Execute(Stepper(c), Initial(c), hs))) <==> c.maxHarts == c.n
  {
    if c.maxHarts == c.n {
      IsProgressive(c);
      forall hs | IsSchedule(c.n, hs) ensures !Stuck(c, Execute(Stepper(c), Initial(c), hs)) {
        InitialInvariant(c);
        ExecuteDescends(c.n, Stepper(c), Kept(c), Done, Remaining(c), Initial(c), hs);
        var s := Execute(Stepper(c), Initial(c), hs);
        if !Done(s) {
          var h := SomeHartMoves(c, s);
        }
      }
    } else {
      var hs := AllTakeTurns(c, c.n);
      var s := TurnsTaken(c, c.n);
      assert !HasPassed(View(s), 0);
      assert Stuck(c, s);
    }
  }

  /** With a smaller bound the first harts pass while the next has not even arrived. */
  lemma EarlyPass(c: Params) returns (hs: seq<nat>)
    requires ParamsOk(c) && 0 < c.maxHarts < c.n
    ensures IsSchedule(c.n, hs) && !SafeStands(View(Execute(Stepper(c), Initial(c), hs)))
  {
    var earlier := AllTakeTurns(c, c.maxHarts);
    hs := earlier + [0];
    ExecuteConcat(Stepper(c), Initial(c), earlier, [0]);
    var s := TurnsTaken(c, c.maxHarts);
    var last := Step(c, s, 0);
    assert Execute(Stepper(c), s, [0]) == last;
    assert HasPassed(View(last), 0) && !HasArrived(View(last), c.maxHarts);
  }

  /** The barrier is safe on every schedule exactly when the loop bound is zero or not below the hart count. */
  lemma SafeIffBoundCoversHarts(c: Params)
    requires ParamsOk(c)
    ensures (forall hs | IsSchedule(c.n, hs) :: SafeStands(View(Execute(Stepper(c), Initial(c), hs)))) <==> c.maxHarts == 0 || c.n <= c.maxHarts
  {
    if Safe(c) {
      forall hs | IsSchedule(c.n, hs) ensures SafeStands(View(Execute(Stepper(c), Initial(c), hs))) {
        SafeRun(c, hs);
      }
    } else {
      var hs := EarlyPass(c);
    }
  }
}
