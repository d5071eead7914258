/** The barrier over the CLINT software-interrupt words (corev_apu/fpga/src/bootrom/src/smp.h),
    for any number of harts, one memory access a step, sequentially consistent. */
module ClintBarriers {

  import opened Barriers

  /** Where a hart stands in smp_pause and smp_resume. */
  datatype Pc =
    | Before
    | Working
    | Releasing(k: nat)
    | Polling
    | Clearing
    | Checking(k: nat)
    | Passed

  /** n harts exist; the loops run over maxHarts words, at least one. Words of absent harts read as zero. */
  datatype Params = Params(n: nat, maxHarts: nat, leader: nat)

  datatype State = State(pc: seq<Pc>, msip: seq<bool>)

  ghost predicate ParamsOk(c: Params) {
    0 < c.n && 0 < c.maxHarts && c.leader < c.n
  }

  function Initial(c: Params): State {
    State(seq(c.n, _ => Before), seq(c.n, _ => false))
  }

  function ReadWord(s: State, k: nat): bool {
    k < |s.msip| && s.msip[k]
  }

  function WriteWord(s: State, k: nat, b: bool): seq<bool> {
    if k < |s.msip| then s.msip[k := b] else s.msip
  }

  /** One step of hart h. Polling loops leave the state as it is; in the first of them wfi, the read of mip and
      the branch are one step, because wfi waits for nothing but the word that is polled. */
  function Step(c: Params, s: State, h: nat): State {
    if h >= |s.pc| then s else
    match s.pc[h]
    case Before => s.(pc := s.pc[h := if h == c.leader then Working else Polling])
    case Working => s.(pc := s.pc[h := Releasing(0)])
    case Releasing(k) =>
      State(s.pc[h := if k + 1 < c.maxHarts then Releasing(k + 1) else Polling], WriteWord(s, k, true))
    case Polling => if ReadWord(s, h) then s.(pc := s.pc[h := Clearing]) else s
    case Clearing => State(s.pc[h := Checking(0)], WriteWord(s, h, false))
    case Checking(k) =>
      if ReadWord(s, k) then s
      else s.(pc := s.pc[h := if k + 1 < c.maxHarts then Checking(k + 1) else Passed])
    case Passed => s
  }

  /** A hart has arrived when it waits at the barrier; the leader, when it starts to release. */
  function StandOf(p: Pc): Stand {
    match p
    case Before => Outside
    case Working => Outside
    case Passed => Through
    case _ => Inside
  }

  function View(s: State): seq<Stand> {
    Stands(s.pc, StandOf)
  }

  // ---------------------------------------------------------------- invariant

  /** How many words the leader has released. */
  function Released(c: Params, leader: Pc): nat {
    match leader
    case Before => 0
    case Working => 0
    case Releasing(k) => k
    case _ => c.maxHarts
  }

  predicate Cleared(p: Pc) {
    p.Checking? || p.Passed?
  }

  predicate HasCleared(s: State, k: nat)
    requires k < |s.pc|
  {
    Cleared(s.pc[k])
  }

  /** The words below k that belong to existing harts have been cleared by their owners. */
  ghost predicate ClearedBelow(s: State, k: nat) {
    forall j | 0 <= j < k && j < |s.pc| :: HasCleared(s, j)
  }

  /** For any leader: a word is set from its release until its owner clears it, and only the leader works
      and releases. */
  ghost predicate HartOk(c: Params, s: State, h: nat)
    requires h < |s.pc| == |s.msip| && c.leader < |s.pc|
  {
    var released := Released(c, s.pc[c.leader]);
    && (s.msip[h] <==> h < released && !HasCleared(s, h))
    && (s.pc[h].Clearing? || HasCleared(s, h) ==> h < released)
    && (s.pc[h].Working? || s.pc[h].Releasing? ==> h == c.leader)
    && (s.pc[h].Releasing? || s.pc[h].Checking? ==> s.pc[h].k < c.maxHarts)
  }

  ghost predicate Invariant(c: Params, s: State) {
    && ParamsOk(c)
    && |s.pc| == |s.msip| == c.n
    && forall h | 0 <= h < c.n :: HartOk(c, s, h)
  }

  lemma InitialInvariant(c: Params)
    requires ParamsOk(c)
    ensures Invariant(c, Initial(c))
  {
  }

  lemma StepInvariant(c: Params, s: State, h: nat)
    requires Invariant(c, s) && h < c.n
    ensures Invariant(c, Step(c, s, h))
  {
    assert HartOk(c, s, h) && HartOk(c, s, c.leader);
    forall j | 0 <= j < c.n ensures HartOk(c, Step(c, s, h), j) {
      assert HartOk(c, s, j);
    }
  }

  // ---------------------------------------------------------------- what a check has seen

  /** Where the barrier is safe: hart 0 leads and the loops reach every hart, or another leads and there
      is nobody else but hart 0. */
  predicate Safe(c: Params) {
    if c.leader == 0 then c.n <= c.maxHarts else c.n <= 2
  }

  /** What the check of hart h has established. If hart 0 leads, the words seen were cleared by their
      owners; any other leader has seen at least that of hart 0. */
  ghost predicate CheckOk(c: Params, s: State, h: nat)
    requires h < |s.pc| && 0 < |s.pc|
  {
    if c.leader == 0 then
      && (s.pc[h].Checking? ==> ClearedBelow(s, s.pc[h].k))
      && (s.pc[h].Passed? ==> ClearedBelow(s, c.maxHarts))
    else
      h == c.leader && ((s.pc[h].Checking? && s.pc[h].k > 0) || s.pc[h].Passed?) ==> HasCleared(s, 0)
  }

  ghost predicate SafeInvariant(c: Params, s: State) {
    Invariant(c, s) && Safe(c) && forall h | 0 <= h < c.n :: CheckOk(c, s, h)
  }

  /** What has been cleared stays cleared. */
  lemma ClearedGrows(c: Params, s: State, h: nat, k: nat)
    requires Invariant(c, s) && ClearedBelow(s, k)
    ensures ClearedBelow(Step(c, s, h), k)
  {
    var s' := Step(c, s, h);
    forall j | 0 <= j < k && j < |s'.pc| ensures HasCleared(s', j) {
      assert HasCleared(s, j);
    }
  }

  /** A zero read at position k means that hart k, if it exists, has cleared its word: for word 0
      because it was the first to be set, for the others because hart 0 has released them all. */
  lemma CheckAdvances(c: Params, s: State, h: nat)
    requires SafeInvariant(c, s) && c.leader == 0 && h < c.n && s.pc[h].Checking? && !ReadWord(s, s.pc[h].k)
    ensures ClearedBelow(s, s.pc[h].k + 1)
    ensures ClearedBelow(Step(c, s, h), s.pc[h].k + 1)
  {
    var k := s.pc[h].k;
    assert HartOk(c, s, h) && HartOk(c, s, 0) && CheckOk(c, s, h);
    if k < c.n {
      assert HartOk(c, s, k);
      if k > 0 {
        assert HasCleared(s, 0);
      }
      assert HasCleared(s, k);
    }
    ClearedGrows(c, s, h, k + 1);
  }

  lemma StepCheck(c: Params, s: State, h: nat, j: nat)
    requires SafeInvariant(c, s) && h < c.n && j < c.n
    ensures CheckOk(c, Step(c, s, h), j)
  {
    assert HartOk(c, s, j) && HartOk(c, s, 0) && HartOk(c, s, c.leader) && CheckOk(c, s, j);
    if c.leader == 0 {
      if s.pc[j].Checking? {
        ClearedGrows(c, s, h, s.pc[j].k);
        if h == j && !ReadWord(s, s.pc[h].k) {
          CheckAdvances(c, s, h);
        }
      } else if s.pc[j].Passed? {
        ClearedGrows(c, s, h, c.maxHarts);
      }
    } else if HasCleared(s, 0) {
      assert HasCleared(Step(c, s, h), 0);
    }
  }

  lemma StepSafe(c: Params, s: State, h: nat)
    requires SafeInvariant(c, s) && h < c.n
    ensures SafeInvariant(c, Step(c, s, h))
  {
    StepInvariant(c, s, h);
    forall j | 0 <= j < c.n ensures CheckOk(c, Step(c, s, h), j) {
      StepCheck(c, s, h, j);
    }
  }

  /** Whoever finds the last word clear finds that every hart has arrived. */
  lemma AllArrivedAtPass(c: Params, s: State, h: nat)
    requires SafeInvariant(c, s) && h < c.n && s.pc[h].Checking? && s.pc[h].k + 1 >= c.maxHarts && !ReadWord(s, s.pc[h].k)
    ensures forall j: nat | j < c.n :: HasArrived(View(s), j)
  {
    assert HartOk(c, s, h) && CheckOk(c, s, h) && HartOk(c, s, 0);
    if c.leader == 0 {
      CheckAdvances(c, s, h);
      forall j: nat | j < c.n ensures HasArrived(View(s), j) {
        assert HasCleared(s, j);
      }
    } else {
      assert c.n == 2 && HasCleared(s, 0);
    }
  }

  // The protocol as functions of the state, for the scheduling results.

  ghost function Stepper(c: Params): (State, nat) -> State {
    (s, h: nat) => Step(c, s, h)
  }

  ghost function Kept(c: Params): State -> bool {
    s => Invariant(c, s)
  }

  ghost function KeptSafe(c: Params): State -> bool {
    s => SafeInvariant(c, s)
  }

  ghost function Remaining(c: Params): State -> nat {
    s => Measure(c, s)
  }

  // ---------------------------------------------------------------- refinement

  /** Each step of a hart is a step of the abstract barrier or leaves it alone. */
  lemma StepRefines(c: Params, s: State, h: nat)
    requires SafeInvariant(c, s) && h < c.n
    ensures BarrierStep(c.n, c.leader, h, BarrierOf(c.leader, View(s)), BarrierOf(c.leader, View(Step(c, s, h))))
  {
    var to := StandOf(Step(c, s, h).pc[h]);
    assert HartOk(c, s, h);
    assert View(Step(c, s, h)) == View(s)[h := to];
    if to == Through && !HasPassed(View(s), h) {
      AllArrivedAtPass(c, s, h);
    }
    StandStep(c.n, c.leader, h, View(s), to);
  }

  lemma Simulation(c: Params)
    requires ParamsOk(c)
    ensures Simulates(c.n, c.leader, Stepper(c), KeptSafe(c), View)
  {
    forall s: State, h: nat | SafeInvariant(c, s) && h < c.n
      ensures SafeInvariant(c, Step(c, s, h))
      ensures BarrierStep(c.n, c.leader, h, BarrierOf(c.leader, View(s)), BarrierOf(c.leader, View(Step(c, s, h))))
    {
      StepSafe(c, s, h);
      StepRefines(c, s, h);
    }
  }

  /** On every schedule nobody passes early, because the run is one of the abstract barrier. */
  lemma SafeRun(c: Params, hs: seq<nat>)
    requires ParamsOk(c) && Safe(c) && IsSchedule(c.n, hs)
    ensures SafeStands(View(Execute(Stepper(c), Initial(c), hs)))
  {
    InitialInvariant(c);
    Simulation(c);
    SimulationIsClosed(c.n, c.leader, Stepper(c), KeptSafe(c), View, Initial(c), hs);
  }

  // ---------------------------------------------------------------- progress

  /** Steps a hart has left, polling not counted. */
  function Rank(c: Params, p: Pc): nat {
    match p
    case Before => 2 * c.maxHarts + 4
    case Working => 2 * c.maxHarts + 3
    case Releasing(k) => if k < c.maxHarts then c.maxHarts + 2 + (c.maxHarts - k) else 0
    case Polling => c.maxHarts + 2
    case Clearing => c.maxHarts + 1
    case Checking(k) => if k < c.maxHarts then c.maxHarts - k else 0
    case Passed => 0
  }

  function Ranks(c: Params, s: State): seq<nat> {
    seq(|s.pc|, h requires 0 <= h < |s.pc| => Rank(c, s.pc[h]))
  }

  function Measure(c: Params, s: State): nat {
    Sum(Ranks(c, s))
  }

  ghost predicate Done(s: State) {
    AllPassed(View(s))
  }

  lemma StepDescends(c: Params, s: State, h: nat)
    requires Invariant(c, s) && h < c.n
    ensures Step(c, s, h) == s || Measure(c, Step(c, s, h)) < Measure(c, s)
  {
    var s' := Step(c, s, h);
    assert HartOk(c, s, h);
    if s' != s {
      var r := Rank(c, s'.pc[h]);
      assert Ranks(c, s') == Ranks(c, s)[h := r];
      SumUpdate(Ranks(c, s), h, r);
      assert r < Rank(c, s.pc[h]) == Ranks(c, s)[h];
    }
  }

  /** While some hart has not passed, some hart can move. */
  lemma SomeHartMoves(c: Params, s: State) returns (h: nat)
    requires Invariant(c, s) && c.n <= c.maxHarts && !Done(s)
    ensures h < c.n && Step(c, s, h) != s
  {
    assert HartOk(c, s, c.leader);
    if !HasCleared(s, c.leader) {
      h := c.leader;
    } else if j: nat :| j < c.n && !HasCleared(s, j) {
      assert HartOk(c, s, j);
      h := j;
    } else {
      h :| h < c.n && !HasPassed(View(s), h);
      assert HasCleared(s, h);
      var k := s.pc[h].k;
      if k < c.n {
        assert HasCleared(s, k) && HartOk(c, s, k);
      }
    }
  }

  lemma IsProgressive(c: Params)
    requires ParamsOk(c) && c.n <= c.maxHarts
    ensures Progressive(c.n, Stepper(c), Kept(c), Done, Remaining(c))
  {
    var step := Stepper(c);
    forall s: State, h: nat | Invariant(c, s) && h < c.n
      ensures Invariant(c, Step(c, s, h)) && (Step(c, s, h) == s || Measure(c, Step(c, s, h)) < Measure(c, s))
      ensures Done(s) ==> Step(c, s, h) == s
    {
      StepInvariant(c, s, h);
      StepDescends(c, s, h);
      if Done(s) {
        assert HasPassed(View(s), h);
      }
    }
    forall s: State | Invariant(c, s) && !Done(s) ensures exists h: nat :: h < c.n && step(s, h) != s {
      var h := SomeHartMoves(c, s);
      assert step(s, h) != s;
    }
  }

  lemma InitialMeasure(c: Params)
    ensures Measure(c, Initial(c)) == c.n * (2 * c.maxHarts + 4)
  {
    assert Ranks(c, Initial(c)) == seq(c.n, _ => 2 * c.maxHarts + 4);
    SumConstant(c.n, 2 * c.maxHarts + 4);
  }

  /** No deadlock, whoever leads: under fair scheduling every hart leaves the barrier within a known number of rounds. */
  lemma EveryHartPasses(c: Params, rounds: seq<seq<nat>>)
    requires ParamsOk(c) && c.n <= c.maxHarts
    requires forall k | 0 <= k < |rounds| :: IsRound(c.n, rounds[k])
    requires c.n * (2 * c.maxHarts + 4) <= |rounds|
    ensures Done(ExecuteRounds(Stepper(c), Initial(c), rounds))
  {
    InitialInvariant(c);
    IsProgressive(c);
    InitialMeasure(c);
    FairRunsFinish(c.n, Stepper(c), Kept(c), Done, Remaining(c), Initial(c), rounds);
  }

  /** A hart beyond the loops is never released. */
  lemma {:induction false} NobodyBeyondPasses(c: Params, s: State, hs: seq<nat>)
    requires Invariant(c, s) && c.maxHarts < c.n && IsSchedule(c.n, hs)
    ensures Invariant(c, Execute(Stepper(c), s, hs)) && !Done(Execute(Stepper(c), s, hs))
    decreases |hs|
  {
    if hs == [] {
      assert HartOk(c, s, c.n - 1) && HartOk(c, s, c.leader);
      assert !HasPassed(View(s), c.n - 1);
    } else {
      assert hs[0] < c.n;
      StepInvariant(c, s, hs[0]);
      NobodyBeyondPasses(c, Step(c, s, hs[0]), hs[1..]);
    }
  }

  /** A schedule that gives every hart its fair turns for long enough. */
  ghost predicate LongFair(c: Params, rounds: seq<seq<nat>>) {
    c.n * (2 * c.maxHarts + 4) <= |rounds| && forall k | 0 <= k < |rounds| :: IsRound(c.n, rounds[k])
  }

  /** Every hart passes on every long fair schedule exactly when the loops reach all harts. */
  lemma AllPassIffLoopsReachAll(c: Params)
    requires ParamsOk(c)
    ensures (forall rounds | LongFair(c, rounds) :: Done(ExecuteRounds(Stepper(c), Initial(c), rounds))) <==> c.n <= c.maxHarts
  {
    if c.n <= c.maxHarts {
      forall rounds | LongFair(c, rounds) ensures Done(ExecuteRounds(Stepper(c), Initial(c), rounds)) {
        EveryHartPasses(c, rounds);
      }
    } else {
      var rounds := FairRounds(c.n, c.n * (2 * c.maxHarts + 4));
      InTurnIsRound(c.n);
      InitialInvariant(c);
      FlattenRounds(c.n, Stepper(c), Initial(c), rounds);
      NobodyBeyondPasses(c, Initial(c), Flatten(rounds));
      assert LongFair(c, rounds);
    }
  }

  // ---------------------------------------------------------------- why hart 0 must lead

  /** Hart 0 finds every word clear and passes. */
  lemma {:induction false} CheckThrough(c: Params, s: State, k: nat)
    requires |s.pc| == |s.msip| == c.n && 0 < c.n && k < c.maxHarts
    requires s.pc[0] == Checking(k) && forall j | 0 <= j < c.n :: !s.msip[j]
    ensures Execute(Stepper(c), s, seq(c.maxHarts - k, _ => 0)) == s.(pc := s.pc[0 := Passed])
    decreases c.maxHarts - k
  {
    var s' := Step(c, s, 0);
    assert seq(c.maxHarts - k, _ => 0)[1..] == seq(c.maxHarts - k - 1, _ => 0);
    if k + 1 < c.maxHarts {
      CheckThrough(c, s', k + 1);
      assert s'.pc[0 := Passed] == s.pc[0 := Passed];
    }
  }

  /** With another leader hart 0 is released first, while no other word is set, and passes alone. */
  lemma EarlyPass(c: Params) returns (hs: seq<nat>)
    requires ParamsOk(c) && c.leader != 0 && 3 <= c.n
    ensures IsSchedule(c.n, hs) && !SafeStands(View(Execute(Stepper(c), Initial(c), hs)))
  {
    var s, l := Initial(c), c.leader;
    var s1 := Step(c, Step(c, s, l), l);
    assert s1 == s.(pc := s.pc[l := Releasing(0)]);
    var s2 := Step(c, s1, l);
    var next := if 1 < c.maxHarts then Releasing(1) else Polling;
    assert s2 == State(s.pc[l := next], s.msip[0 := true]);
    var s3 := Step(c, Step(c, s2, 0), 0);
    assert s3 == State(s.pc[l := next][0 := Clearing], s.msip[0 := true]);
    var s4 := Step(c, s3, 0);
    assert s4 == State(s.pc[l := next][0 := Checking(0)], s.msip);
    CheckThrough(c, s4, 0);
    var prefix, rest := [l, l, l, 0, 0, 0], seq(c.maxHarts, _ => 0);
    hs := prefix + rest;
    PrefixSteps(c, s, l);
    ExecuteConcat(Stepper(c), s, prefix, rest);
    var final := Execute(Stepper(c), s, hs);
    var other := if l == 1 then 2 else 1;
    assert HasPassed(View(final), 0) && !HasArrived(View(final), other);
  }

  lemma PrefixSteps(c: Params, s: State, l: nat)
    ensures Execute(Stepper(c), s, [l, l, l, 0, 0, 0])
            == Step(c, Step(c, Step(c, Step(c, Step(c, Step(c, s, l), l), l), 0), 0), 0)
  {
    var s3 := Step(c, Step(c, Step(c, s, l), l), l);
    assert Execute(Stepper(c), s3, [0, 0, 0]) == Step(c, Step(c, Step(c, s3, 0), 0), 0);
    var f := Stepper(c);
    assert [l, l, l, 0, 0, 0][1..] == [l, l, 0, 0, 0] && [l, l, 0, 0, 0][1..] == [l, 0, 0, 0] && [l, 0, 0, 0][1..] == [0, 0, 0];
    assert Execute(f, Step(c, Step(c, s, l), l), [l, 0, 0, 0]) == Execute(f, s3, [0, 0, 0]);
  }

  // ---------------------------------------------------------------- why the loops must reach every hart

  /** The harts that the loops reach, alone. */
  function Reached(c: Params): Params {
    Params(c.maxHarts, c.maxHarts, c.leader)
  }

  /** A state of those harts with the others still before the barrier. */
  function WithAbsent(c: Params, s: State): State
    requires c.maxHarts <= c.n
  {
    State(s.pc + seq(c.n - c.maxHarts, _ => Before), s.msip + seq(c.n - c.maxHarts, _ => false))
  }

  lemma StepWithAbsent(c: Params, s: State, h: nat)
    requires ParamsOk(c) && c.maxHarts < c.n && c.leader < c.maxHarts && h < c.maxHarts
    requires Invariant(Reached(c), s)
    ensures Step(c, WithAbsent(c, s), h) == WithAbsent(c, Step(Reached(c), s, h))
  {
    var a := WithAbsent(c, s);
    assert HartOk(Reached(c), s, h) && a.pc[h] == s.pc[h];
    assert forall k: nat | k < c.maxHarts :: ReadWord(a, k) == ReadWord(s, k);
    var p := Step(Reached(c), s, h).pc[h];
    assert a.pc[h := p] == s.pc[h := p] + seq(c.n - c.maxHarts, _ => Before);
    forall k: nat, b: bool | k < c.maxHarts ensures WriteWord(a, k, b) == WriteWord(s, k, b) + seq(c.n - c.maxHarts, _ => false) {
    }
  }

  lemma {:induction false} RunWithAbsent(c: Params, s: State, hs: seq<nat>)
    requires ParamsOk(c) && c.maxHarts < c.n && c.leader < c.maxHarts && IsSchedule(c.maxHarts, hs)
    requires Invariant(Reached(c), s)
    ensures Execute(Stepper(c), WithAbsent(c, s), hs) == WithAbsent(c, Execute(Stepper(Reached(c)), s, hs))
    decreases |hs|
  {
    if hs != [] {
      assert hs[0] < c.maxHarts;
      StepWithAbsent(c, s, hs[0]);
      StepInvariant(Reached(c), s, hs[0]);
      RunWithAbsent(c, Step(Reached(c), s, hs[0]), hs[1..]);
    }
  }

  /** With hart 0 leading, the harts that the loops reach all pass while another has not even arrived. */
  lemma PassWithoutLast(c: Params) returns (hs: seq<nat>)
    requires ParamsOk(c) && c.leader == 0 && c.maxHarts < c.n
    ensures IsSchedule(c.n, hs) && !SafeStands(View(Execute(Stepper(c), Initial(c), hs)))
  {
    var d := Reached(c);
    hs := AllPassSchedule(d);
    var e := Execute(Stepper(d), Initial(d), hs);
    InitialInvariant(d);
    ExecuteKeepsSize(d, Initial(d), hs);
    RunWithAbsent(c, Initial(d), hs);
    assert WithAbsent(c, Initial(d)) == Initial(c);
    var last := WithAbsent(c, e);
    assert HasPassed(View(e), 0);
    assert HasPassed(View(last), 0) && !HasArrived(View(last), c.n - 1);
  }

  /** A schedule on which all pass. */
  lemma AllPassSchedule(c: Params) returns (hs: seq<nat>)
    requires ParamsOk(c) && c.n <= c.maxHarts
    ensures IsSchedule(c.n, hs) && Done(Execute(Stepper(c), Initial(c), hs))
  {
    var rounds := FairRounds(c.n, c.n * (2 * c.maxHarts + 4));
    InTurnIsRound(c.n);
    FlattenRounds(c.n, Stepper(c), Initial(c), rounds);
    EveryHartPasses(c, rounds);
    hs := Flatten(rounds);
  }

  lemma {:induction false} ExecuteKeepsSize(c: Params, s: State, hs: seq<nat>)
    ensures |Execute(Stepper(c), s, hs).pc| == |s.pc| && |Execute(Stepper(c), s, hs).msip| == |s.msip|
    decreases |hs|
  {
    if hs != [] {
      ExecuteKeepsSize(c, Step(c, s, hs[0]), hs[1..]);
    }
  }

  /** The barrier is safe on every schedule exactly when hart 0 leads and the loops reach every hart, or
      another hart leads and there are no more than two. */
  lemma SafeIffHartZeroLeads(c: Params)
    requires ParamsOk(c)
    ensures (forall hs | IsSchedule(c.n, hs) :: SafeStands(View(Execute(Stepper(c), Initial(c), hs))))
            <==> if c.leader == 0 then c.n <= c.maxHarts else c.n <= 2
  {
    if Safe(c) {
      forall hs | IsSchedule(c.n, hs) ensures SafeStands(View(Execute(Stepper(c), Initial(c), hs))) {
        SafeRun(c, hs);
      }
    } else if c.leader == 0 {
      var hs := PassWithoutLast(c);
    } else {
      var hs := EarlyPass(c);
    }
  }
}
