/** The abstract one-shot barrier that both boot-ROM barriers implement, and fair scheduling. */
module Barriers {

  /** Harts 0..n-1. The leader is the hart that first runs the single-threaded section; it has
      arrived when it has finished that section. */
  datatype Barrier = Barrier(workDone: bool, arrived: set<nat>, passed: set<nat>)

  ghost predicate AllArrived(n: nat, b: Barrier) {
    forall h | 0 <= h < n :: h in b.arrived
  }

  ghost predicate Arrives(n: nat, leader: nat, h: nat, b: Barrier, b': Barrier) {
    h < n && h !in b.arrived
    && b' == Barrier(b.workDone || h == leader, b.arrived + {h}, b.passed)
  }

  /** A hart passes only when the single-threaded section is over and every hart has arrived. */
  ghost predicate Passes(n: nat, h: nat, b: Barrier, b': Barrier) {
    h < n && h !in b.passed
    && b.workDone && AllArrived(n, b)
    && b' == b.(passed := b.passed + {h})
  }

  ghost predicate BarrierStep(n: nat, leader: nat, h: nat, b: Barrier, b': Barrier) {
    b' == b || Arrives(n, leader, h, b, b') || Passes(n, h, b, b')
  }

  /** What every step of the abstract barrier keeps. */
  ghost predicate Closed(n: nat, b: Barrier) {
    b.passed != {} ==> b.workDone && AllArrived(n, b)
  }

  lemma BarrierStepKeepsClosed(n: nat, leader: nat, h: nat, b: Barrier, b': Barrier)
    requires Closed(n, b) && BarrierStep(n, leader, h, b, b')
    ensures Closed(n, b')
    ensures b.arrived <= b'.arrived && b.passed <= b'.passed && (b.workDone ==> b'.workDone)
  {
  }

  // ---------------------------------------------------------------- where the harts stand

  /** What the program counter of a hart says: before the barrier, waiting at it, or through it. */
  datatype Stand = Outside | Inside | Through

  /** Where all harts stand, from their program counters. */
  function Stands<P>(pc: seq<P>, standOf: P -> Stand): (v: seq<Stand>)
    ensures |v| == |pc| && forall h | 0 <= h < |pc| :: v[h] == standOf(pc[h])
  {
    seq(|pc|, h requires 0 <= h < |pc| => standOf(pc[h]))
  }

  predicate HasArrived(v: seq<Stand>, h: nat)
    requires h < |v|
  {
    v[h] != Outside
  }

  predicate HasPassed(v: seq<Stand>, h: nat)
    requires h < |v|
  {
    v[h] == Through
  }

  ghost predicate AllPassed(v: seq<Stand>) {
    forall h: nat | h < |v| :: HasPassed(v, h)
  }

  /** No hart has passed, or the leader has finished and every hart has arrived. */
  ghost predicate SafeStands(v: seq<Stand>) {
    forall h: nat, j: nat | h < |v| && j < |v| && HasPassed(v, h) :: HasArrived(v, j)
  }

  /** The barrier that the harts make up. */
  ghost function BarrierOf(leader: nat, v: seq<Stand>): Barrier {
    Barrier(
      leader < |v| && HasArrived(v, leader),
      set h: nat | h < |v| && HasArrived(v, h),
      set h: nat | h < |v| && HasPassed(v, h))
  }

  /** A hart that arrives, or passes when all have arrived, or stays, makes a step of the barrier. */
  lemma StandStep(n: nat, leader: nat, h: nat, v: seq<Stand>, to: Stand)
    requires |v| == n && leader < n && h < n
    requires v[h] == to || (v[h] == Outside && to == Inside)
             || (v[h] == Inside && to == Through && forall j: nat | j < n :: HasArrived(v, j))
    ensures BarrierStep(n, leader, h, BarrierOf(leader, v), BarrierOf(leader, v[h := to]))
  {
    var v' := v[h := to];
    var b, b' := BarrierOf(leader, v), BarrierOf(leader, v');
    forall j: nat | j < n && j != h
      ensures HasArrived(v', j) <==> HasArrived(v, j)
      ensures HasPassed(v', j) <==> HasPassed(v, j)
    {
    }
    assert HasArrived(v', h) <==> to != Outside;
    if v[h] == to {
      assert v' == v;
    } else if to == Inside {
      assert b'.arrived == b.arrived + {h} && b'.passed == b.passed;
      assert Arrives(n, leader, h, b, b');
    } else {
      assert b'.arrived == b.arrived && b'.passed == b.passed + {h};
      assert HasArrived(v, leader) && AllArrived(n, b);
      assert Passes(n, h, b, b');
    }
  }

  /** A closed barrier is a safe one. */
  lemma ClosedIsSafe(n: nat, leader: nat, v: seq<Stand>)
    requires |v| == n && Closed(n, BarrierOf(leader, v))
    ensures SafeStands(v)
  {
    forall h: nat, j: nat | h < n && j < n && HasPassed(v, h) ensures HasArrived(v, j) {
      assert h in BarrierOf(leader, v).passed;
      assert j in BarrierOf(leader, v).arrived;
    }
  }

  // ---------------------------------------------------------------- schedules

  /** A schedule names the hart that makes each step. */
  ghost predicate IsSchedule(n: nat, hs: seq<nat>) {
    forall k | 0 <= k < |hs| :: hs[k] < n
  }

  ghost function Execute<S(!new)>(step: (S, nat) -> S, s: S, hs: seq<nat>): S
    decreases |hs|
  {
    if hs == [] then s else Execute(step, step(s, hs[0]), hs[1..])
  }

  lemma {:induction false} ExecuteConcat<S(!new)>(step: (S, nat) -> S, s: S, hs: seq<nat>, ks: seq<nat>)
    ensures Execute(step, s, hs + ks) == Execute(step, Execute(step, s, hs), ks)
    decreases |hs|
  {
    if hs == [] {
      assert hs + ks == ks;
    } else {
      assert (hs + ks)[1..] == hs[1..] + ks;
      ExecuteConcat(step, step(s, hs[0]), hs[1..], ks);
    }
  }

  // ---------------------------------------------------------------- simulation

  /** Steps of a protocol map to steps of the barrier, or leave it alone. */
  ghost predicate Simulates<S(!new)>(n: nat, leader: nat, step: (S, nat) -> S, inv: S -> bool, view: S -> seq<Stand>) {
    && (forall s :: inv(s) ==> |view(s)| == n)
    && forall s, h: nat :: inv(s) && h < n ==>
         inv(step(s, h)) && BarrierStep(n, leader, h, BarrierOf(leader, view(s)), BarrierOf(leader, view(step(s, h))))
  }

  /** The barriers of a run, one before each step and one at the end. */
  ghost predicate BarrierRun(n: nat, leader: nat, hs: seq<nat>, bs: seq<Barrier>) {
    |bs| == |hs| + 1 && forall k | 0 <= k < |hs| :: BarrierStep(n, leader, hs[k], bs[k], bs[k + 1])
  }

  /** Every run of a simulating protocol is a run of the abstract barrier. */
  lemma {:induction false} RunsAreBarrierRuns<S(!new)>(n: nat, leader: nat, step: (S, nat) -> S, inv: S -> bool,
      view: S -> seq<Stand>, s: S, hs: seq<nat>) returns (bs: seq<Barrier>)
    requires Simulates(n, leader, step, inv, view) && inv(s) && IsSchedule(n, hs)
    ensures inv(Execute(step, s, hs)) && BarrierRun(n, leader, hs, bs)
    ensures bs[0] == BarrierOf(leader, view(s)) && bs[|hs|] == BarrierOf(leader, view(Execute(step, s, hs)))
    decreases |hs|
  {
    if hs == [] {
      bs := [BarrierOf(leader, view(s))];
    } else {
      assert hs[0] < n;
      var rest := RunsAreBarrierRuns(n, leader, step, inv, view, step(s, hs[0]), hs[1..]);
      bs := [BarrierOf(leader, view(s))] + rest;
      forall k | 0 <= k < |hs| ensures BarrierStep(n, leader, hs[k], bs[k], bs[k + 1]) {
        if k > 0 {
          assert BarrierStep(n, leader, hs[1..][k - 1], rest[k - 1], rest[k]);
        }
      }
    }
  }

  lemma {:induction false} BarrierRunStaysClosed(n: nat, leader: nat, hs: seq<nat>, bs: seq<Barrier>, k: nat)
    requires BarrierRun(n, leader, hs, bs) && Closed(n, bs[0]) && k <= |hs|
    ensures Closed(n, bs[k])
    ensures bs[0].arrived <= bs[k].arrived && bs[0].passed <= bs[k].passed && (bs[0].workDone ==> bs[k].workDone)
  {
    if k > 0 {
      BarrierRunStaysClosed(n, leader, hs, bs, k - 1);
      BarrierStepKeepsClosed(n, leader, hs[k - 1], bs[k - 1], bs[k]);
    }
  }

  /** So the state that a simulating protocol reaches stands for a closed barrier: nobody has passed early. */
  lemma SimulationIsClosed<S(!new)>(n: nat, leader: nat, step: (S, nat) -> S, inv: S -> bool,
      view: S -> seq<Stand>, s: S, hs: seq<nat>)
    requires Simulates(n, leader, step, inv, view) && inv(s) && IsSchedule(n, hs)
    requires forall h: nat | h < |view(s)| :: !HasPassed(view(s), h)
    ensures inv(Execute(step, s, hs)) && Closed(n, BarrierOf(leader, view(Execute(step, s, hs))))
    ensures SafeStands(view(Execute(step, s, hs)))
  {
    var bs := RunsAreBarrierRuns(n, leader, step, inv, view, s, hs);
    assert bs[0].passed == {};
    BarrierRunStaysClosed(n, leader, hs, bs, |hs|);
    ClosedIsSafe(n, leader, view(Execute(step, s, hs)));
  }

  // ---------------------------------------------------------------- progress

  /** A round lets every hart make at least one step. */
  ghost predicate IsRound(n: nat, hs: seq<nat>) {
    IsSchedule(n, hs) && forall h | 0 <= h < n :: h in hs
  }

  ghost function ExecuteRounds<S(!new)>(step: (S, nat) -> S, s: S, rounds: seq<seq<nat>>): S
    decreases |rounds|
  {
    if rounds == [] then s else ExecuteRounds(step, Execute(step, s, rounds[0]), rounds[1..])
  }

  function Flatten(rounds: seq<seq<nat>>): seq<nat> {
    if rounds == [] then [] else rounds[0] + Flatten(rounds[1..])
  }

  /** Rounds one after another are one schedule. */
  lemma {:induction false} FlattenRounds<S(!new)>(n: nat, step: (S, nat) -> S, s: S, rounds: seq<seq<nat>>)
    requires forall k | 0 <= k < |rounds| :: IsRound(n, rounds[k])
    ensures IsSchedule(n, Flatten(rounds)) && Execute(step, s, Flatten(rounds)) == ExecuteRounds(step, s, rounds)
    decreases |rounds|
  {
    if rounds != [] {
      assert IsRound(n, rounds[0]);
      FlattenRounds(n, step, Execute(step, s, rounds[0]), rounds[1..]);
      ExecuteConcat(step, s, rounds[0], Flatten(rounds[1..]));
    }
  }

  /** The harts by number. */
  function InTurn(n: nat): (round: seq<nat>)
    ensures |round| == n && forall h | 0 <= h < n :: round[h] == h
  {
    seq(n, h requires 0 <= h < n => h)
  }

  lemma InTurnIsRound(n: nat)
    ensures IsRound(n, InTurn(n))
  {
    forall h | 0 <= h < n ensures h in InTurn(n) {
      assert InTurn(n)[h] == h;
    }
  }

  function FairRounds(n: nat, count: nat): (rounds: seq<seq<nat>>)
    ensures |rounds| == count && forall k | 0 <= k < count :: rounds[k] == InTurn(n)
  {
    seq(count, _ => InTurn(n))
  }

  /** A protocol that cannot get stuck: every step keeps the invariant, and either changes nothing or
      lowers the measure; and while it is not done, some hart has a step that changes something. */
  ghost predicate Progressive<S(!new)>(n: nat, step: (S, nat) -> S, inv: S -> bool, done: S -> bool, measure: S -> nat) {
    && (forall s, h: nat :: inv(s) && h < n ==> inv(step(s, h)) && (step(s, h) == s || measure(step(s, h)) < measure(s)))
    && (forall s :: inv(s) && !done(s) ==> exists h: nat :: h < n && step(s, h) != s)
    && (forall s, h: nat :: inv(s) && h < n && done(s) ==> step(s, h) == s)
  }

  lemma {:induction false} ExecuteDescends<S(!new)>(n: nat, step: (S, nat) -> S, inv: S -> bool, done: S -> bool,
      measure: S -> nat, s: S, hs: seq<nat>)
    requires Progressive(n, step, inv, done, measure) && inv(s) && IsSchedule(n, hs)
    ensures inv(Execute(step, s, hs))
    ensures Execute(step, s, hs) == s || measure(Execute(step, s, hs)) < measure(s)
    ensures done(s) ==> Execute(step, s, hs) == s
    decreases |hs|
  {
    if hs != [] {
      assert hs[0] < n;
      ExecuteDescends(n, step, inv, done, measure, step(s, hs[0]), hs[1..]);
    }
  }

  /** A hart that can change something and gets a turn makes the measure drop. */
  lemma {:induction false} TurnDescends<S(!new)>(n: nat, step: (S, nat) -> S, inv: S -> bool, done: S -> bool,
      measure: S -> nat, s: S, hs: seq<nat>, h: nat)
    requires Progressive(n, step, inv, done, measure) && inv(s) && IsSchedule(n, hs)
    requires h in hs && step(s, h) != s
    ensures measure(Execute(step, s, hs)) < measure(s)
    decreases |hs|
  {
    assert hs[0] < n;
    var s' := step(s, hs[0]);
    if s' == s {
      TurnDescends(n, step, inv, done, measure, s, hs[1..], h);
    } else {
      ExecuteDescends(n, step, inv, done, measure, s', hs[1..]);
    }
  }

  /** Under fair scheduling a progressive protocol finishes within as many rounds as its measure. */
  lemma {:induction false} FairRunsFinish<S(!new)>(n: nat, step: (S, nat) -> S, inv: S -> bool, done: S -> bool,
      measure: S -> nat, s: S, rounds: seq<seq<nat>>)
    requires Progressive(n, step, inv, done, measure) && inv(s)
    requires forall k | 0 <= k < |rounds| :: IsRound(n, rounds[k])
    requires measure(s) <= |rounds|
    ensures done(ExecuteRounds(step, s, rounds))
    decreases |rounds|
  {
    if rounds == [] {
      if !done(s) {
        assert false;
      }
    } else {
      var s' := Execute(step, s, rounds[0]);
      assert IsRound(n, rounds[0]);
      ExecuteDescends(n, step, inv, done, measure, s, rounds[0]);
      if done(s) {
        DoneStays(n, step, inv, done, measure, s, rounds);
      } else {
        var h: nat :| h < n && step(s, h) != s;
        TurnDescends(n, step, inv, done, measure, s, rounds[0], h);
        FairRunsFinish(n, step, inv, done, measure, s', rounds[1..]);
      }
    }
  }

  lemma {:induction false} DoneStays<S(!new)>(n: nat, step: (S, nat) -> S, inv: S -> bool, done: S -> bool,
      measure: S -> nat, s: S, rounds: seq<seq<nat>>)
    requires Progressive(n, step, inv, done, measure) && inv(s) && done(s)
    requires forall k | 0 <= k < |rounds| :: IsRound(n, rounds[k])
    ensures ExecuteRounds(step, s, rounds) == s
    decreases |rounds|
  {
    if rounds != [] {
      assert IsRound(n, rounds[0]);
      ExecuteDescends(n, step, inv, done, measure, s, rounds[0]);
      DoneStays(n, step, inv, done, measure, s, rounds[1..]);
    }
  }

  // ---------------------------------------------------------------- sums of ranks

  function Sum(ranks: seq<nat>): nat {
    if ranks == [] then 0 else ranks[0] + Sum(ranks[1..])
  }

  lemma {:induction false} SumUpdate(ranks: seq<nat>, h: nat, r: nat)
    requires h < |ranks|
    ensures Sum(ranks[h := r]) + ranks[h] == Sum(ranks) + r
  {
    if h == 0 {
      assert ranks[0 := r][1..] == ranks[1..];
    } else {
      assert ranks[h := r][1..] == ranks[1..][h - 1 := r];
      SumUpdate(ranks[1..], h - 1, r);
    }
  }

  lemma {:induction false} SumConstant(n: nat, r: nat)
    ensures Sum(seq(n, _ => r)) == n * r
  {
    if n > 0 {
      assert seq(n, _ => r)[1..] == seq(n - 1, _ => r);
      SumConstant(n - 1, r);
    }
  }
}
