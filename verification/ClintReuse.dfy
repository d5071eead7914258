/** A second round of the CLINT barrier (corev_apu/fpga/src/bootrom/src/smp.h): the leader may come back and
    set a word again that another hart is still waiting to see clear. */
module ClintReuse {

  import opened Barriers
  import opened ClintBarriers
  import opened Sequences

  /** A hart that has passed comes before the barrier again. */
  function Again(c: Params, s: State, h: nat): State {
    if h < |s.pc| && s.pc[h].Passed? then s.(pc := s.pc[h := Before]) else Step(c, s, h)
  }

  ghost function Repeater(c: Params): (State, nat) -> State {
    (s, h: nat) => Again(c, s, h)
  }

  ghost predicate SomePassed(s: State) {
    exists h: nat | h < |s.pc| :: HasPassed(View(s), h)
  }

  // ---------------------------------------------------------------- a state that cannot be left

  /** Hart 1 is still checking when its word has been set anew, and no check is past that word. */
  ghost predicate Doomed(c: Params, s: State) {
    && |s.pc| == |s.msip| == c.n && 2 <= c.n && 2 <= c.maxHarts
    && s.msip[1] && s.pc[1].Checking?
    && forall h | 0 <= h < c.n :: !s.pc[h].Passed? && (s.pc[h].Checking? ==> s.pc[h].k <= 1)
  }

  lemma DoomedStep(c: Params, s: State, h: nat)
    requires Doomed(c, s) && h < c.n
    ensures Doomed(c, Again(c, s, h))
  {
  }

  lemma {:induction false} DoomedForever(c: Params, s: State, hs: seq<nat>)
    requires Doomed(c, s) && IsSchedule(c.n, hs)
    ensures Doomed(c, Execute(Repeater(c), s, hs)) && !SomePassed(Execute(Repeater(c), s, hs))
    decreases |hs|
  {
    if hs != [] {
      assert hs[0] < c.n;
      DoomedStep(c, s, hs[0]);
      DoomedForever(c, Again(c, s, hs[0]), hs[1..]);
    }
  }

  // ---------------------------------------------------------------- how to get there

  ghost predicate LeadsToDoom(c: Params, s: State) {
    exists hs :: IsSchedule(c.n, hs) && Doomed(c, Execute(Repeater(c), s, hs))
  }

  lemma StepToDoom(c: Params, s: State, h: nat)
    requires h < c.n && LeadsToDoom(c, Again(c, s, h))
    ensures LeadsToDoom(c, s)
  {
    var hs :| IsSchedule(c.n, hs) && Doomed(c, Execute(Repeater(c), Again(c, s, h), hs));
    RestOfConcat([h], hs);
    EmptyConcat(hs);
    assert ([h] + hs)[1..] == hs;
    assert IsSchedule(c.n, [h] + hs);
  }

  /** Hart 0 leads, the loops reach everybody, and there is somebody else. */
  ghost predicate Crowded(c: Params) {
    ParamsOk(c) && c.leader == 0 && 2 <= c.n <= c.maxHarts
  }

  /** All harts but 0 are at the start of their check. */
  ghost predicate OthersCheck(c: Params, s: State) {
    |s.pc| == |s.msip| == c.n && forall h | 1 <= h < c.n :: s.pc[h] == Checking(0)
  }

  /** Hart 0 releases words 0 and 1 for the second round. */
  lemma SecondRelease(c: Params, s: State)
    requires Crowded(c) && OthersCheck(c, s) && s.pc[0] == Releasing(0)
    ensures LeadsToDoom(c, s)
  {
    var s1 := Again(c, s, 0);
    var s2 := Again(c, s1, 0);
    assert Doomed(c, Execute(Repeater(c), s2, []));
    StepToDoom(c, s1, 0);
    StepToDoom(c, s, 0);
  }

  /** Hart 0 finds every word clear, passes, and comes back. */
  lemma {:induction false} FirstCheck(c: Params, s: State, k: nat)
    requires Crowded(c) && OthersCheck(c, s) && k < c.maxHarts && s.pc[0] == Checking(k)
    requires forall h | 0 <= h < c.n :: !s.msip[h]
    ensures LeadsToDoom(c, s)
    decreases c.maxHarts - k
  {
    var s' := Again(c, s, 0);
    if k + 1 < c.maxHarts {
      FirstCheck(c, s', k + 1);
    } else {
      var s1 := Again(c, s', 0);
      var s2 := Again(c, s1, 0);
      SecondRelease(c, Again(c, s2, 0));
      StepToDoom(c, s2, 0);
      StepToDoom(c, s1, 0);
      StepToDoom(c, s', 0);
    }
    StepToDoom(c, s, 0);
  }

  /** All words have been released, and harts 1 to k - 1 have cleared theirs. */
  function ClearedTo(c: Params, k: nat): State {
    State(seq(c.n, h => if h == 0 then Polling else if h < k then Checking(0) else Before),
          seq(c.n, h => h == 0 || k <= h))
  }

  lemma {:induction false} OthersClear(c: Params, k: nat)
    requires Crowded(c) && 1 <= k <= c.n
    ensures LeadsToDoom(c, ClearedTo(c, k))
    decreases c.n - k
  {
    var s := ClearedTo(c, k);
    var h := if k < c.n then k else 0;
    var s1 := Again(c, s, h);
    var s2 := Again(c, s1, h);
    if k < c.n {
      var s3 := Again(c, s2, h);
      assert s3 == ClearedTo(c, k + 1);
      OthersClear(c, k + 1);
      StepToDoom(c, s2, h);
    } else {
      FirstCheck(c, s2, 0);
    }
    StepToDoom(c, s1, h);
    StepToDoom(c, s, h);
  }

  /** The first release, with everybody else still before the barrier. */
  lemma {:induction false} FirstRelease(c: Params, s: State, k: nat)
    requires Crowded(c) && |s.pc| == |s.msip| == c.n && k < c.maxHarts && s.pc[0] == Releasing(k)
    requires forall h | 1 <= h < c.n :: s.pc[h] == Before
    requires forall h | 0 <= h < c.n :: s.msip[h] <==> h < k
    ensures LeadsToDoom(c, s)
    decreases c.maxHarts - k
  {
    var s' := Again(c, s, 0);
    if k + 1 < c.maxHarts {
      FirstRelease(c, s', k + 1);
    } else {
      assert s' == ClearedTo(c, 1);
      OthersClear(c, 1);
    }
    StepToDoom(c, s, 0);
  }

  // ---------------------------------------------------------------- one hart alone

  /** The word of a hart that is alone is set from its release until it clears it. */
  ghost predicate AloneOk(c: Params, s: State) {
    && c.n == 1 && ParamsOk(c) && |s.pc| == |s.msip| == 1
    && (s.msip[0] <==> s.pc[0] in {Polling, Clearing} || (s.pc[0].Releasing? && s.pc[0].k > 0))
    && (s.pc[0].Releasing? || s.pc[0].Checking? ==> s.pc[0].k < c.maxHarts)
  }

  lemma {:induction false} AloneStaysOk(c: Params, s: State, hs: seq<nat>)
    requires AloneOk(c, s) && IsSchedule(1, hs)
    ensures AloneOk(c, Execute(Repeater(c), s, hs))
    decreases |hs|
  {
    if hs != [] {
      assert hs[0] < 1;
      AloneStaysOk(c, Again(c, s, hs[0]), hs[1..]);
    }
  }

  lemma {:induction false} AlonePasses(c: Params, s: State) returns (hs: seq<nat>)
    requires AloneOk(c, s)
    ensures IsSchedule(1, hs) && SomePassed(Execute(Repeater(c), s, hs))
    decreases Rank(c, s.pc[0])
  {
    if s.pc[0].Passed? {
      hs := [];
      assert HasPassed(View(s), 0);
    } else {
      var rest := AlonePasses(c, Again(c, s, 0));
      hs := [0] + rest;
      assert hs[1..] == rest;
    }
  }

  // ---------------------------------------------------------------- main result

  /** Whatever has happened, some hart can still pass. */
  ghost predicate AlwaysPassable(c: Params) {
    forall hs | IsSchedule(c.n, hs) :: Passable(c, Execute(Repeater(c), Initial(c), hs))
  }

  ghost predicate Passable(c: Params, s: State) {
    exists ks :: IsSchedule(c.n, ks) && SomePassed(Execute(Repeater(c), s, ks))
  }

  /** With hart 0 leading and loops that reach everybody, where one round never fails, round after round can be
      made on every schedule exactly when there is one hart only. */
  lemma ReusableIffAlone(c: Params)
    requires ParamsOk(c) && c.leader == 0 && c.n <= c.maxHarts
    ensures AlwaysPassable(c) <==> c.n == 1
  {
    var s := Initial(c);
    if c.n == 1 {
      forall hs | IsSchedule(c.n, hs) ensures Passable(c, Execute(Repeater(c), s, hs)) {
        AloneStaysOk(c, s, hs);
        var ks := AlonePasses(c, Execute(Repeater(c), s, hs));
      }
    } else {
      var s1 := Again(c, s, 0);
      FirstRelease(c, Again(c, s1, 0), 0);
      StepToDoom(c, s1, 0);
      StepToDoom(c, s, 0);
      var hs :| IsSchedule(c.n, hs) && Doomed(c, Execute(Repeater(c), s, hs));
      var t := Execute(Repeater(c), s, hs);
      forall ks | IsSchedule(c.n, ks) ensures !SomePassed(Execute(Repeater(c), t, ks)) {
        DoomedForever(c, t, ks);
      }
      assert !Passable(c, t);
    }
  }
}
