/** A second round of the ticket barrier (corev_apu/openpiton/bootrom/linux/src/smp.h): nothing ever sets
    the counter back. */
module TicketReuse {

  import opened Arithmetic
  import opened Barriers
  import opened TicketBarriers

  /** The protocol, and how often each hart has passed. */
  datatype Repeated = Repeated(state: State, passes: seq<nat>)

  function Fresh(c: Params): Repeated {
    Repeated(Initial(c), seq(c.n, _ => 0))
  }

  /** A hart that has passed comes before the barrier again. */
  function Again(c: Params, r: Repeated, h: nat): Repeated {
    var s, s' := r.state, Step(c, r.state, h);
    if h >= |s.pc| || h >= |r.passes| then r
    else if s.pc[h].Passed? then r.(state := s.(pc := s.pc[h := Before]))
    else Repeated(s', r.passes[h := r.passes[h] + Bit(h < |s'.pc| && s'.pc[h].Passed?)])
  }

  ghost function Repeater(c: Params): (Repeated, nat) -> Repeated {
    (r, h: nat) => Again(c, r, h)
  }

  /** A hart that has passed is below the counter, and so never gets its turn again. */
  ghost predicate TurnIsOver(r: Repeated, h: nat)
    requires h < |r.state.pc| == |r.passes|
  {
    var p := r.state.pc[h];
    if r.passes[h] == 0 then
      && (p.WaitingAll? <==> h < r.state.counter)
      && (p.Swapping? ==> h == r.state.counter)
      && !p.Passed?
    else
      r.passes[h] == 1 && h < r.state.counter && p in {Passed, Before, Working, WaitingTurn}
  }

  ghost predicate RepeatedOk(c: Params, r: Repeated) {
    && |r.state.pc| == |r.passes| == c.n
    && forall h | 0 <= h < c.n :: TurnIsOver(r, h)
  }

  lemma AgainOk(c: Params, r: Repeated, h: nat)
    requires RepeatedOk(c, r) && h < c.n
    ensures RepeatedOk(c, Again(c, r, h))
  {
    assert TurnIsOver(r, h);
    forall j | 0 <= j < c.n ensures TurnIsOver(Again(c, r, h), j) {
      assert TurnIsOver(r, j);
    }
  }

  lemma {:induction false} RepeatedStaysOk(c: Params, r: Repeated, hs: seq<nat>)
    requires RepeatedOk(c, r) && IsSchedule(c.n, hs)
    ensures RepeatedOk(c, Execute(Repeater(c), r, hs))
    decreases |hs|
  {
    if hs != [] {
      assert hs[0] < c.n;
      AgainOk(c, r, hs[0]);
      RepeatedStaysOk(c, Again(c, r, hs[0]), hs[1..]);
    }
  }

  /** Whatever the loop bound and the schedule, no hart ever passes the barrier a second time. */
  lemma NobodyPassesTwice(c: Params, hs: seq<nat>, h: nat)
    requires ParamsOk(c) && IsSchedule(c.n, hs) && h < c.n
    ensures var r := Execute(Repeater(c), Fresh(c), hs); |r.passes| == c.n && r.passes[h] <= 1
  {
    RepeatedStaysOk(c, Fresh(c), hs);
    assert TurnIsOver(Execute(Repeater(c), Fresh(c), hs), h);
  }
}
