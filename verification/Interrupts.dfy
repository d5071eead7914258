/** The choice of the interrupt in the decoder (core/decoder.sv) from the enables of the CSR file, against
    the rule of section 3.1.9 of the RISC-V Privileged Architecture. */
module Interrupts {

  import opened CsrFiles
  import opened Options

  /** Pending and enabled; the external interrupt of the supervisor also comes straight from its pin. */
  predicate Pending(s: State, pin: bool, i: nat) {
    i in SUPPORTED && i in s.mie && (i in s.mip || (i == S_EXT && pin))
  }

  /** Both levels in the decoder's order of precedence, lowest first: later assignments win. */
  function Precedence(i: nat): nat {
    if i == M_EXT then 6 else if i == M_SOFT then 5 else if i == M_TIMER then 4
    else if i == S_EXT then 3 else if i == S_SOFT then 2 else 1
  }

  ghost predicate Highest(s: State, pin: bool, i: nat) {
    Pending(s, pin, i) && forall j | Pending(s, pin, j) :: Precedence(j) <= Precedence(i)
  }

  /** global_enable of the CSR file, outside debug mode. */
  predicate GlobalEnable(s: State) {
    (s.mstatus.mie && s.priv == M) || s.priv != M
  }

  /** The gate behind the choice. */
  predicate Gate(s: State, i: nat) {
    GlobalEnable(s) && (i in s.mideleg ==> (s.mstatus.sie && s.priv == S) || s.priv == U)
  }

  /** The choice is the pending interrupt of highest precedence, if the gate lets it through. */
  ghost predicate Chosen(s: State, pin: bool, r: Option<nat>) {
    if r.Some? then Highest(s, pin, r.value) && Gate(s, r.value)
    else forall i | Highest(s, pin, i) :: !Gate(s, i)
  }

  /** An interrupt that is first in line passes unless it is masked: in M by mstatus.mie, and a delegated one
      below U by mstatus.sie; a delegated one never interrupts M. */
  predicate MaskedOff(s: State, i: nat) {
    || (s.priv == M && !s.mstatus.mie)
    || (i in s.mideleg && (s.priv == M || (s.priv == S && !s.mstatus.sie)))
  }

  /** Line i of six, each with those before it down: the fixed order of external, software and timer interrupts,
      the machine's before the supervisor's, on the enable and pending bits and the pin. */
  predicate FirstInLine(s: State, pin: bool, i: nat) {
    var mei, msi, mti := M_EXT in s.mie && M_EXT in s.mip, M_SOFT in s.mie && M_SOFT in s.mip, M_TIMER in s.mie && M_TIMER in s.mip;
    var sei := S_EXT in s.mie && (S_EXT in s.mip || pin);
    var ssi, sti := S_SOFT in s.mie && S_SOFT in s.mip, S_TIMER in s.mie && S_TIMER in s.mip;
    || (i == 11 && mei)
    || (i == 3 && msi && !mei)
    || (i == 7 && mti && !mei && !msi)
    || (i == 9 && sei && !mei && !msi && !mti)
    || (i == 1 && ssi && !mei && !msi && !mti && !sei)
    || (i == 5 && sti && !mei && !msi && !mti && !sei && !ssi)
  }

  /** A choice is the first in line unless that is masked, and then there is none. */
  lemma ChoiceIsFirstInLine(s: State, pin: bool, r: Option<nat>)
    requires Chosen(s, pin, r)
    ensures r.Some? ==> FirstInLine(s, pin, r.value) && !MaskedOff(s, r.value)
    ensures r.None? ==> forall i | FirstInLine(s, pin, i) :: MaskedOff(s, i)
  {
    if r.Some? {
      FirstIsHighest(s, pin, r.value);
    } else {
      forall i | FirstInLine(s, pin, i) ensures MaskedOff(s, i) {
        FirstIsHighest(s, pin, i);
      }
    }
  }

  lemma FirstIsHighest(s: State, pin: bool, i: nat)
    ensures Highest(s, pin, i) <==> FirstInLine(s, pin, i)
  {
    if Highest(s, pin, i) {
      forall j | j in SUPPORTED ensures Pending(s, pin, j) ==> Precedence(j) <= Precedence(i) {
      }
      assert i in {1, 3, 5, 7, 9, 11};
    }
  }

  /** The pin alone interrupts: with the external interrupt of the supervisor enabled, none of the machine's
      both enabled and pending, and the hart below M with either level that takes it open, it is chosen whatever
      the supervisor's pending bits are. */
  lemma PinAloneInterrupts(s: State, r: Option<nat>)
    requires Chosen(s, true, r) && S_EXT in s.mie
    requires M_EXT !in s.mie * s.mip && M_SOFT !in s.mie * s.mip && M_TIMER !in s.mie * s.mip
    requires if S_EXT in s.mideleg then s.priv == U || (s.priv == S && s.mstatus.sie) else s.priv != M || s.mstatus.mie
    ensures r == Some(S_EXT)
  {
    ChoiceIsFirstInLine(s, true, r);
    assert FirstInLine(s, true, S_EXT) && !MaskedOff(s, S_EXT);
  }

  /** The interrupt part of exception_handling: the first in line if it is not masked, and else none. */
  method ChooseInterrupt(s: State, pin: bool) returns (r: Option<nat>)
    ensures Chosen(s, pin, r)
    ensures r.Some? ==> FirstInLine(s, pin, r.value) && !MaskedOff(s, r.value)
    ensures r.None? ==> forall i | FirstInLine(s, pin, i) :: MaskedOff(s, i)
  {
    var cause: Option<nat> := None;
    if S_TIMER in s.mie && S_TIMER in s.mip {
      cause := Some(S_TIMER);
    }
    if S_SOFT in s.mie && S_SOFT in s.mip {
      cause := Some(S_SOFT);
    }
    if S_EXT in s.mie && (S_EXT in s.mip || pin) {
      cause := Some(S_EXT);
    }
    if M_TIMER in s.mip && M_TIMER in s.mie {
      cause := Some(M_TIMER);
    }
    if M_SOFT in s.mip && M_SOFT in s.mie {
      cause := Some(M_SOFT);
    }
    if M_EXT in s.mip && M_EXT in s.mie {
      cause := Some(M_EXT);
    }
    assert cause.Some? ==> Highest(s, pin, cause.value);
    assert cause.None? ==> forall i :: !Pending(s, pin, i);
    r := None;
    if cause.Some? && ((s.mstatus.mie && s.priv == M) || s.priv != M) {
      if cause.value in s.mideleg {
        if (s.mstatus.sie && s.priv == S) || s.priv == U {
          r := cause;
        }
      } else {
        r := cause;
      }
    }
    forall i | Highest(s, pin, i) ensures r.None? ==> !Gate(s, i) {
      assert i == cause.value;
    }
    ChoiceIsFirstInLine(s, pin, r);
  }

  /** Precedence tells supported interrupts apart, so there is at most one choice. */
  lemma ChoiceIsUnique(s: State, pin: bool, r: Option<nat>, q: Option<nat>)
    requires Chosen(s, pin, r) && Chosen(s, pin, q)
    ensures r == q
  {
    if r.Some? && q.Some? {
      assert Precedence(r.value) == Precedence(q.value);
    }
  }

  /** What the decoder knows of an instruction before it looks for interrupts. */
  datatype Decoded = Decoded(earlier: Option<Cause>, illegal: bool, ecall: bool, ebreak: bool)

  function Ecall(p: Priv): Cause {
    Cause(false, match p case U => 8 case S => 9 case M => 11)
  }

  /** exception_handling: an earlier exception stays, an interrupt replaces one of this stage. */
  method ExceptionHandling(s: State, pin: bool, d: Decoded) returns (ex: Option<Cause>)
    ensures d.earlier.Some? ==> ex == d.earlier
    ensures d.earlier.None? ==>
              exists r: Option<nat> :: Chosen(s, pin, r) &&
                ex == if r.Some? then Some(Cause(true, r.value))
                      else if d.illegal then Some(Cause(false, 2))
                      else if d.ecall then Some(Ecall(s.priv))
                      else if d.ebreak then Some(Cause(false, 3)) else None
  {
    ex := d.earlier;
    if d.earlier.None? {
      if d.illegal {
        ex := Some(Cause(false, 2));
      } else if d.ecall {
        ex := Some(Ecall(s.priv));
      } else if d.ebreak {
        ex := Some(Cause(false, 3));
      }
      var r := ChooseInterrupt(s, pin);
      if r.Some? {
        ex := Some(Cause(true, r.value));
      }
    }
  }

  /** After any run an environment call from U is recorded as 8, at S exactly if delegated; one from S as 9 and
      one from M as 11, at M, to which medeleg cannot keep them from going. */
  lemma EcallIsRecorded(zeroTval: bool, ticks: seq<Tick>, t: Tick)
    requires Orderly(t) && t.trap.Some? && t.trap.value.cause == Ecall(Run(zeroTval, RESET_STATE, ticks).priv)
    ensures var s := Run(zeroTval, RESET_STATE, ticks);
            var n := Next(zeroTval, s, t);
            && (s.priv == U && 8 in s.medeleg ==> n.priv == S && n.scause == Cause(false, 8))
            && (s.priv == U && 8 !in s.medeleg ==> n.priv == M && n.mcause == Cause(false, 8))
            && (s.priv == S ==> n.priv == M && n.mcause == Cause(false, 9))
            && (s.priv == M ==> n.priv == M && n.mcause == Cause(false, 11))
  {
    RunReachable(zeroTval, RESET_STATE, ticks);
  }

  // ---------------------------------------------------------------- the rule of the architecture

  /** The level an interrupt is for. */
  function LevelOf(s: State, i: nat): Priv {
    if i in s.mideleg then S else M
  }

  predicate LevelEnabled(s: State, p: Priv) {
    match p
    case M => s.mstatus.mie
    case S => s.mstatus.sie
    case U => false
  }

  /** An interrupt may be taken if it is pending and enabled and its level is above the current one, or
      is the current one with that level's enable bit set. */
  predicate MayTake(s: State, pin: bool, i: nat) {
    Pending(s, pin, i) &&
    (Rank(LevelOf(s, i)) > Rank(s.priv) || (LevelOf(s, i) == s.priv && LevelEnabled(s, s.priv)))
  }

  /** Interrupts for a higher level come first, and within a level the fixed order. */
  predicate ComesFirst(s: State, i: nat, j: nat) {
    Rank(LevelOf(s, i)) > Rank(LevelOf(s, j)) || (LevelOf(s, i) == LevelOf(s, j) && Precedence(i) >= Precedence(j))
  }

  ghost predicate ByTheRule(s: State, pin: bool, r: Option<nat>) {
    if r.Some? then MayTake(s, pin, r.value) && forall j | MayTake(s, pin, j) :: ComesFirst(s, r.value, j)
    else forall i :: !MayTake(s, pin, i)
  }

  /** The gate asks exactly what the rule asks of one interrupt. */
  lemma GateIsTheRule(s: State, pin: bool, i: nat)
    requires Reachable(s) && Pending(s, pin, i)
    ensures Gate(s, i) <==> MayTake(s, pin, i)
  {
  }

  /** In every state reachable since reset: an interrupt that the decoder chooses may be taken; the trap it
      causes goes to the level it is for, which is not below the current one, to S exactly if it is
      delegated and the hart is below M, and for the machine's own interrupts always to M. */
  lemma ChoiceIsSound(zeroTval: bool, ticks: seq<Tick>, pin: bool, i: nat)
    requires Chosen(Run(zeroTval, RESET_STATE, ticks), pin, Some(i))
    ensures var s := Run(zeroTval, RESET_STATE, ticks);
            var to := Target(s, Cause(true, i));
            && MayTake(s, pin, i) && to == LevelOf(s, i)
            && Rank(to) >= Rank(s.priv) && (to == s.priv ==> LevelEnabled(s, to))
            && (to == S <==> i in s.mideleg && s.priv != M)
            && (i !in SUPERVISOR ==> to == M)
  {
    RunReachable(zeroTval, RESET_STATE, ticks);
    GateIsTheRule(Run(zeroTval, RESET_STATE, ticks), pin, i);
  }

  /** mideleg holds, with an interrupt of the supervisor, all of lower precedence. */
  predicate DownwardClosed(mideleg: set<nat>) {
    && (S_EXT in mideleg ==> S_SOFT in mideleg)
    && (S_SOFT in mideleg ==> S_TIMER in mideleg)
  }

  /** With such a mideleg the choice is the one the rule makes. */
  lemma ChoiceIsTheRule(s: State, pin: bool, r: Option<nat>)
    requires Reachable(s) && DownwardClosed(s.mideleg) && Chosen(s, pin, r)
    ensures ByTheRule(s, pin, r)
  {
    if r.Some? {
      GateIsTheRule(s, pin, r.value);
      forall j | MayTake(s, pin, j) ensures ComesFirst(s, r.value, j) {
        assert Precedence(j) <= Precedence(r.value);
        LowerIsDelegated(s, r.value, j);
      }
    } else {
      forall i | Pending(s, pin, i) ensures !MayTake(s, pin, i) {
        var h := TheHighest(s, pin, i);
        assert !Gate(s, h);
        GateIsTheRule(s, pin, h);
        LowerIsDelegated(s, h, i);
      }
    }
  }

  /** Below a delegated interrupt there are only delegated ones. */
  lemma LowerIsDelegated(s: State, i: nat, j: nat)
    requires Reachable(s) && DownwardClosed(s.mideleg)
    requires i in SUPPORTED && j in SUPPORTED && Precedence(j) <= Precedence(i)
    ensures i in s.mideleg ==> j in s.mideleg
  {
    assert s.mideleg <= SUPERVISOR;
  }

  /** If anything is pending, something is of highest precedence. */
  lemma {:induction false} TheHighest(s: State, pin: bool, i: nat) returns (h: nat)
    requires Pending(s, pin, i)
    ensures Highest(s, pin, h)
    decreases 6 - Precedence(i)
  {
    if j :| Pending(s, pin, j) && Precedence(j) > Precedence(i) {
      h := TheHighest(s, pin, j);
    } else {
      h := i;
    }
  }

  /** With any other mideleg the choice, blocked by delegation, can hide an interrupt that the rule would
      take: below S_EXT or S_SOFT one that is not delegated. */
  lemma BlockedChoiceHides(s: State, high: nat, low: nat)
    requires Reachable(s) && s.priv == S && !s.mstatus.sie && s.mie == {high, low} && {high, low} <= s.mip
    requires (high == S_EXT && low == S_SOFT) || (high == S_SOFT && low == S_TIMER)
    requires high in s.mideleg && low !in s.mideleg
    ensures Chosen(s, false, None) && !ByTheRule(s, false, None)
  {
    assert Highest(s, false, high) && !Gate(s, high);
    assert MayTake(s, false, low);
    forall i | Highest(s, false, i) ensures !Gate(s, i) {
      assert Precedence(i) == Precedence(high);
    }
  }

  const NO_TICK := Tick(None, None, false, false, false, false, false)

  predicate AllOrderly(ticks: seq<Tick>) {
    forall k | 0 <= k < |ticks| :: Orderly(ticks[k])
  }

  /** Machine-level software delegates, enables and raises both interrupts, and returns to S. */
  function HidingRun(mideleg: set<nat>, high: nat, low: nat): (ticks: seq<Tick>)
    ensures AllOrderly(ticks)
  {
    [NO_TICK.(write := Some(ToMideleg(mideleg))), NO_TICK.(write := Some(ToMie({high, low}))),
     NO_TICK.(write := Some(ToMip({high, low}))),
     NO_TICK.(write := Some(ToMstatus(RESET_STATE.mstatus.(mpp := S)))), NO_TICK.(mret := true)]
  }

  lemma HidingRunArrives(mideleg: set<nat>, high: nat, low: nat)
    requires mideleg <= SUPERVISOR && high in SUPERVISOR && low in SUPERVISOR
    ensures var s := Run(false, RESET_STATE, HidingRun(mideleg, high, low));
            s.priv == S && !s.mstatus.sie && s.mideleg == mideleg && s.mie == {high, low} && s.mip == {high, low}
  {
    var t := HidingRun(mideleg, high, low);
    var s1 := Next(false, RESET_STATE, t[0]);
    var s2 := Next(false, s1, t[1]);
    var s3 := Next(false, s2, t[2]);
    var s4 := Next(false, s3, t[3]);
    var s5 := Next(false, s4, t[4]);
    RunOfFive(RESET_STATE, t);
    assert s1.mideleg == mideleg && s1.mip == {} && s1.mie == {};
    assert s2.mideleg == mideleg && s2.mie == {high, low} && s2.mip == {};
    assert s3.mideleg == mideleg && s3.mie == {high, low} && s3.mip == {high, low};
    assert s5.mideleg == mideleg && s5.mie == s3.mie && s5.mip == s3.mip;
  }

  lemma RunOfFive(s: State, t: seq<Tick>)
    requires |t| == 5
    ensures Run(false, s, t) == Next(false, Next(false, Next(false, Next(false, Next(false, s, t[0]), t[1]), t[2]), t[3]), t[4])
  {
    assert t == [t[0]] + ([t[1]] + ([t[2]] + ([t[3]] + [t[4]])));
    var s1 := Next(false, s, t[0]);
    var s2 := Next(false, s1, t[1]);
    var s3 := Next(false, s2, t[2]);
    var s4 := Next(false, s3, t[3]);
    RunConcat(false, s, [t[0]], [t[1]] + ([t[2]] + ([t[3]] + [t[4]])));
    RunConcat(false, s1, [t[1]], [t[2]] + ([t[3]] + [t[4]]));
    RunConcat(false, s2, [t[2]], [t[3]] + [t[4]]);
    RunConcat(false, s3, [t[3]], [t[4]]);
    RunOne(false, s, t[0]);
    RunOne(false, s1, t[1]);
    RunOne(false, s2, t[2]);
    RunOne(false, s3, t[3]);
    RunOne(false, s4, t[4]);
  }

  /** The choice after a run, if the run ends with this delegation, is the one the rule makes. */
  ghost predicate RuleKept(mideleg: set<nat>, ticks: seq<Tick>, pin: bool, r: Option<nat>) {
    var s := Run(false, RESET_STATE, ticks);
    s.mideleg == mideleg && Chosen(s, pin, r) ==> ByTheRule(s, pin, r)
  }

  /** The decoder follows the rule after every run that ends with a given delegation exactly when that
      delegation is closed downwards. */
  lemma RuleHoldsIff(mideleg: set<nat>)
    requires mideleg <= SUPERVISOR
    ensures (forall ticks: seq<Tick>, pin: bool, r: Option<nat> :: AllOrderly(ticks) ==> RuleKept(mideleg, ticks, pin, r))
            <==> DownwardClosed(mideleg)
  {
    if DownwardClosed(mideleg) {
      forall ticks: seq<Tick>, pin: bool, r: Option<nat>
        | Run(false, RESET_STATE, ticks).mideleg == mideleg && Chosen(Run(false, RESET_STATE, ticks), pin, r)
        ensures RuleKept(mideleg, ticks, pin, r)
      {
        RunReachable(false, RESET_STATE, ticks);
        ChoiceIsTheRule(Run(false, RESET_STATE, ticks), pin, r);
      }
    } else {
      var high := if S_EXT in mideleg && S_SOFT !in mideleg then S_EXT else S_SOFT;
      var low := if high == S_EXT then S_SOFT else S_TIMER;
      var ticks := HidingRun(mideleg, high, low);
      HidingRunArrives(mideleg, high, low);
      RunReachable(false, RESET_STATE, ticks);
      BlockedChoiceHides(Run(false, RESET_STATE, ticks), high, low);
      assert AllOrderly(ticks) && !RuleKept(mideleg, ticks, false, None);
    }
  }
}
