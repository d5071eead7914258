/** Traps, returns, delegation and the interrupt enables of the CSR file (core/csr_regfile.sv). */
module CsrFiles {

  import opened Options

  datatype Priv = U | S | M

  function Rank(p: Priv): nat {
    match p
    case U => 0
    case S => 1
    case M => 3
  }

  const S_SOFT := 1
  const M_SOFT := 3
  const S_TIMER := 5
  const M_TIMER := 7
  const S_EXT := 9
  const M_EXT := 11

  /** The interrupts of the supervisor, which mideleg can hold, and all that mie can hold. */
  const SUPERVISOR := {S_SOFT, S_TIMER, S_EXT}
  const SUPPORTED := {S_SOFT, M_SOFT, S_TIMER, M_TIMER, S_EXT, M_EXT}

  /** What medeleg can hold: misaligned fetch, breakpoint, environment call from U, the page faults. */
  const DELEGABLE := {0, 3, 8, 12, 13, 15}

  /** xcause: the interrupt bit and the code. */
  datatype Cause = Cause(interrupt: bool, code: nat)

  /** Interrupt enable stack, previous privileges, and the further bits of sstatus and of mstatus. */
  datatype Mstatus = Mstatus(sie: bool, mie: bool, spie: bool, mpie: bool, spp: bool, mpp: Priv, sRest: nat, mRest: nat)

  datatype State = State(
    priv: Priv, mstatus: Mstatus, mepc: nat, mcause: Cause, mtval: nat, sepc: nat, scause: Cause, stval: nat,
    medeleg: set<nat>, mideleg: set<nat>, mie: set<nat>, mip: set<nat>)

  datatype Trap = Trap(cause: Cause, tval: nat, pc: nat)

  /** The CSR written, and the word. */
  datatype Write =
    | ToMstatus(m: Mstatus) | ToSstatus(m: Mstatus) | ToMedeleg(bits: set<nat>) | ToMideleg(bits: set<nat>)
    | ToMie(bits: set<nat>) | ToSie(bits: set<nat>) | ToMip(bits: set<nat>) | ToSip(bits: set<nat>)
    | ToMepc(word: nat) | ToSepc(word: nat) | ToMcause(cause: Cause) | ToScause(cause: Cause)
    | ToMtval(word: nat) | ToStval(word: nat) | ToOther

  /** A cycle: a write that passed its checks, the exception of the commit stage, the returns, the wires. */
  datatype Tick = Tick(write: Option<Write>, trap: Option<Trap>, mret: bool, sret: bool, mExt: bool, mSoft: bool, mTimer: bool)

  /** The commit stage shows the CSR file one instruction, and no CSR instruction with its exception. */
  predicate Orderly(t: Tick) {
    && (t.trap.Some? ==> t.write.None? && !t.mret && !t.sret)
    && (t.mret || t.sret ==> t.write.None?)
    && !(t.mret && t.sret)
  }

  const RESET_STATE := State(M, Mstatus(false, false, false, false, false, U, 0, 0), 0, Cause(false, 0), 0,
                            0, Cause(false, 0), 0, {}, {}, {}, {})

  function Masked(held: set<nat>, mask: set<nat>, word: set<nat>): set<nat> {
    (held - mask) + (word * mask)
  }

  /** sstatus shows the supervisor's part of mstatus only. */
  function SstatusWritten(held: Mstatus, m: Mstatus): Mstatus {
    held.(sie := m.sie, spie := m.spie, spp := m.spp, sRest := m.sRest)
  }

  function Even(word: nat): nat {
    word - word % 2
  }

  function AfterWrite(s: State, w: Write): State {
    match w
    case ToMstatus(m) => s.(mstatus := m)
    case ToSstatus(m) => s.(mstatus := SstatusWritten(s.mstatus, m))
    case ToMedeleg(bits) => s.(medeleg := Masked(s.medeleg, DELEGABLE, bits))
    case ToMideleg(bits) => s.(mideleg := Masked(s.mideleg, SUPERVISOR, bits))
    case ToMie(bits) => s.(mie := Masked(s.mie, SUPPORTED, bits))
    case ToSie(bits) => s.(mie := Masked(s.mie, s.mideleg, bits))
    case ToMip(bits) => s.(mip := Masked(s.mip, SUPERVISOR, bits))
    case ToSip(bits) => s.(mip := Masked(s.mip, {S_SOFT} * s.mideleg, bits))
    case ToMepc(word) => s.(mepc := Even(word))
    case ToSepc(word) => s.(sepc := Even(word))
    case ToMcause(cause) => s.(mcause := cause)
    case ToScause(cause) => s.(scause := cause)
    case ToMtval(word) => s.(mtval := word)
    case ToStval(word) => s.(stval := word)
    case ToOther => s
  }

  function SetBit(bits: set<nat>, b: nat, on: bool): set<nat> {
    if on then bits + {b} else bits - {b}
  }

  /** The machine-level pending bits follow their wires. */
  function WithPins(mip: set<nat>, t: Tick): set<nat> {
    SetBit(SetBit(SetBit(mip, M_EXT, t.mExt), M_SOFT, t.mSoft), M_TIMER, t.mTimer)
  }

  predicate Delegated(s: State, c: Cause) {
    c.code in if c.interrupt then s.mideleg else s.medeleg
  }

  /** The level that takes a trap: supervisor if delegated, but never below the current level. */
  function Target(s: State, c: Cause): Priv {
    if Delegated(s, c) && s.priv != M then S else M
  }

  /** With ZERO_TVAL the value is zero for the causes that have none. */
  function Tval(zeroTval: bool, trap: Trap): nat {
    if zeroTval && (trap.cause.interrupt || trap.cause.code in {2, 3, 8, 9, 11}) then 0 else trap.tval
  }

  /** Trap entry on top of what the cycle did so far; q is the state before the cycle. */
  function AfterTrap(q: State, d: State, zeroTval: bool, trap: Trap): State {
    if Target(q, trap.cause) == S then
      d.(priv := S, mstatus := d.mstatus.(sie := false, spie := q.mstatus.sie, spp := q.priv != U),
         scause := trap.cause, sepc := trap.pc, stval := Tval(zeroTval, trap))
    else
      d.(priv := M, mstatus := d.mstatus.(mie := false, mpie := q.mstatus.mie, mpp := q.priv),
         mcause := trap.cause, mepc := trap.pc, mtval := Tval(zeroTval, trap))
  }

  function AfterMret(q: State, d: State): State {
    d.(priv := q.mstatus.mpp, mstatus := d.mstatus.(mie := q.mstatus.mpie, mpp := U, mpie := true))
  }

  function AfterSret(q: State, d: State): State {
    d.(priv := if q.mstatus.spp then S else U, mstatus := d.mstatus.(sie := q.mstatus.spie, spp := false, spie := true))
  }

  /** The registers after a cycle. */
  function Next(zeroTval: bool, s: State, t: Tick): State {
    var d0 := if t.write.Some? then AfterWrite(s, t.write.value) else s;
    var d1 := d0.(mip := WithPins(d0.mip, t));
    var d2 := if t.trap.Some? then AfterTrap(s, d1, zeroTval, t.trap.value) else d1;
    var d3 := if t.mret then AfterMret(s, d2) else d2;
    if t.sret then AfterSret(s, d3) else d3
  }

  /** epc_o. */
  function Epc(s: State, t: Tick): nat {
    if t.sret then s.sepc else s.mepc
  }

  function Run(zeroTval: bool, s: State, ticks: seq<Tick>): State
    decreases |ticks|
  {
    if ticks == [] then s else Run(zeroTval, Next(zeroTval, s, ticks[0]), ticks[1..])
  }

  class CsrFile {
    const zeroTval: bool
    var priv: Priv
    var mstatus: Mstatus
    var mepc: nat
    var mcause: Cause
    var mtval: nat
    var sepc: nat
    var scause: Cause
    var stval: nat
    var medeleg: set<nat>
    var mideleg: set<nat>
    var mie: set<nat>
    var mip: set<nat>

    ghost function Snapshot(): State
      reads this
    {
      State(priv, mstatus, mepc, mcause, mtval, sepc, scause, stval, medeleg, mideleg, mie, mip)
    }

    constructor (zeroTval: bool)
      ensures Snapshot() == RESET_STATE && this.zeroTval == zeroTval
    {
      this.zeroTval := zeroTval;
      priv, mstatus := M, Mstatus(false, false, false, false, false, U, 0, 0);
      mepc, mcause, mtval := 0, Cause(false, 0), 0;
      sepc, scause, stval := 0, Cause(false, 0), 0;
      medeleg, mideleg, mie, mip := {}, {}, {}, {};
    }

    /** csr_update for a write: the register that the address selects. */
    method Update(w: Write)
      modifies this
      ensures Snapshot() == AfterWrite(old(Snapshot()), w)
    {
      match w {
        case ToMstatus(m) => mstatus := m;
        case ToSstatus(m) => mstatus := mstatus.(sie := m.sie, spie := m.spie, spp := m.spp, sRest := m.sRest);
        case ToMedeleg(bits) => medeleg := (medeleg - DELEGABLE) + (bits * DELEGABLE);
        case ToMideleg(bits) => mideleg := (mideleg - SUPERVISOR) + (bits * SUPERVISOR);
        case ToMie(bits) => mie := (mie - SUPPORTED) + (bits * SUPPORTED);
        case ToSie(bits) => mie := (mie - mideleg) + (bits * mideleg);
        case ToMip(bits) => mip := (mip - SUPERVISOR) + (bits * SUPERVISOR);
        case ToSip(bits) =>
          var mask := {S_SOFT} * mideleg;
          mip := (mip - mask) + (bits * mask);
        case ToMepc(word) => mepc := word - word % 2;
        case ToSepc(word) => sepc := word - word % 2;
        case ToMcause(cause) => mcause := cause;
        case ToScause(cause) => scause := cause;
        case ToMtval(word) => mtval := word;
        case ToStval(word) => stval := word;
        case ToOther =>
      }
    }

    /** Trap entry of a cycle in which nothing else happens to the trap registers. */
    method TakeTrap(trap: Trap)
      modifies this
      ensures Snapshot() == AfterTrap(old(Snapshot()), old(Snapshot()), zeroTval, trap)
    {
      var to := M;
      if (trap.cause.interrupt && trap.cause.code in mideleg) || (!trap.cause.interrupt && trap.cause.code in medeleg) {
        to := if priv == M then M else S;
      }
      var tval := if zeroTval && (trap.cause.code in {2, 3, 8, 9, 11} || trap.cause.interrupt) then 0 else trap.tval;
      if to == S {
        mstatus := mstatus.(sie := false, spie := mstatus.sie, spp := priv != U);
        scause, sepc, stval := trap.cause, trap.pc, tval;
      } else {
        mstatus := mstatus.(mie := false, mpie := mstatus.mie, mpp := priv);
        mcause, mepc, mtval := trap.cause, trap.pc, tval;
      }
      priv := to;
    }

    /** One clock edge. */
    method Clock(t: Tick)
      requires Orderly(t)
      modifies this
      ensures Snapshot() == Next(zeroTval, old(Snapshot()), t)
    {
      if t.write.Some? {
        Update(t.write.value);
      }
      mip := WithPins(mip, t);
      if t.trap.Some? {
        TakeTrap(t.trap.value);
      }
      if t.mret {
        priv, mstatus := mstatus.mpp, mstatus.(mie := mstatus.mpie, mpp := U, mpie := true);
      }
      if t.sret {
        priv, mstatus := if mstatus.spp then S else U, mstatus.(sie := mstatus.spie, spp := false, spie := true);
      }
    }
  }

  // ---------------------------------------------------------------- what a write means

  /** What a read of sie and of sip shows: the delegated bits. */
  function SieRead(s: State): set<nat> {
    s.mie * s.mideleg
  }

  function SipRead(s: State): set<nat> {
    s.mip * s.mideleg
  }

  /** Writes that supervisor-level software can make. */
  predicate BySupervisor(w: Write) {
    w.ToSstatus? || w.ToSie? || w.ToSip? || w.ToSepc? || w.ToScause? || w.ToStval?
  }

  /** A supervisor's write cannot reach the machine level: its stack, cause and value, the delegation,
      the privilege, the enables and pending bits that are not delegated, nor a delegated pending bit other than
      the software one. */
  lemma SupervisorWriteIsConfined(s: State, w: Write)
    requires BySupervisor(w)
    ensures var n := AfterWrite(s, w);
            && MView(n) == MView(s) && n.mcause == s.mcause && n.mtval == s.mtval && n.mstatus.mRest == s.mstatus.mRest
            && n.priv == s.priv && n.mideleg == s.mideleg && n.medeleg == s.medeleg
            && (forall i | i !in s.mideleg :: (i in n.mie <==> i in s.mie) && (i in n.mip <==> i in s.mip))
            && (forall i | i != S_SOFT :: i in n.mip <==> i in s.mip)
  {
  }

  /** A masked register takes the word inside its mask and keeps what it held outside. */
  predicate TakesInside(held: set<nat>, next: set<nat>, mask: set<nat>, word: set<nat>) {
    next * mask == word * mask && next - mask == held - mask
  }

  /** A masked write changes its own register only, within the mask only, and reads back as written: at the
      machine level through the mask, at the supervisor level through the delegation. */
  lemma MaskedWriteReadsBack(s: State, bits: set<nat>)
    ensures TakesInside(s.medeleg, AfterWrite(s, ToMedeleg(bits)).medeleg, DELEGABLE, bits)
    ensures TakesInside(s.mideleg, AfterWrite(s, ToMideleg(bits)).mideleg, SUPERVISOR, bits)
    ensures TakesInside(s.mie, AfterWrite(s, ToMie(bits)).mie, SUPPORTED, bits)
    ensures TakesInside(s.mip, AfterWrite(s, ToMip(bits)).mip, SUPERVISOR, bits)
    ensures TakesInside(s.mie, AfterWrite(s, ToSie(bits)).mie, s.mideleg, bits)
    ensures TakesInside(s.mip, AfterWrite(s, ToSip(bits)).mip, {S_SOFT} * s.mideleg, bits)
    ensures SieRead(AfterWrite(s, ToSie(bits))) == bits * s.mideleg
    ensures SipRead(AfterWrite(s, ToSip(bits))) - {S_SOFT} == SipRead(s) - {S_SOFT}
    ensures S_SOFT in SipRead(AfterWrite(s, ToSip(bits))) <==> S_SOFT in bits && S_SOFT in s.mideleg
    ensures AfterWrite(s, ToMedeleg(bits)).(medeleg := s.medeleg) == s && AfterWrite(s, ToMideleg(bits)).(mideleg := s.mideleg) == s
    ensures AfterWrite(s, ToMie(bits)).(mie := s.mie) == s && AfterWrite(s, ToSie(bits)).(mie := s.mie) == s
    ensures AfterWrite(s, ToMip(bits)).(mip := s.mip) == s && AfterWrite(s, ToSip(bits)).(mip := s.mip) == s
  {
    MaskedTakesInside(s.medeleg, DELEGABLE, bits);
    MaskedTakesInside(s.mideleg, SUPERVISOR, bits);
    MaskedTakesInside(s.mie, SUPPORTED, bits);
    MaskedTakesInside(s.mip, SUPERVISOR, bits);
    MaskedTakesInside(s.mie, s.mideleg, bits);
    MaskedTakesInside(s.mip, {S_SOFT} * s.mideleg, bits);
    SipReadsBack(s, bits);
  }

  /** A write to any other register is read back whole, save that a program counter is even, and reaches nothing else. */
  lemma PlainWriteReadsBack(s: State, word: nat, cause: Cause)
    ensures var n := AfterWrite(s, ToMepc(word)); n.mepc in {word, word - 1} && n.mepc % 2 == 0 && n.(mepc := s.mepc) == s
    ensures var n := AfterWrite(s, ToSepc(word)); n.sepc in {word, word - 1} && n.sepc % 2 == 0 && n.(sepc := s.sepc) == s
    ensures var n := AfterWrite(s, ToMcause(cause)); n.mcause == cause && n.(mcause := s.mcause) == s
    ensures var n := AfterWrite(s, ToScause(cause)); n.scause == cause && n.(scause := s.scause) == s
    ensures var n := AfterWrite(s, ToMtval(word)); n.mtval == word && n.(mtval := s.mtval) == s
    ensures var n := AfterWrite(s, ToStval(word)); n.stval == word && n.(stval := s.stval) == s
    ensures AfterWrite(s, ToOther) == s
  {
  }

  /** mstatus takes all fields written, sstatus those of the supervisor. */
  lemma StatusWriteReadsBack(s: State, m: Mstatus)
    ensures var n := AfterWrite(s, ToMstatus(m)); n.mstatus == m && n.(mstatus := s.mstatus) == s
    ensures var n := AfterWrite(s, ToSstatus(m));
            && n.mstatus.sie == m.sie && n.mstatus.spie == m.spie && n.mstatus.spp == m.spp && n.mstatus.sRest == m.sRest
            && MView(n) == MView(s) && n.mstatus.mRest == s.mstatus.mRest && n.(mstatus := s.mstatus) == s
  {
  }

  lemma MaskedTakesInside(held: set<nat>, mask: set<nat>, word: set<nat>)
    ensures TakesInside(held, Masked(held, mask, word), mask, word)
  {
  }

  lemma SipReadsBack(s: State, bits: set<nat>)
    ensures SipRead(AfterWrite(s, ToSip(bits))) - {S_SOFT} == SipRead(s) - {S_SOFT}
    ensures S_SOFT in SipRead(AfterWrite(s, ToSip(bits))) <==> S_SOFT in bits && S_SOFT in s.mideleg
  {
  }

  // ---------------------------------------------------------------- what every reachable state keeps

  predicate Reachable(s: State) {
    s.mideleg <= SUPERVISOR && s.mie <= SUPPORTED && s.medeleg <= DELEGABLE
  }

  lemma MaskedStays(held: set<nat>, mask: set<nat>, word: set<nat>, limit: set<nat>)
    requires held <= limit && mask <= limit
    ensures Masked(held, mask, word) <= limit
  {
  }

  lemma WriteReachable(s: State, w: Write)
    requires Reachable(s)
    ensures Reachable(AfterWrite(s, w))
  {
    match w {
      case ToMedeleg(bits) => MaskedStays(s.medeleg, DELEGABLE, bits, DELEGABLE);
      case ToMideleg(bits) => MaskedStays(s.mideleg, SUPERVISOR, bits, SUPERVISOR);
      case ToMie(bits) => MaskedStays(s.mie, SUPPORTED, bits, SUPPORTED);
      case ToSie(bits) =>
        assert s.mideleg <= SUPPORTED;
        MaskedStays(s.mie, s.mideleg, bits, SUPPORTED);
      case _ =>
    }
  }

  lemma NextReachable(zeroTval: bool, s: State, t: Tick)
    requires Reachable(s)
    ensures Reachable(Next(zeroTval, s, t))
  {
    var d := if t.write.Some? then AfterWrite(s, t.write.value) else s;
    if t.write.Some? {
      WriteReachable(s, t.write.value);
    }
    var n := Next(zeroTval, s, t);
    assert n.mideleg == d.mideleg && n.mie == d.mie && n.medeleg == d.medeleg;
  }

  lemma {:induction false} RunReachable(zeroTval: bool, s: State, ticks: seq<Tick>)
    requires Reachable(s)
    ensures Reachable(Run(zeroTval, s, ticks))
    decreases |ticks|
  {
    if ticks != [] {
      NextReachable(zeroTval, s, ticks[0]);
      RunReachable(zeroTval, Next(zeroTval, s, ticks[0]), ticks[1..]);
    }
  }

  lemma {:induction false} RunConcat(zeroTval: bool, s: State, a: seq<Tick>, b: seq<Tick>)
    ensures Run(zeroTval, s, a + b) == Run(zeroTval, Run(zeroTval, s, a), b)
    decreases |a|
  {
    if a == [] {
      assert a + b == b;
    } else {
      assert (a + b)[1..] == a[1..] + b;
      RunConcat(zeroTval, Next(zeroTval, s, a[0]), a[1..], b);
    }
  }

  // ---------------------------------------------------------------- a trap and its return

  /** A cycle that leaves the machine level's stack alone: no trap into M, no mret, no write to mstatus
      or mepc. Traps into S, sret and all other writes are free. */
  predicate QuietM(s: State, t: Tick) {
    && Orderly(t) && !t.mret
    && (t.trap.Some? ==> Target(s, t.trap.value.cause) == S)
    && (t.write.Some? ==> !t.write.value.ToMstatus? && !t.write.value.ToMepc?)
  }

  /** The same for the supervisor level: no trap into S, no sret, no write to mstatus, sstatus or sepc.
      Writes to scause and stval are free, as those to mcause and mtval are above. */
  predicate QuietS(s: State, t: Tick) {
    && Orderly(t) && !t.sret
    && (t.trap.Some? ==> Target(s, t.trap.value.cause) == M)
    && (t.write.Some? ==> !t.write.value.ToMstatus? && !t.write.value.ToSstatus? && !t.write.value.ToSepc?)
  }

  /** A cycle that touches no register of the supervisor at all. */
  predicate StillS(s: State, t: Tick) {
    QuietS(s, t) && (t.write.Some? ==> !t.write.value.ToScause? && !t.write.value.ToStval?)
  }

  predicate AllQuietM(zeroTval: bool, s: State, ticks: seq<Tick>)
    decreases |ticks|
  {
    ticks == [] || (QuietM(s, ticks[0]) && AllQuietM(zeroTval, Next(zeroTval, s, ticks[0]), ticks[1..]))
  }

  predicate AllQuietS(zeroTval: bool, s: State, ticks: seq<Tick>)
    decreases |ticks|
  {
    ticks == [] || (QuietS(s, ticks[0]) && AllQuietS(zeroTval, Next(zeroTval, s, ticks[0]), ticks[1..]))
  }

  predicate AllStillS(zeroTval: bool, s: State, ticks: seq<Tick>)
    decreases |ticks|
  {
    ticks == [] || (StillS(s, ticks[0]) && AllStillS(zeroTval, Next(zeroTval, s, ticks[0]), ticks[1..]))
  }

  /** What a machine-level return needs. */
  datatype MachineStack = MachineStack(mie: bool, mpie: bool, mpp: Priv, mepc: nat)

  function MView(s: State): MachineStack {
    MachineStack(s.mstatus.mie, s.mstatus.mpie, s.mstatus.mpp, s.mepc)
  }

  /** What a supervisor-level return needs, and the level's own enable. */
  datatype SupervisorStack = SupervisorStack(sie: bool, spie: bool, spp: bool, sepc: nat)

  function SStack(s: State): SupervisorStack {
    SupervisorStack(s.mstatus.sie, s.mstatus.spie, s.mstatus.spp, s.sepc)
  }

  /** All of the supervisor's trap registers. */
  datatype SupervisorRegisters = SupervisorRegisters(stack: SupervisorStack, sRest: nat, scause: Cause, stval: nat)

  function SView(s: State): SupervisorRegisters {
    SupervisorRegisters(SStack(s), s.mstatus.sRest, s.scause, s.stval)
  }

  lemma {:induction false} QuietMKeeps(zeroTval: bool, s: State, ticks: seq<Tick>)
    requires AllQuietM(zeroTval, s, ticks)
    ensures MView(Run(zeroTval, s, ticks)) == MView(s)
    decreases |ticks|
  {
    if ticks != [] {
      QuietMKeeps(zeroTval, Next(zeroTval, s, ticks[0]), ticks[1..]);
    }
  }

  lemma {:induction false} QuietSKeeps(zeroTval: bool, s: State, ticks: seq<Tick>)
    requires AllQuietS(zeroTval, s, ticks)
    ensures SStack(Run(zeroTval, s, ticks)) == SStack(s)
    decreases |ticks|
  {
    if ticks != [] {
      QuietSKeeps(zeroTval, Next(zeroTval, s, ticks[0]), ticks[1..]);
    }
  }

  lemma {:induction false} StillSKeeps(zeroTval: bool, s: State, ticks: seq<Tick>)
    requires AllStillS(zeroTval, s, ticks)
    ensures SView(Run(zeroTval, s, ticks)) == SView(s)
    decreases |ticks|
  {
    if ticks != [] {
      StillSKeeps(zeroTval, Next(zeroTval, s, ticks[0]), ticks[1..]);
    }
  }

  predicate TrapsInto(s: State, t: Tick, level: Priv) {
    Orderly(t) && t.trap.Some? && Target(s, t.trap.value.cause) == level
  }

  predicate ReturnsBy(t: Tick, mret: bool) {
    Orderly(t) && t.mret == mret && t.sret == !mret
  }

  /** A trap into M, any number of cycles quiet for M, and mret: the pc of the trap is fetched again, in
      the privilege and with the MIE of before; the supervisor's registers are what the middle made of them. */
  lemma MachineTrapReturns(zeroTval: bool, s: State, trap: Tick, middle: seq<Tick>, ret: Tick)
    requires TrapsInto(s, trap, M) && ReturnsBy(ret, true)
    requires AllQuietM(zeroTval, Next(zeroTval, s, trap), middle)
    ensures var entered := Next(zeroTval, s, trap);
            var last := Run(zeroTval, entered, middle);
            var back := Next(zeroTval, last, ret);
            && entered.priv == M && !entered.mstatus.mie
            && Epc(last, ret) == trap.trap.value.pc
            && back.priv == s.priv && back.mstatus.mie == s.mstatus.mie
            && SView(entered) == SView(s) && SView(back) == SView(last)
            && (AllQuietS(zeroTval, entered, middle) ==> SStack(back) == SStack(s))
            && (AllStillS(zeroTval, entered, middle) ==> SView(back) == SView(s))
  {
    var entered := Next(zeroTval, s, trap);
    QuietMKeeps(zeroTval, entered, middle);
    if AllQuietS(zeroTval, entered, middle) {
      QuietSKeeps(zeroTval, entered, middle);
    }
    if AllStillS(zeroTval, entered, middle) {
      StillSKeeps(zeroTval, entered, middle);
    }
  }

  /** The same for the supervisor; machine-level traps and returns in between are free. */
  lemma SupervisorTrapReturns(zeroTval: bool, s: State, trap: Tick, middle: seq<Tick>, ret: Tick)
    requires TrapsInto(s, trap, S) && ReturnsBy(ret, false)
    requires AllQuietS(zeroTval, Next(zeroTval, s, trap), middle)
    ensures var entered := Next(zeroTval, s, trap);
            var last := Run(zeroTval, entered, middle);
            var back := Next(zeroTval, last, ret);
            && entered.priv == S && !entered.mstatus.sie
            && Epc(last, ret) == trap.trap.value.pc
            && back.priv == s.priv && back.mstatus.sie == s.mstatus.sie
            && MView(entered) == MView(s) && MView(back) == MView(last)
  {
    QuietSKeeps(zeroTval, Next(zeroTval, s, trap), middle);
  }

  /** What a supervisor handler may run through: plain cycles, and complete machine traps. */
  datatype Activity = Plain(t: Tick) | Nested(trap: Tick, body: seq<Tick>, ret: Tick)

  function TicksOf(a: Activity): seq<Tick> {
    match a
    case Plain(t) => [t]
    case Nested(trap, body, ret) => [trap] + body + [ret]
  }

  function AllTicks(acts: seq<Activity>): seq<Tick> {
    if acts == [] then [] else TicksOf(acts[0]) + AllTicks(acts[1..])
  }

  predicate Balanced(zeroTval: bool, s: State, a: Activity) {
    match a
    case Plain(t) => QuietM(s, t) && QuietS(s, t)
    case Nested(trap, body, ret) =>
      && TrapsInto(s, trap, M) && ReturnsBy(ret, true)
      && AllQuietM(zeroTval, Next(zeroTval, s, trap), body) && AllQuietS(zeroTval, Next(zeroTval, s, trap), body)
  }

  predicate AllBalanced(zeroTval: bool, s: State, acts: seq<Activity>)
    decreases |acts|
  {
    acts == [] || (Balanced(zeroTval, s, acts[0]) && AllBalanced(zeroTval, Run(zeroTval, s, TicksOf(acts[0])), acts[1..]))
  }

  lemma RunOne(zeroTval: bool, s: State, t: Tick)
    ensures Run(zeroTval, s, [t]) == Next(zeroTval, s, t)
  {
    assert Run(zeroTval, Next(zeroTval, s, t), [t][1..]) == Next(zeroTval, s, t);
  }

  lemma BalancedKeeps(zeroTval: bool, s: State, a: Activity)
    requires Balanced(zeroTval, s, a)
    ensures var e := Run(zeroTval, s, TicksOf(a));
            e.priv == s.priv && e.mstatus.mie == s.mstatus.mie && SStack(e) == SStack(s)
  {
    match a {
      case Plain(t) => RunOne(zeroTval, s, t);
      case Nested(trap, body, ret) =>
        RunConcat(zeroTval, s, [trap] + body, [ret]);
        RunConcat(zeroTval, s, [trap], body);
        RunOne(zeroTval, s, trap);
        var last := Run(zeroTval, Next(zeroTval, s, trap), body);
        RunOne(zeroTval, last, ret);
        MachineTrapReturns(zeroTval, s, trap, body, ret);
    }
  }

  /** Any sequence of plain cycles and complete machine traps keeps privilege, MIE and the supervisor's
      stack, and all of the supervisor's registers if none of its cycles touches them. */
  lemma {:induction false} AllBalancedKeep(zeroTval: bool, s: State, acts: seq<Activity>)
    requires AllBalanced(zeroTval, s, acts)
    ensures AllStillS(zeroTval, s, AllTicks(acts)) ==> SView(Run(zeroTval, s, AllTicks(acts))) == SView(s)
    ensures var e := Run(zeroTval, s, AllTicks(acts));
            e.priv == s.priv && e.mstatus.mie == s.mstatus.mie && SStack(e) == SStack(s)
    decreases |acts|
  {
    if acts != [] {
      BalancedKeeps(zeroTval, s, acts[0]);
      AllBalancedKeep(zeroTval, Run(zeroTval, s, TicksOf(acts[0])), acts[1..]);
      RunConcat(zeroTval, s, TicksOf(acts[0]), AllTicks(acts[1..]));
    }
    if AllStillS(zeroTval, s, AllTicks(acts)) {
      StillSKeeps(zeroTval, s, AllTicks(acts));
    }
  }

  /** A supervisor trap with any number of complete machine traps nested in its handler, and sret:
      pc, privilege, and both interrupt enables are those of before. */
  lemma NestedTrapsReturn(zeroTval: bool, s: State, trap: Tick, acts: seq<Activity>, ret: Tick)
    requires TrapsInto(s, trap, S) && ReturnsBy(ret, false)
    requires AllBalanced(zeroTval, Next(zeroTval, s, trap), acts)
    ensures var last := Run(zeroTval, Next(zeroTval, s, trap), AllTicks(acts));
            var back := Next(zeroTval, last, ret);
            && last.priv == S && Epc(last, ret) == trap.trap.value.pc
            && back.priv == s.priv && back.mstatus.sie == s.mstatus.sie && back.mstatus.mie == s.mstatus.mie
  {
    AllBalancedKeep(zeroTval, Next(zeroTval, s, trap), acts);
  }

  /** A trap never lowers the privilege, and goes to S exactly below M if the bit of its code is set in mideleg
      for an interrupt, or in medeleg for an exception; to M otherwise. */
  lemma TrapNeverLowers(zeroTval: bool, s: State, t: Tick)
    requires Orderly(t) && t.trap.Some?
    ensures var c, to := t.trap.value.cause, Next(zeroTval, s, t).priv;
            && Rank(to) >= Rank(s.priv) && to in {S, M}
            && (to == S <==> s.priv != M && (if c.interrupt then c.code in s.mideleg else c.code in s.medeleg))
  {
  }

  // ---------------------------------------------------------------- what a trap records

  /** A trap has a value unless the value is configured away: for interrupts, illegal instructions,
      breakpoints and environment calls. */
  predicate Records(zeroTval: bool, trap: Trap, cause: Cause, tval: nat) {
    && cause == trap.cause
    && (zeroTval && (trap.cause.interrupt || trap.cause.code in {2, 3, 8, 9, 11}) ==> tval == 0)
    && (zeroTval && !trap.cause.interrupt && trap.cause.code !in {2, 3, 8, 9, 11} ==> tval == trap.tval)
    && (!zeroTval ==> tval == trap.tval)
  }

  /** A cycle that leaves mcause and mtval alone: no trap into M, no write to either. */
  predicate SparesMCause(s: State, t: Tick) {
    && Orderly(t)
    && (t.trap.Some? ==> !TrapsInto(s, t, M))
    && (t.write.Some? ==> !t.write.value.ToMcause? && !t.write.value.ToMtval?)
  }

  predicate SparesSCause(s: State, t: Tick) {
    && Orderly(t)
    && (t.trap.Some? ==> !TrapsInto(s, t, S))
    && (t.write.Some? ==> !t.write.value.ToScause? && !t.write.value.ToStval?)
  }

  predicate AllSpareMCause(zeroTval: bool, s: State, ticks: seq<Tick>)
    decreases |ticks|
  {
    ticks == [] || (SparesMCause(s, ticks[0]) && AllSpareMCause(zeroTval, Next(zeroTval, s, ticks[0]), ticks[1..]))
  }

  predicate AllSpareSCause(zeroTval: bool, s: State, ticks: seq<Tick>)
    decreases |ticks|
  {
    ticks == [] || (SparesSCause(s, ticks[0]) && AllSpareSCause(zeroTval, Next(zeroTval, s, ticks[0]), ticks[1..]))
  }

  lemma {:induction false} SparedMCauseStays(zeroTval: bool, s: State, ticks: seq<Tick>)
    requires AllSpareMCause(zeroTval, s, ticks)
    ensures var n := Run(zeroTval, s, ticks); n.mcause == s.mcause && n.mtval == s.mtval
    decreases |ticks|
  {
    if ticks != [] {
      SparedMCauseStays(zeroTval, Next(zeroTval, s, ticks[0]), ticks[1..]);
    }
  }

  lemma {:induction false} SparedSCauseStays(zeroTval: bool, s: State, ticks: seq<Tick>)
    requires AllSpareSCause(zeroTval, s, ticks)
    ensures var n := Run(zeroTval, s, ticks); n.scause == s.scause && n.stval == s.stval
    decreases |ticks|
  {
    if ticks != [] {
      SparedSCauseStays(zeroTval, Next(zeroTval, s, ticks[0]), ticks[1..]);
    }
  }

  /** The handler of a trap into M finds the trap's cause and value, as long as nothing writes them or traps
      into M; the supervisor's are as before the trap. */
  lemma MachineTrapIsRecorded(zeroTval: bool, s: State, trap: Tick, middle: seq<Tick>)
    requires TrapsInto(s, trap, M) && AllSpareMCause(zeroTval, Next(zeroTval, s, trap), middle)
    ensures var entered := Next(zeroTval, s, trap);
            var last := Run(zeroTval, entered, middle);
            && Records(zeroTval, trap.trap.value, last.mcause, last.mtval)
            && entered.scause == s.scause && entered.stval == s.stval
  {
    SparedMCauseStays(zeroTval, Next(zeroTval, s, trap), middle);
  }

  /** The same for the supervisor. */
  lemma SupervisorTrapIsRecorded(zeroTval: bool, s: State, trap: Tick, middle: seq<Tick>)
    requires TrapsInto(s, trap, S) && AllSpareSCause(zeroTval, Next(zeroTval, s, trap), middle)
    ensures var entered := Next(zeroTval, s, trap);
            var last := Run(zeroTval, entered, middle);
            && Records(zeroTval, trap.trap.value, last.scause, last.stval)
            && entered.mcause == s.mcause && entered.mtval == s.mtval
  {
    SparedSCauseStays(zeroTval, Next(zeroTval, s, trap), middle);
  }

  /** What a cycle leaves of the pending bits: the machine's follow their wires, whatever is written; the
      supervisor's change only by a write. Trap and return touch no delegation and no enable. */
  lemma PendingBitsFollow(zeroTval: bool, s: State, t: Tick)
    requires Orderly(t)
    ensures var n := Next(zeroTval, s, t);
            && (M_EXT in n.mip <==> t.mExt) && (M_SOFT in n.mip <==> t.mSoft) && (M_TIMER in n.mip <==> t.mTimer)
            && (t.write.None? ==> n.mip - {M_EXT, M_SOFT, M_TIMER} == s.mip - {M_EXT, M_SOFT, M_TIMER}
                                  && n.mie == s.mie && n.mideleg == s.mideleg && n.medeleg == s.medeleg)
  {
  }

  /** A return leaves an empty stack: another one right behind it goes to U with the level's interrupts on. */
  lemma SecondReturnGoesToUser(zeroTval: bool, s: State, first: Tick, second: Tick)
    requires ReturnsBy(first, first.mret) && ReturnsBy(second, first.mret)
    ensures var n := Next(zeroTval, Next(zeroTval, s, first), second);
            n.priv == U && if first.mret then n.mstatus.mie else n.mstatus.sie
  {
  }
}
