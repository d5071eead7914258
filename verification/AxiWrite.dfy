/** The write channel of the AXI shim (core/axi_shim.sv): a burst FSM over the AW and W handshakes. */
module AxiWrites {

  import opened Arithmetic
  import opened Options
  import opened Sequences

  datatype WrState = Idle | WaitAwReady | WaitLastWReady | WaitLastWReadyAwReady | WaitAwReadyBurst

  /** AxiBurstWriteEn, and the modulus of the beat counter (two to its width). */
  datatype Config = Config(burstEn: bool, counterRange: nat)

  /** A write request: the address-channel payload, the data words, and the length less one. */
  datatype Request<A, D> = Request(address: A, data: seq<D>, blen: nat)

  /** wr_req_i with its payload, and the ready signals of the bus. */
  datatype AxiInput<A, D> = AxiInput(req: bool, request: Request<A, D>, awReady: bool, wReady: bool)

  datatype AxiOutput<A, D> = AxiOutput(awValid: bool, awAddress: A, awLen: nat, wValid: bool, wData: D, wLast: bool, gnt: bool)

  datatype Regs = Regs(state: WrState, cnt: nat)

  ghost predicate WellFormed<A, D>(c: Config, r: Regs, i: AxiInput<A, D>) {
    && 0 < c.counterRange
    && |i.request.data| == c.counterRange
    && i.request.blen < c.counterRange
    && r.cnt < c.counterRange
  }

  const RESET_REGS := Regs(Idle, 0)

  /** The state is one that the configuration uses. */
  predicate Used(c: Config, s: WrState) {
    s in {WaitLastWReadyAwReady, WaitAwReadyBurst} ==> c.burstEn
  }

  /** A request is being presented: at once in IDLE, and by the waiting states. */
  predicate AwValid<A, D>(c: Config, r: Regs, i: AxiInput<A, D>) {
    match r.state
    case Idle => i.req
    case WaitLastWReady => false
    case WaitAwReady => true
    case WaitLastWReadyAwReady => c.burstEn
    case WaitAwReadyBurst => c.burstEn
  }

  predicate WValid<A, D>(c: Config, r: Regs, i: AxiInput<A, D>) {
    match r.state
    case Idle => i.req
    case WaitLastWReady => true
    case WaitLastWReadyAwReady => c.burstEn
    case _ => false
  }

  predicate AwFires<A, D>(c: Config, r: Regs, i: AxiInput<A, D>) {
    AwValid(c, r, i) && i.awReady
  }

  predicate WFires<A, D>(c: Config, r: Regs, i: AxiInput<A, D>) {
    WValid(c, r, i) && i.wReady
  }

  predicate LastBeat<A, D>(r: Regs, i: AxiInput<A, D>) {
    r.cnt == i.request.blen
  }

  predicate Grants<A, D>(c: Config, r: Regs, i: AxiInput<A, D>) {
    match r.state
    case Idle => i.req && i.request.blen == 0 && i.awReady && i.wReady
    case WaitAwReady => i.awReady
    case WaitLastWReady => LastBeat(r, i) && i.wReady
    case WaitLastWReadyAwReady => c.burstEn && i.awReady && i.wReady && LastBeat(r, i)
    case WaitAwReadyBurst => c.burstEn && i.awReady
  }

  function NextState<A, D>(c: Config, r: Regs, i: AxiInput<A, D>): WrState {
    match r.state
    case Idle =>
      if !i.req || (i.request.blen != 0 && !c.burstEn) then Idle
      else if i.awReady && i.wReady then (if i.request.blen == 0 then Idle else WaitLastWReady)
      else if i.awReady then WaitLastWReady
      else if i.wReady then (if i.request.blen == 0 then WaitAwReady else WaitLastWReadyAwReady)
      else Idle
    case WaitAwReady => if i.awReady then Idle else WaitAwReady
    case WaitLastWReady => if LastBeat(r, i) && i.wReady then Idle else WaitLastWReady
    case WaitLastWReadyAwReady =>
      if !c.burstEn then Idle
      else if i.awReady && i.wReady then (if LastBeat(r, i) then Idle else WaitLastWReady)
      else if i.awReady then WaitLastWReady
      else if i.wReady && LastBeat(r, i) then WaitAwReadyBurst
      else WaitLastWReadyAwReady
    case WaitAwReadyBurst => if !c.burstEn || i.awReady then Idle else WaitAwReadyBurst
  }

  /** The counter advances on every beat but the last, and is cleared by the last. */
  function NextCnt<A, D>(c: Config, r: Regs, i: AxiInput<A, D>): nat
    requires 0 < c.counterRange
  {
    var clear := match r.state
      case Idle => i.req && i.request.blen == 0
      case WaitLastWReady => LastBeat(r, i) && i.wReady
      case WaitLastWReadyAwReady => c.burstEn && LastBeat(r, i) && i.wReady
      case _ => false;
    var enable := c.burstEn && match r.state
      case Idle => i.req && i.request.blen != 0 && i.wReady
      case WaitLastWReady => !LastBeat(r, i) && i.wReady
      case WaitLastWReadyAwReady => !LastBeat(r, i) && i.wReady
      case _ => false;
    if clear then 0 else if enable then (if r.cnt + 1 == c.counterRange then 0 else r.cnt + 1) else r.cnt
  }

  function Next<A, D>(c: Config, r: Regs, i: AxiInput<A, D>): Regs
    requires 0 < c.counterRange
  {
    Regs(NextState(c, r, i), NextCnt(c, r, i))
  }

  function Outputs<A, D>(c: Config, r: Regs, i: AxiInput<A, D>): AxiOutput<A, D>
    requires WellFormed(c, r, i)
  {
    AxiOutput(AwValid(c, r, i), i.request.address, i.request.blen,
              WValid(c, r, i), i.request.data[r.cnt], LastBeat(r, i), Grants(c, r, i))
  }

  class AxiShim<A, D> {
    const config: Config
    var wrState: WrState
    var wrCnt: nat

    ghost function Snapshot(): Regs
      reads this
    {
      Regs(wrState, wrCnt)
    }

    constructor (config: Config)
      ensures this.config == config && Snapshot() == RESET_REGS
    {
      this.config := config;
      wrState, wrCnt := Idle, 0;
    }

    method Clock(i: AxiInput<A, D>) returns (o: AxiOutput<A, D>)
      requires WellFormed(config, Snapshot(), i)
      modifies this
      ensures Snapshot() == Next(config, old(Snapshot()), i)
      ensures o == Outputs(config, old(Snapshot()), i)
    {
      var single, done := i.request.blen == 0, wrCnt == i.request.blen;
      var stateD, awValid, wValid, gnt, cntEn, cntClr := wrState, false, false, false, false, false;
      match wrState {
        case Idle =>
          if i.req {
            awValid, wValid := true, true;
            if config.burstEn && !single {
              cntEn := i.wReady;
              if i.awReady && i.wReady {
                stateD := WaitLastWReady;
              } else if i.wReady {
                stateD := WaitLastWReadyAwReady;
              } else if i.awReady {
                stateD := WaitLastWReady;
              }
            } else if single {
              cntClr := true;
              gnt := i.awReady && i.wReady;
              if !i.awReady && i.wReady {
                stateD := WaitAwReady;
              } else if i.awReady && !i.wReady {
                stateD := WaitLastWReady;
              } else {
                stateD := Idle;
              }
            }
          }
        case WaitAwReady =>
          awValid := true;
          if i.awReady {
            stateD, gnt := Idle, true;
          }
        case WaitLastWReady =>
          wValid := true;
          if config.burstEn && i.wReady && !done {
            cntEn := true;
          } else if done {
            if i.wReady {
              stateD, cntClr, gnt := Idle, true, true;
            }
          }
        case _ =>
          if config.burstEn {
            if wrState == WaitLastWReadyAwReady {
              wValid, awValid := true, true;
              if !i.awReady && i.wReady {
                if done {
                  stateD, cntClr := WaitAwReadyBurst, true;
                } else {
                  cntEn := true;
                }
              } else if i.awReady && !i.wReady {
                stateD := WaitLastWReady;
              } else if i.awReady && i.wReady {
                if done {
                  stateD, gnt, cntClr := Idle, true, true;
                } else {
                  stateD, cntEn := WaitLastWReady, true;
                }
              }
            } else if wrState == WaitAwReadyBurst {
              awValid := true;
              if i.awReady {
                stateD, gnt := Idle, true;
              }
            }
          } else {
            stateD := Idle;
          }
      }
      o := AxiOutput(awValid, i.request.address, i.request.blen, wValid, i.request.data[wrCnt], done, gnt);
      wrCnt := if cntClr then 0
      else if cntEn && config.burstEn then (if wrCnt + 1 == config.counterRange then 0 else wrCnt + 1)
      else wrCnt;
      wrState := stateD;
    }
  }

  // ---------------------------------------------------------------- the protocol, observed on the bus

  /** One W handshake as the bus sees it. */
  datatype Beat<D> = Beat(data: D, last: bool)

  /** What the bus has seen of the current transaction, and the transactions granted so far. */
  datatype Bus<A, D> = Bus(address: seq<(A, nat)>, beats: seq<Beat<D>>, granted: seq<Transaction<A, D>>)

  /** A granted request with the handshakes that carried it. */
  datatype Transaction<A, D> = Transaction(request: Request<A, D>, address: seq<(A, nat)>, beats: seq<Beat<D>>)

  function Observe<A, D>(b: Bus<A, D>, i: AxiInput<A, D>, o: AxiOutput<A, D>): Bus<A, D> {
    var address := b.address + if o.awValid && i.awReady then [(o.awAddress, o.awLen)] else [];
    var beats := b.beats + if o.wValid && i.wReady then [Beat(o.wData, o.wLast)] else [];
    if o.gnt then Bus([], [], b.granted + [Transaction(i.request, address, beats)]) else Bus(address, beats, b.granted)
  }

  /** The first n beats of a request. */
  function Beats<A, D>(q: Request<A, D>, n: nat): seq<Beat<D>>
    requires n <= q.blen + 1 <= |q.data|
  {
    seq(n, k requires 0 <= k < n => Beat(q.data[k], k == q.blen))
  }

  /** One address handshake with the right payload, and beats 0 to blen in order, last on the final one. */
  ghost predicate Complete<A, D>(t: Transaction<A, D>) {
    && t.request.blen < |t.request.data|
    && t.address == [(t.request.address, t.request.blen)]
    && t.beats == Beats(t.request, t.request.blen + 1)
  }

  /** The AW handshake of the current request is done. */
  predicate AwDone(s: WrState) {
    s.WaitLastWReady?
  }

  /** How many beats of the current request are done. */
  function BeatsDone<A, D>(r: Regs, q: Request<A, D>): nat {
    match r.state
    case WaitAwReady => 1
    case WaitAwReadyBurst => q.blen + 1
    case _ => r.cnt
  }

  /** The request pending when a cycle begins: a waiting state has one. */
  ghost predicate Tracks<A, D>(c: Config, r: Regs, b: Bus<A, D>, q: Request<A, D>) {
    && Used(c, r.state)
    && (r.state.WaitAwReady? ==> q.blen == 0)
    && (r.state in {Idle, WaitAwReady, WaitAwReadyBurst} ==> r.cnt == 0)
    && r.cnt <= q.blen < |q.data|
    && b.address == (if AwDone(r.state) then [(q.address, q.blen)] else [])
    && b.beats == Beats(q, BeatsDone(r, q))
  }

  /** Requests stay up and unchanged until granted; a burst needs AxiBurstWriteEn. */
  ghost predicate Supported<A, D>(c: Config, i: AxiInput<A, D>) {
    i.req ==> c.burstEn || i.request.blen == 0
  }

  /** Handshakes still owed to a request. */
  function Owed<A, D>(r: Regs, q: Request<A, D>): int {
    Bit(!AwDone(r.state)) + q.blen + 1 - BeatsDone(r, q)
  }

  /** One cycle of a pending request: the counter stays in range, what is owed drops by one for each
      handshake, the grant comes exactly with the last of them, and a grant completes the transaction. */
  lemma PendingCycle<A, D>(c: Config, r: Regs, b: Bus<A, D>, i: AxiInput<A, D>)
    requires WellFormed(c, r, i) && i.req && Supported(c, i) && Tracks(c, r, b, i.request)
    ensures var o, r', b' := Outputs(c, r, i), Next(c, r, i), Observe(b, i, Outputs(c, r, i));
            var left := Owed(r, i.request) - Bit(AwFires(c, r, i)) - Bit(WFires(c, r, i));
            && (o.gnt <==> left == 0)
            && (!o.gnt ==> Tracks(c, r', b', i.request) && Owed(r', i.request) == left && b'.granted == b.granted)
            && (o.gnt ==>
                && r' == RESET_REGS && b'.address == [] && b'.beats == []
                && |b'.granted| == |b.granted| + 1 && b'.granted[..|b.granted|] == b.granted
                && b'.granted[|b.granted|].request == i.request && Complete(b'.granted[|b.granted|]))
  {
  }

  /** A presented handshake that is not accepted is presented again with the same payload (the request
      being stable), as section A3.2.1 of ARM IHI 0022 asks. */
  lemma ValidUntilReady<A, D>(c: Config, r: Regs, b: Bus<A, D>, i: AxiInput<A, D>, j: AxiInput<A, D>)
    requires WellFormed(c, r, i) && i.req && Supported(c, i) && Tracks(c, r, b, i.request)
    requires WellFormed(c, Next(c, r, i), j) && !Grants(c, r, i) && j.req && j.request == i.request
    ensures var o, o' := Outputs(c, r, i), Outputs(c, Next(c, r, i), j);
            && (o.awValid && !i.awReady ==> o'.awValid && o'.awAddress == o.awAddress && o'.awLen == o.awLen)
            && (o.wValid && !i.wReady ==> o'.wValid && o'.wData == o.wData && o'.wLast == o.wLast)
  {
  }

  // ---------------------------------------------------------------- runs

  /** The shim, the bus, and the request that is up and not yet granted. */
  datatype System<A, D> = System(regs: Regs, bus: Bus<A, D>, pending: Option<Request<A, D>>)

  function ResetSystem<A, D>(): System<A, D> {
    System(RESET_REGS, Bus([], [], []), None)
  }

  function NextSystem<A, D>(c: Config, y: System<A, D>, i: AxiInput<A, D>): System<A, D>
    requires WellFormed(c, y.regs, i)
  {
    System(Next(c, y.regs, i), Observe(y.bus, i, Outputs(c, y.regs, i)),
           if i.req && !Grants(c, y.regs, i) then Some(i.request) else None)
  }

  /** Cycles with a stable, supported request whenever one is up. */
  ghost predicate Run<A, D>(c: Config, y: System<A, D>, xs: seq<AxiInput<A, D>>)
    decreases |xs|
  {
    xs == [] ||
    (&& WellFormed(c, y.regs, xs[0])
     && Supported(c, xs[0])
     && (y.pending.Some? ==> xs[0].req && xs[0].request == y.pending.value)
     && Run(c, NextSystem(c, y, xs[0]), xs[1..]))
  }

  ghost function Final<A, D>(c: Config, y: System<A, D>, xs: seq<AxiInput<A, D>>): System<A, D>
    requires Run(c, y, xs)
    decreases |xs|
  {
    if xs == [] then y else Final(c, NextSystem(c, y, xs[0]), xs[1..])
  }

  ghost predicate Invariant<A, D>(c: Config, y: System<A, D>) {
    && (forall k | 0 <= k < |y.bus.granted| :: Complete(y.bus.granted[k]))
    && match y.pending
       case None => y.regs == RESET_REGS && y.bus.address == [] && y.bus.beats == []
       case Some(q) => Tracks(c, y.regs, y.bus, q)
  }

  lemma SystemStep<A, D>(c: Config, y: System<A, D>, i: AxiInput<A, D>)
    requires Invariant(c, y) && WellFormed(c, y.regs, i) && Supported(c, i)
    requires y.pending.Some? ==> i.req && i.request == y.pending.value
    ensures Invariant(c, NextSystem(c, y, i))
  {
    if i.req {
      PendingCycle(c, y.regs, y.bus, i);
      var granted, granted' := y.bus.granted, NextSystem(c, y, i).bus.granted;
      forall k | 0 <= k < |granted'| ensures Complete(granted'[k]) {
        if k < |granted| {
          assert granted'[k] == granted'[..|granted|][k];
        }
      }
    }
  }

  lemma {:induction false} RunKeepsInvariant<A, D>(c: Config, y: System<A, D>, xs: seq<AxiInput<A, D>>)
    requires Invariant(c, y) && Run(c, y, xs)
    ensures Invariant(c, Final(c, y, xs))
    decreases |xs|
  {
    if xs != [] {
      SystemStep(c, y, xs[0]);
      RunKeepsInvariant(c, NextSystem(c, y, xs[0]), xs[1..]);
    }
  }

  lemma ResetInvariant<A, D>(c: Config)
    ensures Invariant<A, D>(c, ResetSystem())
  {
  }

  /** After any run from reset, every granted write has performed exactly one address handshake and exactly
      blen + 1 data handshakes, in order, last only on the final one; a pending write has performed a prefix
      of them; and between writes nothing is left over. */
  lemma GrantedWritesAreComplete<A, D>(c: Config, xs: seq<AxiInput<A, D>>)
    requires Run(c, ResetSystem<A, D>(), xs)
    ensures var y := Final(c, ResetSystem<A, D>(), xs);
            && (forall k | 0 <= k < |y.bus.granted| :: Complete(y.bus.granted[k]))
            && (y.pending.None? ==> y.regs == RESET_REGS && y.bus.address == [] && y.bus.beats == [])
            && (y.pending.Some? ==> Tracks(c, y.regs, y.bus, y.pending.value))
  {
    ResetInvariant<A, D>(c);
    RunKeepsInvariant(c, ResetSystem<A, D>(), xs);
  }

  // ---------------------------------------------------------------- which requests are served

  /** Whether request q, held up from registers r, is granted within the given cycles of ready signals. */
  predicate Served<A, D>(c: Config, r: Regs, q: Request<A, D>, readies: seq<(bool, bool)>)
    requires 0 < c.counterRange
    decreases |readies|
  {
    readies != [] &&
    var i := AxiInput(true, q, readies[0].0, readies[0].1);
    Grants(c, r, i) || Served(c, Next(c, r, i), q, readies[1..])
  }

  /** In how many of the cycles AW, or W, was ready. */
  function AwReadies(readies: seq<(bool, bool)>): nat {
    if readies == [] then 0 else Bit(readies[0].0) + AwReadies(readies[1..])
  }

  function WReadies(readies: seq<(bool, bool)>): nat {
    if readies == [] then 0 else Bit(readies[0].1) + WReadies(readies[1..])
  }

  /** The two channels advance on their own: a handshake that is still owed happens whenever its channel is ready. */
  lemma ChannelsAdvance<A, D>(c: Config, r: Regs, b: Bus<A, D>, i: AxiInput<A, D>)
    requires WellFormed(c, r, i) && i.req && Supported(c, i) && Tracks(c, r, b, i.request)
    ensures AwFires(c, r, i) <==> !AwDone(r.state) && i.awReady
    ensures WFires(c, r, i) <==> BeatsDone(r, i.request) <= i.request.blen && i.wReady
    ensures !Grants(c, r, i) ==>
              && (AwDone(Next(c, r, i).state) <==> AwDone(r.state) || i.awReady)
              && BeatsDone(Next(c, r, i), i.request) == BeatsDone(r, i.request) + Bit(WFires(c, r, i))
  {
  }

  /** Whatever the pattern of ready signals, a supported request is granted exactly when AW has been ready in
      one cycle, unless it is done, and W in as many as beats are left. */
  lemma {:induction false} ServedIffReadyEnough<A, D>(c: Config, r: Regs, b: Bus<A, D>, q: Request<A, D>, readies: seq<(bool, bool)>)
    requires WellFormed(c, r, AxiInput(true, q, true, true)) && (c.burstEn || q.blen == 0) && Tracks(c, r, b, q)
    ensures Served(c, r, q, readies) <==>
            (AwDone(r.state) || AwReadies(readies) >= 1) && WReadies(readies) >= q.blen + 1 - BeatsDone(r, q)
    decreases |readies|
  {
    if readies != [] {
      var i := AxiInput(true, q, readies[0].0, readies[0].1);
      PendingCycle(c, r, b, i);
      ChannelsAdvance(c, r, b, i);
      if !Grants(c, r, i) {
        ServedIffReadyEnough(c, Next(c, r, i), Observe(b, i, Outputs(c, r, i)), q, readies[1..]);
      }
    }
  }

  /** A burst without AxiBurstWriteEn is never granted, whatever the bus does. */
  lemma {:induction false} UnsupportedNeverServed<A, D>(c: Config, q: Request<A, D>, readies: seq<(bool, bool)>)
    requires 0 < c.counterRange && !c.burstEn && q.blen != 0
    ensures !Served(c, RESET_REGS, q, readies)
    decreases |readies|
  {
    if readies != [] {
      assert Next(c, RESET_REGS, AxiInput(true, q, readies[0].0, readies[0].1)) == RESET_REGS;
      UnsupportedNeverServed(c, q, readies[1..]);
    }
  }

  /** What the bus has seen after holding up request q for the given cycles. */
  function Seen<A, D>(c: Config, r: Regs, b: Bus<A, D>, q: Request<A, D>, readies: seq<(bool, bool)>): Bus<A, D>
    requires WellFormed(c, r, AxiInput(true, q, true, true))
    decreases |readies|
  {
    if readies == [] then b else
    var i := AxiInput(true, q, readies[0].0, readies[0].1);
    Seen(c, Next(c, r, i), Observe(b, i, Outputs(c, r, i)), q, readies[1..])
  }

  /** Meanwhile such a burst keeps both channels valid: the bus sees the same address handshake whenever AW is
      ready, and the first beat, never the last, whenever W is. */
  lemma {:induction false} UnsupportedRepeats<A, D>(c: Config, b: Bus<A, D>, q: Request<A, D>, readies: seq<(bool, bool)>)
    requires WellFormed(c, RESET_REGS, AxiInput(true, q, true, true)) && !c.burstEn && q.blen != 0
    ensures Seen(c, RESET_REGS, b, q, readies)
            == Bus(b.address + Fill(AwReadies(readies), (q.address, q.blen)),
                   b.beats + Fill(WReadies(readies), Beat(q.data[0], false)), b.granted)
    decreases |readies|
  {
    if readies == [] {
      assert b.address + Fill(0, (q.address, q.blen)) == b.address;
      assert b.beats + Fill(0, Beat(q.data[0], false)) == b.beats;
    } else {
      var i := AxiInput(true, q, readies[0].0, readies[0].1);
      var b' := Observe(b, i, Outputs(c, RESET_REGS, i));
      assert Next(c, RESET_REGS, i) == RESET_REGS;
      UnsupportedRepeats(c, b', q, readies[1..]);
      FillGrows(b.address, (q.address, q.blen), AwReadies(readies[1..]));
      FillGrows(b.beats, Beat(q.data[0], false), WReadies(readies[1..]));
    }
  }

  /** A request from reset is granted exactly when it is supported and the bus has been ready for an address
      and for blen + 1 beats, in any pattern. */
  lemma ServedIffSupported<A, D>(c: Config, q: Request<A, D>, readies: seq<(bool, bool)>)
    requires WellFormed(c, RESET_REGS, AxiInput(true, q, true, true))
    ensures Served(c, RESET_REGS, q, readies) <==>
            (c.burstEn || q.blen == 0) && AwReadies(readies) >= 1 && WReadies(readies) >= q.blen + 1
  {
    if c.burstEn || q.blen == 0 {
      var b: Bus<A, D> := Bus([], [], []);
      assert Beats(q, 0) == [];
      ServedIffReadyEnough(c, RESET_REGS, b, q, readies);
    } else {
      UnsupportedNeverServed(c, q, readies);
    }
  }
}
