/** Exactly-once write-back of loads, over every run of the load unit in which the cache
    keeps its side of the request port. The ledger is an observer of the port signals
    only; it never looks at the registers of the unit. */
module LoadLedgers {

  import opened Arithmetic
  import opened LoadUnits
  import opened Options

  /** A granted request: the load it carried, the cycle of the grant, and whether the
      unit took the load from the queue with it (an aborted attempt does not). */
  datatype Grant = Grant(load: Load, cycle: nat, taken: bool)

  /** The counters watch one transaction id; everything below holds for every choice of it. A load is lost
      when the unit removes the head for an exception although there is no valid load, so that nothing is
      written back. */
  datatype Ledger = Ledger(
    watched: nat,
    now: nat,
    lastFlush: int,
    outstanding: map<nat, Grant>,
    tag: Option<nat>,
    taken: nat,
    written: nat,
    dropped: nat,
    lost: nat)

  function EmptyLedger(watched: nat): Ledger {
    Ledger(watched, 0, -1, map[], None, 0, 0, 0, 0)
  }

  /** Live: taken from the queue, granted after the last flush, not yet answered. */
  ghost predicate Live(l: Ledger, id: nat) {
    id in l.outstanding && l.outstanding[id].taken && l.outstanding[id].cycle > l.lastFlush
  }

  /** How many of the first n request ids belong to a live load with the watched transaction id. */
  ghost function Pending(l: Ledger, n: nat): nat {
    if n == 0 then 0
    else Pending(l, n - 1)
         + if Live(l, n - 1) then Bit(l.outstanding[n - 1].load.transId == l.watched) else 0
  }

  /** What is assumed of the cache: it answers only requests that are outstanding, except that it may
      answer a kill that comes while no request is in its tag cycle; and a request killed in its tag
      cycle is answered in that cycle under its own id. */
  ghost predicate CacheContract(l: Ledger, i: Input, o: Output) {
    && (i.dataRvalid ==> i.dataRid in l.outstanding || (o.killReq && l.tag.None?))
    && (o.killReq && l.tag.Some? ==> i.dataRvalid && i.dataRid == l.tag.value)
  }

  ghost function Outstanding(l: Ledger, i: Input, o: Output): map<nat, Grant> {
    var unanswered := if i.dataRvalid then l.outstanding - {i.dataRid} else l.outstanding;
    if o.dataReq && i.dataGnt then unanswered[o.dataId := Grant(i.request, l.now, o.popLd)] else unanswered
  }

  /** The head is removed without a grant and without a valid load in it. */
  predicate Loses(i: Input, o: Output) {
    o.popLd && !(o.dataReq && i.dataGnt) && !i.valid
  }

  /** One cycle of the observer. A flush drops whatever is still live at its end. */
  ghost function Observe(entries: nat, l: Ledger, i: Input, o: Output): Ledger {
    var l' := l.(
      now := l.now + 1,
      outstanding := Outstanding(l, i, o),
      tag := if o.dataReq && i.dataGnt then Some(o.dataId) else None,
      taken := l.taken + Bit(o.popLd && i.request.transId == l.watched),
      written := l.written + Bit(o.valid && o.transId == l.watched),
      lost := l.lost + Bit(Loses(i, o) && i.request.transId == l.watched));
    if i.flush then l'.(lastFlush := l.now, dropped := l.dropped + Pending(l', entries)) else l'
  }

  // ---------------------------------------------------------------- invariant

  ghost predicate TagCycle(s: State) {
    s.fsm in {SendTag, AbortTransaction, AbortTransactionNi, WaitFlush}
  }

  ghost predicate Doomed(s: State, l: Ledger, id: nat) {
    l.tag == Some(id) && s.fsm in {AbortTransaction, AbortTransactionNi, WaitFlush}
  }

  /** The buffer tracks the outstanding requests. */
  ghost predicate Tracks(c: Config, s: State, l: Ledger)
    requires WellFormed(c, s)
  {
    && (forall id :: id in l.outstanding ==> id < c.entries && l.outstanding[id].cycle < l.now)
    && (forall k | 0 <= k < c.entries :: s.valid[k] <==> k in l.outstanding)
    && (forall k | 0 <= k < c.entries :: k in l.outstanding ==> s.buffer[k] == l.outstanding[k].load)
    && (forall k | 0 <= k < c.entries ::
          k in l.outstanding ==> (Live(l, k) <==> !s.flushed[k] && !Doomed(s, l, k)))
  }

  /** The FSM agrees with the last grant, and no waiting state has a full buffer. */
  ghost predicate FsmAgrees(c: Config, s: State, l: Ledger) {
    && (l.tag.Some? ==> l.tag.value == s.lastId && s.lastId in l.outstanding && TagCycle(s))
    && (s.fsm in {SendTag, AbortTransaction, AbortTransactionNi} ==> l.tag.Some?)
    && (s.fsm == WaitFlush ==> l.lastFlush == l.now - 1)
    && (s.fsm == WaitFlush && l.tag.None? ==> forall k | 0 <= k < |s.flushed| :: s.flushed[k])
    && (s.fsm == AbortTransaction ==> c.mmu)
    && (s.fsm in {AbortTransactionNi, WaitWbEmpty} ==> c.nonIdempotent)
    && (s.fsm == WaitTranslation ==> c.mmu || c.nonIdempotent)
    && (s.fsm in {WaitGnt, WaitPageOffset, WaitTranslation, WaitWbEmpty} ==> !Full(s))
  }

  ghost predicate Conserved(c: Config, l: Ledger) {
    l.taken == l.written + l.dropped + Pending(l, c.entries) + l.lost
  }

  ghost predicate Invariant(c: Config, s: State, l: Ledger) {
    && WellFormed(c, s)
    && l.lastFlush < l.now
    && Tracks(c, s, l)
    && FsmAgrees(c, s, l)
    && Conserved(c, l)
  }

  /** One cycle is admissible: the cache keeps its contract. Nothing is asked of the queue. */
  ghost predicate Admissible(c: Config, s: State, l: Ledger, i: Input) {
    && WellFormed(c, s) && IdInRange(c, i)
    && CacheContract(l, i, Outputs(c, s, i))
  }

  // ---------------------------------------------------------------- one cycle

  lemma ResponseIndex(c: Config, s: State, l: Ledger, i: Input)
    requires Invariant(c, s, l) && Admissible(c, s, l, i)
    ensures i.dataRvalid ==> ReadIndex(c, i) == i.dataRid < c.entries
  {
  }

  /** The slot of a grant is free, or is being freed by the response of the same cycle. */
  lemma GrantFindsRoom(c: Config, s: State, l: Ledger, i: Input)
    requires Invariant(c, s, l) && Admissible(c, s, l, i) && Grants(c, s, i)
    ensures var w := WriteIndex(c, s, i);
            w < c.entries && (w in l.outstanding ==> i.dataRvalid && i.dataRid == w)
  {
    var w := WriteIndex(c, s, i);
    if c.entries == 1 {
      if w in l.outstanding {
        assert Full(s);
      }
    } else {
      assert !Full(s);
      var j :| 0 <= j < |s.valid| && !s.valid[j];
      assert !s.valid[w];
    }
  }

  /** A response is written back exactly when its load is live. */
  lemma WriteBackIffLive(c: Config, s: State, l: Ledger, i: Input)
    requires Invariant(c, s, l) && Admissible(c, s, l, i)
    ensures Retires(c, s, i) <==> i.dataRvalid && Live(l, i.dataRid)
    ensures Retires(c, s, i) ==> Outputs(c, s, i).entry == l.outstanding[i.dataRid].load
  {
    ResponseIndex(c, s, l, i);
  }

  /** An exception in the tag cycle of a live load is written back with that load; any other comes without an answer. */
  ghost predicate ExceptionIsReported(l: Ledger, i: Input, o: Output) {
    && (i.exValid && l.tag.Some? && Live(l, l.tag.value) ==>
        o.valid && o.exValid && o.transId == l.outstanding[l.tag.value].load.transId)
    && (o.exValid ==> o.valid && i.exValid && (i.dataRvalid ==> l.tag == Some(i.dataRid)))
  }

  lemma ExceptionOfTag(c: Config, s: State, l: Ledger, i: Input)
    requires Invariant(c, s, l) && Admissible(c, s, l, i)
    ensures ExceptionIsReported(l, i, Outputs(c, s, i))
  {
    WriteBackIffLive(c, s, l, i);
  }

  ghost function After(c: Config, s: State, l: Ledger, i: Input): Ledger
    requires WellFormed(c, s) && IdInRange(c, i)
  {
    Observe(c.entries, l, i, Outputs(c, s, i))
  }

  /** How liveness of one id changes in a cycle. */
  lemma LiveAfter(c: Config, s: State, l: Ledger, i: Input, id: nat)
    requires Invariant(c, s, l) && Admissible(c, s, l, i)
    ensures var g, w := Grants(c, s, i), WriteIndex(c, s, i);
            Live(After(c, s, l, i), id) <==>
            && !i.flush
            && (if g && id == w then Pops(c, s, i) else Live(l, id) && !(i.dataRvalid && id == i.dataRid))
  {
  }

  /** The bookkeeping of one slot: occupied exactly if outstanding, and then holding its load. */
  lemma StepTracksEntry(c: Config, s: State, l: Ledger, i: Input, k: nat)
    requires Invariant(c, s, l) && Admissible(c, s, l, i) && k < c.entries
    ensures var s', l' := Next(c, s, i), After(c, s, l, i);
            && (s'.valid[k] <==> k in l'.outstanding)
            && (k in l'.outstanding ==> s'.buffer[k] == l'.outstanding[k].load)
  {
    ResponseIndex(c, s, l, i);
    if Grants(c, s, i) {
      GrantFindsRoom(c, s, l, i);
    }
  }

  /** A slot that is not granted in a cycle without a flush keeps its entry and its standing. */
  lemma UntouchedSlot(c: Config, s: State, l: Ledger, i: Input, k: nat)
    requires Invariant(c, s, l) && Admissible(c, s, l, i) && k < c.entries
    requires !i.flush && !(Grants(c, s, i) && k == WriteIndex(c, s, i)) && k in After(c, s, l, i).outstanding
    ensures k in l.outstanding && Next(c, s, i).flushed[k] == s.flushed[k]
    ensures Doomed(s, l, k) ==> i.dataRvalid && i.dataRid == k
    ensures !(i.dataRvalid && i.dataRid == k)
  {
  }

  lemma StepTracksSlot(c: Config, s: State, l: Ledger, i: Input, k: nat)
    requires Invariant(c, s, l) && Admissible(c, s, l, i) && k < c.entries
    ensures var s', l' := Next(c, s, i), After(c, s, l, i);
            k in l'.outstanding ==> (Live(l', k) <==> !s'.flushed[k] && !Doomed(s', l', k))
  {
    LiveAfter(c, s, l, i, k);
    if k in After(c, s, l, i).outstanding && !i.flush && !(Grants(c, s, i) && k == WriteIndex(c, s, i)) {
      UntouchedSlot(c, s, l, i, k);
    }
  }

  lemma StepTracks(c: Config, s: State, l: Ledger, i: Input)
    requires Invariant(c, s, l) && Admissible(c, s, l, i)
    ensures WellFormed(c, Next(c, s, i)) && Tracks(c, Next(c, s, i), After(c, s, l, i))
  {
    var s', l' := Next(c, s, i), After(c, s, l, i);
    if Grants(c, s, i) {
      GrantFindsRoom(c, s, l, i);
    }
    assert WellFormed(c, s');
    forall k | 0 <= k < c.entries
      ensures s'.valid[k] <==> k in l'.outstanding
      ensures k in l'.outstanding ==> s'.buffer[k] == l'.outstanding[k].load
      ensures k in l'.outstanding ==> (Live(l', k) <==> !s'.flushed[k] && !Doomed(s', l', k))
    {
      StepTracksEntry(c, s, l, i, k);
      StepTracksSlot(c, s, l, i, k);
    }
  }

  /** A state that may wait for a grant is entered with a slot to spare. */
  lemma StepNotFull(c: Config, s: State, l: Ledger, i: Input)
    requires Invariant(c, s, l) && Admissible(c, s, l, i)
    requires NextFsm(c, s, i) in {WaitGnt, WaitPageOffset, WaitTranslation, WaitWbEmpty}
    ensures !Full(Next(c, s, i))
  {
    ResponseIndex(c, s, l, i);
    assert !Grants(c, s, i);
    if Full(s) {
      assert i.dataRvalid;
      assert !Next(c, s, i).valid[ReadIndex(c, i)];
    } else {
      var j :| 0 <= j < |s.valid| && !s.valid[j];
      assert !Next(c, s, i).valid[j];
    }
  }

  /** Without a grant a free slot stays free. */
  lemma StaysFree(c: Config, s: State, i: Input)
    requires WellFormed(c, s) && !Grants(c, s, i) && !Full(s)
    ensures !Full(Next(c, s, i))
  {
    var j :| 0 <= j < |s.valid| && !s.valid[j];
    assert !Next(c, s, i).valid[j];
  }

  /** The last grant is the one whose tag is due. */
  lemma StepTag(c: Config, s: State, l: Ledger, i: Input)
    requires Invariant(c, s, l) && Admissible(c, s, l, i)
    ensures var s', l' := Next(c, s, i), After(c, s, l, i);
            && (l'.tag.Some? <==> Grants(c, s, i))
            && (l'.tag.Some? ==> l'.tag.value == s'.lastId && s'.lastId in l'.outstanding && TagCycle(s'))
            && (s'.fsm in {SendTag, AbortTransaction, AbortTransactionNi} ==> l'.tag.Some?)
  {
    if Grants(c, s, i) {
      GrantFindsRoom(c, s, l, i);
    }
  }

  lemma FsmFromTag(c: Config, s: State, l: Ledger, i: Input)
    requires WellFormed(c, s) && IdInRange(c, i) && FsmAgrees(c, s, l)
    requires var s', l' := Next(c, s, i), After(c, s, l, i);
             && (l'.tag.Some? ==> l'.tag.value == s'.lastId && s'.lastId in l'.outstanding && TagCycle(s'))
             && (s'.fsm in {SendTag, AbortTransaction, AbortTransactionNi} ==> l'.tag.Some?)
             && (s'.fsm in {WaitGnt, WaitPageOffset, WaitTranslation, WaitWbEmpty} ==> !Full(s'))
    ensures FsmAgrees(c, Next(c, s, i), After(c, s, l, i))
  {
  }

  lemma StepFsm(c: Config, s: State, l: Ledger, i: Input)
    requires Invariant(c, s, l) && Admissible(c, s, l, i)
    ensures FsmAgrees(c, Next(c, s, i), After(c, s, l, i))
  {
    StepTag(c, s, l, i);
    if NextFsm(c, s, i) in {WaitGnt, WaitPageOffset, WaitTranslation, WaitWbEmpty} {
      StepNotFull(c, s, l, i);
    }
    FsmFromTag(c, s, l, i);
  }

  /** The cycle behind a grant carries its tag, and kills the request exactly if it was not taken, a flush came with
      the grant, or its exception comes now. Behind any other cycle nothing but a flush makes a tag or a kill. */
  lemma TagFollowsGrant(c: Config, s: State, i: Input, i': Input)
    requires WellFormed(c, s) && IdInRange(c, i) && IdInRange(c, i')
    ensures var o, o' := Outputs(c, s, i), Outputs(c, Next(c, s, i), i');
            if o.dataReq && i.dataGnt then o'.tagValid && (o'.killReq <==> i.flush || !o.popLd || i'.exValid)
            else (o'.tagValid <==> i.flush) && (o'.killReq <==> i.flush)
  {
  }

  // ---------------------------------------------------------------- conservation

  /** Removing at most one live slot and adding at most one changes Pending by just those two loads. */
  lemma {:induction false} PendingUpdate(l: Ledger, l': Ledger, n: nat, r: Option<nat>, w: Option<nat>)
    requires l.watched == l'.watched
    requires r.Some? ==> Live(l, r.value)
    requires w.Some? ==> Live(l', w.value)
    requires w.Some? && Live(l, w.value) ==> r == w
    requires forall k | 0 <= k < n :: Live(l', k) <==> w == Some(k) || (Live(l, k) && r != Some(k))
    requires forall k | 0 <= k < n && Live(l, k) && Live(l', k) && w != Some(k) ::
               l'.outstanding[k].load.transId == l.outstanding[k].load.transId
    ensures Pending(l', n) + (if r.Some? && r.value < n then Bit(l.outstanding[r.value].load.transId == l.watched) else 0)
            == Pending(l, n) + (if w.Some? && w.value < n then Bit(l'.outstanding[w.value].load.transId == l.watched) else 0)
  {
    if n > 0 {
      PendingUpdate(l, l', n - 1, r, w);
    }
  }

  function Answered(c: Config, s: State, i: Input): Option<nat>
    requires WellFormed(c, s) && IdInRange(c, i)
  {
    if Retires(c, s, i) then Some(i.dataRid) else None
  }

  function Taken(c: Config, s: State, i: Input): Option<nat> {
    if Grants(c, s, i) && AfterGrant(c, i) == SendTag then Some(WriteIndex(c, s, i)) else None
  }

  /** Without a flush, the pending loads lose the one written back by a response and gain the one taken. */
  lemma PendingAfter(c: Config, s: State, l: Ledger, i: Input)
    requires Invariant(c, s, l) && Admissible(c, s, l, i) && !i.flush
    ensures Pending(After(c, s, l, i), c.entries)
            + Bit(Retires(c, s, i) && Outputs(c, s, i).entry.transId == l.watched)
            == Pending(l, c.entries) + Bit(Taken(c, s, i).Some? && i.request.transId == l.watched)
  {
    var l' := After(c, s, l, i);
    ResponseIndex(c, s, l, i);
    WriteBackIffLive(c, s, l, i);
    if Grants(c, s, i) {
      GrantFindsRoom(c, s, l, i);
    }
    var r, w := Answered(c, s, i), Taken(c, s, i);
    forall k | 0 <= k < c.entries
      ensures Live(l', k) <==> w == Some(k) || (Live(l, k) && r != Some(k))
    {
      LiveAfter(c, s, l, i, k);
    }
    PendingUpdate(l, l', c.entries, r, w);
  }

  lemma {:induction false} NothingPending(l: Ledger, n: nat)
    requires forall id | id in l.outstanding :: l.outstanding[id].cycle <= l.lastFlush
    ensures Pending(l, n) == 0
  {
    if n > 0 {
      NothingPending(l, n - 1);
    }
  }

  lemma StepConservedNoFlush(c: Config, s: State, l: Ledger, i: Input)
    requires Invariant(c, s, l) && Admissible(c, s, l, i) && !i.flush
    ensures Conserved(c, After(c, s, l, i))
  {
    PendingAfter(c, s, l, i);
  }

  /** A flush on top of a cycle drops what the cycle left pending. */
  lemma ObserveFlush(entries: nat, l: Ledger, i: Input, o: Output)
    requires i.flush
    requires forall id | id in l.outstanding :: l.outstanding[id].cycle < l.now
    ensures var l0, l' := Observe(entries, l, i.(flush := false), o), Observe(entries, l, i, o);
            && l'.taken == l0.taken && l'.written == l0.written && l'.lost == l0.lost
            && l'.dropped == l0.dropped + Pending(l0, entries)
            && Pending(l', entries) == 0
  {
    NothingPending(Observe(entries, l, i, o), entries);
  }

  lemma OnlyFlushDrops(entries: nat, l: Ledger, i: Input, o: Output)
    requires !i.flush
    ensures Observe(entries, l, i, o).dropped == l.dropped
  {
  }

  lemma StepConserved(c: Config, s: State, l: Ledger, i: Input)
    requires Invariant(c, s, l) && Admissible(c, s, l, i)
    ensures Conserved(c, After(c, s, l, i))
  {
    OutputsIgnoreFlush(c, s, i);
    StepConservedNoFlush(c, s, l, i.(flush := false));
    if i.flush {
      ObserveFlush(c.entries, l, i, Outputs(c, s, i));
    } else {
      assert i == i.(flush := false);
    }
  }

  lemma OutputsIgnoreFlush(c: Config, s: State, i: Input)
    requires WellFormed(c, s) && IdInRange(c, i)
    ensures Outputs(c, s, i.(flush := false)) == Outputs(c, s, i)
  {
  }

  // ---------------------------------------------------------------- runs

  lemma Step(c: Config, s: State, l: Ledger, i: Input)
    requires Invariant(c, s, l) && Admissible(c, s, l, i)
    ensures Invariant(c, Next(c, s, i), After(c, s, l, i))
  {
    StepTracks(c, s, l, i);
    StepFsm(c, s, l, i);
    StepConserved(c, s, l, i);
  }
}
