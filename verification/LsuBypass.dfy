/** The two-entry LSU request queue with same-cycle bypass (core/lsu_bypass.sv). */
module LsuBypasses {

  import opened Arithmetic
  import opened LoadResults
  import opened LoadUnits
  import opened Sequences

  /** One LSU request: a load or a store. */
  datatype LsuCtrl = LsuCtrl(valid: bool, store: bool, load: Load)

  const NO_REQUEST := LsuCtrl(false, false, Load(0, 0, LD))

  datatype QueueInput = QueueInput(flush: bool, req: LsuCtrl, reqValid: bool, popLd: bool, popSt: bool)

  datatype Queue = Queue(mem: seq<LsuCtrl>, readPtr: nat, writePtr: nat, count: nat)

  ghost predicate Sized(q: Queue) {
    |q.mem| == 2 && q.readPtr < 2 && q.writePtr < 2 && q.count < 4
  }

  const EMPTY_QUEUE := Queue([NO_REQUEST, NO_REQUEST], 0, 0, 0)

  function Ready(q: Queue): bool {
    q.count == 0
  }

  function Head(q: Queue, req: LsuCtrl): LsuCtrl
    requires Sized(q)
  {
    if q.count == 0 then req else q.mem[q.readPtr]
  }

  /** How many entries a cycle removes. */
  function Removed(i: QueueInput): nat {
    Bit(i.popLd) + Bit(i.popSt)
  }

  /** The one-bit pointers and the two-bit count wrap. */
  function Flip(b: bool, ptr: nat): nat
    requires ptr < 2
  {
    if b then 1 - ptr else ptr
  }

  function Inc(b: bool, cnt: nat): nat {
    if !b then cnt else if cnt == 3 then 0 else cnt + 1
  }

  function Dec(b: bool, cnt: nat): nat {
    if !b then cnt else if cnt == 0 then 3 else cnt - 1
  }

  /** Registers after a cycle. */
  function NextQueue(q: Queue, i: QueueInput): (r: Queue)
    requires Sized(q)
    ensures Sized(r)
  {
    if i.flush then EMPTY_QUEUE else
    var stored := if i.reqValid then q.mem[q.writePtr := i.req] else q.mem;
    var mem :=
      if i.popLd && i.popSt then EMPTY_QUEUE.mem
      else if i.popLd || i.popSt then stored[q.readPtr := stored[q.readPtr].(valid := false)]
      else stored;
    Queue(
      mem,
      Flip(i.popSt, Flip(i.popLd, q.readPtr)),
      Flip(i.reqValid, q.writePtr),
      Dec(i.popSt, Dec(i.popLd, Inc(i.reqValid, q.count))))
  }

  class LsuBypass {
    var mem: array<LsuCtrl>
    var readPointer: nat
    var writePointer: nat
    var statusCnt: nat

    ghost function Snapshot(): Queue
      reads this, mem
    {
      Queue(mem[..], readPointer, writePointer, statusCnt)
    }

    ghost predicate Valid()
      reads this, mem
    {
      Sized(Snapshot())
    }

    constructor ()
      ensures Valid() && fresh(mem) && Snapshot() == EMPTY_QUEUE
    {
      mem := new LsuCtrl[2](_ => NO_REQUEST);
      readPointer, writePointer, statusCnt := 0, 0, 0;
    }

    /** The oldest request the queue has, or else the one arriving now, whose valid bit says whether there
        is one; ready when none is held. */
    method Output(req: LsuCtrl) returns (head: LsuCtrl, ready: bool)
      requires Valid()
      ensures Consistent(Snapshot()) ==> head == (Contents(Snapshot()) + [req])[0]
      ensures Consistent(Snapshot()) ==> (ready <==> Contents(Snapshot()) == []) && (ready || head.valid)
      ensures head == Head(Snapshot(), req) && ready == Ready(Snapshot())
    {
      ready := statusCnt == 0;
      if ready {
        head := req;
      } else {
        head := mem[readPointer];
      }
    }

    method Clock(i: QueueInput)
      requires Valid()
      modifies this, mem
      ensures Valid() && mem == old(mem)
      ensures Snapshot() == NextQueue(old(Snapshot()), i)
    {
      var cnt, wp, rp, memN := statusCnt, writePointer, readPointer, mem[..];
      if i.reqValid {
        memN := memN[writePointer := i.req];
        wp, cnt := Flip(true, wp), Inc(true, cnt);
      }
      if i.popLd {
        memN := memN[readPointer := memN[readPointer].(valid := false)];
        rp, cnt := Flip(true, rp), Dec(true, cnt);
      }
      if i.popSt {
        memN := memN[readPointer := memN[readPointer].(valid := false)];
        rp, cnt := Flip(true, rp), Dec(true, cnt);
      }
      if i.popSt && i.popLd {
        memN := [NO_REQUEST, NO_REQUEST];
      }
      if i.flush {
        cnt, wp, rp, memN := 0, 0, 0, [NO_REQUEST, NO_REQUEST];
      }
      mem[0], mem[1] := memN[0], memN[1];
      assert mem[..] == memN;
      readPointer, writePointer, statusCnt := rp, wp, cnt;
    }
  }

  // ---------------------------------------------------------------- refinement of a sequence

  /** The queue holds at most two requests, all valid, between its pointers. */
  ghost predicate Consistent(q: Queue) {
    && Sized(q)
    && q.count <= 2
    && q.writePtr == Flip(q.count == 1, q.readPtr)
    && (q.count >= 1 ==> q.mem[q.readPtr].valid)
    && (q.count == 2 ==> q.mem[1 - q.readPtr].valid)
  }

  ghost function Contents(q: Queue): seq<LsuCtrl>
    requires Consistent(q)
  {
    if q.count == 0 then []
    else if q.count == 1 then [q.mem[q.readPtr]]
    else [q.mem[q.readPtr], q.mem[1 - q.readPtr]]
  }

  /** Slots that hold nothing have their valid bit cleared. */
  ghost predicate Tidy(q: Queue) {
    && Sized(q)
    && (q.count < 2 ==> !q.mem[1 - q.readPtr].valid)
    && (q.count == 0 ==> !q.mem[q.readPtr].valid)
  }

  /** What the queue offers in a cycle: its contents and then the request arriving now. */
  ghost function Offered(q: Queue, i: QueueInput): seq<LsuCtrl>
    requires Consistent(q)
  {
    Contents(q) + if i.reqValid then [i.req] else []
  }

  /** The rules of the two sides: the valid bit travels with the request, a request comes only
      if there is room for it, and at most one unit removes the head, which must exist. */
  ghost predicate Orderly(q: Queue, i: QueueInput) {
    && Consistent(q)
    && i.req.valid == i.reqValid
    && (i.reqValid ==> q.count <= 1)
    && Removed(i) <= 1
    && Removed(i) <= |Offered(q, i)|
  }

  /** The circular buffer is a first-in first-out sequence: arrivals at the end, removals at the head. */
  lemma FifoStep(q: Queue, i: QueueInput)
    requires Orderly(q, i)
    ensures Consistent(NextQueue(q, i)) && (Tidy(q) ==> Tidy(NextQueue(q, i)))
    ensures Contents(NextQueue(q, i)) == if i.flush then [] else Offered(q, i)[Removed(i)..]
  {
  }

  /** The head shown is the oldest offered request; its valid bit tells whether there is one. */
  lemma HeadIsOldest(q: Queue, i: QueueInput)
    requires Orderly(q, i)
    ensures Head(q, i.req).valid <==> Offered(q, i) != []
    ensures Offered(q, i) != [] ==> Head(q, i.req) == Offered(q, i)[0]
  {
  }

  /** The requests that arrived since the last flush are those that left and those still held, in order. */
  lemma FifoLog(q: Queue, i: QueueInput, arrived: seq<LsuCtrl>, left: seq<LsuCtrl>)
    requires Orderly(q, i) && !i.flush
    requires arrived == left + Contents(q)
    ensures Consistent(NextQueue(q, i))
    ensures arrived + (if i.reqValid then [i.req] else [])
            == left + (if Removed(i) > 0 then [Head(q, i.req)] else []) + Contents(NextQueue(q, i))
  {
    FifoStep(q, i);
    HeadIsOldest(q, i);
    var arriving, held := if i.reqValid then [i.req] else [], Contents(q);
    ConcatAssoc(left, held, arriving);
    if Removed(i) > 0 {
      assert Offered(q, i) == [Offered(q, i)[0]] + Offered(q, i)[1..];
      ConcatAssoc(left, [Head(q, i.req)], Offered(q, i)[1..]);
    }
  }

  /** A request that arrives with nothing removed keeps the queue sound exactly when it is not the third. */
  lemma OverrunIffThird(q: Queue, i: QueueInput)
    requires Consistent(q) && !i.flush && i.reqValid && i.req.valid && Removed(i) == 0
    ensures Consistent(NextQueue(q, i)) <==> q.count <= 1
  {
  }
}
