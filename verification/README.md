# Verified models of the CVA6 pipeline and boot ROM

This project models, in Dafny, the parts of a CVA6 RISC-V system whose correctness cannot be read off one
block of code: the load path, the instruction realigner, the commit stage with its fence handshake, traps and
interrupt selection, the AXI write channel, the two register files, the ALU's shift and compare tricks, and, of
the boot ROM, two barriers between harts and the copy from the SD card with its CRC.

A clocked module is a class: its registers are fields, its combinational processes are methods that overwrite
their signals in the order of the source, and `Clock` is one edge. Each method is proved equal to a function of
the old registers and the inputs, which states every signal by the condition that decides it. The theorems are
about runs of those functions: any number of cycles, any inputs that the neighbours can produce. What a
neighbour outside the model must promise is a named predicate (`CacheContract`, `FetchOk`, `Orderly`,
`Environment`), never a silent restriction.

| file | contents |
|---|---|
| `Arithmetic.dfy`, `Options.dfy`, `Sequences.dfy`, `Bits.dfy` | integers, optional values, slices, and bit vectors of any width with the integers they denote |
| `LoadResult.dfy`, `LoadUnit.dfy` | the result mux and the nine-state load FSM with its buffer |
| `LoadLedger.dfy` | an observer of the cache port, and the invariant that ties it to the load unit |
| `LsuBypass.dfy`, `IssueHandshake.dfy`, `StoreUnit.dfy` | queue, issue rule, and the four-state store FSM |
| `LoadPath.dfy`, `LoadProgress.dfy` | the closed loop of issue register, queue, load unit and store unit, and how soon it serves a load |
| `LoadHazard.dfy` | when a load may be requested and when it may leave: page offsets, translation, non-idempotent pages |
| `StoreFault.dfy`, `FaultContainment.dfy` | the run on which a faulty store breaks the queue, and what it leaves alone |
| `WtDcachePort.dfy`, `WbDcachePort.dfy` | the read port FSMs of the write-through and of the write-back cache, which keep the contract assumed of a cache |
| `InstrRealign.dfy` | the 32-bit realigner against a recursive parser of memory |
| `Barrier.dfy`, `ClintBarrier.dfy`, `TicketBarrier.dfy` | an abstract one-shot barrier and the two boot ROM protocols |
| `ClintReuse.dfy`, `TicketReuse.dfy` | the same two protocols when harts come back for another round |
| `RegisterFiles.dfy` | flip-flop and multi-bank register file |
| `Commit.dfy`, `Controller.dfy`, `CommitLoop.dfy` | the commit stage, the flush controller, and the loop of both |
| `CsrFile.dfy`, `Interrupts.dfy` | trap entry and return, delegation, and the decoder's choice of an interrupt |
| `AxiWrite.dfy` | the AXI write FSM |
| `Polynomial.dfy`, `Crc16.dfy`, `SdCopy.dfy` | division over GF(2), `crc16`, and `sd_copy` |
| `CrcPower.dfy`, `Primes.dfy`, `CrcOrder.dfy`, `CrcErrors.dfy` | powers of x modulo the divisor, Euclid's algorithm, the period 32767, and the errors that the check notices |
| `Alu.dfy` | adder, shifter, comparator, rotations |

## Assumptions

- Cache: it answers only requests that are outstanding, except that it may answer a kill that comes while no request is
  in its tag cycle; a request killed in its tag cycle is answered in that cycle under its own id; and ids are ones that
  it was given (`LoadLedgers.CacheContract`, `LoadUnits.IdInRange`). All of this is proved of the read ports of both caches:
  of `core/cache_subsystem/wt_dcache_ctrl.sv` with nothing left to assume, and of `core/cache_subsystem/cache_ctrl.sv`, which
  does answer kills of nothing, assuming that a line that hits is cacheable and is not being served by the miss unit
  (`WbDcachePorts.HitsAreExclusive`, as its comment at lines 229-247 has it).
- Load and store path: nothing but the above. The store unit is in the loop, exceptions and TLB hits may come in any cycle. Only
  `FaultContainment` adds that ids number the instructions in program order (`InProgramOrder`); they stand for the
  scoreboard's circular ids, of which each names one instruction in flight. `LoadProgress` bounds how long the cache may
  take for a grant and for an answer (`PromptRun`), and asks for calm cycles until the load has left the queue (`Calm`).
- Fetch: after the first fetch, fetches go on word by word until a flush; for an odd half-word the data arrives
  shifted down and zero-filled (`InstrRealigners.FetchOk`).
- Barriers: sequential consistency, all words and the counter zero at the start, words of absent harts read as zero. The `wfi` of
  `corev_apu/fpga/src/bootrom/src/smp.h:43`, the read of `mip` and the branch back are one polling step: only the software
  interrupt is enabled in `mie`, so `wfi` waits for just the word that is polled.
- Commit: facts of the decoder about `rd`, unit and operation (`Commits.WellDecoded`); the CSR file faults only on a
  CSR access it is shown, and an atomic is acknowledged only while requested (`Commits.Answers`).
- Traps: commit shows the CSR file one instruction and never a CSR instruction together with its exception
  (`CsrFiles.Orderly`); `mpp` holds a legal level.
- SD card: a stream of bytes in which the awaited data tokens arrive (`SdCopies.Supplies`).

## Where the code and its comments differ

- In `WAIT_WB_EMPTY` the load unit is said to wait until the write buffer is empty. While it is not empty the state
  falls into the last branch and the FSM goes to `IDLE`, from where the load starts afresh
  (`core/load_unit.sv:352-370`). The model follows the code.
- The guard `~waddr_i[j] != 0` of the banked register file looks as if it kept register 0 unwritten; by the width
  rules of section 11.6 of IEEE 1800-2017 it is always true. The model has no guard.
- A flush is commented as raising the flag of all slots; that of a load granted in the same cycle is cleared again
  (`core/load_unit.sv:132-139`). Such a load is shown never to be written back all the same, because the next state kills it.

## Properties that fail as stated, and when they hold

- `LoadPaths.OwnPopsIffNeverOverPops`: each unit removes only valid requests of its own kind, so that the queue holds at most two in order,
  exactly if no exception meets the store unit in `VALID_STORE` without a store at the head. A store that hits the TLB leaves the queue at once
  (`core/store_unit.sv:97-102`); its exception comes a cycle later and pops again (`core/store_unit.sv:171-177`). `LoadPaths.OverPopBreaks`
  says what that does, `StoreFaults.FaultyStoreStopsQueue` gives a run from reset on which the two-bit count wraps and the queue is not ready again
  before a flush. That flush follows from the exception, and `FaultContainment` shows that until then only requests younger than the faulty
  store are touched; the conservation of loads holds on all of these runs.
- `LoadHazards.NoRequestBeforeOffsetClears`: no load is requested before its own page offset was seen clear, unless there was an over-pop since the last
  flush. `LoadHazards.StaleLoadIsRequested` gives the run: the load whose offset was clear is removed by the exception, and its request stands for the next.
- `ClintBarriers.SafeIffHartZeroLeads`: the CLINT barrier is safe exactly if hart 0 leads and the loops reach every hart, or
  another hart leads and there are only two; otherwise a hart can pass before others have arrived.
- `ClintBarriers.AllPassIffLoopsReachAll`: whoever leads, every hart passes under fair scheduling exactly if the loops reach every hart.
- `TicketBarriers.SafeIffBoundCoversHarts`: the ticket barrier is safe exactly if `MAX_HARTS` is not below the hart count, or is
  zero, which the counter never shows again.
- `TicketBarriers.NeverStuckIffBoundIsHartCount`: it cannot get stuck exactly if `MAX_HARTS` is the hart count.
- `ClintReuse.ReusableIffAlone`, `TicketReuse.NobodyPassesTwice`: neither barrier can be used for a second round. The CLINT one can hang for good exactly
  if there is more than one hart, and the ticket one never lets a hart pass twice, because nothing sets its counter back.
- `CrcErrors.TwoBitsPassIffFarApart`: two wrong bits go unnoticed exactly if their distance is a multiple of 32767, which no block of the card is long enough for.
- `Interrupts.RuleHoldsIff`: the decoder takes the interrupt that section 3.1.9 of the RISC-V Privileged Architecture
  asks for exactly if `mideleg` is closed downwards in the decoder's order; else a blocked delegated one hides another.
- `LoadResults.FastEqualsLean`: the two result muxes agree on every word exactly for loads that are not narrow FP ones, which
  only the fast mux boxes, and that stay inside the word if they are signed.
- `AxiWrites.ServedIffSupported`: a write is granted exactly if bursts are enabled or it has one beat, and the bus has been ready
  for an address and for all beats, in any pattern; `AxiWrites.UnsupportedRepeats` says what the bus sees of any other.
- `RegisterFiles.SameReads`: both files read the same exactly at registers written since reset, at the hardwired zero, or where bank 0 came up as zero.
- `Controllers.RegistersPartIff`: taken alone, the handshake registers part exactly when a fence meets an acknowledge.
- `Commits.PreciseIffHaltedWhileFlushing`: taken alone, the commit stage is precise exactly if it is halted whenever a write-back cache
  is being flushed. The closed loop excludes both failures.

## Model

| member | source | states |
|---|---|---|
| LoadUnits.LoadUnit.LoadControl | core/load_unit.sv:199-380 | every FSM signal, assigned in source order, is the one that the state and inputs call for, in all nine states |
| LoadUnits.LoadUnit.RvalidOutput | core/load_unit.sv:390-419 | an answer is passed on unless flushed or killed, an exception of a killed load still is, and a translation exception yields to an answer |
| LoadUnits.LoadUnit.LdbufComb | core/load_unit.sv:124-142 | valid and flushed bits after a cycle slot by slot, including the slot freed and claimed at once |
| LoadUnits.LoadUnit.Registers | core/load_unit.sv:144-158 | the new buffer, its last id and the state, and that only the granted slot is overwritten |
| LoadUnits.LoadUnit.Evaluate | core/load_unit.sv:85-122 | indices and fall-through of the buffer give the outputs of the specification |
| LoadUnits.LoadUnit.Clock | core/load_unit.sv:85-431 | one edge of the unit equals the step function that the run theorems are about |
| LoadLedgers.WriteBackIffLive | core/load_unit.sv:390-412 | an answer is written back if and only if its load was taken and granted after the last flush, with that load's data |
| LoadLedgers.GrantFindsRoom | core/load_unit.sv:260-283 | a grant lands on a free slot or one being answered, though WAIT_GNT does not look at the buffer |
| LoadLedgers.StepNotFull | core/load_unit.sv:216-283 | a state that may wait for a grant is only entered with a slot to spare |
| LoadLedgers.StepTracks | core/load_unit.sv:124-158 | valid bits are the outstanding requests, entries their loads, flushed bits and the FSM their liveness |
| LoadLedgers.StepFsm | core/load_unit.sv:199-380 | the FSM agrees with the last grant: whose tag is due, who will be killed, and that a kill of nothing finds all slots flushed |
| LoadLedgers.ObserveFlush | core/load_unit.sv:132-139 | a flush drops what was pending, including a load granted in that cycle |
| LoadLedgers.PendingAfter | core/load_unit.sv:122-158 | without a flush the pending loads change by the one answered and the one taken |
| LoadLedgers.Step | core/load_unit.sv:122-431 | every admissible cycle keeps the invariant of buffer, FSM and ledger |
| LoadLedgers.TagFollowsGrant | core/load_unit.sv:286-350 | the cycle behind a grant carries its tag, and kills the request exactly if it was not taken, a flush came with it, or its exception comes now; no other tag or kill happens without a flush |
| LoadHazards.NoRequestBeforeOffsetClears | core/load_unit.sv:214-258 | over every run a load is requested only if some cycle since it came to the head showed no page-offset match, and in IDLE and SEND_TAG that is the cycle of the request; after an over-pop, since the last load left |
| LoadHazards.StaleLoadIsRequested | core/load_unit.sv:251-258 | a run with an over-pop, after which a load that always matched a page offset is requested |
| LoadHazards.PopsIff | core/load_unit.sv:229-283 | a granted load leaves the queue exactly if it has a TLB hit or there is no MMU, and its page is idempotent, or both buffers are clear and it is at commit; otherwise only an exception in the wait for a translation removes one |
| LoadHazards.RemovalsAreSafe | core/load_unit.sv:192-367 | over every run no load leaves otherwise, none is requested or removed without asking for its translation, and none is asked for that is not there |
| LoadHazards.RefusedForTranslation | core/load_unit.sv:338-346 | a load granted on a TLB miss is killed and then only asks for its translation |
| LoadHazards.AsksUntilHit | core/load_unit.sv:355-367 | it asks until the hit and is requested in the cycle behind it; an exception removes it in a cycle without an answer |
| LoadHazards.RefusedForOrder | core/load_unit.sv:347-370 | a load granted too early for its non-idempotent page is killed, and asks again if the write buffer is then clear, else starts afresh |
| StoreUnits.StoreUnit.StoreControl | core/store_unit.sv:83-180 | state, pop, answer and posting of the store FSM, assigned in source order, exception and flush last |
| StoreUnits.StoreUnit.Clock | core/store_unit.sv:83-299 | one edge of the store unit equals the step function of the loop |
| StoreUnits.StoreStep | core/store_unit.sv:83-180 | if waiting stores stay at the head, those removed are those answered, dropped by a flush, skipped by an exception before them, or about to be answered |
| StoreUnits.PostedIffTaken | core/store_unit.sv:114-121 | what is posted and answered in a cycle is exactly what was taken in the one before, under its own id, unless a flush or an exception came then or comes now |
| StoreUnits.TakenStoreHasRoom | core/store_unit.sv:96-140 | short of an exception a store leaves the queue only with room behind it and translated in that cycle, and an atomic never while another store is posted |
| StoreUnits.StoreLeavesSoon | core/store_unit.sv:96-165 | with room and a translation a store leaves at once, or one cycle later if the unit had been waiting or an atomic follows a store |
| StoreUnits.AsksTranslationIff | core/store_unit.sv:96-165 | a translation is asked for exactly while the unit waits or for a store that it may take, and a waiting unit does nothing else short of an exception |
| StoreUnits.HeldStoreFaults | core/store_unit.sv:168-178 | a store that is held back stays at the head, and its exception answers it under its id and removes it |
| StoreUnits.TranslatedStoreRetries | core/store_unit.sv:154-165 | a store that waited for its translation is tried again in the cycle behind the hit |
| LoadPaths.ExactlyOnce | core/load_unit.sv:199-419 | over every run the loads taken with an id are those written back, dropped by a flush, pending, or lost to an over-pop, each once; without an over-pop none is lost |
| LoadPaths.StoresExactlyOnce | core/store_unit.sv:83-180 | over every run without an over-pop each store removed is answered, dropped, skipped or about to be answered, once |
| LoadPaths.WriteBacksAreLive | core/load_unit.sv:390-419 | after any run only live loads are written back, under their own id, and every answered live one is, with the exception of its tag cycle if there is one |
| LoadPaths.GrantsNeverOverwrite | core/load_unit.sv:260-283 | after any run no grant overwrites an outstanding slot |
| LoadPaths.QueueKeepsOrder | core/lsu_bypass.sv:53-105 | after any run without an over-pop since the last flush the queue holds at most two requests, in arrival order without loss, and waiting states see a valid request of their kind |
| LoadPaths.OwnPopsIffNoOverPop | core/store_unit.sv:171-177 | with the queue in order, both units remove only their own valid requests in a cycle if and only if it is no over-pop |
| LoadPaths.OwnPopsIffNeverOverPops | core/store_unit.sv:171-177 | the same over every run from reset |
| LoadPaths.OverPopBreaks | core/lsu_bypass.sv:53-97 | an over-pop removes a load that is not taken, or else wraps the count to three |
| LoadPaths.HeadIsStable | core/lsu_bypass.sv:99-105 | with the queue in order, the head changes only when popped or flushed |
| LoadPaths.WaitingKeepsHead | core/load_unit.sv:215-380 | a unit left waiting has its own request at the head, and it is there in the next cycle |
| LoadPaths.LoopStep | core/issue_read_operands.sv:146-159 | under the issue rule every cycle without an over-pop keeps the queue in order and the units in step with it |
| LoadPaths.FlushCleans | core/lsu_bypass.sv:86-91 | a flush puts queue and units in order from any state |
| StoreFaults.FaultyStoreStopsQueue | core/store_unit.sv:171-177 | from reset, one store refused after it left the queue makes the count three, and on every continuation without a flush the queue is never ready |
| StoreFaults.StuckUntilFlush | core/lsu_bypass.sv:44-97 | a wrapped count stays until a flush, whatever comes |
| FaultContainment.ContainedStep | core/lsu_bypass.sv:53-105 | after a fault every cycle keeps all valid slots younger than the faulty store, and both units off the slots that are not |
| FaultContainment.FaultTouchesOnlyYounger | core/store_unit.sv:171-177 | after any run with a fault, all requests up to the faulty store have left in order, and what the load unit requests or removes next is younger |
| FaultContainment.SparedExactlyOnce | core/store_unit.sv:171-177 | whatever faults occur, loads that are not younger than one, or are issued after its flush, are removed by the load unit only and written back, dropped or pending, each once |
| LoadProgress.WaitShrinks | core/load_unit.sv:199-380 | in every state each calm cycle brings the grant of the head nearer, or removes it |
| LoadProgress.AnsweredInTime | core/load_unit.sv:390-419 | a load that was taken is written back as soon as the cache has had its time, without a flush |
| LoadProgress.LoadIsServed | core/load_unit.sv:199-419 | the load at the head is written back within grant + 2 answer + 3 cycles of a cache that grants and answers within those bounds |
| LsuBypasses.LsuBypass.Clock | core/lsu_bypass.sv:53-122 | pointers, status count and memory after an edge, for any mix of push, pops and flush |
| LsuBypasses.LsuBypass.Output | core/lsu_bypass.sv:99-105 | a caller sees the oldest request held, or else the one arriving now; ready means that none is held |
| LsuBypasses.FifoStep | core/lsu_bypass.sv:53-97 | the circular buffer is a sequence: arrivals at the end, removals at the head |
| LsuBypasses.HeadIsOldest | core/lsu_bypass.sv:99-105 | the request shown is the oldest, and its valid bit says whether there is one |
| LsuBypasses.FifoLog | core/lsu_bypass.sv:53-97 | arrivals since the last flush are departures followed by contents |
| LsuBypasses.OverrunIffThird | core/lsu_bypass.sv:44-51 | an arrival breaks the queue exactly if it would be the third entry |
| IssueHandshake.IssueStage.Acknowledge | core/issue_read_operands.sv:383-411 | the acknowledge, with the busy rule of the LSU |
| IssueHandshake.IssueStage.Clock | core/issue_read_operands.sv:290-352 | the registered valid of the LSU request after an edge |
| IssueHandshake.ValidFollowsReady | core/issue_read_operands.sv:312-325 | a valid request appears only in the cycle after ready, and never after a flush |
| IssueHandshake.RequestEntersIff | core/issue_read_operands.sv:312-411 | a load or store enters the LSU exactly if offered without exception or flush, nothing stalls, the LSU is ready, and its destination is free or being written |
| IssueHandshake.AcknowledgeIsSafe | core/issue_read_operands.sv:383-411 | nothing is acknowledged to a busy unit or against a pending write, save an instruction with an exception or without a unit |
| IssueHandshake.ReadyIsAcknowledged | core/issue_read_operands.sv:383-411 | with all units ready and the destination free only the multiplier holds an instruction back |
| WtDcachePorts.WtDcacheCtrl.Clock | core/cache_subsystem/wt_dcache_ctrl.sv:121-275 | grant, answer and state of the read port FSM after an edge |
| WtDcachePorts.PortMeetsContract | core/cache_subsystem/wt_dcache_ctrl.sv:121-246 | the port answers only outstanding requests under ids it was given, and a killed one in the kill cycle under its own id |
| WtDcachePorts.AnswersHaveData | core/cache_subsystem/wt_dcache_ctrl.sv:121-246 | a load that is not killed is answered only with a hit under a tag that is there on a read that need not be repeated, or with what the miss unit returns |
| WtDcachePorts.ReplayReadsAgain | core/cache_subsystem/wt_dcache_ctrl.sv:146-226 | a read to be repeated, or a miss sent back, is read again under the same id before anything but a kill is answered |
| WtDcachePorts.PortAdvances | core/cache_subsystem/wt_dcache_ctrl.sv:121-246 | while the memory is not busy each cycle brings an access nearer to its answer |
| WtDcachePorts.KilledMissIsAwaited | core/cache_subsystem/wt_dcache_ctrl.sv:195-246 | a miss that is already with the memory when killed is waited for before anything else is granted |
| WtDcachePorts.ReturnAwaitedWhileOwed | core/cache_subsystem/wt_dcache_ctrl.sv:179-243 | a return of the miss unit is awaited exactly from its acknowledge to the return, killed or not, and the unit is asked on until it acknowledges or sends the miss back |
| WtDcachePorts.PortRunIsRun | core/cache_subsystem/wt_dcache_ctrl.sv:121-246 | every run over this port is a run in the sense of the load path theorems |
| WtDcachePorts.ExactlyOnceOverWtCache | core/load_unit.sv:199-419 | conservation of loads over the write-through cache with no assumption on the cache or the store unit |
| WbDcachePorts.CacheCtrl.WithTag | core/cache_subsystem/cache_ctrl.sv:172-272 | the states waiting for the tag: hit, miss, next request, MSHR match and uncacheable line, in the order of the source |
| WbDcachePorts.CacheCtrl.Serve | core/cache_subsystem/cache_ctrl.sv:135-169 | the idle state and the answers of the miss unit, with the request taken along |
| WbDcachePorts.CacheCtrl.Clock | core/cache_subsystem/cache_ctrl.sv:108-454 | grant, answer, id, killed mark and state of the controller after an edge, the kill last |
| WbDcachePorts.HeldLoad | core/cache_subsystem/cache_ctrl.sv:108-439 | the one load held is given up exactly when answered, and a granted one takes its place |
| WbDcachePorts.CtrlMeetsContract | core/cache_subsystem/cache_ctrl.sv:108-439 | the controller answers only the outstanding request or a kill, and a request killed in its tag cycle at once under its own id |
| WbDcachePorts.AnswersHaveData | core/cache_subsystem/cache_ctrl.sv:172-430 | a load that is not killed is answered only with a hit of a cacheable line under a tag that is there, the critical word of a miss, or the word of the bypass |
| WbDcachePorts.MissesGoOut | core/cache_subsystem/cache_ctrl.sv:172-272 | a miss and an uncacheable line go to the miss unit, a line being served waits for its MSHR, a hit ends the access |
| WbDcachePorts.WaitsOnlyForGranted | core/cache_subsystem/cache_ctrl.sv:340-430 | a word of the miss unit is awaited only when that unit has granted it |
| WbDcachePorts.GrantBringsTag | core/cache_subsystem/cache_ctrl.sv:135-212 | when a request is granted, in bypass mode and behind a hit or a critical word, and that its tag is due in the next cycle |
| WbDcachePorts.ArrayIsGranted | core/cache_subsystem/cache_ctrl.sv:262-327 | the array is read under a tag only behind its grant, which takes a request on that waits for its tag, for the array or for its MSHR |
| WbDcachePorts.TagIsKept | core/cache_subsystem/cache_ctrl.sv:172-345 | a tag is saved when it comes and only then, and kept until the access ends |
| WbDcachePorts.WordsAreAwaited | core/cache_subsystem/cache_ctrl.sv:347-438 | a kill ends an access at once unless it is with the miss unit, and a word of that unit is awaited exactly from its grant to its arrival, a bypass no longer once killed |
| WbDcachePorts.CtrlAdvances | core/cache_subsystem/cache_ctrl.sv:108-439 | while the memory is not busy each cycle brings an access nearer to its end |
| WbDcachePorts.IdleKillIsAnswered | core/cache_subsystem/cache_ctrl.sv:433-438 | a kill is answered also when idle with nothing ever requested, so the contract needs that exception |
| WbDcachePorts.CtrlRunIsRun | core/cache_subsystem/cache_ctrl.sv:108-439 | every run over this port is a run in the sense of the load path theorems |
| WbDcachePorts.ExactlyOnceOverWbCache | core/load_unit.sv:199-419 | conservation of loads over the write-back cache, also when an idle load unit is flushed |
| LoadResults.FastEqualsLean | core/load_unit.sv:437-506 | the fast mux equals the lean one of the comment on all words, if and only if the load is not a narrow FP one and is in range if signed |
| LoadResults.ResultMeaning | core/load_unit.sv:456-506 | signed loads keep the two's-complement integer of the bytes, unsigned ones the unsigned, narrow FP loads are boxed with ones |
| InstrRealigners.InstrRealign.Clock | core/instr_realign.sv:58-105 | slots and carried half-word, overwritten in source order, equal the specification |
| InstrRealigners.ParseExtends | core/instr_realign.sv:57-105 | the reference parse of a longer stretch continues where the shorter one stopped |
| InstrRealigners.ParseIsContiguous | core/instr_realign.sv:57-105 | the reference parse leaves no gap and no overlap between instructions |
| InstrRealigners.CycleRefinesParse | core/instr_realign.sv:57-105 | a cycle emits exactly what the parse of the longer stretch adds, and the carry says what is left |
| InstrRealigners.FirstOddStep | core/instr_realign.sv:77-104 | the same for a first fetch at an odd half-word |
| InstrRealigners.RealignerRefinesParser | core/instr_realign.sv:57-105 | for every memory and run with idle cycles and flushes, the emitted pairs are the sequential parse since the last redirect, and a half-word is carried exactly when an instruction straddles the boundary |
| InstrRealigners.ServingMarksStraddlers | core/instr_realign.sv:58-79 | over every run serving_unaligned marks exactly the fetches whose first instruction began in the word before |
| Barriers.BarrierStepKeepsClosed | corev_apu/fpga/src/bootrom/src/smp.h:17-21 | the abstract barrier: nobody passes before the leader is done and all have arrived, and nothing is undone |
| Barriers.RunsAreBarrierRuns | corev_apu/fpga/src/bootrom/src/smp.h:17-21 | every run of a protocol whose steps map to barrier steps is a run of the abstract barrier |
| Barriers.StandStep | corev_apu/fpga/src/bootrom/src/smp.h:17-21 | a hart that arrives, or passes when all have arrived, makes a step of the barrier that the program counters make up |
| Barriers.SimulationIsClosed | corev_apu/fpga/src/bootrom/src/smp.h:17-21 | so the states that it reaches keep what the barrier promises, and nobody has passed early |
| Barriers.TurnDescends | corev_apu/fpga/src/bootrom/src/smp.h:30-53 | a hart that can move and gets a turn lowers the measure of any progressive protocol |
| Barriers.FairRunsFinish | corev_apu/fpga/src/bootrom/src/smp.h:30-53 | a progressive protocol finishes under every fair schedule within its measure in rounds |
| ClintBarriers.StepInvariant | corev_apu/fpga/src/bootrom/src/smp.h:23-53 | for any leader, the invariant over program counters and MSIP words survives each step of each hart |
| ClintBarriers.CheckAdvances | corev_apu/fpga/src/bootrom/src/smp.h:47-53 | a zero read in the check loop means that hart has arrived and cleared its word |
| ClintBarriers.AllArrivedAtPass | corev_apu/fpga/src/bootrom/src/smp.h:47-53 | whoever finds the last word clear finds that every hart has arrived |
| ClintBarriers.StepRefines | corev_apu/fpga/src/bootrom/src/smp.h:23-53 | each step is a step of the abstract barrier or none |
| ClintBarriers.SafeRun | corev_apu/fpga/src/bootrom/src/smp.h:23-53 | for any number of harts and any interleaving nobody passes early, because the run is one of the abstract barrier |
| ClintBarriers.EveryHartPasses | corev_apu/fpga/src/bootrom/src/smp.h:30-53 | whichever hart leads, under fair scheduling every hart passes, within a stated number of rounds |
| ClintBarriers.AllPassIffLoopsReachAll | corev_apu/fpga/src/bootrom/src/smp.h:23-53 | every hart passes on every long fair schedule if and only if the loops reach all harts |
| ClintBarriers.EarlyPass | corev_apu/fpga/src/bootrom/src/smp.h:23-53 | with another leader and three harts, a schedule on which hart 0 passes alone |
| ClintBarriers.PassWithoutLast | corev_apu/fpga/src/bootrom/src/smp.h:23-53 | with loops that end before the last hart, a schedule on which hart 0 passes while that hart has not arrived |
| ClintBarriers.SafeIffHartZeroLeads | corev_apu/fpga/src/bootrom/src/smp.h:23-53 | for every hart count, loop bound and leader: safe on all schedules if and only if hart 0 leads and the loops reach all, or another leads and there are only two harts |
| ClintReuse.DoomedForever | corev_apu/fpga/src/bootrom/src/smp.h:47-53 | once a word is set anew while its owner still checks, nobody passes on any schedule |
| ClintReuse.ReusableIffAlone | corev_apu/fpga/src/bootrom/src/smp.h:23-53 | with hart 0 leading and loops that reach all, somebody can always still pass in round after round if and only if there is one hart |
| TicketBarriers.StepInvariant | corev_apu/openpiton/bootrom/linux/src/smp.h:24-42 | the invariant over program counters and counter survives each step of each hart |
| TicketBarriers.OneHartSwaps | corev_apu/openpiton/bootrom/linux/src/smp.h:30-37 | at most one hart is between its id check and its swap |
| TicketBarriers.StepRefines | corev_apu/openpiton/bootrom/linux/src/smp.h:24-42 | each step is a step of the abstract barrier or none |
| TicketBarriers.SafeRun | corev_apu/openpiton/bootrom/linux/src/smp.h:24-42 | for any number of harts and any interleaving nobody passes early, because the run is one of the abstract barrier |
| TicketBarriers.EveryHartPasses | corev_apu/openpiton/bootrom/linux/src/smp.h:29-42 | under fair scheduling every hart passes, within five rounds a hart |
| TicketBarriers.NeverStuckIffBoundIsHartCount | corev_apu/openpiton/bootrom/linux/src/smp.h:38-42 | the barrier cannot get stuck if and only if MAX_HARTS is the hart count |
| TicketBarriers.EarlyPass | corev_apu/openpiton/bootrom/linux/src/smp.h:38-42 | with a smaller bound, a schedule on which hart 0 passes before the next has arrived |
| TicketBarriers.SafeIffBoundCoversHarts | corev_apu/openpiton/bootrom/linux/src/smp.h:24-42 | the barrier is safe on all schedules if and only if MAX_HARTS is zero or not below the hart count |
| TicketReuse.NobodyPassesTwice | corev_apu/openpiton/bootrom/linux/src/smp.h:29-42 | for every loop bound and schedule no hart passes the barrier a second time |
| RegisterFiles.FlopFile.Clock | core/ariane_regfile_ff.sv:62-76 | an edge leaves in each register the data of its highest writer, zero in a hardwired register 0, and the registers stay what the whole history makes of them |
| RegisterFiles.BankedFile.Clock | core/ariane_regfile_fpga.sv:60-104 | banks and last-writer table after an edge, for any number of ports and words, stay what the whole history makes of the initial contents |
| RegisterFiles.BankedFile.UpdateSelector | core/ariane_regfile_fpga.sv:74-84 | the table names the highest port that wrote each register |
| RegisterFiles.FlopFile.Read | core/ariane_regfile_ff.sv:79-81 | after any history of clocks a read gives the latest write, or zero |
| RegisterFiles.BankedFile.Read | core/ariane_regfile_fpga.sv:108-114 | after any history of clocks a read gives the latest write, before it the contents that bank 0 came up with, and zero for a hardwired register 0 |
| RegisterFiles.FlopsHoldLatest | core/ariane_regfile_ff.sv:62-81 | after any history a register holds the latest write, highest port first, or zero |
| RegisterFiles.BanksHoldLatest | core/ariane_regfile_fpga.sv:74-114 | after any history the selected bank holds the latest write |
| RegisterFiles.SameReads | core/ariane_regfile_fpga.sv:60-114 | both files read the same if and only if the register was written, is the hardwired zero, or came up as zero in bank 0 |
| RegisterFiles.LatestIffWritten | core/ariane_regfile_fpga.sv:60-72 | a register has a latest write if and only if some port in some cycle hit it |
| Commits.ExceptionHandling | core/commit_stage.sv:264-297 | the exception taken, an earlier one before that of the CSR file, none while halted |
| Commits.CommitPort0 | core/commit_stage.sv:98-214 | all signals of port 0, overwritten in source order, equal the decisions for each kind of instruction |
| Commits.CommitPort1 | core/commit_stage.sv:216-258 | port 1 and the joined flags |
| Commits.DirtyFpState | core/commit_stage.sv:79-88 | the loop over the ports finds whether an acknowledged instruction touches the FP state |
| Commits.Commit | core/commit_stage.sv:79-297 | the stage as a whole equals the decisions that the theorems are about |
| Commits.CycleIsPrecise | core/commit_stage.sv:98-297 | unless a cache flush meets a running stage, exception and acknowledge exclude each other and only acknowledged instructions write anything but x0 |
| Commits.FlushWithoutHaltIsImprecise | core/commit_stage.sv:188-192 | with any write-back configuration, a cycle in which an unacknowledged instruction writes a register, if the flush signal is up without a halt |
| Commits.PreciseIffHaltedWhileFlushing | core/commit_stage.sv:98-297 | the stage is precise on every window if and only if no flush of a write-back cache meets it unhalted |
| Commits.NothingRetires | core/commit_stage.sv:98-257 | a cycle without an acknowledge leaves registers, flags and counters as they were |
| Commits.FirstRetiresIff | core/commit_stage.sv:98-214 | a valid instruction at port 0 of a running stage retires or takes its exception exactly when its unit is ready: room for a store, a drained buffer for a fence, the answer of the cache for an atomic |
| Commits.SecondRetiresIff | core/commit_stage.sv:216-258 | port 1 retires next to port 0 exactly what neither stores nor accesses a CSR nor faults, unless a cache is flushed, the hart is stepped, or port 0 holds an atomic or a CSR instruction |
| Commits.RequestsAreRetirements | core/commit_stage.sv:120-214 | each request goes out exactly in the cycle that retires its own instruction, that to the store buffer with a plain store; an atomic is asked for as long as it waits |
| Commits.PortsDeliver | core/commit_stage.sv:98-258 | an instruction that retires writes one register file, with its result, the word read for a CSR instruction, the answer of the cache for an atomic |
| Commits.ExceptionIsOwn | core/commit_stage.sv:264-297 | an exception taken is that of the instruction at port 0 or of its CSR access, with its cause and the value that the instruction brings |
| Commits.TwoRetire | core/commit_stage.sv:216-258 | both ports at once equal one instruction after the other, also on the same register and with both raising flags |
| Commits.CycleRefinesSequence | core/commit_stage.sv:120-257 | each cycle does to integer and FP registers, fflags, retired count and the FP dirty mark what retiring its instructions in order does |
| Controllers.Controller.Clock | core/controller.sv:56-192 | flush signals and handshake registers, overwritten in source order, by their causes |
| Controllers.RegistersPartIff | core/controller.sv:81-124 | fence register and flush signal part if and only if a fence meets an acknowledge |
| Controllers.StagesFlushed | core/controller.sv:56-192 | which stages each cause flushes, and when the next pc comes from commit |
| CommitLoops.FlushIsFence | core/controller.sv:81-192 | in every reachable state of the loop the flush request is up exactly while a fence is active |
| CommitLoops.HaltedStageIsSilent | core/commit_stage.sv:120-123 | a halted stage acknowledges, writes, requests and takes nothing |
| CommitLoops.RunIsPrecise | core/commit_stage.sv:98-297 | every cycle of every run of the loop is precise |
| CommitLoops.FenceHoldsUntilAck | core/controller.sv:81-124 | from a fence to the cache's acknowledge nothing retires and the request stays up; then the loop is free again |
| CommitLoops.HaltedWhileFencePending | core/controller.sv:178 | over every run commit is halted exactly on request, or while a write-back cache has yet to acknowledge a fence that retired |
| CommitLoops.RunRefinesSequence | core/csr_regfile.sv:564-569 | over every run the architectural state is that of the acknowledged instructions retired one by one |
| CommitLoops.RunAddsUp | core/csr_regfile.sv:1035-1051 | after every run each register holds what the last retired writer delivered, the FP state is dirty once one has marked it, and unless a CSR write sets them the flags are those that some FP instruction raised, bit by bit, and the counter has moved on by the number retired |
| CommitLoops.ExceptionChangesNothing | core/commit_stage.sv:264-297 | the cycle of a taken exception changes no register, flag or counter and retires nothing |
| CommitLoops.RunRequestsAreRetirements | core/commit_stage.sv:98-214 | over every run port 0 retires as soon as it can, and each request goes out exactly with its own instruction |
| CommitLoops.StoresReachMemory | core/commit_stage.sv:130-137 | over every run the store buffer is told of a store as often as a plain store is among the retired instructions |
| CommitLoops.RetirementFlushes | core/controller.sv:56-192 | over every run the instruction cache is flushed exactly when a FENCE.I retires and the TLBs when an SFENCE.VMA does; anything at commit, a trap or a return flushes all stages, a mispredict spares decode and execute |
| CsrFiles.SupervisorWriteIsConfined | core/csr_regfile.sv:707-763 | a supervisor's write cannot change the machine's stack, cause and value, the delegation, undelegated enables and pending bits, or the privilege |
| CsrFiles.MaskedWriteReadsBack | core/csr_regfile.sv:727-852 | a masked write takes the word inside its mask, keeps the rest and all other registers, and reads back through the mask or the delegation |
| CsrFiles.PlainWriteReadsBack | core/csr_regfile.sv:707-852 | a write to an epc, cause or value register reads back whole, a pc without its lowest bit, and reaches no other register |
| CsrFiles.StatusWriteReadsBack | core/csr_regfile.sv:707-825 | mstatus takes every field written, sstatus those of the supervisor and nothing of the machine |
| CsrFiles.CsrFile.TakeTrap | core/csr_regfile.sv:1078-1141 | target level, saved state, cause, pc and value of a trap |
| CsrFiles.CsrFile.Clock | core/csr_regfile.sv:600-1273 | one edge: write, interrupt wires, trap, return |
| CsrFiles.RunReachable | core/csr_regfile.sv:811-835 | in every reachable state mideleg, mie and medeleg stay within what their write masks allow |
| CsrFiles.MachineTrapReturns | core/csr_regfile.sv:1118-1248 | a trap into M, any cycles without another or a write to mstatus or mepc, and mret restore pc, privilege and MIE, and leave to the supervisor's registers what the middle made of them |
| CsrFiles.SupervisorTrapReturns | core/csr_regfile.sv:1100-1273 | the same for S and sret, with machine traps and returns and writes to scause and stval free in between |
| CsrFiles.NestedTrapsReturn | core/csr_regfile.sv:1083-1273 | with complete machine traps nested in the handler, sret restores pc, privilege and both enables |
| CsrFiles.AllBalancedKeep | core/csr_regfile.sv:1083-1248 | any sequence of plain cycles and complete machine traps keeps privilege, MIE and the supervisor's stack, and all of its registers if none is touched |
| CsrFiles.TrapNeverLowers | core/csr_regfile.sv:1090-1098 | a trap never lowers the privilege, and goes to S exactly below M with its bit set in mideleg or medeleg |
| CsrFiles.MachineTrapIsRecorded | core/csr_regfile.sv:1118-1139 | a trap into M leaves its cause in mcause and its value, or zero where that is configured away, in mtval, through any cycles that do not write them or trap into M; the supervisor keeps its own |
| CsrFiles.SupervisorTrapIsRecorded | core/csr_regfile.sv:1100-1117 | the same for scause and stval |
| CsrFiles.PendingBitsFollow | core/csr_regfile.sv:600-852 | the pending bits of the machine follow their wires, those of the supervisor change only by writes |
| CsrFiles.SecondReturnGoesToUser | core/csr_regfile.sv:1240-1268 | a return leaves an empty stack, so that a second one goes to U with interrupts on |
| Interrupts.ChooseInterrupt | core/decoder.sv:1343-1386 | the choice is the first in the order MEI, MSI, MTI, SEI or its pin, SSI, STI that is enabled and pending, if mstatus, privilege and mideleg let it pass, and none otherwise |
| Interrupts.ChoiceIsFirstInLine | core/decoder.sv:1343-1386 | the choice by precedence and gate is the one spelled out on mie, mip and the pin |
| Interrupts.PinAloneInterrupts | core/decoder.sv:1354-1359 | the pin of the interrupt controller alone interrupts, whatever the pending bits of the supervisor are |
| Interrupts.EcallIsRecorded | core/decoder.sv:1321-1332 | over every run an environment call is recorded as 8, 9 or 11 after its level, at S exactly if delegated from U |
| Interrupts.ExceptionHandling | core/decoder.sv:1304-1387 | an earlier exception stays, an interrupt replaces illegal instruction, ecall and ebreak |
| Interrupts.ChoiceIsUnique | core/decoder.sv:1347-1370 | there is at most one choice |
| Interrupts.GateIsTheRule | core/decoder.sv:1372-1386 | the decoder's gate asks of one interrupt exactly what the architecture's rule asks |
| Interrupts.ChoiceIsSound | core/csr_regfile.sv:1332-1341 | in every reachable state a chosen interrupt is pending, enabled, for a level not below the current one with that level's enable bit, and its trap goes to S exactly if delegated below M |
| Interrupts.ChoiceIsTheRule | core/decoder.sv:1347-1386 | with downward closed mideleg the choice is the one of the rule, levels before precedence |
| Interrupts.BlockedChoiceHides | core/decoder.sv:1372-1386 | otherwise a blocked choice hides an interrupt that the rule takes |
| Interrupts.HidingRunArrives | core/csr_regfile.sv:823-838 | such a state is reached from reset by five ordinary cycles |
| Interrupts.RuleHoldsIff | core/decoder.sv:1347-1386 | the decoder follows the rule after every run if and only if the delegation is closed downwards |
| AxiWrites.AxiShim.Clock | core/axi_shim.sv:104-243 | state, beat counter and bus signals after an edge |
| AxiWrites.PendingCycle | core/axi_shim.sv:119-243 | the counter stays in range, the measure drops by one per handshake, and the grant comes with the last, completing the transaction |
| AxiWrites.ValidUntilReady | core/axi_shim.sv:119-243 | valid and payload stay until ready |
| AxiWrites.GrantedWritesAreComplete | core/axi_shim.sv:119-243 | over every run from reset a granted write has done one AW handshake and blen + 1 W handshakes with beats in order and last only on the final one |
| AxiWrites.ChannelsAdvance | core/axi_shim.sv:119-243 | a handshake still owed on a channel happens whenever that channel is ready, independently of the other |
| AxiWrites.ServedIffReadyEnough | core/axi_shim.sv:119-243 | whatever the pattern of ready signals, a supported request is granted if and only if AW was ready once and W as often as beats are owed |
| AxiWrites.UnsupportedNeverServed | core/axi_shim.sv:139-163 | a burst with bursts disabled is never granted |
| AxiWrites.UnsupportedRepeats | core/axi_shim.sv:139-163 | meanwhile the bus sees its address handshake and its first beat again and again, never a last beat |
| AxiWrites.ServedIffSupported | core/axi_shim.sv:139-163 | a request is granted if and only if bursts are enabled or it has one beat, and the bus was ready for an address and blen + 1 beats, in any pattern |
| Polynomials.DivisionIdentity | corev_apu/fpga/src/bootrom/src/sd.c:135-137 | long division by x^16 + x^12 + x^5 + 1 gives quotient and remainder |
| Polynomials.RemainderIsUnique | corev_apu/fpga/src/bootrom/src/sd.c:135-137 | the remainder is the only one of degree below sixteen |
| Polynomials.RemainderXor | corev_apu/fpga/src/bootrom/src/sd.c:135-144 | the remainder of a sum is the sum of the remainders |
| Polynomials.SerialIsRemainder | corev_apu/fpga/src/bootrom/src/sd.c:135-144 | the bit-serial register holds the remainder of the message times x^16 |
| Polynomials.MultipleIffNoRemainder | corev_apu/fpga/src/bootrom/src/sd.c:135-137 | the remainder is zero if and only if there is a quotient whose product with the divisor is the polynomial |
| Polynomials.BurstRemainder | corev_apu/fpga/src/bootrom/src/sd.c:135-137 | no nonzero burst of at most sixteen bits is a multiple of the divisor |
| Crc16s.UpdateCrc | corev_apu/fpga/src/bootrom/src/sd.c:135-144 | the byte-wise assignments equal eight steps of the bit-serial register |
| Crc16s.Crc16IsEightSteps | corev_apu/fpga/src/bootrom/src/sd.c:138-142 | the same as a law of the update |
| Crc16s.CrcIsRemainder | corev_apu/fpga/src/bootrom/src/sd.c:135-144 | folding crc16 from zero over any bytes is the remainder of M(x) x^16 |
| Crc16s.CrcIsLinear | corev_apu/fpga/src/bootrom/src/sd.c:135-144 | the CRC is linear over xor on equal lengths |
| Crc16s.CheckIsDivisibility | corev_apu/fpga/src/bootrom/src/sd.c:195-202 | a block passes if and only if data and CRC together are a multiple of the divisor |
| CrcPowers.PowersMultiply | corev_apu/fpga/src/bootrom/src/sd.c:135-137 | powers of x modulo the divisor multiply like polynomials |
| CrcPowers.ProductIsProduct | corev_apu/fpga/src/bootrom/src/sd.c:135-137 | the product computed on words of sixteen bits is the product of the polynomials |
| CrcOrders.OneIffPeriodDivides | corev_apu/fpga/src/bootrom/src/sd.c:135-137 | x^d leaves the remainder one if and only if 32767 divides d |
| CrcOrders.TwoBitsRemainder | corev_apu/fpga/src/bootrom/src/sd.c:135-137 | a polynomial of two terms is a multiple of the divisor if and only if 32767 divides their distance |
| CrcErrors.DamagePassesIffMultiple | corev_apu/fpga/src/bootrom/src/sd.c:195-202 | a damaged block passes the check if and only if the error is a multiple of the divisor |
| CrcErrors.RemainderOdd | corev_apu/fpga/src/bootrom/src/sd.c:135-137 | the division keeps the parity of the weight |
| CrcErrors.BurstIsDetected | corev_apu/fpga/src/bootrom/src/sd.c:195-202 | any nonzero error within sixteen bits of a block with its CRC fails the check |
| CrcErrors.OddIsDetected | corev_apu/fpga/src/bootrom/src/sd.c:195-202 | any odd number of wrong bits fails the check, in blocks of any length |
| CrcErrors.TwoBitsPassIffFarApart | corev_apu/fpga/src/bootrom/src/sd.c:195-202 | two wrong bits pass the check if and only if 32767 divides their distance |
| CrcErrors.ThreeBitsAreDetected | corev_apu/fpga/src/bootrom/src/sd.c:195-202 | one, two or three wrong bits anywhere in a block of up to 4093 bytes and its CRC fail the check |
| SdCopies.Card.WaitForToken | corev_apu/fpga/src/bootrom/src/sd.c:178-179 | polling ends behind the first data token |
| SdCopies.Card.MoveBlock | corev_apu/fpga/src/bootrom/src/sd.c:176-193 | a block lands at p and nowhere else, and the CRC read back from the buffer is that of the stream |
| SdCopies.Card.ReadBlock | corev_apu/fpga/src/bootrom/src/sd.c:171-202 | one pass of the outer loop: data, position behind the CRC, and the comparison |
| SdCopies.Card.CopyBlocks | corev_apu/fpga/src/bootrom/src/sd.c:171-207 | the block loop ends with all blocks in memory, or at the first bad one with nothing written past it |
| SdCopies.Card.SdCopy | corev_apu/fpga/src/bootrom/src/sd.c:146-212 | result -1 writes nothing; 0 means that every block passed and memory holds exactly their data; -2 that the copy stopped at the first bad block |
| SdCopies.CrcOver | corev_apu/fpga/src/bootrom/src/sd.c:184-187 | the inner loop folds crc16 over the bytes of the buffer |
| SdCopies.SucceedsIffNoneFails | corev_apu/fpga/src/bootrom/src/sd.c:198-207 | all blocks pass if and only if there is no first bad one, so the results exclude each other |
| SdCopies.FramesAreRead | corev_apu/fpga/src/bootrom/src/sd.c:171-202 | frames on the wire are read one after another as they were sent, whatever follows |
| SdCopies.SoundFramesArrive | corev_apu/fpga/src/bootrom/src/sd.c:171-207 | frames whose CRC is the polynomial remainder of their data all pass, and their data is what memory receives |
| SdCopies.DamageStopsTheCopy | corev_apu/fpga/src/bootrom/src/sd.c:195-202 | a frame damaged by a burst, an odd number of wrong bits, or two, is the block, and the only one, at which the copy stops |
| Alus.LeftShiftMeaning | core/alu.sv:145-176 | reversing, shifting right and reversing back multiplies by 2^s modulo the width, for any width |
| Alus.RightShiftMeaning | core/alu.sv:155-176 | the logical right shift is floor division |
| Alus.ArithmeticShiftMeaning | core/alu.sv:155-176 | the arithmetic right shift is floor division of the signed operand |
| Alus.AdderAdds | core/alu.sv:100-108 | the adder with the appended one computes a + b modulo 2^N |
| Alus.AdderSubtracts | core/alu.sv:100-108 | with the negated operand it computes a - b modulo 2^N |
| Alus.AdderDecidesEquality | core/alu.sv:109-117 | the zero flag is set if and only if the operands are equal |
| Alus.ComparatorMeaning | core/alu.sv:182-195 | the extended comparison is the order of signed and of unsigned integers |
| Alus.BranchMeaning | core/alu.sv:112-121 | branches agree with the comparison of integers |
| Alus.ExtremumMeaning | core/alu.sv:310-313 | minimum and maximum agree with the order of signed and of unsigned integers |
| Alus.RotationMeaning | core/alu.sv:334-339 | the two shifts or-ed together rotate, and left and right rotation undo each other |
| Bits.TruncateMeaning | core/alu.sv:107-108 | keeping the low N bits of an integer is its remainder modulo 2^N |
| Bits.SignExtension | core/load_unit.sv:456-506 | sign extension keeps the two's-complement integer |

## Left out

- Liveness of loads in general: that the cache and the arbiter grant and answer at all.
- Caches other than the read ports of the write-through and the write-back one, what a cache returns as data, stores in `cache_ctrl.sv`, MMU and TLB, scoreboard and forwarding: not part of this model.
- Store unit: alignment of data and byte enables, the kind of an atomic, and the store and atomic buffers behind `st_valid`; whether they have room is an input.
- LoadPaths.StoresExactlyOnce: says nothing of runs with an over-pop, after which a waiting store need no longer be the one at the head.
- The 64-bit realigner: marked in the source as not properly implemented.
- Barriers: the delay between an MSIP word and `mip`, and memory orders weaker than sequential consistency. Each hart is a
  program counter of a step machine, one load, store or swap per step, not an object.
- Interrupts: the choice and the trap are judged in one state; that decode and commit see the same state rests on the pipeline flush after every CSR write that matters.
- CSR file and decoder: configurations without supervisor or user mode (`RVS`, `RVU`).
- CSR file: FS, VS and SD of mstatus, MPRV, counters other than the retired count, PMP, vectored trap addresses, WFI, and the access checks.
- A reserved value in MPP: mstatus writes do not filter it, and the model has only legal levels.
- PMP locking below a locked TOR entry: the code tests another entry than its comment says.
- Debug mode, single step beyond blocking port 1, tracing, the accelerator ports, performance counters.
- Commit: `pc`, `waddr` and `trans_id` outputs are plain wires; vector and accelerator marks of the dirty bit.
- What a CSR instruction itself writes to fflags and the retired count enters the commit model as an input; illegal instructions offered to CV-X-IF are not modelled.
- The AXI read channel: plain wiring.
- ALU: the shifted adder operands of the address-generation instructions, bit counting, 32-bit word variants, and the bit-manipulation results other than rotations and extrema.
- SD card: initialisation, SPI and UART registers, printing, the STOP command after the copy, and how the response to command 18 comes about.
- `crc7`: it combines its inputs with `&`, so from zero it stays zero; it is not the CRC-7 its comment names.
- `compressed_decoder.sv` and the opcode tables of the decoder: settled by enumeration or by reading the branches.
- Python tools, ELF loading, simulation drivers, generated tables and the CIM wrapper: wiring and tooling.
