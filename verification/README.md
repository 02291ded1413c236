# QIRA, verified models

QIRA records a guest program's execution as a log of changes, indexes the log so that memory and
registers can be asked for at any point of the past, replays it to fork runs, and analyses it. This
project models the parts of QIRA whose correctness does not show in any single function, and proves
what they promise.

- **Exclusive CPUs** (`ExclusiveCpus`, `EarlyWakes`, `StoreExclusive`, `StrexFields`, `ForeignWrites`,
  `StrexRaces`, `StrexSystem`): the protocol by which one CPU stops all others, as a step relation over any number of
  threads in which every statement and every condition-variable wake-up is a step; then the ARM
  store-exclusive that runs under it, shown to be an atomic compare-and-swap by refinement over whole
  runs, and what system calls can do to it.
- **Recorder and replay** (`ByteStores`, `TraceLog`, `Coalescing`, `Recorder`, `RecorderBuffer`,
  `RecordedEvents`, `Replay`): the log writer with its growing buffer and its table of coalesced register writes, and the
  replayer. Replay is shown to give back the live guest, and the condition on register writes under
  which coalescing is safe is shown to be exact.
- **Trace database** (`TraceIndex`, `TraceQueries`, `TraceDb`, `TimeTravel`, `RegisterTravel`):
  ingestion in batches, the queries, a query racing with ingestion, and the end-to-end result that what
  the database shows for a recorded run is what the guest held.
- **Analyses** (`Flow`, `Slicing`, `LoopCompression`, `LoopReports`, `LoopAnalysis`, `BasicBlocks`,
  `FunctionIntervals`, `CallDepth`, `CallIntervals`): each loop is a method proved against a
  specification, and what that specification means is proved of it.
- **Front ends** (`WebSocketFrames`, `Disassembly`, `NestedRpc`): the WebSocket parser and encoder
  (sections 5.2 and 5.3 of RFC 6455), the recursive-descent driver, and the two-way RPC.

`dafny verify dfyconfig.toml` checks everything.

Where the code does not do what one would like, the model follows the code:

- A doubleword store-exclusive can write its low half and then fault (`StrexAllOrNothing`, `TornExample`).
- Batch clamping is done in 32 bits and goes wrong in the last million entry numbers (`TargetIsSafeIff`).
- `get_blocks` raises an exception when the first address is executed again (`FirstIsStartIff`, `GetBlocks`).
- `do_loop_analysis` indexes past the end when a loop ends the trace (`DoLoopAnalysis`, `EndingInLoop`);
  its `clend` is the end of the block after the loop (`ClendIsLate`), and its `blockend` falls short of
  the first copy's last block exactly when an inner loop has been folded there (`BlockEndIff`,
  `BlockEndFallsShort`).
- The slicer ignores location 0x10 and does not tell registers from memory (`SliceIsEnoughIff`,
  `SliceTracksIff`, `UnfollowedStackIsMissed`, `AliasIsMissed`).
- What follows a `hlt` is visited but is in no block if the `hlt` is the only way there
  (`BlocksCoverIff`, `HaltLeavesGap`).
- A system call is not kept out of another thread's exclusive section. Whether its write and a
  store-exclusive in progress can be put in an order is decided point by point (`RaceIff`). Where they
  cannot from the comparison on, a byte of the write is lost to the stores (`RaceLoses`, `LostWrite`,
  `LostHighWrite`); between the two loads of a doubleword, the call can also succeed on two halves that
  were never in memory together (`MixedReadSucceeds`, `MixedRead`).
- `start_exclusive` waits on `exclusive_cond` once and not in a loop: should the wait return without a
  signal, exclusion holds exactly if `pending_cpus` happens to be 1 (`AloneIff`, `EarlyWakeBreaks`,
  `BrokenRun`). The other results on the protocol take the wait to return only when signalled.
- The two depth functions disagree where an interval ends (`DepthsDifferByEndings`).
- The comment at `qiradb/qiradb/Trace.cpp:208` asks whether committing memory on loads does harm. It does
  not (`ValidBytesAreTrue`, `LoadsHideNothing`).

## Model

| member | source | states |
|---|---|---|
| `ExclusiveCpus.InitInv` | extra/qemu_mods/main.c:142-201 | before any routine is entered the protocol invariant holds |
| `ExclusiveCpus.StepInKeepsInv` | extra/qemu_mods/main.c:142-201 | every statement of every thread and every wake-up keeps the invariant, for any number of CPUs, whether or not a waiter on exclusive_cond may also wake without a signal |
| `ExclusiveCpus.StepKeepsInv` | extra/qemu_mods/main.c:142-201 | in particular where it may not |
| `ExclusiveCpus.RunKeepsInv` | extra/qemu_mods/main.c:142-201 | the invariant holds in every state of every run |
| `ExclusiveCpus.ExclusiveIsAlone` | extra/qemu_mods/main.c:151-177 | in every run, while a thread is between the return of start_exclusive and end_exclusive, no CPU runs and no other thread is, or is becoming, exclusive |
| `ExclusiveCpus.PendingCountsRunning` | extra/qemu_mods/main.c:158-165 | in every run, whenever the lock is free a nonzero pending_cpus is 1 plus the number of running CPUs |
| `ExclusiveCpus.ReturnsWhenFree` | extra/qemu_mods/main.c:180-201 | in every run a routine returns only when nobody has, or is acquiring, the exclusive right: cpu_exec_start and cpu_exec_end wait it out |
| `ExclusiveCpus.CallsServeTheirPurpose` | extra/qemu_mods/main.c:151-201 | no step takes a thread out of start_exclusive but into the exclusive section, out of cpu_exec_start but into guest code, or out of cpu_exec_end but by its return |
| `ExclusiveCpus.NeverStuck` | extra/qemu_mods/main.c:142-201 | in no state of the invariant is everybody asleep: all threads are out of the protocol or one can take its next statement |
| `ExclusiveCpus.AwaitHasRunner` | extra/qemu_mods/main.c:166-168 | while the lock is free, an owner asleep on exclusive_cond has pending_cpus equal to 1 plus the running CPUs, and one of those still runs and can advance, so its wake-up cannot be lost |
| `ExclusiveCpus.AdvanceUsesPotential` | extra/qemu_mods/main.c:142-201 | every statement uses up a potential that only new calls and spurious wake-ups refill, broadcasts included |
| `ExclusiveCpus.EveryCallReturns` | extra/qemu_mods/main.c:142-201 | from any reachable state the calls in progress take a bounded number of statements, and until all threads are out one of them can always continue |
| `EarlyWakes.LooseRunKeepsInv` | extra/qemu_mods/main.c:151-169 | the counter equation and single ownership survive wake-ups on exclusive_cond without a signal, in every run |
| `EarlyWakes.AloneIff` | extra/qemu_mods/main.c:166-169 | in every such run two threads are never exclusive at once, and the exclusive thread is alone if and only if pending_cpus is 1 |
| `EarlyWakes.EarlyWakeBreaks` | extra/qemu_mods/main.c:166-168 | whoever wakes without a signal and takes the lock at once is exclusive while some CPU runs |
| `EarlyWakes.BrokenRun` | extra/qemu_mods/main.c:166-168 | a run of two CPUs in which that happens |
| `StoreExclusive.ReadPhase` | extra/qemu_mods/main.c:598-637 | up to its stores do_strex changes no memory, and goes on to store exactly when the monitored value is unchanged; otherwise it fails exactly on a mismatch |
| `StoreExclusive.StorePhase` | extra/qemu_mods/main.c:639-663 | the stores either both happen and the call succeeds, or it faults with memory as it was or with only the low half of a doubleword written |
| `StoreExclusive.StrexSwapsIff` | extra/qemu_mods/main.c:590-671 | do_strex succeeds if and only if address and value still match and the whole access may be written; it reports failure if and only if they do not match |
| `StoreExclusive.StrexStores` | extra/qemu_mods/main.c:639-667 | after success memory holds the proposed value at the access size and no byte outside the access has changed |
| `StoreExclusive.StrexAllOrNothing` | extra/qemu_mods/main.c:590-671 | without success memory is untouched, except in exactly one case: a doubleword whose high half cannot be written |
| `StoreExclusive.TornFaults` | extra/qemu_mods/main.c:640-662 | for every torn doubleword the low half is written, the high half is as it was, and the instruction faults at the high address |
| `StoreExclusive.TornExample` | extra/qemu_mods/main.c:656-662 | the torn doubleword store does occur and changes memory |
| `StrexFields.OperandsAre` | extra/qemu_mods/main.c:607-667 | size, result register and value registers are bits 0-3, 4-7, 8-11 and 12-15 of exclusive_info |
| `StrexFields.StrexSucceedsIff` | extra/qemu_mods/main.c:598-663 | success for each size: the monitor stands, the bytes (for a doubleword the two words, low first) hold the monitored value, and all of them may be written |
| `StrexFields.StrexStoresRegisters` | extra/qemu_mods/main.c:639-663 | a success leaves register lo, cut to the size, at the address, and for a doubleword register hi in the next word |
| `StrexFields.StrexKeepsTheRest` | extra/qemu_mods/main.c:639-663 | a success changes no byte outside the access |
| `StrexFields.StrexReports` | extra/qemu_mods/main.c:664-670 | register rd is 0 on success and 1 on failure, the program counter (unless it is rd) has grown by 4, all else is as it was; a fault leaves all registers alone |
| `StrexFields.StrexFaultsAt` | extra/qemu_mods/main.c:622-662 | the outcome in every case, and the address of the fault: the word that cannot be read, or else the first that cannot be written |
| `StrexFields.StoresTheRightRegister` | extra/qemu_mods/main.c:639 | an example in which all registers differ |
| `ForeignWrites.PokeCommutesIff` | extra/qemu_mods/main.c:639-663 | a store and a write by a system call commute if and only if they agree where they meet |
| `ForeignWrites.StepPatched` | extra/qemu_mods/main.c:598-663 | a statement of do_strex does the same before and after a write elsewhere |
| `ForeignWrites.RunPatched` | extra/qemu_mods/main.c:590-671 | a system call that writes elsewhere commutes with the whole rest of a store-exclusive |
| `StrexRaces.EveryPointIs` | extra/qemu_mods/main.c:590-671 | what is known after any number of statements of do_strex: what has been read, compared and stored |
| `StrexRaces.FirstIff` | extra/qemu_mods/main.c:590-671 | for a write by a system call at each point of a store-exclusive of any size, exactly when the outcome is as if the write had come first |
| `StrexRaces.LastIff` | extra/qemu_mods/main.c:608-667 | from the second load on, exactly when the outcome is as if the write had come last |
| `StrexRaces.RaceIff` | extra/qemu_mods/main.c:590-671 | at every point: write and store-exclusive can be put in one order or the other if and only if one of these two conditions on the environment, the memory and the written bytes holds |
| `StrexRaces.EarlyAndLateSerialise` | extra/qemu_mods/main.c:597-617 | before anything has been read, and once the outcome is decided, they always can |
| `StrexRaces.RaceLoses` | extra/qemu_mods/main.c:635-663 | from the comparison on, a write that cannot be put in an order loses a byte to the stores |
| `StrexRaces.StoreLowLoses` | extra/qemu_mods/main.c:635-651 | every write between comparison and store that changes the monitored value and differs from what is stored is lost, and the call reports success |
| `StrexRaces.StoreHighLoses` | extra/qemu_mods/main.c:652-663 | the same between the two stores of a doubleword, for the high half |
| `StrexRaces.MixedReadSucceeds` | extra/qemu_mods/main.c:617-637 | a doubleword whose two loads lie on either side of the write can succeed though it would fail before the write and after it |
| `StrexRaces.LostWrite` | extra/qemu_mods/main.c:635-651 | a lost write at a concrete memory |
| `StrexRaces.LostHighWrite` | extra/qemu_mods/main.c:656-663 | one in the high half of a doubleword |
| `StrexRaces.MixedRead` | extra/qemu_mods/main.c:617-637 | such a doubleword at a concrete memory |
| `StrexSystem.StatementRefines` | extra/qemu_mods/main.c:590-671 | a statement of do_strex, interleaved with all other threads, is invisible unless it is the one that decides the outcome, which is then the whole store-exclusive at once |
| `StrexSystem.KernelRefines` | extra/qemu_mods/main.c:682-684 | a system call of a thread whose CPU is not running may write while another thread is exclusive; missing its access, or coming before anything is read or after the outcome is decided, it is one write of the indivisible system |
| `StrexSystem.MoveRefines` | extra/qemu_mods/main.c:151-177 | refinement: every move of the interleaved system (protocol, guest code, system call, statement of do_strex) is a move of the system in which store-exclusives are indivisible, or none at all |
| `StrexSystem.StrexCounts` | extra/qemu_mods/main.c:590-671 | an indivisible store-exclusive of value plus one adds 1 to the cell modulo 2^32, or changes nothing |
| `StrexSystem.AtomicRunCounts` | extra/qemu_mods/main.c:590-671 | over every run of the indivisible system, cell = start + successes modulo 2^32 |
| `StrexSystem.RunRefines` | extra/qemu_mods/main.c:590-671 | every run of the interleaved system, seen through the abstraction, is a run of the indivisible one |
| `StrexSystem.CountedRunRefines` | extra/qemu_mods/main.c:590-671 | if it is disciplined, so is that run |
| `StrexSystem.CellIsRespected` | extra/qemu_mods/main.c:590-671 | a system call that leaves the cell alone misses every disciplined store-exclusive in progress |
| `StrexSystem.IncrementsAreCounted` | extra/qemu_mods/main.c:590-671 | over every run of any number of CPUs and every interleaving, system calls included, the cell has grown by the number of successful do_strex calls, modulo 2^32 |
| `TraceLog.FlagsRoundTrip` | extra/qemu_mods/tci.c:466-471 | the flag word, five bits from the top and the size in the low byte, gives its fields back |
| `TraceLog.WordTypes` | qiradb/qiradb/Trace.cpp:57-70 | the types of the words the recorder writes, for every size, and of a word without the top bit |
| `Coalescing.IndistinguishableIff` | extra/qemu_mods/tci.c:587-602 | two orders of the same writes agree for all data and all starting contents if and only if every byte has the same last writer |
| `Coalescing.AlignedIsLayout` | extra/qemu_mods/tci.c:587-593 | writes of one width (4 or 8 bytes), aligned, below 0x100 form a register layout |
| `Coalescing.LayoutIsLossless` | extra/qemu_mods/tci.c:587-602 | on a register layout, keeping the last write per slot and emitting in slot order loses nothing |
| `Coalescing.NarrowWritesAreLost` | extra/qemu_mods/tci.c:589-591 | two byte-wide writes to one slot are not lossless |
| `Coalescing.HighWritesAreLost` | extra/qemu_mods/tci.c:588 | a write at 0x100 or above is never lossless |
| `Recorder.RecordKeepsShape` | extra/qemu_mods/tci.c:570-640 | every event appends only complete records of the current changelist, keeps numbers nondecreasing and puts the instruction record first |
| `Recorder.EveryLogIsWellShaped` | extra/qemu_mods/tci.c:570-640 | every log the recorder can write has the shape the trace database relies on |
| `RecordedEvents.EventAppends` | extra/qemu_mods/tci.c:604-640 | each load, store, register access and system call appends exactly its own records, with address, data, size and flag word, in filtered code and outside it, the eight spilled registers included |
| `RecordedEvents.BlockAppends` | extra/qemu_mods/tci.c:976-992 | a block appends the register left by a system call, the pending changes if it ends a filtered stretch, and an instruction record with its address and size that opens the next changelist |
| `RecordedEvents.CommittedInSlotOrder` | extra/qemu_mods/tci.c:595-602 | the pending changes come in the order of their slots, each after those of the valid slots below |
| `RecordedEvents.ChangelistIsItsEvents` | qiradb/qiradb/Trace.cpp:268-289 | from the events to the query: what the database has for a complete changelist is its instruction record and one record for each of its events, in the order in which they happened |
| `RecordedEvents.SlicerSees` | middleware/qira_analysis.py:508-511 | each access of the guest is the load or store the slicer takes its record for |
| `RecorderBuffer.LogBuffer.constructor` | extra/qemu_mods/tci.c:523-553 | an empty log about to open the first changelist, an empty pending table |
| `RecorderBuffer.LogBuffer.Grow` | extra/qemu_mods/tci.c:573-578 | doubling keeps every record and adds blank ones |
| `RecorderBuffer.LogBuffer.AddChange` | extra/qemu_mods/tci.c:570-585 | one complete record of the current changelist is appended, whether or not the buffer had to grow; the pending table is untouched |
| `RecorderBuffer.LogBuffer.AddPendingChange` | extra/qemu_mods/tci.c:587-593 | the slot of an address below 0x100 is overwritten, anything else is dropped |
| `RecorderBuffer.LogBuffer.CommitPendingChanges` | extra/qemu_mods/tci.c:595-602 | the pending changes are appended in slot order under the current changelist and the table is cleared |
| `RecorderBuffer.LogBuffer.TrackLoad` | extra/qemu_mods/tci.c:618-621 | the recorder does what its specification says for a load |
| `RecorderBuffer.LogBuffer.TrackStore` | extra/qemu_mods/tci.c:623-626 | the same for a store |
| `RecorderBuffer.LogBuffer.TrackRead` | extra/qemu_mods/tci.c:628-632 | the same for a register read: dropped below the environment and in filtered code |
| `RecorderBuffer.LogBuffer.TrackWrite` | extra/qemu_mods/tci.c:634-640 | the same for a register write: pending in filtered code, logged otherwise |
| `RecorderBuffer.LogBuffer.TrackSyscallBegin` | extra/qemu_mods/tci.c:605-614 | the same for a system call: the first eight registers are spilled in filtered code |
| `RecorderBuffer.LogBuffer.StartBlock` | extra/qemu_mods/tci.c:983-992 | entering filtered code only sets the flag; leaving it commits first; an unfiltered block opens a changelist |
| `RecorderBuffer.LogBuffer.BeginBlock` | extra/qemu_mods/tci.c:976-992 | the whole preamble, with the register left by a system call logged in the old changelist |
| `Replay.Emulator.RunLogFromFile` | extra/qemu_mods/tci.c:743-780 | applies exactly the records up to the first incomplete one or the given changelist, in order, and counts them |
| `Replay.StoredWord` | extra/qemu_mods/tci.c:770-775 | a 32-bit write changes the four bytes from its address on, the lowest first, and no other |
| `Replay.EmittedReplay` | extra/qemu_mods/tci.c:595-602 | replaying a committed table carries out the last write of each slot in slot order |
| `Replay.RecordMirrors` | extra/qemu_mods/tci.c:570-640 | each event keeps: replay of the log, followed by the pending writes in program order, is the live guest |
| `Replay.RunMirrors` | extra/qemu_mods/tci.c:570-640 | the same over every run |
| `Replay.StopsAtCut` | extra/qemu_mods/tci.c:746-752 | replay up to changelist k of a finished file stops right before the instruction record of k |
| `Replay.ReplayReproducesLive` | extra/qemu_mods/tci.c:743-780 | applying all records below changelist k gives the guest as it was when k began, across filtered stretches, whatever was recorded later |
| `Replay.ForksReplay` | extra/qemu_mods/tci.c:800-831 | the same through any number of forks, each ancestor replayed up to where its child starts |
| `Replay.AlignedRegistersCoalesce` | extra/qemu_mods/tci.c:587-602 | filtered register writes below 0x100, aligned and of one width, always meet the condition of ReplayReproducesLive |
| `Replay.StretchReplaysIff` | extra/qemu_mods/tci.c:587-602 | a filtered stretch is replayed truly for all data if and only if its write shapes coalesce without loss |
| `TraceIndex.MemoryIsReplay` | qiradb/qiradb/Trace.cpp:72-85 | for either endianness and any nondecreasing log, looking a byte up at clnum k equals a naive replay of all load and store records numbered at most k |
| `TraceIndex.WordRecord` | qiradb/qiradb/Trace.cpp:209-223 | what a 32-bit record says of the four addresses from its own on, for either endianness, and that it says nothing of any other |
| `TraceIndex.RegistersAreReplay` | qiradb/qiradb/Trace.cpp:194-197 | the same for registers and register-write records |
| `TraceIndex.AddressTypeIsExact` | qiradb/qiradb/Trace.cpp:188-192 | a clnum is filed under an address and type if and only if such a record was ingested |
| `TraceIndex.InstructionIndexIsExact` | qiradb/qiradb/Trace.cpp:178-184 | on a recorder-shaped log the vector maps each clnum to the entry of its instruction record, and to 0 if it has none |
| `TraceQueries.FetchedIsChangelist` | qiradb/qiradb/Trace.cpp:268-289 | the run of entries from the instruction record is exactly all ingested records of that changelist, cut to the limit |
| `TraceQueries.ConcurrentFetchIsAtomic` | qiradb/qiradb/Trace.cpp:268-289 | with the index lookup and each step of the copying loop interleaved with ingestion in any way, the answer is the one for some prefix current during the call |
| `TraceDb.TargetIsSafeIff` | qiradb/qiradb/Trace.cpp:167-170 | a batch has a target ahead and within the mapped entries if and only if done + 1000000 does not wrap 32 bits |
| `TraceDb.WrappedTarget` | qiradb/qiradb/Trace.cpp:167-170 | for every position past that point the clamp wraps and the target lies behind what is done already |
| `TraceDb.WrappedExample` | qiradb/qiradb/Trace.cpp:167-170 | such a position |
| `TraceDb.NeverAhead` | qiradb/qiradb/Trace.cpp:150-170 | over rounds with growing counts the database moves forward and never past the file |
| `TraceDb.RoundsReachTheEnd` | qiradb/qiradb/Trace.cpp:17-29 | on a file that has stopped growing, n rounds ingest exactly min(n million more, everything) |
| `TraceDb.Trace.constructor` | qiradb/qiradb/Trace.cpp:31-41 | an empty database is that of a file of which only the header is ingested |
| `TraceDb.Trace.GrownFile` | qiradb/qiradb/Trace.cpp:87-126 | a database that is right for a file is right for every longer file |
| `TraceDb.Trace.Process` | qiradb/qiradb/Trace.cpp:150-249 | after a round the indexes are those of one pass over the ingested prefix; it reads past the mapped entries if and only if the clamp wraps |
| `TraceDb.Trace.ProcessAll` | qiradb/qiradb/Trace.cpp:17-29 | any sequence of rounds yields the indexes of one pass, up to where the counts lead; it reads past the mapped entries if and only if some round starts where the clamp wraps |
| `TraceDb.Trace.IngestEntry` | qiradb/qiradb/Trace.cpp:172-236 | one entry more, all four indexes up to date |
| `TraceDb.Trace.EnterRecord` | qiradb/qiradb/Trace.cpp:177-224 | what happens under the write lock changes the four indexes as one record does |
| `TraceDb.Trace.CommitRecord` | qiradb/qiradb/Trace.cpp:208-223 | the bytes of a record go to their addresses in the order of the endianness, addresses wrapping at 64 bits |
| `TraceDb.Trace.CommitMemory` | qiradb/qiradb/Trace.cpp:72-75 | one byte is entered at one clnum, nothing else changes |
| `TraceDb.Trace.GetByte` | qiradb/qiradb/Trace.cpp:77-85 | the reported byte is that of naive replay, with the valid bit exactly for touched bytes |
| `TraceDb.ReportedIs` | qiradb/qiradb/Trace.cpp:80-84 | bit 8 is set exactly for a known byte, and the low byte is its value |
| `TraceDb.Trace.FetchMemory` | qiradb/qiradb/Trace.cpp:291-299 | every byte of the range is that of naive replay of the ingested records numbered at most clnum |
| `TraceDb.SpanIsLengthIff` | qiradb/qiradb/Trace.cpp:294 | the requested number of bytes comes back if and only if the length is not negative and the range does not wrap |
| `TraceDb.Trace.FetchRegisters` | qiradb/qiradb/Trace.cpp:301-311 | every register is its last value written at or before clnum, 0 if none |
| `TraceDb.Trace.FetchChangesByClnum` | qiradb/qiradb/Trace.cpp:268-289 | the records of the changelist, cut to the limit, or none if it has no instruction record |
| `TraceDb.Trace.CopyRun` | qiradb/qiradb/Trace.cpp:277-287 | the copying loop returns the run of this changelist from the entry on, cut to the limit |
| `TraceDb.Trace.FetchClnumsByAddressAndType` | qiradb/qiradb/Trace.cpp:251-266 | exactly the clnums in range with such a record, ascending, the smallest ones if there is a limit |
| `TimeTravel.ValidBytesAreTrue` | qiradb/qiradb/Trace.cpp:199-223 | if recorded loads are truthful, each valid byte reported at clnum k is the true byte after changelist k |
| `TimeTravel.LoadsHideNothing` | qiradb/qiradb/Trace.cpp:208 | it agrees with a database that commits stores only wherever that one has an answer |
| `TimeTravel.LogShowsLive` | extra/qemu_mods/tci.c:618-626 | along every recorded run each logged byte is the live byte, and a byte never logged has kept its initial contents |
| `TimeTravel.MemoryBeforeChangelist` | qiradb/qiradb/Trace.cpp:172-236 | recorder and database together: memory queried just before changelist k shows what the guest held when k began, however much more has been ingested |
| `TimeTravel.OpenedChangelistIsFound` | qiradb/qiradb/Trace.cpp:268-289 | every changelist the recorder opens is found by its instruction record, which holds the address and size of its block, and returned whole up to the limit |
| `TimeTravel.RecordedFetchIsAtomic` | qiradb/qiradb/Trace.cpp:268-289 | on every recording, a query racing with ingestion returns the changelist, cut to the limit, as of some prefix current during the call |
| `RegisterTravel.LogShowsReplayed` | qiradb/qiradb/Trace.cpp:194-197 | where registers are written whole, the last record of a register is what replay leaves in it |
| `RegisterTravel.RegistersBeforeChangelist` | qiradb/qiradb/Trace.cpp:301-311 | recorder and database together: a register queried just before changelist k shows what the guest held when k began, however much more has been ingested, across filtered stretches |
| `Slicing.ComputeSlice` | middleware/qira_analysis.py:507-543 | the slicing loop computes the walk the following rows are about |
| `Slicing.UnnoticedIff` | middleware/qira_analysis.py:507-543 | any set of changelists suffices, whatever each computes from its loads, if and only if it contains every changelist of the exact dependence slice |
| `Slicing.LowestIs` | middleware/qira_analysis.py:522-525 | the scanned window: its changelists are in reach and have at most 20 records, and it ends at one that is not or has more |
| `Slicing.WalkLow` | middleware/qira_analysis.py:522-525 | that window is what the slicer looks at |
| `Slicing.WindowIsBounded` | middleware/qira_analysis.py:522 | the window lies within the hundred changelists up to the queried one and leaves out changelist 0 |
| `Slicing.WindowReaches` | middleware/qira_analysis.py:522-525 | it holds every one of these from which on no changelist has more than twenty records |
| `Slicing.WindowIs` | middleware/qira_analysis.py:522-525 | where changelists are small it is exactly max(0, inclnum-100)+1 and up |
| `Slicing.SliceTracksIff` | middleware/qira_analysis.py:507-543 | on every trace, aliases included, running only the slice gives the queried changelist its loads, for all computations and states, if and only if every changelist of the window that stores something wanted stores one of the names still looked for |
| `Slicing.SliceIsEnoughIff` | middleware/qira_analysis.py:507-543 | without aliases the same holds if and only if, going back through the window, no changelist stores location 0x10 as the only one of what is wanted: a condition on the trace alone |
| `Slicing.SlicePreservesMeaning` | middleware/qira_analysis.py:507-543 | in particular whenever 0x10 is not stored in the scanned window |
| `Slicing.SmallSlicePreservesMeaning` | middleware/qira_analysis.py:507-543 | the same from max(0, inclnum-100)+1 on, where changelists are small |
| `Slicing.SliceIsNeeded` | middleware/qira_analysis.py:526-530 | every changelist of the slice stores something that the queried or a later sliced changelist loads |
| `Slicing.UnfollowedStackIsMissed` | middleware/qira_analysis.py:523 | a trace on which the ignored location changes the result |
| `Slicing.AliasIsMissed` | middleware/qira_analysis.py:512-515 | a trace on which a register and a memory word of the same number are confused |
| `LoopAnalysis.NumberBlocks` | middleware/qira_analysis.py:205-213 | equal numbers stand for equal address ranges, different ones for different ranges, handed out in the order of first appearance |
| `LoopCompression.FindLoop` | middleware/qira_analysis.py:220-223 | the first place, and the shortest length there, at which a run of blocks occurs three times; none means loop free |
| `LoopCompression.CountLoop` | middleware/qira_analysis.py:224-226 | at least three copies, and no further one |
| `LoopCompression.CopiesEnd` | middleware/qira_analysis.py:225 | n copies of j blocks at i end at i + j*n |
| `LoopCompression.FindRewrite` | middleware/qira_analysis.py:220-226 | the rewrite made next, ending at i + j*loopcnt, or the trace is loop free |
| `LoopCompression.UnfoldFold` | middleware/qira_analysis.py:235-237 | a rewrite can be undone from its place, length and count |
| `LoopCompression.UnwindFold` | middleware/qira_analysis.py:235-237 | so can a whole sequence of rewrites |
| `LoopCompression.FoldKeepsFaithful` | middleware/qira_analysis.py:235-237 | a rewrite shortens the trace, loses nothing, and keeps ab strictly increasing with bb[m] == realtrace[ab[m]] |
| `LoopCompression.NextIsUnique` | middleware/qira_analysis.py:220-226 | there is at most one next rewrite |
| `LoopCompression.OneOutcome` | middleware/qira_analysis.py:215-243 | the trace alone determines all rewrites and where they end |
| `LoopCompression.TailLoopIsNotRare` | middleware/qira_analysis.py:231 | such a failure needs a last block that occurs at least three times in the trace |
| `LoopCompression.EndingInLoop` | middleware/qira_analysis.py:231 | a trace that fails at its first rewrite |
| `LoopCompression.TwoCopiesStay` | middleware/qira_analysis.py:222-223 | two copies are no loop |
| `LoopCompression.LoopsAtTheStartStay` | middleware/qira_analysis.py:220-223 | nor are three at a place that is not past their own length |
| `LoopReports.LeftUnlessRemoved` | middleware/qira_analysis.py:235-237 | at every stage ab holds exactly the positions of the original trace that no earlier rewrite has taken out |
| `LoopReports.BlockEndIff` | middleware/qira_analysis.py:232-233 | blockend is the first copy's last block if and only if no earlier rewrite has folded inside that copy; otherwise it falls short of it |
| `LoopReports.BlockEndFallsShort` | middleware/qira_analysis.py:232-233 | a trace whose second report falls short |
| `LoopReports.ClendIsLate` | middleware/qira_analysis.py:231 | where blocks end later and later, clend lies past every block of the loop |
| `LoopAnalysis.RewriteOnce` | middleware/qira_analysis.py:217-243 | one turn: shorter, faithful and reported with the very positions of its copies, or loop free, or the index past the end of line 231 |
| `LoopAnalysis.DoLoopAnalysis` | middleware/qira_analysis.py:195-250 | terminates; the result unwinds to the original trace, its rewrites are the ones determined by it, and each report tells of its rewrite: first block, ends of the first copy and of the block after the last, count; it is loop free, or the run failed, which happens if and only if those rewrites come to a loop that ends the trace |
| `BasicBlocks.FindStarts` | middleware/qira_analysis.py:105-135 | the collected addresses are exactly those jumped to (if asked for), entered from two places, or entered from a place that led elsewhere too |
| `BasicBlocks.CutBlocks` | middleware/qira_analysis.py:151-159 | the flow is cut at the starts; the exception of reading last unset is raised exactly when there is no instruction or the first is a start |
| `BasicBlocks.RangesTile` | middleware/qira_analysis.py:151-159 | the blocks follow one another from first to last instruction; each begins at a start and ends right before the next one |
| `BasicBlocks.SameStartSameBlock` | middleware/qira_analysis.py:87-160 | any two non-final blocks with the same start execute the same addresses |
| `BasicBlocks.OneStartPerAddress` | middleware/qira_analysis.py:87-160 | every address belongs to blocks with a single start address |
| `BasicBlocks.FirstIsStartIff` | middleware/qira_analysis.py:155 | the first address is a start if and only if it is executed again |
| `BasicBlocks.GetBlocks` | middleware/qira_analysis.py:87-160 | fails exactly on an empty flow or one that comes back to its first address; otherwise gives each block the clnum and address of its first and last instruction |
| `FunctionIntervals.Visit` | middleware/qira_analysis.py:171-192 | one turn of the loop, the three stacks staying equally deep |
| `FunctionIntervals.DoFunctionAnalysis` | middleware/qira_analysis.py:162-193 | the loop computes the intervals the following rows are about |
| `FunctionIntervals.IntervalsAreCalls` | middleware/qira_analysis.py:162-193 | every interval is nonempty, opens at a jump away and closes right before its return address is executed |
| `FunctionIntervals.IntervalsNest` | middleware/qira_analysis.py:162-193 | any two intervals are nested with room on both sides, or disjoint |
| `FunctionIntervals.CallIsReported` | middleware/qira_analysis.py:179-185 | on any flow, a frame that is open and not disturbed until its return address is executed, which is no outer frame's return address and no address a pending call was made from, is reported with exactly that extent |
| `FunctionIntervals.CancelledIsNotReported` | middleware/qira_analysis.py:172-177 | a jump taken for a call and not yet returned from, whose own address is executed again, as by the back edge of a loop, is never reported |
| `FunctionIntervals.GetDepth` | middleware/qira_analysis.py:252-257 | counts the intervals with clstart <= clnum <= clend |
| `FunctionIntervals.GetDepthMap` | middleware/qira_analysis.py:259-270 | entry i counts the intervals with clstart <= i < clend; index error exactly when an interval reaches past the map |
| `FunctionIntervals.DepthsDifferByEndings` | middleware/qira_analysis.py:252-270 | the two depths differ by exactly the intervals ending there |
| `CallIntervals.TreeIsReported` | middleware/qira_analysis.py:170-192 | on a call tree that breaks the sequence only at calls and returns and does not execute an open call's own or return address, the stacks are restored and the calls reported |
| `CallIntervals.ReportsAreTheCalls` | middleware/qira_analysis.py:162-193 | on such a trace the reported intervals are exactly the calls, in the order in which they return |
| `CallIntervals.DepthsAgree` | middleware/qira_analysis.py:252-257 | there the depth counted by get_depth, the depth of get_hacked_depth_map and the depth in the tree are one |
| `CallDepth.Visit` | middleware/qira_analysis.py:427-441 | one turn of the loop: gaps filled, the stack cut at the innermost pending return, the depth recorded, a call pushed |
| `CallDepth.GetHackedDepthMap` | middleware/qira_analysis.py:422-447 | the loop builds the map the following rows are about |
| `CallDepth.TreeRuns` | middleware/qira_analysis.py:434-441 | on a well-nested call tree, recursion included, the stack is restored and every recorded depth is the depth in the tree |
| `CallDepth.DepthIsTrue` | middleware/qira_analysis.py:422-447 | the same for any trace that breaks off in the middle of a well-nested one |
| `CallDepth.ReturnPast` | middleware/qira_analysis.py:434-435 | a return to a frame further out drops all the frames above it |
| `CallDepth.NonlocalReturn` | middleware/qira_analysis.py:434-437 | and the depth recorded there is that of the frame returned to |
| `CallDepth.MapIsByChangelist` | middleware/qira_analysis.py:425-437 | after one leading zero there is one entry per changelist, -1 where it has no instruction |
| `CallDepth.EntryOfInstruction` | middleware/qira_analysis.py:427-437 | the entry of an instruction is the depth recorded for it |
| `CallDepth.AlignedIsByChangelist` | middleware/qira_program.py:389-396 | if the flow ends at maxclnum-1 and starts at minclnum or minclnum+1, position c - minclnum is the entry of changelist c after the shift |
| `WebSocketFrames.XorTwice` | ida/python/qira.py:573-576 | masking twice with the same byte gives the byte back |
| `WebSocketFrames.XorIsExclusiveOr` | ida/python/qira.py:573-576 | a bit of the result is set exactly where one of the two bits is |
| `WebSocketFrames.ByteIsItsBits` | ida/python/qira.py:573-576 | a byte is the sum of those bits, so they determine it |
| `WebSocketFrames.XorZero` | ida/python/qira.py:573-576 | a zero key byte changes nothing, and 255 complements |
| `WebSocketFrames.LengthRoundTrip` | ida/python/qira.py:394-402 | a length that fits k bytes survives network byte order |
| `WebSocketFrames.ParseKeepsValid` | ida/python/qira.py:444-590 | on any byte the parser stays in a valid state or raises a close or an oversized payload |
| `WebSocketFrames.NoLengthException` | ida/python/qira.py:497-554 | on arbitrary input the length and mask exceptions are unreachable |
| `WebSocketFrames.MaskedFrameMeans` | ida/python/qira.py:444-590 | a short masked frame of any bytes: the opcode is the low half of the first byte, byte i of the payload is undone with byte i mod 4 of the key; opcodes 0 to 2 are delivered, others but close skipped |
| `WebSocketFrames.PlainFrameMeans` | ida/python/qira.py:444-590 | the same without a mask |
| `WebSocketFrames.LongFrameMeans` | ida/python/qira.py:485-519 | 126 is followed by two bytes of length, the most significant first |
| `WebSocketFrames.VeryLongFrameMeans` | ida/python/qira.py:489-547 | 127 is followed by eight |
| `WebSocketFrames.CloseRaises` | ida/python/qira.py:211-213 | a close frame ends the connection |
| `WebSocketFrames.FrameRoundTrip` | ida/python/qira.py:444-590 | any frame but close, masked or not, in any length form and below the limit, is read back whole and the parser is ready again |
| `WebSocketFrames.FramesRoundTrip` | ida/python/qira.py:444-590 | any sequence of such frames delivers exactly their payloads in order, None for empty ones, control frames skipped |
| `WebSocketFrames.ReadBackIff` | ida/python/qira.py:578-580 | a frame is read back if and only if its payload is shorter than 4194304 bytes; otherwise the exception is raised |
| `WebSocketFrames.SendMessage` | ida/python/qira.py:375-408 | the bytes sent are one unmasked, unfragmented frame of the message, in the shortest length form |
| `WebSocketFrames.SentBytes` | ida/python/qira.py:382-407 | the bytes of a message: 0x81 or 0x82, the length in one or three bytes, the message as it is |
| `WebSocketFrames.SentIsReceived` | ida/python/qira.py:375-408 | the parser inverts the encoder: what is sent is delivered, as the same kind of message, if and only if it is shorter than 4194304 bytes |
| `WebSocketFrames.WebSocket.constructor` | ida/python/qira.py:159-186 | a connection waits for a header |
| `WebSocketFrames.WebSocket.Handle` | ida/python/qira.py:209-224 | data goes to the application, control frames are skipped, close raises; in every case the parser is reset |
| `WebSocketFrames.WebSocket.BeginPayload` | ida/python/qira.py:556-569 | an empty payload is handled at once |
| `WebSocketFrames.WebSocket.LengthKnown` | ida/python/qira.py:503-519 | the mask is read next if there is one |
| `WebSocketFrames.WebSocket.ParsePayload` | ida/python/qira.py:572-590 | one payload byte |
| `WebSocketFrames.WebSocket.ParseMessage` | ida/python/qira.py:444-590 | the object does on every byte what the parser of the round-trip rows does |
| `Disassembly.Enqueue` | static2/builtin/analyzer.py:59-65 | exactly the new non-call destinations are queued |
| `Disassembly.Descend` | static2/builtin/analyzer.py:53-68 | terminates, and visits exactly the least set that contains the entry and is closed under non-call destinations |
| `Disassembly.FlowsAre` | static2/model.py:308-335 | where control flows from each kind of instruction: on, to the target, both or nowhere; and what it calls |
| `Disassembly.BlockStartsAre` | static2/builtin/analyzer.py:28-51 | block starts are the entry and the destinations that are not a fall-through or follow a jump |
| `Disassembly.StartsBlockIff` | static2/builtin/analyzer.py:40-50 | whatever a jump flows to, conditional or not, its fall-through included, starts a block, and nothing else does |
| `Disassembly.WalkBlock` | static2/builtin/analyzer.py:73-88 | terminates, and collects the addresses from a block start to an ending instruction or the next block start |
| `Disassembly.WalkEntersBy` | static2/builtin/analyzer.py:76-84 | each address of a block but the first follows a plain instruction or a call of the block, and is no block start |
| `Disassembly.WalkStopsAt` | static2/builtin/analyzer.py:78-80 | a block goes on after a plain instruction or a call unless a block start follows |
| `Disassembly.BlocksCoverIff` | static2/builtin/analyzer.py:72-88 | the blocks cover all visited code if and only if what follows each visited hlt is the entry or is also reached from an instruction that is no hlt |
| `Disassembly.BlocksCoverCode` | static2/builtin/analyzer.py:72-88 | so without hlt every visited address lies in some block |
| `Disassembly.HaltLeavesGap` | static2/model.py:296-315 | a hlt whose successor is visited but in no block |
| `Disassembly.FunctionIsItsCode` | static2/builtin/analyzer.py:53-88 | a function in the store has the block starts of its own code, and its blocks hold all of that code if and only if the condition on hlt of the coverage row holds |
| `Disassembly.Static.MakeOne` | static2/builtin/analyzer.py:18-88 | one function: its code is tagged with it, its blocks are the walks from its block starts, and all other tags and functions are as they were |
| `Disassembly.Static.MakeFunctionAt` | static2/builtin/analyzer.py:18-94 | terminates on every finite image, recursion included; everything newly tagged leads only to tagged code, and nothing is tagged that the entry does not lead to |
| `Disassembly.Static.MakeCallees` | static2/builtin/analyzer.py:90-94 | all callees of a function are made, one after the other |
| `Disassembly.Static.MakeCallee` | static2/builtin/analyzer.py:90-94 | a callee is made unless it is known, and its call is then settled |
| `Disassembly.FromNothing` | static2/builtin/analyzer.py:18-94 | from an empty store the tagged addresses are exactly the program reachable from the entry by flow and calls |
| `Disassembly.MakeProgram` | static2/builtin/analyzer.py:18-94 | making the function at the entry in a new store tags exactly that program |
| `NestedRpc.StepKeepsInv` | extra/static/remoteobj.py:196-241 | issuing, answering and receiving keep the two endpoints in step, level by level |
| `NestedRpc.RunKeepsInv` | extra/static/remoteobj.py:196-241 | the same in every run, with callbacks nested to any depth |
| `NestedRpc.OneThread` | extra/static/remoteobj.py:196-241 | at most one message is in flight and at most one side is not blocked receiving |
| `NestedRpc.AnswersFindTheirCall` | extra/static/remoteobj.py:204-221 | each ok or exn is consumed by the innermost outstanding request of its receiver, and that is the request it answers |
| `NestedRpc.CallIsTakenUp` | extra/static/remoteobj.py:204-221 | a call that has been issued is what happens next, on the other side, which then serves it |
| `NestedRpc.AnswerIsDelivered` | extra/static/remoteobj.py:238-241 | an answer is taken next, by the request it answers, as the result or exception the callee made of it |
| `NestedRpc.NeverStuck` | extra/static/remoteobj.py:196-241 | some step is always possible, and never on both sides at once |
| `NestedRpc.OneCallStack` | extra/static/remoteobj.py:204-241 | the two stacks are one call stack: issuing pushes, taking an answer pops that very call, all else leaves it |
| `NestedRpc.OpenCallsAreDistinct` | extra/static/remoteobj.py:204-241 | open calls are numbered in the order they nest |

## Left out

- The fault path of `arm_kernel_cmpxchg64_helper` that ends an exclusive section twice, `stop_all_tasks`
  and fork handling: they do not pair one start with one end.
- The `cpu_exit` request sent to running CPUs: in the model guest code may leave at any time, and the
  progress results say that every step is possible, not that guest code chooses to leave.
- StrexSystem.MoveRefines: a system call (run after `cpu_exec_end`, `extra/qemu_mods/main.c:682-684` and 820) is a move if its write misses the access of a store-exclusive in progress, or comes before anything is read or once the outcome is decided; what other writes do is said by `RaceIff`. Mapping or unmapping memory meanwhile is not modelled.
- The 64-bit ARM store-exclusive, other architectures' atomics and big-endian guest words in `do_strex`.
- The recorder's 32-bit counters are unbounded numbers in the model, and a record is visible only once
  it is complete; `add_change` counts it first.
- Replay of system calls, segment loading and `_mods` files, and big-endian guests: replay copies bytes in
  host order. Replayed accesses are at most 64 bits wide in the code; the model lets wider ones read as zero.
- A log file is modelled as a sequence of records; mapping, growing and
  waiting for the file, and a failed mapping, are not modelled.
- Page maps, the smallest and largest clnum and the update flag of the database: simple accumulations.
- Locks as such: the racing query is modelled by the order in which ingestion publishes an entry in the
  index and in the count, the two things the query reads in separate critical sections.
- TraceDb.Trace.FetchMemory: describes a whole query against one state of the database; the copying loop holds the read lock throughout.
- Slicing.SliceIsEnoughIff: locations are base addresses, so accesses of different bases that overlap in memory are not related, just as the slicer does not relate them.
- LoopAnalysis.DoLoopAnalysis: the failure condition is exact but is about the determined sequence of rewrites; the condition that can be read off the trace, a last block occurring at most twice, rules failure out and is not necessary.
- Slicing reads the trace through the database with a limit of 100 records; the model takes the trace as a
  function from changelist to records.
- CallIntervals.ReportsAreTheCalls: traces with jumps inside functions, or with recursion through an open call site, are outside it; there the analysis reports what `IntervalsAreCalls` and `IntervalsNest` allow.
- RegisterTravel.RegistersBeforeChangelist: is about registers written whole and aligned; a narrower write replaces the whole value in the database.
- The disassembly text of blocks, sleeping between steps, printing.
- Handshake, hixie-76 framing and partial sends of the WebSocket server.
- Instruction decoding, names, cross references and byte-pattern function search: the decoder is an
  arbitrary finite map from addresses to instructions.
- Packing and unpacking of remote objects, the server's exit once nothing is vended, and socket errors.
- `get_instruction_flow`, `analyse_calls`, `draw_multigraph`, `get_vtimeline_picture`: look-ups, heuristics and drawing.
- The trap loops, argument parsing and opcode interpreter of the emulator, the web server and its client,
  and the IDA and radare bindings.
