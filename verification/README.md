# Elgate ring buffer and worker placement, verified in Dafny

Elgate moves I/O requests from applications to a sidecar through a ring of fixed-size slots in shared
memory: many producers call `write`, one consumer calls `read`. This project models that ring at three
levels and proves what it guarantees, and then the smaller part of the repository that decides which CPU
core a worker thread is placed on.

* **Concurrent level** (`Protocol*.dfy`). A transition system in which every atomic load, store and
  compare-exchange of `write` and `read`, and every copied payload byte, is one step. Any number of
  producers and one consumer interleave arbitrarily; a weak compare-exchange may fail spuriously.
  `ProtocolFifo.dfy` proves the ring a queue under two conditions on the schedule, one about each side's
  look at a slot's status; `ProtocolExact.dfy` proves that slots are written exclusively, no claim is
  wasted and nothing is lost or out of order in exactly the schedules that meet both.
  History variables record the successful claims ("tickets") and what the calls returned.
* **Sequential level** (`Sequential*.dfy`). One function per call, branch by branch, on header counters
  and slot records. `ProtocolSolo.dfy` proves that a call of the concurrent system that is not
  interrupted is exactly one sequential call.
* **Byte level** (`Bytes.dfy`, `HeaderMemory.dfy`, `SlotMemory.dfy`, `RingBuffers.dfy`, `SharedRing.dfy`).
  The mapped region is an `array<byte>`; header and slots are little-endian fields at their `repr(C)`
  offsets (192-byte header, 64-byte slot metadata); several `RingBuffer` handles may share one region.
  Every method is proved to do to the bytes what the sequential level says.
* **Placement** (`CpuTopology.dfy`, `CpuList.dfy`, `Workers.dfy`).

Indices are stored modulo the slot count n, equal indices read as "empty", and `wait_for_slot` moves the
producer index before it looks at the slot. The model keeps all of this, and the theorems say what
follows: order and content survive every sequential overflow, but the last slot cannot be used without
hiding the whole queue, and rings of exactly 1 or 11 slots can stall for good.

## Where code and documentation differ

* `read` is documented to return `None` when no data is available (buffer.rs:205). It also does so whenever
  the indices are equal and messages wait, in a full ring and, after refused writes, in one that is not
  full; see `SequentialRuns.CallRules` and `SequentialRuns.TheLastSlotHidesTheQueue`.
* `wait_for_slot` is documented to wait until a slot becomes available (buffer.rs:254-255). It gives up
  after eleven attempts, each of which has moved the producer index; see `SequentialTheory.WriteRefused`.
* The example numa_ring_buffer.rs writes 10,000 messages to a ring of 255 slots before it reads (lines
  49-50 and 146-175) and then asserts that each of 10,000 reads returns one (lines 177-181). At most 254
  writes can be read back that way; see `ProtocolOverfill.AllComeBackFromANewRingExactlyWhen`.
* A comment in the tests of cpu_info.rs (line 321) says that additional workers wrap around within their
  NUMA node. The code wraps around over all cores; see `CpuTopology.EvenPartitionIsRoundRobin`.
* RFC-0001 speaks of a "64-byte padded header" and the plan of a header padded to 64 bytes. The structure in
  header.rs is padded to a multiple of 64 bytes and takes 192.

## Model

| member | source | states |
|---|---|---|
| `ProtocolFifo.DisciplinedRunsAreFifo` | elgate-core/src/ring/buffer.rs:177-243 | If each decided status check of a claimed slot (line 283) comes when the ticket n places before is done with (its Complete is stored), and each first look of a read (line 225) finds its slot published, then in every interleaving, however far claims run ahead, a producer that writes a slot has it to itself, every claim succeeds at its first attempt, reads return the messages intact, each once, in claim order, and a read returns None iff a multiple of n of the tickets it saw claimed is unconsumed, which is 0 when claims leave at most n-1 unconsumed |
| `ProtocolExact.OrderedExactlyWhenInTime` | elgate-core/src/ring/buffer.rs:218-242 | Among all schedules whose checks keep the window, reads return every consumed message, once and in claim order, if and only if each look at a slot (line 225) comes after its producer stored Ready |
| `ProtocolExact.CleanExactlyWhenDisciplined` | elgate-core/src/ring/buffer.rs:177-300 | For all schedules: at every moment a producer past its check has the slot to itself until it stores Ready, no claim has been wasted and nothing is lost or out of order, if and only if every decided check keeps the window and every look is in time |
| `ProtocolExact.AnEarlyLookIsNeverMadeUp` | elgate-core/src/ring/buffer.rs:225-242 | After a look that comes too early, whatever is scheduled next, the reads have returned fewer messages than they consumed tickets, for good |
| `ProtocolExact.EarlyCheckHarms` | elgate-core/src/ring/buffer.rs:278-287 | A check decided while the ticket n, 2n, ... places before is not done with wastes the claim or lets the producer into a slot that an earlier claim still has |
| `ProtocolExact.CheckedClaimsAreFifo` | elgate-core/src/ring/buffer.rs:177-243 | If producers claim only when it leaves at most n-1 tickets unconsumed and the consumer claims only published tickets, the run is a queue throughout and a read returns None iff everything it saw claimed has been consumed |
| `ProtocolFifo.StepKeepsFifo` | elgate-core/src/ring/buffer.rs:177-300 | Each atomic step of either call, taken under the two conditions, keeps the queue invariant that ties every ticket to its slot's status and bytes |
| `ProtocolFifo.FifoIsExclusive` | elgate-core/src/ring/buffer.rs:256-300 | Under the invariant a producer past its check shares the slot with no other such producer, no earlier claim, no unread message and not with the consumer |
| `ProtocolFillDrain.FillThenDrain` | elgate-core/examples/numa_ring_buffer.rs:157-181 | Up to n-1 racing writes into a drained ring all succeed in distinct slots at the first attempt, in each producer's call order, and later reads return exactly them in claim order and then None; no scheduling condition is assumed |
| `ProtocolFillDrain.FillThenDrainOnANewRing` | elgate-core/examples/numa_ring_buffer.rs:157-181 | The same from a created ring: the r-th read returns the r-th claimed message, then None |
| `ProtocolFillDrain.BalancedInEveryRun` | elgate-core/src/ring/header.rs:97-114 | In every disciplined run each legal call has claimed one slot or is still to claim one, and each producer claims in call order |
| `ProtocolRounds.FillThenDrainAfterAnyRun` | elgate-core/examples/numa_ring_buffer.rs:157-181 | The same from any quiet moment of any disciplined run of a created ring |
| `ProtocolRounds.FillAndDrainRepeatedly` | elgate-core/examples/numa_ring_buffer.rs:157-181 | Any number of rounds of at most n-1 racing writes and then as many reads: each round returns its messages in claim order, and in the end everything ever written was delivered exactly once, in each producer's call order |
| `ProtocolOverfill.AllComeBackExactlyWhen` | elgate-core/examples/numa_ring_buffer.rs:157-181 | From a quiet ring, M racing writes run to their end and then at least M reads: the reads return M messages if and only if M is at most n-1; with M = n they return nothing |
| `ProtocolOverfill.AllComeBackFromANewRingExactlyWhen` | elgate-core/examples/numa_ring_buffer.rs:146-181 | The same from a created ring with exactly M reads |
| `ProtocolOverfill.AtMostOneMessageASlot` | elgate-core/src/ring/buffer.rs:206-243 | However the ring was filled, the reads that follow return at most one message a slot |
| `ProtocolTickets.TicketsInEveryRun` | elgate-core/src/ring/header.rs:97-133 | In every interleaving each wrapped index is its claim count modulo n, the t-th claim got slot t mod n, and consumer claims never exceed producer claims |
| `ProtocolTickets.SlotsAreHandedOutEvenly` | elgate-core/src/ring/header.rs:97-114 | After any run each slot was handed out floor(k/n) times, and once more if its index is below k mod n |
| `ProtocolTickets.NoMessageIsDeliveredTwice` | elgate-core/src/ring/slot.rs:276-322 | In every interleaving, per slot, deliveries plus a read in progress plus a waiting Ready never exceed the Ready stores; `operations_completed` counts the deliveries, which never exceed the publishes |
| `ProtocolTickets.StepKeepsAtMostOnce` | elgate-core/src/ring/buffer.rs:206-243 | Every single atomic step keeps that per-slot bound |
| `ProtocolTickets.ASingleSlotNeverDelivers` | elgate-core/src/ring/buffer.rs:213-216 | A ring of one slot returns None from every read, in every interleaving |
| `ProtocolTickets.ReadingStartsFromReady` | elgate-core/src/ring/slot.rs:303-308 | In any schedule a read stores Reading only after its second look found Ready, and returns the kind it loaded after the first |
| `ProtocolProgress.LoserClaimsNext` | elgate-core/src/ring/header.rs:102-113 | A spurious failure claims nothing; a producer that lost the compare-exchange retries with the present index, so left alone it claims with its next step or the one after |
| `ProtocolProgress.ConsumerClaimsNext` | elgate-core/src/ring/header.rs:121-132 | The same for the consumer |
| `ProtocolProgress.CallsLeftAloneReturn` | elgate-core/src/ring/buffer.rs:177-300 | Obstruction freedom: after any schedule, a `write` that from then on runs alone without spurious failures returns, and so does a `read` |
| `ProtocolProgress.EveryRunCanFinish` | elgate-core/src/ring/buffer.rs:177-300 | No reachable state is a dead end: some continuation brings every call to its end |
| `ProtocolStranding.EarlyReadStrandsAMessage` | elgate-core/src/ring/buffer.rs:218-242 | Every ring of two or more slots has a schedule in which a read looks at a slot before it is published, the write then succeeds, its message lies Ready in the ring, and reads return None |
| `ProtocolSolo.SoloWrite` | elgate-core/src/ring/buffer.rs:177-198 | The atomic steps of an uninterrupted write, refusal after eleven attempts included, add up to one sequential write |
| `ProtocolSolo.SoloRead` | elgate-core/src/ring/buffer.rs:206-243 | The atomic steps of an uninterrupted read, reset branch included, add up to one sequential read |
| `ProtocolSoloRuns.SequentialRunsAreSchedules` | elgate-core/src/ring/buffer.rs:177-243 | Every sequence of whole calls, the writes shared out among the producers in any way, is a schedule of the concurrent system with the same memory, read results and refusals, so the states the sequential results below speak of are reachable there |
| `Common.AvailableSlotsIsPositive` | elgate-core/src/ring/buffer.rs:269-276 | The free-slot estimate is the distance from the producer to the consumer index, a whole lap if they are equal, so at least 1; it never holds a writer back |
| `SequentialTheory.WaitFindsFirstAvailable` | elgate-core/src/ring/buffer.rs:256-300 | `wait_for_slot` takes and resets the first available slot ahead if the remaining attempts reach it, and otherwise only moves the producer index |
| `SequentialTheory.WaitFindsNothing` | elgate-core/src/ring/buffer.rs:256-300 | With no slot available it moves the producer index once per attempt, changes nothing else and gives up |
| `SequentialTheory.WriteAccepted` | elgate-core/src/ring/buffer.rs:177-198 | A write within reach of a free slot appends to the queue in the first free slot and leaves the indices (pending+1) mod n apart |
| `SequentialTheory.WriteRefused` | elgate-core/src/ring/buffer.rs:290-294 | Any other legal write moves the producer index by exactly 11 modulo n, touches no slot and keeps the queue |
| `SequentialTheory.ReadExact` | elgate-core/src/ring/buffer.rs:206-243 | A read delivers the oldest message iff the indices differ, and otherwise changes nothing |
| `SequentialTheory.PendingIsQueue` | elgate-core/src/ring/buffer.rs:206-243 | The queue a ring holds is the list of its Ready slots in cyclic order from the consumer index |
| `SequentialSlots.ClaimedSlot` | elgate-core/src/ring/buffer.rs:278-288 | `wait_for_slot` returns a slot that was Empty or Complete, with every metadata field wiped and the payload bytes kept; no other slot changes |
| `SequentialSlots.WrittenSlot` | elgate-core/src/ring/buffer.rs:177-198 | Field by field what a write leaves: status Ready, the kind, size, id, time and bytes of the call in the returned slot, and nothing else changed; no slot changed if it is not accepted |
| `SequentialSlots.ReadSlot` | elgate-core/src/ring/buffer.rs:206-243 | Field by field what a read leaves: the slot Complete with all else kept, or wiped if it was not a plausible Ready one, or nothing changed at all |
| `SequentialRuns.CallRules` | elgate-core/src/ring/buffer.rs:177-300 | The exact acceptance rule, both directions: accepted iff r < n and r - d <= 10; delivered iff d > 0 |
| `SequentialRuns.SequentialRunsAreFifo` | elgate-core/src/ring/buffer.rs:177-300 | After any sequence of whole calls, overflow included, accepted messages are the delivered ones followed by the pending ones, in order and byte for byte; Ready slots form one arc; the counter counts deliveries |
| `SequentialRuns.NothingIsLost` | elgate-core/src/ring/buffer.rs:206-243 | Pending is accepted minus delivered as multisets, and the reset branch of `read` is never reached |
| `SequentialRuns.RingIsABoundedFifo` | elgate-core/src/ring/buffer.rs:256-300 | While fewer than n messages are held, every result equals that of a plain queue: each legal write succeeds at once in slot k mod n, a read is None iff the queue is empty |
| `SequentialRuns.TheLastSlotHidesTheQueue` | elgate-core/src/ring/buffer.rs:213-216 | With n-1 pending one more write is accepted, and then read returns None although n messages wait |
| `SequentialRuns.TwoWritesUnblock` | elgate-core/src/ring/buffer.rs:260-299 | Unless n is 1 or 11, at most two legal writes make the oldest pending message readable |
| `SequentialRuns.StalledForever` | elgate-core/src/ring/buffer.rs:260-299 | For n = 1 or 11 a full ring with equal indices refuses every write and reads None through any further calls |
| `SequentialRuns.DeadExactlyWhen` | elgate-core/src/ring/buffer.rs:213-299 | A reachable ring with pending messages can still deliver iff it is not a full ring of 1 or 11 slots |
| `HeaderMemory.LayoutBound` | elgate-core/src/ring/buffer.rs:309-324 | Slots lie behind the header, inside the region and apart from each other, no further slot fits, and they are cache-line aligned when the slot size is |
| `HeaderMemory.SlotCountBounds` | elgate-core/src/ring/header.rs:64-65 | The slot count is the largest number of slots that fit |
| `HeaderMemory.HeaderLayout` | elgate-core/src/ring/header.rs:15-54 | The word positions and the 192 bytes follow from the declared fields under `repr(C, align(64))` |
| `HeaderMemory.HeaderBytesMean` | elgate-core/src/ring/header.rs:15-54 | Which bytes of the region hold which field |
| `HeaderMemory.ValidHeaderStartsWith` | elgate-core/src/ring/header.rs:56-61 | A header that validates starts with the bytes of the magic number and version 1, least significant first |
| `HeaderMemory.FieldStored` | elgate-core/src/ring/header.rs:16-54 | Storing one header word changes that field only |
| `HeaderMemory.RingHeader.Init` | elgate-core/src/ring/header.rs:64-86 | The decoded header after `new`, and that bytes behind the header are untouched |
| `HeaderMemory.NewHeaderValidates` | elgate-core/src/ring/header.rs:64-95 | A header that `new` wrote passes `validate`, then and after any sequence of stores to its counters, if and only if at least one slot fits behind it |
| `HeaderMemory.StoredWordKeepsValidity` | elgate-core/src/ring/header.rs:89-95 | Exactly which single stored words make `validate` reject a valid header: another magic or version, a size without room, a slot size or count of 0, and no counter |
| `HeaderMemory.RingHeader.NextProducerIdx` | elgate-core/src/ring/header.rs:98-114 | Returns the old index and advances it modulo the slot count, after any number of spurious failures |
| `HeaderMemory.RingHeader.NextConsumerIdx` | elgate-core/src/ring/header.rs:117-133 | The same for the consumer index |
| `HeaderMemory.RingHeader.IncrementCompleted` | elgate-core/src/ring/header.rs:136-138 | Adds one modulo 2^64 and changes no other field |
| `HeaderMemory.RingHeader.RegisterProducer` | elgate-core/src/ring/header.rs:141-143 | Adds one modulo 2^64 and changes no other field |
| `Bytes.WordRoundTrip` | elgate-core/src/ring/slot.rs:191-230 | A big-endian word stored natively and loaded back is the same bytes |
| `SlotMemory.IdRoundTrip` | elgate-core/src/ring/slot.rs:191-230 | The 16 bytes of an id survive storage as four big-endian words |
| `SlotMemory.MetadataLayout` | elgate-core/src/ring/slot.rs:76-95 | The field offsets and the 64 bytes follow from the declared fields under `repr(C, align(64))` |
| `SlotMemory.SlotBytesMean` | elgate-core/src/ring/slot.rs:133-209 | Which bytes mean which status, kind, size, id, time and payload, for all contents of a slot |
| `SlotMemory.StatusOnTheWire` | elgate-core/src/ring/slot.rs:13-29 | The four bytes stored for each status |
| `SlotMemory.KindOnTheWire` | elgate-core/src/ring/slot.rs:34-55 | The four bytes stored for each operation kind |
| `SlotMemory.Slot.SetStatus` | elgate-core/src/ring/slot.rs:146-152 | The status getter then reports the new status, all else and all bytes outside the slot unchanged |
| `SlotMemory.Slot.SetOperation` | elgate-core/src/ring/slot.rs:170-176 | The same for the operation kind |
| `SlotMemory.Slot.SetId` | elgate-core/src/ring/slot.rs:209-230 | The same for the id |
| `SlotMemory.Slot.Id` | elgate-core/src/ring/slot.rs:191-206 | Returns the id the stored words denote |
| `SlotMemory.Slot.WriteData` | elgate-core/src/ring/slot.rs:276-294 | Oversized data is rejected with memory untouched; otherwise the slot ends Ready with size, time and bytes, keeping kind and id |
| `SlotMemory.Slot.ReadData` | elgate-core/src/ring/slot.rs:303-322 | Returns the stored bytes iff the slot is Ready with a plausible size; a Ready slot ends Complete |
| `SlotMemory.Slot.Reset` | elgate-core/src/ring/slot.rs:325-331 | Back to an empty slot with the payload bytes kept |
| `SlotMemory.SlotRoundTrip` | elgate-core/src/ring/slot.rs:340-389 | Kind, id and payload of any allowed length come back unchanged, and no byte outside the slot changes |
| `RingBuffers.SlotChanged` | elgate-core/src/ring/buffer.rs:309-324 | Changing the bytes of one slot leaves the header and every other slot byte-for-byte unchanged |
| `RingBuffers.HeaderChanged` | elgate-core/src/ring/header.rs:97-138 | Moving counters leaves every slot byte-for-byte unchanged |
| `RingBuffers.RingBuffer.Create` | elgate-core/src/ring/buffer.rs:77-123 | The region holds a ring of reset slots with zero payload bytes, both indices and the delivery count zero and one producer registered, and its header validates iff at least one slot fits |
| `RingBuffers.RingBuffer.Open` | elgate-core/src/ring/buffer.rs:129-171 | Fails iff the header does not validate; mismatched options only cause a warning and the header's sizes are used |
| `RingBuffers.RingBuffer.GetSlot` | elgate-core/src/ring/buffer.rs:309-324 | The pointer lies inside the region and its getters report slot idx of the ring |
| `RingBuffers.RingBuffer.WaitForSlot` | elgate-core/src/ring/buffer.rs:256-300 | The loop over bytes refines the sequential wait and touches at most the claimed slot |
| `RingBuffers.RingBuffer.Write` | elgate-core/src/ring/buffer.rs:177-198 | The call on bytes refines the sequential write, and the slot it returns holds the kind, bytes, id and time of the call; other slots and the layout are unchanged |
| `RingBuffers.RingBuffer.WriteAndInspect` | elgate-core/src/ring/buffer.rs:189-197 | After a successful write the getters of the returned slot report Ready and the kind, size, id and time of the call |
| `RingBuffers.RingBuffer.Read` | elgate-core/src/ring/buffer.rs:206-243 | The call on bytes refines the sequential read; other slots and the layout are unchanged |
| `SharedRing.PlayAll` | elgate-core/src/ring/mod.rs:74-83 | Any mix of calls over any number of handles on one region is a run of calls on one ring |
| `SharedRing.OpenAll` | elgate-core/src/ring/buffer.rs:129-171 | Every open of a created region succeeds and attaches, whatever options it was given |
| `SharedRing.PlayScript` | elgate-core/src/ring/mod.rs:73-83 | Opens with any options and calls through any handle opened so far, in any order, act on the region as one run of calls on one ring |
| `SharedRing.OneQueueForAll` | elgate-core/src/ring/mod.rs:56-89 | Create once, then open with any options and call through any handle opened so far, in any order: every open succeeds, and what was accepted is what was delivered followed by what is pending |
| `CpuTopology.GetCoreForWorker` | elgate-core/src/arch/cpu_info.rs:96-115 | The running-total loop equals indexing the concatenated core lists, or the worker number modulo the cores beyond them; empty nodes never cause a division by zero |
| `CpuTopology.WorkersFollowTheNodes` | elgate-core/src/arch/cpu_info.rs:96-115 | With NUMA, worker (cores of the nodes before node k) + j gets the j-th core that node k lists; workers beyond all nodes, and all workers without NUMA, get their number modulo the cores |
| `CpuTopology.Mock` | elgate-core/src/arch/cpu_info.rs:217-251 | Consecutive blocks that cover 0..cores exactly once; the first (cores mod nodes) nodes have floor(cores/nodes) + 1 cores, the others floor(cores/nodes) |
| `CpuTopology.EvenPartitionIsRoundRobin` | elgate-core/src/arch/cpu_info.rs:96-115 | On such a topology worker i gets core i modulo the number of cores, for every i |
| `CpuTopology.PlacementIsBalanced` | elgate-core/src/arch/cpu_info.rs:96-115 | If the node lists partition the cores, every core carries floor(k/L) or ceil(k/L) of k workers |
| `Workers.SelectForSystem` | elgate-core/src/arch/runtime_mode.rs:56-77 | `SingleThread` exactly on at most one core and `PinnedSharded` on more; at least one worker and at most one per core, one core left over exactly on systems of more than four |
| `Workers.SingleWorkerModes` | elgate-core/src/arch/runtime_mode.rs:79-107 | The three other modes have one worker, do not pin and ignore NUMA |
| `Workers.ThreadBuilder.Build` | elgate-core/src/arch/thread_builder.rs:77-130 | The assigned core, node by node as the topology places the worker, and the new worker index; test stubs are not counted, unpinned workers are |
| `Workers.BuildWorkers` | elgate-core/src/arch/thread_builder.rs:213-237 | k builds by one builder leave every core with floor(k/L) or ceil(k/L) workers |
| `Workers.BuildSelected` | elgate-core/src/arch/thread_builder.rs:77-130 | Selecting the mode and building its workers: each build advances the index by one, pinned workers sit where the topology places them and on different cores, a single worker is not pinned |
| `Workers.SelectedWorkersGetDistinctCores` | elgate-core/src/arch/runtime_mode.rs:56-77 | With the selected worker count no two pinned workers share a core |
| `CpuList.ParseCpuList` | elgate-core/src/arch/cpu_info.rs:189-213 | The loop that pushes cores computes the concatenation of what the parts stand for |
| `CpuList.ParseConcat` | elgate-core/src/arch/cpu_info.rs:189-213 | Parsing is a homomorphism from joining with a comma to concatenation, for all strings |
| `CpuList.ParsePrint` | elgate-core/src/arch/cpu_info.rs:187-213 | Parsing the printed form of any list of cores and ranges of usize values gives exactly their expansion |
| `CpuList.TrailingSpaceIsIgnored` | elgate-core/src/arch/cpu_info.rs:171-172 | A newline, blank, tab or carriage return at the end of any text changes nothing |
| `CpuList.ParsePrintedLine` | elgate-core/src/arch/cpu_info.rs:171-172 | A printed list followed by a newline, the form of a sysfs file, parses to its expansion |
| `CpuList.ParseSpacedPrint` | elgate-core/src/arch/cpu_info.rs:193-209 | Blanks, tabs and line ends before and after every number, after commas and around dashes, change nothing |
| `CpuList.NumberPart` | elgate-core/src/arch/cpu_info.rs:204-209 | A part without a dash stands for n iff it is white space, an optional plus sign, digits of value n below 2^64 and white space; else for nothing |
| `CpuList.SpanPart` | elgate-core/src/arch/cpu_info.rs:194-203 | A part with one dash stands for the cores from its left to its right number, for none if they are the wrong way round or if either side is no number |
| `CpuList.ManyDashesPart` | elgate-core/src/arch/cpu_info.rs:197-198 | A part with two dashes or more stands for nothing |
| `CpuList.WhiteSpaceIs` | elgate-core/src/arch/cpu_info.rs:199-206 | The characters that trimming removes, by code point |

## Left out

- FillThenDrain: safety only. A call that is left alone returns (`ProtocolProgress.CallsLeftAloneReturn`), but among running competitors, or with spurious failures without end, nothing bounds how long it takes.
- Write: the id from the random generator and the clock reading are inputs, and the sleep between attempts is not modelled.
- Weak memory: all steps are sequentially consistent; the effects of Relaxed, Acquire and Release orderings are not modelled.
- The concurrent level leaves out operation ids, timestamps and the loads of the constant slot count, which `read` and `wait_for_slot` do not depend on; the byte level has ids and timestamps.
- More than one consumer at the same time: the ring is documented as single-consumer.
- File creation, mmap, permissions, mbind and `create_numa_aware`, whose initialisation equals that of `create` apart from the node number.
- Options on which the source panics: a size below 192, a slot size of 0, or a slot size below 64 when a slot would fit.
- Alignment faults of atomics when the slot size is not a multiple of 64.
- A worker index or a producer count that runs past 2^64 in `build`.
- Producer registration beyond `create`, and plain getters: true but easy.
- Thread spawning and `pin_thread_to_core`: foreign calls; only the assigned core is modelled.
- sysfs discovery in `detect_numa_linux`: the parser starts from the text of a list, the placement from a topology.
- The disk and network engines, the benchmarks, and the documented features without code (WAL, TLS, futex, batch pop).
