# xv6 on Rocket: a verified model of the port and of the boot-image search

This project models, in Dafny, the parts of the repository where a small piece of code carries a large
promise, and proves those promises for every input, run or interleaving:

- **The machine-mode trap layer** (`Hart.dfy`, `Timervec.dfy`, `Reflection.dfy`, `Timeline.dfy`,
  `Ticks.dfy`). rocket-chip refuses to delegate some exceptions, so `timervec` hands them down to
  supervisor mode in software. The handler is modelled instruction by instruction and proved equal to a
  function on hart states; a simulation theorem then says that user and supervisor code cannot tell the
  port from a hart that delegates everything, over whole runs with timer traps in between. Two further
  state machines give the timing (no livelock when ticks are late) and the accounting of ticks.
- **The HTIF console** (`HtifProtocol.dfy`, `HtifSends.dfy`, `HtifReads.dfy`, `HtifRounds.dfy`,
  `HtifDriver.dfy`): target and host as interleaved single accesses to `tohost` and `fromhost`, with a stack of nested kernel
  activities on the target. Commands are delivered exactly once in store order, input arrives in order
  with at most one read outstanding, and the driver's loops, written as methods, are steps of that
  protocol and terminate.
- **The block-device driver** (`BlockDevice.dfy`, `BlockArray.dfy`, `BlockDriver.dfy`,
  `BufferLayout.dfy`): an asynchronous DMA engine that moves 64-byte chunks of any request at any time.
  The polling driver refines an array of blocks over whole runs; the roles of stale completions, of the
  64-byte alignment and of the 32-bit range check are pinned down by exact conditions.
- **Adapted kernel routines** (`WordCopy.dfy`, `PageAllocator.dfy`, `PageTable.dfy`): word-at-a-time
  `memset` and `memmove` over one byte memory with any overlap; a page allocator whose dropped fills no
  write-before-read client can observe; page-table entries with A and D preset, as numbers whose shifts are
  divisions and multiplications by powers of two.
- **The first-stage boot loader's image search** (`BootSearch.dfy`): the checksum, the search loop with
  its exact termination condition, and the fallback chain built on it.

Code that changes state step by step is a class or an array method proved against a specification
function; what is promised about it is proved about that function in lemmas.

## Assumptions

- One hart. `uartintr` is not re-entered (interrupts are off in it); every other nesting is last-in,
  first-out. In `HtifDriver` other sends may nest between the steps of a send to any depth, finitely many in
  each wait; `uartintr` and `uartwrite`, which run with interrupts off, pass depth 0.
- The host keeps the protocol of the header comment of `xv6/htif.c`: it reads `tohost`, zeroes it and acts
  in separate steps, writes `fromhost` only after it read 0, and never replies with a zero word. In
  `HtifDriver` it attends to a nonzero `tohost` after finitely many polls.
- The block device makes at least one step per poll while a request is in flight. When a tracker becomes
  free again is left open: at completion, or when the tag is popped (`TrackerComesIffLive`).
- Supervisor code neither reads nor writes timer_scratch, which is ordinary memory to it; reading it would
  tell reflection from delegation. It may store to mtimecmp through the kernel's mapping of the CLINT; only
  `Timeline`, whose subject is the handler, takes it that it does not. It does not store to mtime.
- `mtime` does not wrap in `Timeline`. Address ranges do not wrap.
- Code outside the patch (`walk`, `bget`, `freerange`, `consoleintr`) appears by its contract. Constants
  of vendor headers (slot size, mask, header layout) are parameters, with mask = 2^k - 1 taken as a
  remainder and mask * slot size below 2^32.

## Findings

Where the code meets its promise only under a condition, the condition is proved exact:

- `mret` of Privileged Architecture v1.12 clears MPRV when it returns below M, which a delegated exception
  does not; `ReflectionIsDelegation` holds if and only if that does not happen. On such a core the mret that
  enters U or S has cleared MPRV already, so no run reaches the difference (`PortLooksDelegated`).
- `kfree` accepts a page that is on the free list already; the list then has a cycle, and otherwise it is in
  order (`FreeIsSafeIffNotFree`).
- `memset` loops for ever from n = 2^32 - 8 + (bytes to alignment) on, because `i + 8` wraps
  (`MemsetEndsExactlyBelowTheBound`).
- The range check of `blkdev_rw` wraps for block numbers from 2^31 - 1 on; block 2^31 - 1 passes it on every
  disk, and an accepted number from 2^31 on acts on the block 2^31 before it
  (`CheckIsExactUnlessItWraps`, `LastBlockPasses`, `Rw`). With no backing store it rejects nothing.
- A completion left over, or a request still in flight, at the end of `blkdev_init` is never made up for:
  the number outstanding is the same after every transfer (`Xfer`), and while it is not zero a call can
  return before its own request has started (`EarlyReturnIffOutstanding`).
- `NextValidImageCheck` does not end if the flash reaches past the start of the last slot the register can
  name and no slot is valid (`SearchEndsExactlyWhen`). On such a flash, with valid slots only below the
  starting one, it goes round the slot field, carries into the upper bits and succeeds on an earlier slot
  (`FoundSlot`).
- So a fallback from a valid slot can come back to that slot or an earlier one: always on silicon 1.0, and on
  newer silicon exactly if the flash is such and no later slot is valid
  (`FallbackGoesForwardExactlyWhen`, `OnlyImageIsFoundAgain`).

## Model

| member | source | states |
|---|---|---|
| `HartModel.FieldsRoundTrip` | xv6/0001-xv6-rocket-port.patch:258-275 | the field view of mstatus loses nothing: encoding and decoding a Status gives it back |
| `HartModel.RegisterRoundTrip` | xv6/0001-xv6-rocket-port.patch:258-275 | every one of the 2^64 values of mstatus is recovered from its fields, so theorems about Status are theorems about the register |
| `TimervecModel.RebuiltFields` | xv6/0001-xv6-rocket-port.patch:258-275 | the shift-and-mask sequence of `reflect`, on all 2^64 values, pushes the S-mode trap stack from the mode in MPP (SPP, SPIE, SIE), sets MPP to S and leaves every other bit alone |
| `TimervecModel.Core.TimerInit` | xv6/0001-xv6-rocket-port.patch:486-537 | timerinit arms the first compare value an interval after mtime and leaves the scratch area, mscratch, mtvec, MIE and MTIE as the handler needs them |
| `TimervecModel.Core.Timervec` | xv6/0001-xv6-rocket-port.patch:186-281 | the instruction sequence from mtvec to mret, either path, turns the hart into exactly Handled(hart): registers and mscratch restored, and the CSR effects of the path taken |
| `TimervecModel.Core.Serve` | xv6/0001-xv6-rocket-port.patch:194-279 | the handler up to mret: a0..a3 and mscratch come back, the timer branch changes only mtimecmp and SSIP, the other branch only the S trap registers, mepc and mstatus |
| `TimervecModel.Core.Enter` | xv6/0001-xv6-rocket-port.patch:194-203 | save and dispatch: the branch taken is the timer one exactly for an interrupt whose low eight cause bits are 7 |
| `TimervecModel.Core.TimerPath` | xv6/0001-xv6-rocket-port.patch:218-235 | the timer branch rearms from the current mtime plus the interval, pends SSIP and restores all registers |
| `TimervecModel.Core.ReflectPath` | xv6/0001-xv6-rocket-port.patch:251-279 | the reflecting branch copies mcause, mepc and mtval to S-mode, rebuilds mstatus and aims mepc at the stvec base |
| `TimervecModel.Core.RebuildStatus` | xv6/0001-xv6-rocket-port.patch:258-271 | the mstatus read-modify-write pushes the S-mode trap stack and sets MPP to S, for every register value |
| `Reflection.ReflectionIsDelegation` | xv6/0001-xv6-rocket-port.patch:236-281 | trap into M plus `reflect` plus mret equals hardware delegation on everything U/S code can observe, for every mstatus, cause and stvec, if and only if mret does not clear a set MPRV |
| `Reflection.TimerIsTransparent` | xv6/0001-xv6-rocket-port.patch:194-235 | a timer trap shows interrupted U/S code nothing but SSIP set and mtimecmp at mtime + interval |
| `Reflection.StepAlike` | xv6/0001-xv6-rocket-port.patch:165-281 | one event (code move, exception or timer trap) keeps two harts with different medeleg masks indistinguishable |
| `Reflection.RunsAlike` | xv6/0001-xv6-rocket-port.patch:165-281 | simulation over whole runs: whatever code makes each move, whatever the events and the two medeleg masks, the two harts stay indistinguishable and ready for the next trap |
| `Reflection.TimerTrapInRun` | xv6/0001-xv6-rocket-port.patch:194-235 | at any point of any run with any mask, a timer trap pends SSIP, stores mtime plus the interval to mtimecmp, and shows code nothing else |
| `Reflection.ExceptionInRun` | xv6/0001-xv6-rocket-port.patch:236-281 | at any point of any run with any mask, an exception puts code in S-mode at the base of stvec with its cause, pc and value in the S trap registers, SPP and SPIE from where it came, and nothing else changed; mcause keeps the cause exactly if its medeleg bit is clear |
| `Reflection.MoveInRun` | xv6/0001-xv6-rocket-port.patch:165-281 | a move that writes only what code may write has exactly the effect it wants |
| `Reflection.BaseOf` | xv6/0001-xv6-rocket-port.patch:273-275 | the base of stvec is the register without its two mode bits |
| `Reflection.StoredMask` | xv6/0001-xv6-rocket-port.patch:173-180 | 0xffff masked with the delegable set is 0xB109, which leaves illegal instruction out |
| `Reflection.MretMakesMprvSafe` | xv6/0001-xv6-rocket-port.patch:235 | the mret to a lower mode establishes what the simulation needs, whatever MPRV was |
| `Reflection.PortLooksDelegated` | xv6/0001-xv6-rocket-port.patch:165-281 | from the mret that ends start.c on, the port (medeleg stored as 0xB109, timervec behind mtvec) looks, after every run, like a hart that delegates every exception start.c asked for, and no run reaches a state in which mret would change MPRV |
| `Reflection.Boot` | xv6/0001-xv6-rocket-port.patch:455-537 | the end of start.c, with timerinit and mret, leaves a state from which the simulation starts, with the first tick armed |
| `Timeline.StepKeepsOrder` | xv6/0001-xv6-rocket-port.patch:205-223 | each tick, trap, load of mtime, store of mtimecmp and return keeps the log spaced by the interval |
| `Timeline.HandlerRearmsFromNow` | xv6/0001-xv6-rocket-port.patch:218-223 | the compare value the handler's instructions store is the one of this state machine, barring wrap-around |
| `Timeline.VisitIsLogged` | xv6/0001-xv6-rocket-port.patch:218-235 | a visit with any cycles between its steps is logged with mtime at entry, at the load and at mret, and arms the load plus the interval |
| `Timeline.FirstTrapIsDue` | xv6/0001-xv6-rocket-port.patch:508-509 | armed by timerinit, the first trap is due once the interval has passed and not before |
| `Timeline.TrapsKeepTheirDistance` | xv6/0001-xv6-rocket-port.patch:216-223 | in every run, the mtime values loaded by any two timer traps are at least an interval apart per trap between them |
| `Timeline.TrapsPerSpan` | xv6/0001-xv6-rocket-port.patch:216-223 | a span of T cycles holds at most T / interval + 1 timer traps |
| `Timeline.NoLivelock` | xv6/0001-xv6-rocket-port.patch:205-223 | if a visit costs at most H cycles, at least interval - H cycles of other code lie between consecutive traps, however long traps were blocked |
| `Timeline.InsideAndOutside` | xv6/0001-xv6-rocket-port.patch:205-223 | the cycles inside the handler and those counted outside it add up to the time between entries |
| `Timeline.UpstreamStorms` | xv6/0001-xv6-rocket-port.patch:207-214 | with upstream's relative rearm, after n blocked intervals the handler is entered n times with no cycle of other code in between |
| `Ticks.StepAccounts` | xv6/0001-xv6-rocket-port.patch:225-227 | every trap, interrupt entry and step of devintr keeps the accounting of pending ticks |
| `Ticks.UnservedMeans` | xv6/0001-xv6-rocket-port.patch:650-657 | a tick counts as unserved exactly if some timer trap of the run came after the last clockintr call |
| `Ticks.OneTick` | xv6/0001-xv6-rocket-port.patch:650-657 | one tick from the trap through devintr to clockintr, with SSIP clear and one call counted at the end |
| `Ticks.TicksAreNeverLost` | xv6/0001-xv6-rocket-port.patch:650-657 | in every interleaving, an unserved trap leaves SSIP set or devintr between clearing sip and calling clockintr; clockintr calls never outnumber traps |
| `Ticks.UnservedIsServed` | xv6/0001-xv6-rocket-port.patch:650-657 | from every reachable state with an unserved trap, clockintr is called within four supervisor steps however many timer traps come between them, and the supervisor always has a step to take until then |
| `HtifProtocol.PackDecodes` | xv6/htif.c:11-23 | a packed word decodes to its device, command and 48-bit payload, and from a nonzero device it is never 0 |
| `HtifProtocol.WriteWords` | xv6/htif.c:40-42 | a character goes out as 0x0101 << 48 with its low byte, device 1 and command 1; the read request is 0x0100 << 48, device 1 and command 0; neither is 0 |
| `HtifProtocol.ReplyCarriesChar` | xv6/htif.c:99-105 | the reply 0x100 | ch is read back as ch, and a word without bit 8 carries no character |
| `HtifSends.StoreFindsZero` | xv6/htif.c:54-57 | a send that saw tohost at zero still finds it zero when it stores, although complete nested sends may come between |
| `HtifSends.StepKeepsSends` | xv6/htif.c:51-61 | every step of target or host keeps the send invariant and the one-to-one matching of calls and stored words |
| `HtifSends.SendsDeliverExactlyOnce` | xv6/htif.c:51-61 | over all interleavings and nestings the host takes and acts on the stored words in store order, each once, none overwritten, and each call owns exactly one of them |
| `HtifSends.FinishedSendWasTaken` | xv6/htif.c:58-60 | a send that returned has its word in the sequence the host took, at the position it was stored at |
| `HtifReads.AtMostOneRead` | xv6/htif.c:46-49 | never more than one read is outstanding across tohost, the host and fromhost |
| `HtifReads.IntrKeepsDiscipline` | xv6/htif.c:94-124 | each step of uartintr keeps read_pending and the outstanding reads in the relation its program point demands, and it returns with one read outstanding unless the reply was invalid |
| `HtifReads.InputIsInOrder` | xv6/htif.c:94-124 | over all interleavings consoleintr receives a prefix of the host's characters in order, none lost or repeated; at most one reply is produced and not consumed |
| `HtifReads.TypingArrives` | xv6/htif.c:94-124 | of any text typed at the host consoleintr has received a prefix in every interleaving, all but at most one reply still held of what the host has answered |
| `HtifReads.RepliesNeverOverwrite` | xv6/htif.c:19-20 | whenever the host writes a reply fromhost reads as 0, so no reply is overwritten |
| `HtifRounds.AllTypedCanArrive` | xv6/htif.c:94-124 | any text can arrive in full: some interleaving of host and target delivers all of it and leaves a read outstanding |
| `HtifReads.UartintrEnds` | xv6/htif.c:116-124 | every uartintr that returned polled at most twice, delivered at most one character and left one read outstanding unless its last reply carried no character |
| `HtifReads.ExactlyOneReadOutstanding` | xv6/htif.c:116-124 | with replies that carry 0x100, exactly one read is outstanding whenever uartintr returns |
| `HtifReads.UartintrProgresses` | xv6/htif.c:116-124 | in every interleaving each step of uartintr strictly nears its return, except while htif_send waits for the host |
| `HtifDriver.Console.HtifSend` | xv6/htif.c:51-61 | htif_send terminates with the word stored once, after all stored before the call, and everything stored taken, with other sends nested between its steps to any depth; with none nested nothing else is stored |
| `HtifDriver.Console.AwaitZero` | xv6/htif.c:54-60 | the spin loop ends with tohost zero under a host that attends to tohost eventually and finitely many interrupting sends |
| `HtifDriver.Console.UartputcSync` | xv6/htif.c:70-76 | the write of the low byte is stored and taken, whatever other sends nest in the call; input side and suspended activities unchanged |
| `HtifDriver.Console.UartWrite` | xv6/htif.c:81-88 | when uartwrite returns, the bytes of the buffer are an in-order subsequence of the words taken, whatever other sends nest; with interrupts off, as under its lock, they are exactly the words stored since |
| `HtifDriver.Console.HtifGetc` | xv6/htif.c:94-112 | a reply waiting in fromhost is the result: its low byte if bit 8 is set, else -1, and it is removed; with nothing there, -1 after sending a read if none was outstanding |
| `HtifDriver.Console.UartIntr` | xv6/htif.c:116-124 | uartintr terminates with at most two polls and one character; if bit 8 of fromhost was set at the start, its low byte has been delivered to consoleintr |
| `BlockDevice.StepConserves` | xv6/blkdev.c:9-20 | a device step neither creates nor loses a request |
| `BlockDevice.PopRemovesOne` | xv6/blkdev.c:17 | popping a tag removes that tag, once, and nothing else |
| `BlockDevice.StepWorks` | xv6/blkdev.c:9-20 | every device step strictly lowers the remaining work, so requests left alone finish |
| `BlockDevice.SoloStep` | xv6/blkdev.c:9-32 | whatever a device with a single request does next is the rest of that request: memory and disk are a chunk prefix of the transfer |
| `BlockDevice.QuietRun` | xv6/blkdev.c:22-32 | under every schedule a request issued to a quiet device is all that happens, and when its tag is queued the transfer is whole |
| `BlockDevice.LoneRun` | xv6/blkdev.c:22-32 | under every schedule the only tag ever queued is that of the one request outstanding, wherever it points to |
| `BlockDevice.EarlyReturnIffOutstanding` | xv6/blkdev.c:85-95 | the first completion can be there before the driver's own request has started if and only if something was in flight or queued when it was issued |
| `BlockDevice.DrainCanLeaveIffInFlight` | xv6/blkdev.c:85-98 | a drain that found the queue empty can have left something outstanding if and only if something was in flight when it began |
| `BlockArray.OnlyPutsChange` | xv6/blkdev.c:130-149 | over any run of block requests a block changes only by a write to its own number |
| `BlockArray.ReadsBackTheLastPut` | xv6/blkdev.c:130-149 | a block read brings the bytes of the last write to that block, whatever other requests came between |
| `BlockArray.PutOnDisk` | xv6/blkdev.c:47-48 | writing the 1024 bytes of sectors 2n and 2n+1 changes block n and no other block |
| `BlockArray.CheckIsExactUnlessItWraps` | xv6/blkdev.c:137-140 | the uint32 range check panics exactly on out-of-range blocks if and only if there is a backing store and the arithmetic does not wrap to an end within it; only block numbers from 2^31 - 1 wrap |
| `BlockArray.LastBlockPasses` | xv6/blkdev.c:137-140 | block 2^31 - 1 passes the check of every disk |
| `BlockArray.SectorsAreDisjoint` | xv6/blkdev.c:137 | two blocks touch overlapping sectors exactly if their numbers agree modulo 2^31 |
| `BlockDriver.Driver.DeviceStep` | xv6/blkdev.c:9-32 | a step of any request in flight keeps the number outstanding and lowers the work |
| `BlockDriver.Driver.DeviceTurns` | xv6/blkdev.c:9-32 | any number of device steps between two register accesses keeps the number outstanding; while the driver polls it is progress |
| `BlockDriver.Driver.Allocate` | xv6/blkdev.c:119-120 | reading `allocate` issues the request in the registers with nothing moved yet; with a 64-byte aligned buffer all of it arrives, of a misaligned read a proper prefix |
| `BlockDriver.Driver.Complete` | xv6/blkdev.c:122-125 | reading `complete` pops one of the queued tags and changes nothing else |
| `BlockDriver.Driver.Init` | xv6/blkdev.c:71-100 | the drain loop ends after at most the initial number outstanding, is a drain in the sense of DrainCanLeaveIffInFlight, leaves only requests in flight, and leaves nothing when none was in flight |
| `BlockDriver.TrackerComesIffLive` | xv6/blkdev.c:106-108 | the wait for a tracker can end if and only if there are trackers and, where finished requests keep theirs until popped, fewer are outstanding than trackers; otherwise no schedule ends it |
| `BlockDriver.Driver.AwaitTracker` | xv6/blkdev.c:106-108 | where it can end, the wait for a tracker ends under every schedule |
| `BlockDriver.Driver.AwaitCompletion` | xv6/blkdev.c:122-124 | the wait for a completion ends |
| `BlockDriver.Driver.Xfer` | xv6/blkdev.c:102-128 | blkdev_xfer ends with as many requests outstanding as before; if none were, the popped tag is its own wherever the request points to, and a request within memory and disk has changed them by exactly its transfer |
| `BlockDriver.Driver.Rw` | xv6/blkdev.c:130-149 | panics exactly when the check rejects, with nothing touched; otherwise one atomic operation on the block the number acts on, which is the number modulo 2^31, or, with a misaligned buffer, the first chunks of the block moved, for a read not all of them |
| `BlockDriver.Driver.Serve` | xv6/blkdev.c:130-149 | refinement over whole runs: any sequence of block requests and kernel stores ends, memory and disk as the array of blocks would have them, panicking exactly where it does |
| `BlockDriver.Driver.Boot` | xv6/blkdev.c:71-149 | blkdev_init followed by any requests refines the array of blocks, whatever completions were queued before, if nothing was in flight |
| `BlockDriver.Driver.WriteAndReadBack` | xv6/blkdev.c:130-149 | a block written from one aligned buffer is on the disk at byte 1024 * n and is read back into another; it panics exactly from nsectors / 2 on |
| `BlockDriver.TransferMovesChunks` | xv6/blkdev.c:130-149 | the completed transfer has moved the first chunks of the block, all sixteen if the buffer is aligned |
| `BlockDriver.AllChunksAreApply` | xv6/blkdev.c:130-149 | sixteen chunks moved are the abstract block operation |
| `BufferLayout.UpstreamLayout` | xv6/0001-xv6-rocket-port.patch:60-63 | upstream's layout: data at offset 88, stride 1112 |
| `BufferLayout.PortLayout` | xv6/0001-xv6-rocket-port.patch:64-68 | with the attribute: data at offset 128, stride 1152 |
| `BufferLayout.EveryBufferIsAligned` | xv6/0001-xv6-rocket-port.patch:64-68 | with the 64-byte aligned data field every element of an array of any length is a legal DMA target, whatever precedes the field |
| `BufferLayout.UpstreamAlignsOneClass` | xv6/0001-xv6-rocket-port.patch:60-63 | with the upstream layout the aligned buffers of an 8-byte aligned array are exactly one residue class of indices modulo 8 |
| `BufferLayout.OneBufferInEightIsAligned` | xv6/0001-xv6-rocket-port.patch:60-63 | of any eight consecutive upstream buffers exactly one is aligned |
| `BufferLayout.ChunksCoverOnce` | xv6/0001-xv6-rocket-port.patch:53-58 | the 64-byte chunks of a block cover each of its 1024 bytes exactly once and nothing else, and are aligned exactly if the destination is |
| `WordCopy.WordBytes` | xv6/0001-xv6-rocket-port.patch:605 | a loaded double word is made of the eight bytes it was loaded from |
| `WordCopy.DoubledBytes` | xv6/0001-xv6-rocket-port.patch:564-567 | the shift-doubled word is eight copies of the byte |
| `WordCopy.LowByteIs` | xv6/0001-xv6-rocket-port.patch:564 | the byte stored is c modulo 256, also for negative c |
| `WordCopy.Memset` | xv6/0001-xv6-rocket-port.patch:540-575 | memset sets exactly n bytes to the low byte of c and nothing else, for every address and int c and every n the loop ends for; word stores are 8-byte aligned |
| `WordCopy.SetWords` | xv6/0001-xv6-rocket-port.patch:568-569 | the double-word loop fills without wrapping its uint index and ends |
| `WordCopy.NoWrap` | xv6/0001-xv6-rocket-port.patch:568 | below the bound i + 8 never wraps when the guard looks at it |
| `WordCopy.MemsetEndsExactlyBelowTheBound` | xv6/0001-xv6-rocket-port.patch:568-569 | for n of at least 16 the double-word loop ends if and only if n < 2^32 - 8 + (bytes to alignment) |
| `WordCopy.Memmove` | xv6/0001-xv6-rocket-port.patch:577-612 | the destination ends up with the source bytes as they were before the call and no other byte changes, for every overlap and alignment; double-word accesses are aligned |
| `WordCopy.MovedWord` | xv6/0001-xv6-rocket-port.patch:604-609 | forward double-word copying over an overlap reads every byte before it is overwritten |
| `WordCopy.MoveBackwards` | xv6/0001-xv6-rocket-port.patch:580-588 | the backward byte loop moves an upward overlap correctly |
| `PageAllocator.AllocKeeps` | xv6/0001-xv6-rocket-port.patch:138-152 | kalloc hands out the head of the list, a page nobody holds, and keeps the list a duplicate-free chain that with the held pages partitions the pool; on an empty list it returns null |
| `PageAllocator.FreeKeeps` | xv6/0001-xv6-rocket-port.patch:124-137 | kfree of a held page puts it at the head and keeps the partition |
| `PageAllocator.FreeIsSafeIffNotFree` | xv6/0001-xv6-rocket-port.patch:124-137 | kfree of any page of the pool leaves a well-formed list if and only if the page was not on the list already; a second free closes a cycle |
| `PageAllocator.AllocUndoesFree` | xv6/0001-xv6-rocket-port.patch:124-152 | kalloc after kfree returns that page and the list as it was, with or without fills |
| `PageAllocator.FreePagesCounted` | xv6/0001-xv6-rocket-port.patch:114-152 | no page is lost: free pages and held pages add up to the pool |
| `PageAllocator.PagesLieApart` | xv6/0001-xv6-rocket-port.patch:125 | pages of the pool lie within its bounds and their 512 double words do not overlap |
| `PageAllocator.WhatIsFilled` | xv6/0001-xv6-rocket-port.patch:127-152 | upstream leaves fives in a page handed out and ones in a freed one, KFREE_POISON the ones, the port neither |
| `PageAllocator.StepAlike` | xv6/0001-xv6-rocket-port.patch:124-152 | one legal client operation looks the same under any two choices of fills and keeps the two runs alike |
| `PageAllocator.FillsAreUnobservable` | xv6/0001-xv6-rocket-port.patch:143-152 | a client that writes words before reading them sees the same pointers, panics and values with any combination of fills, over every run, whatever it decides from what it has seen |
| `PageAllocator.RunsKeepThePartition` | xv6/0001-xv6-rocket-port.patch:114-152 | at every point of such a run the free list is a duplicate-free chain through exactly the pages not held |
| `PageAllocator.HonestClient` | xv6/0001-xv6-rocket-port.patch:143-149 | taking a page, writing a word, reading it and giving the page back is legal and shows the page, the value and no panic under any fills |
| `PageAllocator.RefusalIsSeen` | xv6/0001-xv6-rocket-port.patch:124-126 | passing kfree a misaligned or out-of-range address ends in a panic |
| `PageAllocator.UnwrittenReadTells` | xv6/0001-xv6-rocket-port.patch:143-149 | a client that reads a word unwritten sees the difference if and only if the page did not happen to hold the fill |
| `PageAllocator.Kmem.Kfree` | xv6/0001-xv6-rocket-port.patch:124-137 | panics exactly on misaligned or out-of-range addresses, with nothing changed; any other page is linked in front, and the list is well-formed afterwards exactly if it was handed out |
| `PageAllocator.Kmem.Kalloc` | xv6/0001-xv6-rocket-port.patch:138-152 | null exactly if every page is held, otherwise a page of the pool that nobody holds |
| `PageAllocator.Kmem.FreeRange` | xv6/0001-xv6-rocket-port.patch:119 | freerange by its contract: every whole page of the range is freed |
| `PageAllocator.Kmem.Kinit` | xv6/0001-xv6-rocket-port.patch:114-121 | afterwards the list holds the whole pool and only list links were written, even with KFREE_POISON |
| `PageTable.PresetBits` | xv6/0001-xv6-rocket-port.patch:418-430 | the entry as a number: frame number times 1024 plus the permissions plus 0xC1 |
| `PageTable.RocketNeedsAccessedAndDirty` | xv6/0001-xv6-rocket-port.patch:421-428 | for any entry Rocket grants what an A/D-updating walker grants if bit 6 is set and, for a store, bit 7 |
| `PageTable.PresetEqualsHardwareUpdate` | xv6/0001-xv6-rocket-port.patch:421-428 | for every address and permission set Rocket grants through the preset entry exactly what an A/D-updating walker grants without A and D: loads with R, stores with R and W, fetches with X unless W stands without R |
| `PageTable.PresetDecodes` | xv6/0001-xv6-rocket-port.patch:430-431 | PTE2PA of the entry is the page-aligned address it was made for |
| `PageTable.FrameLies` | xv6/0001-xv6-rocket-port.patch:686-695 | frame k lies 4096 * k bytes on while that does not wrap |
| `PageTable.EntriesDecode` | xv6/0001-xv6-rocket-port.patch:686-695 | the k-th entry of a range decodes to pa + 4096 * k and holds its frame number, the permissions and 0xC1 |
| `PageTable.MappedPages` | xv6/0001-xv6-rocket-port.patch:684-695 | after mappages, page va + 4096 * k holds the entry of frame pa + 4096 * k |
| `PageTable.OthersKept` | xv6/0001-xv6-rocket-port.patch:684-695 | no entry below or above the range has changed |
| `PageTable.PageMap.MapPage` | xv6/0001-xv6-rocket-port.patch:684-692 | one round: the page gets its entry, all other entries stay; it panics exactly if the page was valid |
| `PageTable.PageMap.MapPages` | xv6/0001-xv6-rocket-port.patch:684-695 | mappages maps every page of the range to its consecutive frame, leaves other entries alone, and panics at the first page valid before the call unless memory runs out first |
| `BootSearch.ChangeNoticedUnlessDriftIsZero` | fsbl/main.c:1349-1381 | any change of an accepted header is accepted if and only if the word differences sum to 0 modulo 2^32 |
| `BootSearch.SingleChangeIsNoticed` | fsbl/main.c:1349-1381 | changing any one word, or the stored sum, of an accepted header makes it rejected |
| `BootSearch.ValidSlotReads` | fsbl/main.c:1349-1413 | a slot is valid exactly if the word at the ID offset is the ID and the word at the checksum offset is all ones minus the sum modulo 2^32 of the words four bytes apart |
| `BootSearch.MasksAreSane` | fsbl/main.c:1460-1464 | every mask of the form 2^k - 1 is covered |
| `BootSearch.XorWithOnes` | fsbl/main.c:1366-1369 | exclusive or with all ones is subtraction from all ones, bit by bit |
| `BootSearch.Loader.HeaderChecksum` | fsbl/main.c:1349-1381 | the loop accepts exactly when the stored word is the complement of the sum of the words modulo 2^32 |
| `BootSearch.Loader.ImageCheckID` | fsbl/main.c:1397-1413 | accepts exactly the identification word |
| `BootSearch.FirstFromFinds` | fsbl/main.c:1470-1491 | the specification of the search: the slot found is valid, in the flash and the first such; nothing is found only if there is none |
| `BootSearch.NoCarry` | fsbl/main.c:1470-1503 | while the slot field has not reached its last value increments stay in it |
| `BootSearch.SearchEndsExactlyWhen` | fsbl/main.c:1470-1491 | the search loop ends if and only if the flash ends below the last slot or some slot is valid |
| `BootSearch.SearchFinds` | fsbl/main.c:1457-1505 | for every layout the loop stops at the specified register value: the first valid slot from the start, else, if the flash has every slot, the first valid slot of the next round with a carry, and outside the flash exactly when nothing is found |
| `BootSearch.FoundSlot` | fsbl/main.c:1470-1503 | the slot found is not before the starting slot, is the first valid one and leaves the upper bits alone, if and only if the flash ends below the last slot or some slot from the start on is valid; otherwise it is an earlier slot with one carried into the upper bits |
| `BootSearch.ResultIsJustified` | fsbl/main.c:1470-1503 | the image found has the right ID and checksum and every image passed over has one of them wrong; if none is found that holds of every slot from the start to the end of the flash |
| `BootSearch.Loader.Search` | fsbl/main.c:1470-1491 | the loop on the local register copy stops at the first probe that is valid or beyond the flash |
| `BootSearch.Loader.NextValidImageCheck` | fsbl/main.c:1429-1505 | wherever the loop ends it succeeds exactly if the specified search finds a slot, whose ID and checksum are right where those passed over are not, writes that result and writes nothing on failure; the slot is at or after the start if and only if the search stays in its round |
| `BootSearch.Loader.UpdateMultiBootRegister` | fsbl/main.c:1047-1070 | steps the register by one except on silicon 1.0 |
| `BootSearch.Loader.FsblFallback` | fsbl/main.c:612-716 | which of hook, load and reset a fallback ends in, and the register it leaves, wherever the search ends |
| `BootSearch.FallbackAdvances` | fsbl/main.c:667-703 | beyond silicon 1.0 a fallback whose search stays in its round goes to a strictly later slot and skips no valid one |
| `BootSearch.FallbackGoesForwardExactlyWhen` | fsbl/main.c:667-703 | from a valid slot a fallback finds a later slot or none if and only if the silicon is not 1.0 and either the flash ends below the last slot or a later slot is valid |
| `BootSearch.OnlyImageIsFoundAgain` | fsbl/main.c:667-703 | a flash with every slot and one image, on which a fallback finds the same image again on newer silicon |
| `BootSearch.ChainClimbs` | fsbl/main.c:667-703 | over a chain of fallbacks that stay in the round, as all do on a flash that ends below the last slot, the slots found strictly increase and none is tried twice |
| `BootSearch.ChainIsShort` | fsbl/main.c:667-703 | so at most as many such fallbacks find an image as slots begin in the flash |

## Left out

- Memset: stated for n below the bound at which its loop stops ending; at and above it there is no result to state.
- BlockDriver.Driver.Rw: the array-of-blocks clause leaves out the two block numbers 2^31 - 1 and 2^32 - 1, whose sectors no disk holds in full, and asks for a backing store and nothing outstanding; the lemmas on the range check and on early returns say what fails without them.
- BlockDriver.Driver.Serve: as Rw, and aligned buffers; a misaligned transfer is described by Rw.
- BootSearch.Loader.FsblFallback: asks for a flash on which the search ends, which SearchEndsExactlyWhen characterises. The hook is taken not to return.
- HtifDriver.Console.Interrupt: the activities nested in a send of the driver are sends; a `uartintr` nested in one is covered by the theorems of HtifSends and HtifReads only.
- PageTable.PageMap.Walk: the three-level walk is a contract; slots of one page table are a map from page address to entry.
- Chunks of a request that lie outside memory or disk: the device is taken to move nothing, since the source says nothing about them.
- How much of a misaligned transfer is lost: any number of trailing chunks, for a read at least one, chosen anew by the device for each request.
- The width of the tag, `nallocate` and `ncomplete` registers (8 bits): counts are unbounded.
- Machine interrupts other than the timer: timerinit enables MTIE only, so they do not occur; the handler would reflect them like an exception. Of the mie register only MTIE is modelled.
- Traps with the reserved MPP encoding or from M-mode: the theorems are about code below M.
- Several harts, fences, memory ordering and locks.
- 64-bit wrap-around of mtime, and the cost in cycles of the handler (a parameter).
- The byte layout of words in PageAllocator: clients access pages by 64-bit words.
- The intermediate states of the xv6 buffer cache, file system and trap code that the patch does not touch.
- LoadBootImage, the AES and fabric code of FsblFallback: their outcomes are parameters.
- printk and OutputStatus text, watchdog handling, DDR checks and exception stubs of the boot loader.
- Board files, build scripts, Tcl, Verilog wiring, host tools and riscv-test.
