# A model of the kernel's memory, message and scheduling core

Dafny proofs about the parts of the x86_64 microkernel that everything else stands on:

- **Page tables** (`Pte`, `PageTree`, `TreeUpdates`, `MapTheory`, `PageSizes`, `Frames`, `Mapper`). Entry words bit by bit, the
  four-level tree as the processor walks it, and the mapper as a class that writes those words in frames taken from a
  pool. `Translate` is the walk with rights combined at every level; each operation is specified by what it does to
  `Translate` of every address.
- **Address spaces** (`SpaceTheory`, `Teardown`, `Loading`, `AddressSpace`, `UserSpace`, `Isolation`, `Elf`,
  `ElfFormat`). A space is
  compared with a finite map from pages to frames and rights; loading, checking a range, teardown and whole lives are
  proved against it. `Isolation` puts all spaces and the kernel's tree side by side and follows runs of operations.
- **Objects, capabilities, messages, tasks** (`Objects`, `Caps`, `Endpoints`, `Scheduling`, `Kernel`, `Waiting`,
  `KernelInvariant`, `KernelTheorems`, `SystemCalls`, `Switching`, `Machine`). One core's kernel is a state machine whose steps are system calls,
  switches and resumptions. One invariant is kept by every step; the theorems hold in every reachable state or over
  every run. `Machine` is the same kernel with its arrays, queues and counters updated in place, each method proved to
  be its step of the machine.
- **The memory map and the lock** (`MemoryMap`, `MemMap`, `FreeRuns`, `FreeMemory`, `FirmwareMemory`, `TicketLock`). Free memory as
  interval subtraction in a buffer of fixed size, conversion of the firmware's descriptors, and the ticket lock as the
  interleaved atomic steps of any number of cores.

Words of memory are naturals below 2^64 with explicit bit tests; 32-bit counters that wrap are written with their
modulus. The table structure (`tags`), the page map (`flat`), the frames a space ever took (`taken`) and the logs of
messages are ghost state.

## Findings

Where the code does not do what its comments or callers expect of it. Each has the exact condition, and an input where
the condition does not already name one.

- **A page claimed twice loses a frame.** Building a space and destroying it gives the pool back all it took exactly if
  no two program headers claim one page and none claims a page the kernel places itself: `UserSpaces.BuildThenDestroy`.
  `UserSpaces.TwiceLosesAFrame` is a 176-byte image nothing objects to whose life costs the pool a frame.
- **A failed construction keeps what it took.** After `build_space` fails, the pool is as it was exactly if the image was
  no image or there was no frame at all: `UserSpaces.BuildSpace`. With one frame left, `UserSpaces.LastFrameIsLost`
  fails and the frame is gone.
- **A received message can be lost.** A message a receive takes fails to reach its task exactly when it carries a
  capability and the heap cannot grow the task's table, which never has a gap to use instead. It has then left the
  endpoint: `KernelTheorems.TakenIsLostIff`, and for a receiver that was parked, `KernelTheorems.DeliveredIsLostIff`.
  `KernelTheorems.LastCapabilityIsLost` is a run of five steps from boot that loses one.
- **A revoked reference can come back.** Generations are 32 bits and wrap. A reference once revoked resolves again
  exactly when its slot is in use after a whole number of turns: `Objects.RevocationLasts`, for every capability table
  `KernelTheorems.RevokedForEveryone`, with the run that does it in `Objects.RevocationWraps`. `create` repeats itself
  under the same condition: `Objects.CreateRepeatsIff`.
- **`free_runs` can count entries that are not there.** The counted entries are free memory, whatever is excluded,
  exactly when the usable regions fit the buffer or it has no entries: `FreeMemory.CountIsHonestIff`. With more regions
  and all of memory excluded, a stale entry is counted: `FreeMemory.TooManyRegions`. `largest_free_run` then answers with
  it: `FreeMemory.LargestIsFreeIff`.
- **`TooManyRegions` can ask for too much.** The number is what the map needs exactly when every descriptor after the
  one that did not fit is a range of its own: `MemMap.ShortfallIsExactIff`; two adjacent pages and an empty buffer give
  2 where 1 is enough: `MemMap.ShortfallCanOverstate`.
- **Merging can drop bytes.** Converting the map keeps every address under its kind, but the bytes add up exactly when no
  merged length saturates: `MemMap.ConvertPreserves`. The two halves of the address space come out a byte short:
  `MemMap.TopByteIsDropped`.
- **`pick_next` can answer the slot it started from**, exactly when that slot is ready and no other is:
  `Scheduling.PickNextIsNearest`. No caller meets the case: `KernelInvariant.StepKeeps` and `Scheduling.NeverItself`.
- **`install` on a table without its null handle** hands out a handle that names nothing:
  `Caps.InstalledHandleResolvesIff`. Every live task's table has one: `KernelTheorems.AuthorityConfined`.
- **`DIED_BLOCKED` is always zero on one core.** A parked task never runs its own exit, so `forget_task` never finds
  anything: `KernelTheorems.MessagesConserved`, `KernelInvariant.ExitFindsNothing`.
- **The ticket lock excludes exactly up to 2^32 cores**: `TicketLock.ExclusionIff`, with one more in `TicketLock.OneTooMany`.

## Model

| member | source | states |
|---|---|---|
| Entries.DecodeLeaf | crates/paging/src/lib.rs:99-112 | the word written for a leaf decodes to exactly the address, rights, cache type and size asked for |
| Entries.LeafAddressIff | crates/paging/src/lib.rs:428-432 | the word names the address asked for exactly when the address lies below 2^52 |
| Entries.DecodeIs | crates/paging/src/lib.rs:39-55 | which bits of a word, by their place values, are read as present, writable, ring 3's, cache type, size, no-execute and address |
| Entries.LeafWordIs | crates/paging/src/lib.rs:428-432 | the word of a leaf is the address plus 1, 2, 4, 24, 128 and 2^63 for exactly what is asked |
| Entries.WidenWordIs | crates/paging/src/lib.rs:481-488 | widening adds bits 0 and 1, bit 2 for ring 3, where they are missing, and changes no other bit |
| PageTree.IndicesAre | crates/paging/src/lib.rs:505-507 | the four indices are bits 12 to 20, 21 to 29, 30 to 38 and 39 to 47 |
| PageTree.RightsAreTheLeafs | crates/paging/src/lib.rs:357-380 | on a tree this crate builds, combining rights along the walk gives the leaf's own: no intermediate entry strips any |
| PageTree.WriteElsewhere | crates/paging/src/lib.rs:466-470 | storing one entry moves no walk for an address that slot does not cover |
| Mapping.Mapper.NextTable | crates/paging/src/lib.rs:441-457 | one step down finds, widens or hangs the next table so that no address resolves differently; it fails only on a large page in the way or an empty pool, having changed nothing; for want of a frame only where the walk ended at nothing; a step under a root slot in use, and open to ring 3 if asked for, leaves the root's words alone |
| Mapping.Mapper.MapLeaf | crates/paging/src/lib.rs:413-433 | on success the whole aligned block of the page ends at the new leaf and every other walk is unmoved; on failure no walk is moved |
| Mapping.Mapper.MapAs | crates/paging/src/lib.rs:319-350 | a prefix of the range, all of it on success, resolves to the consecutive physical addresses with exactly the requested effective rights and cache type; every other address resolves as before; the error is Misaligned exactly for a misaligned request, a collision is with a large page that was there before, OutOfFrames means an empty pool at an address that resolved to nothing; each address resolves with the size of the largest page, of 1 GiB only with the processor's leave, of 2 MiB or of 4 KiB, whose aligned block around it lies in the request at the same offset on both sides |
| Mapping.Mapper.Resolve | crates/paging/src/lib.rs:357-380 | the loop answers the recursive walk: the page's address plus the offset, with the rights of all levels combined |
| Mapping.Mapper.Unmap | crates/paging/src/lib.rs:391-404 | the answer is what the address resolved to; exactly the addresses of that page stop resolving, the rest resolve as before |
| MapTheory.UnmapUndoesMap | crates/paging/src/lib.rs:391-404 | mapping a page where nothing resolved and unmapping it gives every address its old translation back |
| MapTheory.TranslateIgnoresHighBits | crates/paging/src/lib.rs:505-507 | bits 48 and up of an address make no difference to what it resolves to |
| AddressSpaces.NewSpace | crates/kernel/src/addrspace.rs:102-120 | a fresh root whose upper half is word for word the kernel's and whose lower half maps nothing, taken from the pool; no other frame is touched |
| AddressSpaces.AddressSpace.Map | crates/kernel/src/addrspace.rs:249-258 | the tables resolve the old pages and this one and nothing else; a frame the page had before is out of reach; refused exactly without the user right; otherwise fails only on an empty pool and an unmapped page, with no page changed |
| AddressSpaces.AddressSpace.LoadSegment | crates/kernel/src/addrspace.rs:159-188 | each page of the segment gets a free frame with its part of the file and zeros behind, the segment's rights plus user, and nothing else changes; the frames lost are those the space had on these pages |
| AddressSpaces.AddressSpace.Load | crates/kernel/src/addrspace.rs:150-196 | succeeds only on an image without fault and fails with its first fault or on an empty pool; each page holds what the last header to claim it puts there; a frame is lost exactly if a page was claimed twice; no other space's table or page is touched, finished or not |
| Loading.ImageByte | crates/kernel/src/addrspace.rs:164-188 | through the tables, ring 3 reads at vaddr + k byte k of the file, or zero to the end of the last page, from a frame of the space's own, with exactly the segment's rights and never writable and executable, on every page no later header claims; and these rights are bits 1 and 0 of the flags in the file |
| Loading.FirstFaultNames | crates/kernel/src/addrspace.rs:150-196 | the loader objects exactly to a header that is bad, writable and executable, or outside the user half, and to such an entry point; the first one is reported, by its own error |
| UserSpaces.WholeImage | crates/kernel/src/usermode.rs:219-227 | in a finished space of an image that claims no page twice, every byte of every segment is there |
| UserSpaces.ImagePasses | crates/kernel/src/addrspace.rs:281-305 | every byte of every segment passes a range check for reading, and for writing exactly where the segment is writable |
| UserSpaces.FixedPagesAre | crates/kernel/src/addrspace.rs:60-73 | through the tables: zeros at 0x7FFF_F000, writable and not executable; the id at 0x4_0000_0000, likewise; the clock's frame at 0x4_0001_0000, neither |
| AddressSpaces.AddressSpace.MapStack | crates/kernel/src/addrspace.rs:206-213 | the stack page is a free frame of zeros, writable and not executable, and takes the place of what was there |
| AddressSpaces.AddressSpace.SeedId | crates/kernel/src/addrspace.rs:223-232 | the id page holds the id and zeros, in a free frame |
| AddressSpaces.AddressSpace.MapClock | crates/kernel/src/addrspace.rs:243-246 | the clock page is the given frame, read-only, and that frame is not among those the space owns, whether or not it borrowed one before; it fails only on an empty pool with no clock page mapped, and loses a frame only if one of the space's own was there |
| AddressSpaces.AddressSpace.RangeOk | crates/kernel/src/addrspace.rs:281-305 | true exactly if every byte of the range is below 0x8000_0000_0000 and resolves, with the user right, and with the write right if asked; no page outside the range is looked at |
| AddressSpaces.AddressSpace.Destroy | crates/kernel/src/addrspace.rs:319-330 | exactly the frames the space owns go back to the pool, each once, the answer is how many, and no other frame changes |
| Teardown.FreeLevel | crates/kernel/src/addrspace.rs:339-373 | exactly the frames under the table go back, but for the borrowed one and the kernel half, and the count is how many they are |
| AddressSpaces.BorrowedStays | crates/kernel/src/addrspace.rs:339-373 | the borrowed frame is no owned one, and giving the space back leaves it as it was |
| UserSpaces.BuildSpace | crates/kernel/src/usermode.rs:219-227 | on success a space complete page by page, the clock's the only page not its own, having taken exactly what the pool lost; on failure nothing in use was touched, and the pool is as before exactly if the image did not parse or the pool was empty |
| UserSpaces.BuildThenDestroy | crates/kernel/src/addrspace.rs:307-330 | after building and destroying, the pool is short of exactly the frames the space lost; it is whole if and only if no page is claimed twice and no fixed page is claimed; every frame in use before holds what it held |
| UserSpaces.LastFrameIsLost | crates/kernel/src/usermode.rs:219-227 | with one frame in the pool the construction fails and the frame is gone |
| UserSpaces.TwiceLosesAFrame | crates/kernel/src/addrspace.rs:150-196 | a concrete image that parses, has no fault, and costs the pool a frame |
| Elf64.ValidatedHeadersAreReadable | crates/elf64/src/lib.rs:304-355 | no program header of an image that parsed is too short to read |
| ElfFormat.HeaderRoundTrip | crates/elf64/src/lib.rs:304-355 | a program header written at its offsets, flags 1 execute, 2 write and 4 read, is read back as that segment, or its first defect is named |
| ElfFormat.EveryHeader | crates/elf64/src/lib.rs:304-355 | every 56 bytes are such a header |
| ElfFormat.NthRoundTrip | crates/elf64/src/lib.rs:308-310 | the headers stand phentsize bytes apart from phoff on |
| ElfFormat.ParseRoundTrip | crates/elf64/src/lib.rs:190-234 | a file header written at its offsets gives back entry, phoff, phentsize and phnum, or its first defect is named |
| ElfFormat.EveryFile | crates/elf64/src/lib.rs:190-234 | every 64 bytes start such a file, and fewer are refused for that |
| Elf64.Segments.Next | crates/elf64/src/lib.rs:304-355 | the answer is the next header that is not skipped, as a segment or as what is wrong with it, and none only at the end of the table |
| Isolation.RunSparesOthers | crates/kernel/src/addrspace.rs:75-120 | over any run of operations on other spaces and on the kernel's tree, finished, failed or abandoned, and of stores by programs in other spaces, a space resolves every user address alike and reads the same byte there, but for what the kernel publishes on the page it borrows |
| Isolation.WritableIsPrivate | crates/kernel/src/addrspace.rs:150-258 | in every state of a run, a frame ring 3 may write in a space is mapped at no other page of any space and is no page table |
| Isolation.StoreIsStep | crates/kernel/src/addrspace.rs:150-258 | a store the rights allow is read back at its address and changes what no other address of any space reads |
| Isolation.PublishIsStep | crates/kernel/src/usermode.rs:149-158 | the kernel writing a frame that no space took keeps all spaces in order |
| Isolation.RunKeepsKernelClosed | crates/kernel/src/addrspace.rs:381-403 | if no kernel slot is open to ring 3 when a run begins, then at every moment, in every space there then is, ring 3 has no right to any kernel address, and the address resolves as in the kernel's tree |
| Isolation.KernelHalfAgrees | crates/kernel/src/addrspace.rs:95-120 | in every space every kernel-half address resolves as it does in the kernel's tree |
| Isolation.StepKeepsKernelTree | crates/kernel/src/addrspace.rs:307-330 | no operation on a space moves any translation of the kernel's tree |
| Isolation.UserReachableKernelSlots | crates/kernel/src/addrspace.rs:392-403 | the count is the number of slots 256 to 511 whose words have both bit 0 and bit 2 set |
| Isolation.ClosedKernelHalf | crates/kernel/src/addrspace.rs:381-403 | when that number is zero, no kernel-half address resolves with the user right |
| Isolation.NewSpaceStep | crates/kernel/src/addrspace.rs:102-120 | a new space keeps all spaces in order, and a failed one changes nothing |
| Isolation.MapStep | crates/kernel/src/addrspace.rs:249-258 | mapping one page, done or refused, is a change to its own space and keeps all spaces in order |
| Isolation.LoadStep | crates/kernel/src/addrspace.rs:150-196 | loading, finished or stopped anywhere, is a change to its own space and keeps all spaces in order |
| Isolation.KernelMapStep | crates/paging/src/lib.rs:319-350 | mapping in the kernel's tree under root slots in use leaves the root's words; a finished mapping in the kernel half is seen by a space that was there before exactly when its root slots were in use, and open to ring 3 if it is |
| Objects.ResolvesIff | crates/kernel/src/obj.rs:113-121 | a reference handed out resolves exactly while something lives in its slot and the slot's revocations since are whole turns of the generations |
| Objects.RevocationLasts | crates/kernel/src/obj.rs:127-139 | in every state after a reference is revoked it resolves exactly when its slot is in use after at least one whole turn |
| Objects.RevocationWraps | crates/kernel/src/obj.rs:127-139 | a run after which a reference revoked long ago resolves to what lives in its slot now |
| Objects.CreateRepeatsIff | crates/kernel/src/obj.rs:74-108 | create hands out a reference it handed out before exactly when it takes that slot and the revocations in between are whole turns |
| Objects.CreateSparesOthers | crates/kernel/src/obj.rs:74-108 | creating changes what no other reference resolves to; the new one resolved to nothing and now names the object |
| Objects.RevokeSparesOthers | crates/kernel/src/obj.rs:127-139 | revoking changes what no other reference resolves to, and succeeds exactly on a live one |
| Caps.InstallDisturbsNothing | crates/kernel/src/cap.rs:79-102 | the new handle was the lowest free one past 0, resolves to the new capability, and no other handle resolves differently |
| Caps.InstalledHandleResolvesIff | crates/kernel/src/cap.rs:79-102 | the handle reported resolves to what was installed exactly when the table had its null handle |
| Endpoints.Endpoint.DecideSend | crates/kernel/src/ipc.rs:316-340 | the arrays end as the queue value says: hand over to the first receiver, else buffer, else queue the sender, else nothing |
| Endpoints.Endpoint.DecideRecv | crates/kernel/src/ipc.rs:407-430 | the oldest message is taken and the first blocked sender's message moves into its place, or the receiver waits |
| Endpoints.Endpoint.RemoveWaiter | crates/kernel/src/ipc.rs:205-228 | the task is gone from both wait queues, all others keep their order, and the answer is whether it stood in one |
| Endpoints.ForgetTakesOut | crates/kernel/src/ipc.rs:205-228 | forgetting a task takes it out of both queues wherever it stands and keeps everyone else's order |
| Endpoints.SendIsAppend | crates/kernel/src/ipc.rs:316-376 | a send appends to the queue of pending messages or goes past an empty one to the first receiver; it is refused exactly when it changes nothing, and then ring and wait queue are full |
| Endpoints.RecvIsTake | crates/kernel/src/ipc.rs:407-447 | a receive takes the head of the pending messages, across ring and blocked senders, or waits exactly when there is none |
| KernelInvariant.StepKeeps | crates/kernel/src/sched.rs:997-1051 | every step of the machine keeps the whole invariant: slots, queues, mailboxes, tallies, tables and authority |
| KernelTheorems.EndpointIsFifo | crates/kernel/src/ipc.rs:316-447 | over any stretch of a run an endpoint accepts at the tail and is taken from at the head, and what it accepted is what was taken and what is pending, in one order |
| KernelTheorems.SendAppends | crates/kernel/src/ipc.rs:316-376 | a send adds exactly its message, handed over at once only past an empty queue, parking only at a full ring; a refused one changes nothing |
| KernelTheorems.RecvTakesHead | crates/kernel/src/ipc.rs:407-447 | a receive takes the head for its caller, who gets it exactly when the call succeeds; it parks or is refused exactly when there is no head |
| KernelTheorems.TakenIsLostIff | crates/kernel/src/usermode.rs:537-568 | a taken message fails to reach its caller exactly when it carries a capability and the table can neither use a gap nor grow; the table then is unchanged |
| KernelTheorems.DeliveredIsLostIff | crates/kernel/src/usermode.rs:537-568 | the same for a receiver that parked and finds the message in its mailbox, which is always there |
| KernelTheorems.LastCapabilityIsLost | crates/kernel/src/usermode.rs:537-568 | a run from boot whose last receive fails and loses the message it took |
| KernelTheorems.TakenIsHandedOver | crates/kernel/src/sched.rs:830-866 | every message is taken from endpoints as often as it is handed to tasks, and a task's receives have taken, in order, what it was handed but for what is in its mailbox |
| KernelTheorems.BlockedIsQueuedOnce | crates/kernel/src/ipc.rs:407-447 | a blocked task stands in exactly one place of all the queues and any other task in none |
| KernelTheorems.WaitersAreWakeable | crates/kernel/src/sched.rs:816-866 | receivers wait only at an empty ring, senders only at a full one, all of them blocked there with no message; a task picked again can always go on |
| KernelTheorems.MessagesConserved | crates/kernel/src/ipc.rs:235-263 | delivered + buffered + blocked sends = received + in mailboxes + pending; sends lag by the senders not yet gone on; parks lag wakeups by the tasks now blocked; blocked receives = delivered + still blocked; capabilities counted = capabilities accepted; none ever died in a queue |
| KernelInvariant.ExitFindsNothing | crates/kernel/src/sched.rs:927-985 | a task that exits stands in no queue, so its exit changes no endpoint and no count |
| Scheduling.PickNextIsNearest | crates/kernel/src/sched.rs:295-303 | the scan finds the ready slot next round the table, nothing exactly when none is ready, and its start exactly when that alone is |
| Scheduling.PostSwitchKeeps | crates/kernel/src/sched.rs:997-1051 | settling keeps the invariant and frees a dead task's own stack and space, still held and not the tree in use, and nothing of a live task |
| Switching.SwitchGoesOn | crates/kernel/src/sched.rs:702-742 | a yield or preemption leaves its task ready and the next ready slot round the table runs in its own tree; with none ready nothing happens |
| Switching.ExitGoesOn | crates/kernel/src/sched.rs:927-985 | an exit leaves its task dead and goes on likewise, or to the bootstrap context in the kernel's tree |
| Switching.ParkGoesOn | crates/kernel/src/sched.rs:763-811 | so does parking, which leaves the task blocked in its call |
| Switching.StartGoesOn | crates/kernel/src/sched.rs:585-631 | from the bootstrap context the lowest ready slot runs |
| Switching.SettleIs | crates/kernel/src/sched.rs:997-1051 | settling empties the slot left behind if its task died, and touches nothing else |
| KernelTheorems.SwitchesAreSafe | crates/kernel/src/sched.rs:702-811 | in every reachable state the running task is the current one, the core is in its tree or the kernel's, the slot to settle is not the successor's, and a dead task holds stack and space exactly until settled |
| KernelTheorems.ReclaimIsSafe | crates/kernel/src/sched.rs:997-1051 | the space freed is the dead task's, nobody else's, not the kernel's and not the one in CR3 |
| KernelTheorems.ReadyUntilRun | crates/kernel/src/sched.rs:702-811 | whatever step is taken, a ready task stays ready until it is the one that runs |
| KernelTheorems.RunsWithin | crates/kernel/src/sched.rs:289-303 | without spawns, a ready task has run by the time the core has switched as often as there are slots |
| KernelTheorems.EndpointForAnswers | crates/kernel/src/usermode.rs:485-498 | an endpoint exactly for a capability with the right whose object lives; the missing right is reported before the dead object |
| SystemCalls.SendGoesThrough | crates/kernel/src/usermode.rs:508-530 | with the right to send on a live object, a readable message, nothing or a capability of the sender's to carry, and room, the endpoint has exactly that message more and no other changes; it parks exactly at a full ring |
| SystemCalls.SendIsRefused | crates/kernel/src/usermode.rs:508-530 | each other case changes nothing and is answered by its own error |
| SystemCalls.SendLands | crates/kernel/src/ipc.rs:316-376 | the message is in the mailbox of the longest waiting receiver, which is woken, else last in the ring of two, else with its parked sender |
| SystemCalls.ReceiveGoesThrough | crates/kernel/src/usermode.rs:537-568 | with the right to receive on a live object and a writable buffer, the head is taken, or the caller parks last of up to four receivers; no other endpoint changes |
| SystemCalls.ReceiveIsRefused | crates/kernel/src/usermode.rs:537-568 | each other case changes nothing and is answered by its own error |
| SystemCalls.RevokeGoesThrough | crates/kernel/src/usermode.rs:577-591 | any handle on a live object revokes it: the reference is gone and every other names what it named; otherwise nothing changes |
| SystemCalls.SpawnGrants | crates/kernel/src/sched.rs:511-575 | a new task is ready, in its own tree or the kernel's, with grant i at handle i + 1 and nothing else |
| SystemCalls.CreateGoesThrough | crates/kernel/src/obj.rs:74-108 | an object is created exactly for the four endpoints, where a slot is free or the table can grow, and its reference names it |
| KernelTheorems.AuthorityConfined | crates/kernel/src/usermode.rs:508-568 | every capability in any table, mailbox, ring or wait queue was granted at a spawn, unchanged |
| KernelTheorems.AcquiredByReceiving | crates/kernel/src/usermode.rs:537-568 | a task gains a capability only at its spawn or by receiving the message that carries it |
| KernelTheorems.CarriedFromHolder | crates/kernel/src/usermode.rs:508-530 | a message carries only a capability its sender holds, the one its handle names |
| KernelTheorems.RevokedForEveryone | crates/kernel/src/usermode.rs:577-591 | in every state after a revocation a capability naming the object yields an endpoint exactly when it has the right and the slot is in use after a whole number of turns of the generations |
| Machine.Scheduler.NextSlot | crates/kernel/src/sched.rs:295-303 | the loop over offsets answers the specified scan |
| Machine.Scheduler.SettlePrevious | crates/kernel/src/sched.rs:997-1051 | the slots, counters and hand-over afterwards are the step's, and the answer is the space to destroy |
| Machine.Core.SendCall | crates/kernel/src/usermode.rs:508-530 | the kernel in place does what the machine's send does, with its outcome |
| Machine.Core.RecvCall | crates/kernel/src/usermode.rs:537-568 | the kernel in place does what the machine's receive does, with its outcome |
| Machine.Core.ResumeCall | crates/kernel/src/sched.rs:830-840 | the rest of a parked call in place is the machine's, and the message is always there |
| Machine.Core.ExitCall | crates/kernel/src/sched.rs:927-985 | exit in place is the machine's, through every queue of every endpoint |
| FreeRuns.FreeRuns | crates/bootinfo/src/lib.rs:428-499 | the buffer ends with the carved runs, compacted, and the count is theirs plus the regions that never fitted |
| FreeRuns.SplitIs | crates/bootinfo/src/lib.rs:464-476 | with room, an exclusion inside a run leaves the left piece in place and the right one at the end; without, the longer of the two |
| FreeMemory.RunsInOrder | crates/bootinfo/src/lib.rs:438-443 | the runs before carving are the regions of kind Usable that are not empty, in their order |
| FreeMemory.FreeRunsAreExact | crates/bootinfo/src/lib.rs:428-499 | with disjoint usable regions and room for one run per region and exclusion, an address is in a run exactly when it is usable and not excluded |
| FirmwareMemory.PoolIsConventional | crates/boot-uefi/src/memmap.rs:46-62 | end to end: an address is free only if a descriptor of type 7 covers it and no exclusion does; and exactly then, where descriptors do not overlap and there is room |
| FreeMemory.KeptRunsAreFree | crates/bootinfo/src/lib.rs:428-499 | whatever the room, every run kept is non-empty, inside usable memory and clear of every exclusion |
| FreeMemory.KeptRunsAreDisjoint | crates/bootinfo/src/lib.rs:428-499 | disjoint usable regions give disjoint runs, whatever the room |
| FreeMemory.CountIsHonestIff | crates/bootinfo/src/lib.rs:486-499 | whatever is excluded, every counted entry is a run of free memory: exactly when the usable regions fit or there is no buffer |
| FreeMemory.LargestFreeRun | crates/bootinfo/src/lib.rs:390-403 | the answer is the first of the longest entries counted in the scratch buffer |
| FreeMemory.LargestIsLargest | crates/bootinfo/src/lib.rs:390-403 | with room, it is a run of free memory no kept run is longer than, and none only if nothing is free |
| FreeMemory.LargestIsFreeIff | crates/bootinfo/src/lib.rs:390-409 | whatever is excluded, the answer is free memory or none: exactly with no more usable regions than 96 |
| MemMap.Convert | crates/boot-uefi/src/memmap.rs:75-124 | the buffer ends with the regions of the walk; a bad stride is refused untouched; a shortfall names exactly the regions placed, one, and one per whole descriptor left |
| MemMap.Classify | crates/boot-uefi/src/memmap.rs:46-62 | types 7, 9, 10, 8 and 1 or 2 have their own kinds, all others are reserved |
| MemMap.DescriptorsRoundTrip | crates/boot-uefi/src/memmap.rs:88-103 | descriptors written at their offsets, stride bytes apart, are read back |
| MemMap.ConvertPreserves | crates/boot-uefi/src/memmap.rs:75-124 | an address is covered with a kind afterwards exactly when some descriptor of that kind covers it, and the bytes add up exactly when no merged length saturates |
| MemMap.OrdinaryMapsFit | crates/boot-uefi/src/memmap.rs:105-113 | none does when no descriptor reaches past the top of the address space |
| MemMap.TopByteIsDropped | crates/boot-uefi/src/memmap.rs:105-113 | the two halves of the address space, merged, are a byte short |
| MemMap.NothingLeftToMerge | crates/boot-uefi/src/memmap.rs:105-113 | no region of the result is empty and no two neighbours could still be merged |
| MemMap.WalkFitsIff | crates/boot-uefi/src/memmap.rs:114-119 | the walk finishes exactly when the coalesced map fits the buffer |
| MemMap.ShortfallIsExactIff | crates/boot-uefi/src/memmap.rs:29-37 | the number reported is never too small, and is what is needed exactly when every descriptor left is a range of its own |
| MemMap.ShortfallCanOverstate | crates/boot-uefi/src/memmap.rs:114-119 | two adjacent pages and no room: 2 reported, 1 needed |
| MemMap.OneSlotEach | crates/boot-uefi/src/boot.rs:239-245 | one slot per descriptor is always enough: the conversion cannot fail |
| MemMap.HighestRamAddress | crates/boot-uefi/src/memmap.rs:151-183 | the least multiple of the alignment that no memory reaches past, types 0, 11, 12 and 13 left out, or the top of the address space only where memory reaches within one alignment of it |
| TicketLock.ExclusionIff | crates/kernel/src/sync.rs:51-61 | at most one core is inside in every reachable state, exactly when there are no more cores than tickets |
| TicketLock.FirstComeFirstServed | crates/kernel/src/sync.rs:51-61 | in every reachable state those who got in are those who came first, in that order |
| TicketLock.ContendedIsServed | crates/kernel/src/sync.rs:88-96 | while some core holds a ticket, the first to have come is inside or its next look lets it in |

## Left out

- Mapping.Mapper.MapAs: the range lies in the 48-bit space and its physical end below 2^52; the source does not check either. Past 2^52 the entry does not name the address, which `Entries.LeafAddressIff` states; past 48 bits its additions wrap.
- FreeMemory.FreeRunsAreExact: overlapping usable regions, and the memory dropped when there is no room for a second piece; what is kept is free in any case.
- Isolation.KernelMapStep: a mapping of the kernel's that fails under an empty root slot, and unmapping in its tree.
- KernelTheorems.RunsWithin: a stretch of a run in which tasks are spawned; spawning happens before scheduling starts.
- `Elf::load_span` and the loader's use of it; images other than 64-bit little-endian executables are only refused.
- `summarise`, framebuffer and boot-info validation, the initramfs and the ACPI tables: they read and add.
- The frame pool's buddy lists and the heap: a frame is any free one, and whether the heap can grow is an input.
- The TLB, accessed and dirty bits, and large pages in user spaces.
- More than one core in the kernel machine: the locks make each system call one step, and `TicketLock` has the lock alone.
- Message bytes: a payload is one value, and whether the caller's buffer can be read or written is an input of the call.
- Counters as 64-bit words, and the ones derived from others: yields, preemptions, reaped words and frames, refusals.
- Handles, indices and slot numbers as 32-bit values; tables are as long as they need to be.
- Names of tasks, kernel stacks as memory, saved registers, `context_switch`, the trap and system-call entry code, interrupt masking.
- `waiting_on`, `describe`, `census` and the boot log; the self-tests.
- The firmware calls around the memory map, and the retry of `ExitBootServices`.
