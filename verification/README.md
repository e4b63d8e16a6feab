# Proofs about the kernel's stateful algorithms

This project models the parts of the kernel where a simple abstract object sits behind code that changes things in
place, and proves that the code keeps to the abstract object. Each module follows one part of the system.

| part | modules |
|---|---|
| page tables, frame pool, address-space lives | `PageBits`, `FramePool`, `PageTree`, `Teardown`, `AddressSpace`, `ProcessLife` |
| kernel heap | `HeapMemory`, `KernelHeap` |
| TCP engine, ARP table | `TcpSpec`, `TcpRuns`, `TcpRing`, `TcpEngine`, `ArpTable` |
| scheduler | `SchedulerSpec`, `SchedulerWaiting`, `SchedulerCalls`, `Scheduler` |
| path names and the in-memory file tree | `PathNames`, `PathNormalize`, `FileTreeSpec`, `FileTreeRoom`, `FileTree` |
| glyph rasteriser | `Outline`, `Rasteriser` |
| phrase search | `Dictionary`, `PhraseSearch` |
| user database and password hash | `UserText`, `UserRecords`, `UserDb`, `UserDbEnds`, `Sha256` |
| smaller cores | `Utf8`, `DecimalPacking`, `Checksum`; `ByteStrings` and `Division` hold what modules share |

`dafny verify dfyconfig.toml` checks everything.

## How the parts are modelled

* **Page tables.** Physical memory is a map from frame number to 512 entries, and `clks_boot_phys_to_virt` is the
  identity. A ghost tree names the frame of every table by its path from the root; `IsTree` says that the entries in
  memory link exactly that tree, and `Walk` is the hardware's walk. Every operation states the walk of every address
  afterwards.
* **Heap.** The arena is a map from addresses to bytes, and headers are read from and written to it field by field, so
  that a header left behind by a merge can be overlapped by another header or by payload bytes. A ghost list of blocks
  tiles the arena, and the headers in memory link exactly that list.
* **TCP.** A connection is a value (`Conn`), one segment is a step (`Receive`), and a run is a list of events, so that
  loss, repetition and reordering are just other lists. The class `Tcp` has the fields of the C struct; every method
  says which events it caused. The network, the device's refusals and the initial sequence numbers are arbitrary.
* **Scheduler.** The task table is a field the methods reassign. A task's entry is any number of calls of the
  scheduler's own interface, with any arguments, dispatches included. A full table that grows moves to any other
  address; the pointer a running dispatch holds then leads to where the table was.
* **File tree.** 512 nodes in an array, file payloads as blocks of the kernel heap, names as normal paths. `Look` is
  the tree the table stands for.
* **User database.** SHA-256 is proved for every compression function. The rewritten file is compared with the old
  one name by name.

## Where the code does not keep the promise it seems to make

Each of these is proved, with the condition under which the code does keep it.

* The frames of a usable memory region are its whole pages if and only if its bounds do not wrap at 2^64; a region that
  starts in the last page and ends below 2^64 counts as starting at address 0: `WholePagesIff`.
* Mapping a frame at or above 2^52 truncates it: `TranslateMapped` holds exactly below.
* `clks_vm_map_page_in_address_space` restores the previous CR3 only if its low twelve bits are clear.
* `clks_kmalloc` answers requests above 2^64 - 16 bytes with a block of no size: `RequestCoveredIff`.
* `clks_net_tcp_send` never ends for payloads of 65536 bytes or more if every chunk is acknowledged, because the
  remainder is narrowed to 16 bits: `SendFinishesIff`.
* `clks_net_tcp_connect` can report success on a connection whose SYN nobody has answered and that expects number 0,
  if a bare ACK and the SYN-ACK arrive in one poll: `StaleAckConnects`. On success the SYN was answered if and only if
  the last try began waiting for an answer: `Connect`. An answered try is in sequence with every honest peer
  (`AnsweredInSequence`), the other kind, at its end and whatever it hears, with hardly any (`StaleTryInSequenceIff`).
* A second `clks_kfree` of a pointer is turned away as long as nothing was allocated in between, whatever the holders of
  other blocks write: `Kfree`, `Store`, `ReleaseAll`. After an allocation the bytes of the old header may belong to
  something else, and the call writes through them unless they have no magic or read as free:
  `SecondReleaseBreaksTheList`. What any call does is decided by those bytes alone: `Kfree`.
* A task that returns from its entry RUNNING is left RUNNING, and not made READY, exactly if the task table lies
  elsewhere by then, because `clks_sched_run_task` tests and writes where it was: `RunTask`. That is so if the entry made
  the table outgrow its capacity once, and never if it did not; after several growths the table may be back.
* `clks_scheduler_set_task_state` with UNUSED leaves a slot counted that is free: `ApplyKeepsIff`.
* `path_at_or_under` with the root as prefix accepts only the root: `AtOrUnderIsPrefix`.
* A replaced user record whose line needs 192 bytes or more loses its newline and swallows the record behind it: every
  rewrite that succeeds is a map update for what `clks_user_find` gives if and only if the line is shorter,
  `ReplaceIsMapUpdateIff`.
* `clks_user_create` appends without looking at the size of the file, and `clks_user_find` gives nothing from a file of
  4096 bytes or more. The new name is found, and no other changed, if and only if the file stays below 4096 bytes and
  nothing but a few blanks stands behind its last newline. Beyond the limit no name is found, so that a name already
  there is not refused either; behind other bytes the new name is not found: `CreateInsertsIff`, `CreateUser`.
* The two UTF-8 decoders put out the same list if and only if no sequence is cut off by the end of the buffer, or what
  follows the cut-off lead byte settles it: `DecodersAgreeIff`.

## Model

| member | source | states |
|---|---|---|
| PageBits.LeafEntryBits | kernel/memory/vm.c:131-151 | a written leaf entry is present, not large, keeps the frame's address bits and carries exactly the requested flags |
| PageBits.AddrExactIff | kernel/memory/vm.c:15-15 | the entry's address field gives back an aligned frame exactly when the frame lies below 2^52 |
| PageBits.AddrBits | kernel/memory/vm.c:15-15 | the frame of any entry is its bits 12 to 51 |
| PageBits.EntryBits | kernel/memory/vm.c:8-13 | an entry is present by its bit 0 and maps a large page by its bit 7 |
| PageBits.TableEntryBits | kernel/memory/vm.c:153-191 | an entry that hangs up a table is present, not large, writable, for users exactly if the mapping is, and leads to that table |
| PageBits.SamePageIffSameSlots | kernel/memory/vm.c:323-326 | two addresses use the same four table slots exactly when they agree in bits 12 to 47 |
| FramePool.WholePagesIff | kernel/memory/pmm.c:47-57 | a region's frames are the pages whose bytes all lie in it, above the first megabyte, exactly if its bounds do not wrap |
| FramePool.Pool.Init | kernel/memory/pmm.c:21-68 | the stack ends up with usable frames only, all of them unless some were dropped for lack of room, and each once if the regions are disjoint |
| FramePool.Pool.AllocPage | kernel/memory/pmm.c:70-77 | hands out the top frame and takes exactly it off the free list, or zero if there is none |
| FramePool.Pool.FreePage | kernel/memory/pmm.c:79-94 | puts back one frame, except for zero, unaligned addresses and a full stack |
| PageTree.NewTable | kernel/memory/vm.c:161-177 | hanging a zeroed free frame into an empty slot gives a larger tree in which every walk is what it was |
| PageTree.SetLeaf | kernel/memory/vm.c:353-354 | writing one entry of a last-level table changes the walk of that page only |
| PageTree.WalkEndsAtLastTable | kernel/memory/vm.c:469-540 | a walk is decided by one entry of the deepest table on its way |
| Teardown.AfterSlot | kernel/memory/vm.c:203-217 | one turn of the loop over the slots: exactly the tables below that slot have been given back, and the other slots' tables and all other memory are as they were |
| Teardown.EndPrivate | kernel/memory/vm.c:297-313 | after slots 1 to 255 and the root, exactly the private tables have been given back, each once |
| AddressSpace.TranslateMapped | kernel/memory/vm.c:316-356 | translating any byte of a mapped page gives the same byte of the frame with the entry's flags, exactly if the frame lies below 2^52 |
| PageBits.BitsDetermine | kernel/memory/vm.c:494-533 | numbers below 2^n with the same n bits are the same, so the bits stated of a translation fix it |
| AddressSpace.OnePage | kernel/memory/vm.c:494-533 | addresses on one page of any of the three sizes are decided by one entry and translated to addresses just as far apart, and the page's first byte to a multiple of its size |
| AddressSpace.Vm.TranslateCurrent | kernel/memory/vm.c:469-540 | the answer is the walk of the tree resolved, for 4 KiB, 2 MiB and 1 GiB pages: bit by bit, the part below the page's size comes from the address and the rest, up to bit 51, from the entry that the walk ends at |
| AddressSpace.Vm.NextTable | kernel/memory/vm.c:153-191 | gives the table one level down, taken from the pool if missing, and fails only if the page cannot be mapped at all; no translation changes |
| AddressSpace.Vm.MapPageCurrent | kernel/memory/vm.c:316-356 | succeeds exactly if nothing blocks the page and the pool holds the missing tables; changes the walk of that page only, and on failure of none, even after tables were allocated |
| AddressSpace.Vm.ProtectPageCurrent | kernel/memory/vm.c:358-411 | succeeds exactly on mapped 4 KiB pages, keeps the frame and changes only that page's flags |
| AddressSpace.Vm.UnmapPageCurrent | kernel/memory/vm.c:413-467 | returns the frame that was mapped and removes only that page |
| AddressSpace.Vm.SwitchCr3 | kernel/memory/vm.c:111-119 | takes only nonzero aligned roots |
| AddressSpace.Vm.MapPageInAddressSpace | kernel/memory/vm.c:542-562 | maps in the other space as map_page does in the current one, and says exactly which CR3 is active afterwards |
| AddressSpace.Vm.CreateAddressSpace | kernel/memory/vm.c:241-280 | takes one frame, touches no other memory, and leaves a tree that shares slot 0 and the upper half with the kernel |
| AddressSpace.Vm.DestroyTableRecursive | kernel/memory/vm.c:193-220 | gives back exactly the tables of the subtree, each once, writes nowhere else, and leaves no table hanging in the one given back |
| AddressSpace.Vm.DestroyAddressSpace | kernel/memory/vm.c:282-314 | gives back the root and the private tables and nothing shared, leaves no table hanging in the root's lower half, and the kernel's CR3 active if the space was |
| ProcessLife.Live | kernel/memory/vm.c:241-314 | create, any run of map, unmap, protect and frame use in slots 1 to 255, destroy: the free frames are those before, each once, but for frames the process still holds, and every kernel translation is what it was |
| ProcessLife.Destroyed | kernel/memory/vm.c:282-314 | destruction turns the process's own tables into free frames, and nothing else |
| HeapMemory.PutGet | kernel/memory/heap.c:13-19 | a header field that was written is read back, and no other byte changes |
| HeapMemory.GetDigits | kernel/memory/heap.c:13-19 | the bytes of a header field are its base-256 digits, the lowest first |
| KernelHeap.AllocKeeps | kernel/memory/heap.c:33-57 | allocation keeps the tiling, leaves no two free neighbours, hands out at least what was asked for, and splits a block exactly if a header and 16 bytes are left over |
| KernelHeap.AllocUsed | kernel/memory/heap.c:118-125 | used_bytes grows by the block handed out |
| KernelHeap.AllocLive | kernel/memory/heap.c:98-130 | one live block more, every other where and as large as it was |
| KernelHeap.FreeKeeps | kernel/memory/heap.c:59-80 | release keeps the tiling and merges until no two neighbours are free |
| KernelHeap.FreeUsed | kernel/memory/heap.c:150-156 | used_bytes shrinks by the block released |
| KernelHeap.FreeLive | kernel/memory/heap.c:132-168 | one live block less, every other untouched |
| KernelHeap.LiveDisjoint | kernel/memory/heap.c:98-130 | live blocks do not overlap and lie in the arena |
| KernelHeap.AllFreeIsInitial | kernel/memory/heap.c:82-96 | with nothing live the arena is one free block again and used_bytes is zero |
| KernelHeap.RequestCoveredIff | kernel/memory/heap.c:29-31 | rounding up covers a request exactly up to 2^64 - 16 bytes |
| KernelHeap.RoundsUp | kernel/memory/heap.c:29-31 | up to 2^64 - 16 bytes a request is rounded to the next multiple of 16 |
| KernelHeap.AllocAligned | kernel/memory/heap.c:33-57 | splitting keeps every header, and so every pointer handed out, at a multiple of 8 |
| KernelHeap.Heap.Init | kernel/memory/heap.c:82-96 | one free block over the whole arena, the bytes that make it so, and none written outside |
| KernelHeap.AllocRefines | kernel/memory/heap.c:33-57 | the bytes a split and the free flag write turn the headers into those of the split list, and no other byte changes |
| KernelHeap.FirstFitIs | kernel/memory/heap.c:108-127 | the first fit is the first free block of at least the size needed, and there is none exactly if every free block is smaller |
| KernelHeap.Heap.Kmalloc | kernel/memory/heap.c:98-130 | null exactly if nothing is asked for or no free block fits; otherwise the first that fits, cut to size, at a multiple of 8 and with less than 72 bytes more than was asked for; no byte of a payload in use changes, and none outside the arena |
| KernelHeap.FreeRefines | kernel/memory/heap.c:59-80 | the bytes the merges write turn the headers into those of the coalesced list, no other byte changes, and every header left in free space still turns its pointer away |
| KernelHeap.Heap.Kfree | kernel/memory/heap.c:132-168 | for any pointer, what is written follows from the header bytes in front of it, and nothing is exactly if they have no magic or read as free; a live payload is released and merged with free neighbours without touching another, and is turned away from then on |
| KernelHeap.Heap.Store | kernel/memory/heap.c:126-127 | what a holder writes into its payload leaves the heap in order and every released pointer turned away |
| KernelHeap.ReleaseAll | kernel/memory/heap.c:132-168 | releasing every live pointer, in whatever order and some of them again, restores the single initial block |
| KernelHeap.SecondReleaseBreaksTheList | kernel/memory/heap.c:143-163 | allocate two, release both, allocate a smaller one: a second release of the second block then breaks the list of headers |
| TcpSpec.AckWindowExactIff | kernel/runtime/net.c:571-577 | the two signed comparisons accept exactly the numbers from snd_una to snd_nxt, if and only if fewer than 2^31 are in flight |
| TcpSpec.SignedTests | kernel/runtime/net.c:571-577 | the two tests compare the wrapped difference, read as a signed number, with zero |
| TcpSpec.ReceiveAcknowledges | kernel/runtime/net.c:2195-2200 | snd_una becomes the acknowledgement number of a processed segment exactly if it lies between snd_una and snd_nxt, and stays otherwise |
| TcpSpec.StateTable | kernel/runtime/net.c:2216-2250 | the state after every processed segment, by state, FIN and whether everything sent is acknowledged: the table of section 3.9 of RFC 793, but for the wait after closing |
| TcpSpec.CallTable | kernel/runtime/net.c:2868-2975 | sending claims numbers in ESTABLISHED and CLOSE_WAIT alone, and closing leads from these to FIN_WAIT1 and LAST_ACK |
| TcpSpec.ResetEnds | kernel/runtime/net.c:2163-2168 | a reset from the peer closes the connection and changes nothing else |
| TcpSpec.ListenTakes | kernel/runtime/net.c:2136-2153 | a listening connection becomes one with the sender of the first SYN to its port, and with nobody else |
| TcpSpec.WindowIs | kernel/runtime/net.c:1613-1617 | the window is what the ring has free, up to 16384 |
| TcpSpec.EdgeMoves | kernel/runtime/net.c:1613-1617 | a segment that is sent advertises the end of the window, which only moves on |
| TcpSpec.HandshakeStarts | kernel/runtime/net.c:2136-2194 | the segment that completes either handshake leaves rcv_nxt at the peer's first byte with nothing received |
| TcpSpec.DeliversPrefix | kernel/runtime/net.c:2206-2226 | over any run against an honest peer, the bytes taken in are a prefix of its stream and rcv_nxt counts them, plus one once the FIN is counted |
| TcpSpec.AcksCount | kernel/runtime/net.c:2206-2226 | what is acknowledged to an honest peer is the number behind its SYN and the bytes taken in, and its FIN once that has come behind the whole stream |
| TcpSpec.PushKeepsLast | kernel/runtime/net.c:1398-1415 | the ring keeps the last 65536 bytes of old and new together |
| TcpSpec.ReadsConcatenateToPrefix | kernel/runtime/net.c:1613-1617 | if the peer also keeps to the advertised edges, no unread byte is overwritten and what was read concatenates to a prefix of the stream |
| TcpSpec.ReceiveAdvances | kernel/runtime/net.c:2197-2203 | no segment moves snd_una backwards or past snd_nxt |
| TcpSpec.StepKeepsState | kernel/runtime/net.c:2102-2255 | every event keeps active equivalent to not CLOSED, a seen reset inactive, and peer_fin to its four states |
| TcpSpec.OwnFinAcked | kernel/runtime/net.c:2236-2250 | without a reset, FIN_WAIT1 and LAST_ACK are left exactly when everything sent, the FIN included, is acknowledged |
| TcpSpec.SendFinishesIff | kernel/runtime/net.c:2856-2861 | the chunks use up the payload exactly if it is below 65536 bytes |
| TcpRuns.RunAdvances | kernel/runtime/net.c:2409-2435 | however many segments are polled, snd_una only advances and never passes snd_nxt |
| TcpRuns.RunAcknowledged | kernel/runtime/net.c:2195-2200 | over any polling snd_una is what it was, or the number that some processed segment of the peer acknowledged |
| TcpRuns.RunKeepsPeer | kernel/runtime/net.c:2155-2159 | whatever is polled, a connection that does not listen stays one with its peer |
| TcpRuns.RunClosing | kernel/runtime/net.c:2969-3005 | over any polling the closing states end only by a reset or with everything acknowledged |
| TcpRuns.RunOpening | kernel/runtime/net.c:2170-2184 | over any polling an opening connection is answered only for the number its SYN had |
| TcpRuns.ChunkOut | kernel/runtime/net.c:2864-2900 | once a chunk is acknowledged in full nothing is in flight, and before that at most it and what was |
| TcpRuns.SynAnsweredIff | kernel/runtime/net.c:2735-2766 | a try that ends ESTABLISHED had its SYN answered exactly if it began in SYN_SENT |
| TcpRuns.AnsweredInSequence | kernel/runtime/net.c:2170-2184 | behind the answer, an honest peer's bytes arrive in order from the number after its SYN |
| TcpRuns.StaleTryInSequenceIff | kernel/runtime/net.c:2735-2766 | a try that begins with the connection up is, at its end and after any polling, in sequence with an honest peer only in the two cases where number 0 happens to be right |
| TcpRuns.RunAccepting | kernel/runtime/net.c:2136-2194 | over any polling a connection opened by the peer is listening, waits for its SYN's number, or has it acknowledged |
| TcpEngine.StaleAckConnects | kernel/runtime/net.c:2735-2766 | a bare ACK and the SYN-ACK in one poll make the next try succeed without an answer, its SYN unacknowledged and rcv_nxt zero |
| TcpRing.Ring.Push | kernel/runtime/net.c:1398-1415 | the circular buffer, wrap-around and overflow included, is a queue of the last 65536 bytes |
| TcpRing.Ring.Pop | kernel/runtime/net.c:1417-1433 | returns the oldest bytes in order and leaves the rest |
| TcpEngine.Tcp.SendSegment | kernel/runtime/net.c:1579-1635 | hands the device the segment with the window the ring has free, ending at snd_nxt and acknowledging rcv_nxt; refused for a missing port or an oversized payload |
| TcpEngine.Tcp.ProcessTcp | kernel/runtime/net.c:2102-2255 | the segment has exactly the effect of the step function, and is answered exactly when an answer is due, acknowledging all that was taken in |
| TcpEngine.Tcp.Poll | kernel/runtime/net.c:2409-2435 | any batch of segments is a run of deliveries and acknowledgements that sends no data and no FIN |
| TcpEngine.Tcp.Send | kernel/runtime/net.c:2841-2918 | every piece goes out at its own sequence number, and the call gives up on one only after a reset or after four tries without its acknowledgement; a result n above zero means that nothing before byte n is still unacknowledged and that a segment of the peer acknowledged exactly the numbers before byte n |
| TcpEngine.Tcp.Recv | kernel/runtime/net.c:2920-2955 | returns the next unread bytes and nothing else, whatever arrives meanwhile, as many as were waiting and fit if any were, and none only if none are waiting at the end of the budget or the connection is closed |
| TcpEngine.Tcp.Close | kernel/runtime/net.c:2957-3010 | success without a reset means that a segment of the peer has acknowledged the FIN; every FIN sent has the claimed number, and the call gives up only after four, with the connection not closed; the connection is wiped |
| TcpEngine.Tcp.Connect | kernel/runtime/net.c:2687-2779 | dials the address and port asked for and gives up only after a reset or four SYNs; succeeds exactly if the last try's SYN went out and the connection is up, not reset and not stale at its end; then the SYN was answered exactly if the try began waiting for it, and in that case exactly its number is acknowledged |
| TcpEngine.Tcp.StartListening | kernel/runtime/net.c:2784-2802 | a nonzero port opens a fresh listening connection, zero changes nothing |
| TcpEngine.Tcp.Accept | kernel/runtime/net.c:2804-2839 | success means the connection is ESTABLISHED and a segment of the peer has acknowledged exactly the own SYN; otherwise it is refused, wiped by a reset, or left waiting after the whole budget, not ESTABLISHED |
| ArpTable.InTableRemembered | kernel/runtime/net.c:1280-1315 | an address in the table was updated after at most fifteen others were last |
| ArpTable.ForgottenByRights | kernel/runtime/net.c:1280-1315 | an address not in the table was last updated before sixteen others |
| ArpTable.KeptAfter | kernel/runtime/net.c:1285-1314 | an update loses no address but, with a full table, the one updated longest ago |
| ArpTable.IsMacInvalid | kernel/runtime/net.c:433-452 | the loop finds exactly the all-zero and the all-ones address |
| ArpTable.Arp.Upsert | kernel/runtime/net.c:1280-1315 | takes in every update but those with a zero address or an invalid MAC |
| ArpTable.Arp.Lookup | kernel/runtime/net.c:1317-1332 | over any history an address is known exactly if fewer than sixteen others were updated since it was, with the MAC of its last update |
| SchedulerSpec.NextIsNearest | kernel/core/scheduler.c:154-174 | the scan picks the nearest runnable task around the table, the starting slot last |
| SchedulerSpec.SwitchRuns | kernel/core/scheduler.c:176-202 | the task switched to is RUNNING, with ticks of its slice left, and the one left can run as before but is not RUNNING |
| SchedulerSpec.RescheduleKeeps | kernel/core/scheduler.c:176-237 | carrying out a pending reschedule keeps the invariant and leaves a current task that can run |
| SchedulerSpec.WakeIs | kernel/core/scheduler.c:133-152 | a look at the clock leaves no sleeper past its time: those whose time has come are READY with a whole slice, all other tasks as they were |
| SchedulerSpec.TickWakes | kernel/core/scheduler.c:428-442 | after a tick no sleeper is past its time; one whose time has come is READY, or RUNNING if chosen at once, with its whole slice; the others keep wake time and state but for READY and RUNNING |
| SchedulerSpec.TickKeeps | kernel/core/scheduler.c:428-442 | a timer tick keeps: one RUNNING task at most and it is current, slot 0 READY or RUNNING, remaining within the slice, live count exact, a stuck current task has a reschedule pending |
| SchedulerWaiting.TickApproaches | kernel/core/scheduler.c:204-237 | every tick brings a waiting runnable task strictly nearer, whatever sleepers it wakes |
| SchedulerWaiting.BoundedWaiting | kernel/core/scheduler.c:428-442 | under ticks alone every runnable task with an entry becomes current within the sum of all time slices |
| SchedulerWaiting.SleeperWaiting | kernel/core/scheduler.c:428-442 | under ticks alone a sleeper with an entry sleeps until its wake tick, and becomes current within the sum of all time slices from there |
| SchedulerWaiting.SliceIsKept | kernel/core/scheduler.c:204-237 | under ticks alone the current task keeps its turn until its slice is used up |
| SchedulerWaiting.TickEndsSlice | kernel/core/scheduler.c:204-237 | the tick that uses up the slice hands over to the nearest task that can run, and gives the one left a whole slice |
| SchedulerCalls.ApplyKeepsIff | kernel/core/scheduler.c:365-580 | a call of the interface keeps the invariant, exactly unless it sets a used slot to UNUSED |
| SchedulerCalls.SleepsUntil | kernel/core/scheduler.c:480-516 | a task put to sleep sleeps at every look at the clock before its time and at none after, and has a whole slice when it wakes, by the clock or by a call |
| SchedulerCalls.GivesWay | kernel/core/scheduler.c:444-478 | a current task that yields gives way to the nearest task that can run, and has a whole slice when its turn comes again |
| SchedulerCalls.OtherChosen | kernel/core/scheduler.c:154-174 | the scan gives the turn to another task if any other can run |
| SchedulerCalls.WakesUp | kernel/core/scheduler.c:561-580 | a task woken by a call can run, with ticks left and no wake time |
| SchedulerCalls.NotWoken | kernel/core/scheduler.c:561-569 | waking is refused exactly for a zombie and a free slot |
| SchedulerCalls.StateIsSet | kernel/core/scheduler.c:535-559 | the state is what was asked for, READY standing for RUNNING except for the current task, and a current task that cannot run any more loses the processor |
| SchedulerCalls.IsAdded | kernel/core/scheduler.c:270-311 | a new task can run exactly if it has an entry, with a slice of at least one tick, and nothing else changes |
| SchedulerCalls.IsRemoved | kernel/core/scheduler.c:365-386 | a removed task is gone, its slot free, and the idle task in its place if it was current |
| SchedulerCalls.BeginRuns | kernel/core/scheduler.c:239-256 | the task entered is RUNNING, current and counted, and of the others one at most goes from RUNNING to READY |
| SchedulerCalls.ApplySleepers | kernel/core/scheduler.c:480-580 | a call wakes or restates only the task it names |
| SchedulerCalls.RescheduleSleepers | kernel/core/scheduler.c:226-237 | rescheduling never runs or wakes a sleeping task |
| SchedulerCalls.SleepersKeptTwice | kernel/core/scheduler.c:133-152 | the sleep rule composes over whole histories |
| Scheduler.Scheduler.Init | kernel/core/scheduler.c:313-346 | a table with the running idle task, or none if it cannot be allocated |
| Scheduler.Scheduler.WakeSleepers | kernel/core/scheduler.c:133-152 | wakes exactly the sleepers whose tick has come, each with a whole slice, and changes no other task |
| Scheduler.Scheduler.NextRunnable | kernel/core/scheduler.c:154-174 | the loop finds what the cyclic scan defines |
| Scheduler.Scheduler.OnTimerTick | kernel/core/scheduler.c:428-442 | one tick; inside a dispatch it only wakes sleepers; in any case nobody is asleep past his time afterwards |
| Scheduler.Scheduler.Reserve | kernel/core/scheduler.c:24-64 | enough room afterwards unless a larger block is needed and refused; the table moves exactly if it grows, to twice its capacity if that is enough |
| Scheduler.Scheduler.AddTask | kernel/core/scheduler.c:270-311 | the first free slot behind the idle task is filled, or the table extended, which moves exactly if it was at its capacity |
| Scheduler.Scheduler.RemoveTask | kernel/core/scheduler.c:365-386 | clears a used slot other than 0 and falls back to the idle task if it was current |
| Scheduler.Scheduler.SleepCurrentTicks | kernel/core/scheduler.c:518-525 | sleeps the current task until a wrapped wake tick, or yields for zero ticks |
| Scheduler.Scheduler.SetTaskState | kernel/core/scheduler.c:535-559 | RUNNING is kept for the current task only, slot 0 stays runnable, and the invariant is kept for every state but UNUSED |
| Scheduler.Scheduler.WakeTask | kernel/core/scheduler.c:561-580 | wakes any used task that is no zombie |
| Scheduler.Scheduler.RunTask | kernel/core/scheduler.c:239-268 | a runnable task is entered once, from the table the switch leaves and back through the reschedule, whatever calls its entry makes; a task that comes back RUNNING is left so exactly if the table lies elsewhere by then, which up to one growth means exactly if it outgrew its capacity |
| Scheduler.Scheduler.DispatchReady | kernel/core/scheduler.c:398-426 | enters at most 32 tasks, and at least one exactly if some task can run after waking, the nearest first, beginning with the current one, and otherwise only carries out a pending reschedule; keeps the invariant and the sleep rule over everything the entries do |
| Scheduler.Scheduler.DispatchCurrent | kernel/core/scheduler.c:388-396 | after waking and a pending reschedule the current task is entered if it can run, and nothing else happens if it cannot; nothing at all inside another dispatch |
| PathNames.NormalIsStable | rust/src/path.rs:50-116 | normalising a normal path, in either form, changes nothing |
| PathNames.NormalForm | rust/src/path.rs:50-116 | a normal path has no slash at its ends and no two in a row, but for the leading one of the root |
| PathNames.JoinThenSplit | rust/src/path.rs:50-116 | components joined and split again are the components |
| PathNames.ComponentsConcat | rust/src/path.rs:69-108 | the components of two paths with a slash between them are those of the one and then those of the other |
| PathNames.OnePiece | rust/src/path.rs:74-84 | what stands between two slashes is one component, or none if it is empty or a dot |
| PathNames.AtOrUnderIsPrefix | rust/src/path.rs:126-131 | on normal paths the byte test is the component-prefix relation, but under the root it accepts only the root |
| PathNormalize.CopyComponent | rust/src/path.rs:36-48 | copies just if the component and a terminator fit |
| PathNormalize.Normalize | rust/src/path.rs:50-116 | succeeds exactly if the path is of the right kind, has no ".." and its normal form fits, and then leaves that form and a terminator |
| FileTreeSpec.TreeClosed | kernel/storage/fs.c:281-333 | whatever is in the tree has its parent directory in the tree |
| FileTreeSpec.ChildrenAreNames | kernel/storage/fs.c:1017-1028 | a slot has children exactly if some name in the tree has its path as parent |
| FileTreeSpec.FileWritten | kernel/storage/fs.c:885-914 | storing a payload keeps the node table in order, changes one name only, and neither leaks nor touches a foreign block |
| FileTreeSpec.Removed | kernel/storage/fs.c:1030-1039 | removal frees exactly the node's own payload and changes one name only |
| FileTreeSpec.JoinTidy | kernel/storage/fs.c:206-238 | a normal path is tidy, and its parent is the path of all components but the last |
| FileTree.ComponentsClosed | kernel/storage/fs.c:343-409 | in terms of component lists, every name lies in a directory of the tree |
| FileTree.SameName | kernel/storage/fs.c:41-43 | two spellings name the same node exactly if they have the same components |
| FileTree.Fs.constructor | kernel/storage/fs.c:523-540 | the table starts as a root directory and nothing else, whatever the heap holds |
| FileTree.Fs.FindNode | kernel/storage/fs.c:45-60 | the first used node of that path |
| FileTree.Fs.CreateOrUpdate | kernel/storage/fs.c:281-333 | updates the node of a path or makes one in a free slot, and refuses exactly for a long path, the other kind, or a full table |
| FileTree.Fs.EnsureDirs | kernel/storage/fs.c:343-409 | makes only missing directories at the path or on the way, and succeeds exactly if before the call no file was in the way and there were slots for all that was missing |
| FileTree.Fs.Mkdir | kernel/storage/fs.c:819-850 | on success the directory is there and nothing else changed but directories on the way; a writable name succeeds exactly if no file is in the way and there are slots for what is missing |
| FileTreeRoom.RanFull | kernel/storage/fs.c:264-279 | a table that ran full on the way to a name had fewer free slots before than names were missing on that way |
| FileTreeRoom.FileMade | kernel/storage/fs.c:852-915 | a file that is there afterwards had, before, no directory of its name, no file in its way, and slots for all that was missing |
| FileTree.Fs.WriteAll | kernel/storage/fs.c:852-915 | the file has exactly these bytes, every other name is unchanged but for new directories on the way, and every other heap block is as it was; succeeds exactly if the tree before the call allows it, the bytes are there and the heap has a block for them |
| FileTree.Fs.Append | kernel/storage/fs.c:917-988 | the file has its old bytes and then the new ones, and the temporary block is given back; succeeds exactly where a write would, with a block for the bytes together and a size within 64 bits |
| FileTree.Fs.Remove | kernel/storage/fs.c:990-1040 | succeeds exactly for a file or a directory without names below it, and removes that name only |
| FileTree.Fs.ReadAll | kernel/storage/fs.c:677-709 | the bytes the tree has under the path, under any spelling |
| FileTree.Fs.VisitFile | kernel/storage/fs.c:447-491 | an archive file appears under its path without a heap block, whatever else the heap holds; succeeds exactly for a path without doubled slashes that is short enough and that the tree before the call allows |
| FileTree.Fs.FinishInit | kernel/storage/fs.c:576-628 | the file system is ready exactly if all required directories are there: device directories, those the disk has under its mount, or nodes |
| Outline.TraceCloses | kernel/font/ttf.c:361-411 | any mix of on-curve and off-curve points gives a closed chain |
| Outline.TraceVisits | kernel/font/ttf.c:361-411 | a traced contour passes through every one of its on-curve points |
| Outline.PolygonTrace | kernel/font/ttf.c:361-411 | without off-curve points the trace is the polygon |
| Outline.QuadIsOnCurve | kernel/font/ttf.c:341-344 | every point of a flattened curve is de Casteljau's, rounded toward zero |
| Outline.MidIsBetween | kernel/font/ttf.c:401-403 | an implied point is half way between its neighbours, rounded toward zero |
| Outline.GlyphCancels | kernel/font/ttf.c:898-907 | on every scanline the crossing deltas of all contours add up to zero |
| Outline.QuadEnds | kernel/font/ttf.c:341-359 | a flattened curve begins and ends exactly at its end points |
| Outline.QuadFits | kernel/font/ttf.c:341-344 | with coordinates below 2^25 no step leaves 32 bits |
| Outline.CrossBetween | kernel/font/ttf.c:630-633 | a crossing lies between the ends of its edge |
| Outline.CrossExact | kernel/font/ttf.c:630-633 | a crossing is the exact point of the edge on the scanline, rounded toward the edge's first end by less than one, and that end itself on its own scanline |
| Outline.CrossMoves | kernel/font/ttf.c:630-633 | farther along the edge the crossing is no nearer to the edge's first end |
| Outline.SortWorks | kernel/font/ttf.c:605-617 | the sorted crossings are in order and the same crossings |
| Outline.SortedSumIsWinding | kernel/font/ttf.c:619-654 | summing along the sorted crossings gives the winding number of the edges |
| Outline.ContoursAddUp | kernel/font/ttf.c:898-907 | the winding number of a glyph is the sum of those of its contours |
| Outline.ContoursCut | kernel/font/ttf.c:898-907 | contour ends in increasing order cut the points into contours, leaving none out and taking none twice |
| Outline.OutsideOnTheRight | kernel/font/ttf.c:643-654 | right of the last crossing of a glyph the winding number is zero |
| Rasteriser.TraceContour | kernel/font/ttf.c:361-411 | unless the 768 edges are used up, exactly the edges of the traced contour are added |
| Rasteriser.TraceGlyph | kernel/font/ttf.c:900-907 | the same for all contours of a glyph |
| Rasteriser.SortCrossings | kernel/font/ttf.c:605-617 | the in-place loop is insertion sort |
| Rasteriser.ScanlineCrossings | kernel/font/ttf.c:619-641 | the crossings of the scanline, sorted, as many as there is room for |
| Rasteriser.InsideSpan | kernel/font/ttf.c:643-654 | true exactly if the deltas of all crossings at or left of x add up to something |
| Rasteriser.PaintRow | kernel/font/ttf.c:915-950 | every pixel is the share of its sixteen sample points that the nonzero winding rule puts inside |
| Rasteriser.BlankOnTheRight | kernel/font/ttf.c:926-948 | right of a glyph's outline every pixel is blank |
| Rasteriser.RectangleInside | kernel/font/ttf.c:361-654 | the outline of a rectangle has a winding number other than zero exactly at the points of the rectangle, its left and lower sides included |
| Rasteriser.RectangleFills | kernel/font/ttf.c:915-950 | a pixel of a filled rectangle is as dark as the share of its sixteen sample points inside, to the nearest of 256 shades |
| Dictionary.LookupInData | kernel/input/inputm.c:490-553 | candidate n of the first line for the key that has so many, cut to the buffer |
| Dictionary.LookupEarlier | kernel/input/inputm.c:576-580 | a key with a later candidate has the earlier ones, so stopping at the first miss loses nothing |
| Dictionary.PrintedIsFound | kernel/input/inputm.c:490-553 | in a dictionary written line by line, lookup finds word n of the first entry for the key that has so many, and skips comments |
| PhraseSearch.PhraseIsCutOnce | kernel/input/inputm.c:555-568 | cutting after every piece is cutting the whole concatenation once, at 63 bytes |
| PhraseSearch.ReachableIff | kernel/input/inputm.c:570-607 | what the search may list is exactly the concatenation, cut at 63 bytes, of first or second candidates of at most eleven keys of at most six bytes that make up the composition |
| PhraseSearch.CompleteHas | kernel/input/inputm.c:570-607 | a list that is complete and not full has that text for every such choice of keys and candidates |
| PhraseSearch.Composer.AddCandidate | kernel/input/inputm.c:465-488 | adds the string unless it is empty, there already, or the list is full |
| PhraseSearch.Composer.AppendBytes | kernel/input/inputm.c:555-568 | the buffer holds what fits of the concatenation |
| PhraseSearch.Composer.Rec | kernel/input/inputm.c:570-607 | every string added is the phrase of a split into at most 11 known pieces, every such phrase is listed unless the list is full, no string twice, and the shared buffer is as it was |
| PhraseSearch.Composer.Rebuild | kernel/input/inputm.c:609-618 | the same for the whole composition |
| Sha256.PaddingIsShortest | kernel/runtime/user.c:255-280 | the padding is the shortest that fills a block, and below 2^61 bytes the length field is exact |
| Sha256.PaddedIs | kernel/runtime/user.c:255-280 | below 2^61 bytes the padded message is the message, a one bit, zero bits, and in the last eight bytes the number of its bits, highest byte first |
| Sha256.PaddedOnce | kernel/runtime/user.c:255-280 | no two messages below 2^61 bytes are padded to the same blocks |
| Sha256.WordsReadBack | kernel/runtime/user.c:283-286 | each state word is read back from its four bytes of the digest, highest byte first |
| Sha256.InitialRoots | kernel/runtime/user.c:228-239 | the initial words are the first 32 bits behind the point of the square roots of the first eight primes |
| Sha256.Hasher.Update | kernel/runtime/user.c:241-253 | the state stands for everything taken in so far, however it was cut |
| Sha256.Hasher.Final | kernel/runtime/user.c:255-286 | the digest is the fold of the compression function over the padded message, with and without the extra block |
| UserText.ParseU64 | kernel/runtime/user.c:293-315 | accepts exactly the numerals at most 2^64 - 1 and gives their value |
| UserText.DecimalParses | kernel/runtime/user.c:317-341 | a printed number is read back |
| UserText.NumeralIs | kernel/runtime/user.c:293-341 | every numeral is its value's printed digits behind zeros |
| UserText.TrimmedIs | kernel/runtime/user.c:93-118 | trimming takes spaces, tabs and line ends off both ends, all of them and nothing else |
| UserText.NextField | kernel/runtime/user.c:410-430 | the text before the first colon, and what is behind it if there is one |
| UserRecords.ReadRecord | kernel/runtime/user.c:432-487 | reads a line as the field grammar defines |
| UserRecords.RecordLine | kernel/runtime/user.c:489-509 | prints the record's line, cut to the buffer |
| UserRecords.LineReadsBack | kernel/runtime/user.c:432-509 | a well-formed record whose line fits is read back from it |
| UserRecords.LineMeans | kernel/runtime/user.c:432-487 | fields joined by colons are a record exactly if the name is valid, the hash has 64 bytes, the home starts with a slash and the number, if any, is a decimal below 2^64; "admin" and "root" make an administrator |
| UserRecords.ReadIsWellFormed | kernel/runtime/user.c:463-485 | what is read is well-formed, exactly unless its home was cut so that it ends in a blank |
| UserDb.Database.Find | kernel/runtime/user.c:521-557 | the first record of that name in the file, if the file is below 4096 bytes |
| UserDb.Database.Rewrite | kernel/runtime/user.c:594-657 | succeeds exactly if the file can be read, some record has the name, and the lines fit 4096 bytes; then the file is what every line becomes, otherwise unchanged |
| UserDb.PrintedIsFound | kernel/runtime/user.c:521-557 | in a file of printed records, what is found under a name is the first record printed with it |
| UserDb.RoomIsLength | kernel/runtime/user.c:594-657 | without zero bytes in the file, exactly as much room is counted as the new file takes |
| UserDb.RewriteKeepsLines | kernel/runtime/user.c:594-657 | in a file of clean lines a rewrite replaces or drops the lines of the name and keeps all others, comments included, in their order |
| UserDbEnds.RewriteUpdates | kernel/runtime/user.c:594-657 | after a rewrite that succeeds with a line that fits, or a removal, lookup gives the new record or none for the changed name and what it gave before for every other |
| UserDbEnds.ReplaceIsMapUpdateIff | kernel/runtime/user.c:594-657 | replacing a well-formed record updates exactly what is found under its name, for every rewrite that succeeds and every name, if and only if its line is shorter than 192 bytes |
| UserDbEnds.CreateInsertsIff | kernel/runtime/user.c:879-915 | for a name that lookup did not give: the added line makes it found and changes no other lookup if and only if the file stays below 4096 bytes and only few blanks stand behind its last newline; beyond that size no name is found, and behind other bytes the new one is not |
| UserDbEnds.CreateUser | kernel/runtime/user.c:879-915 | refuses exactly without rights, for a bad name, a name that lookup gives, or a failing file system; otherwise the line is added, with the same if-and-only-if |
| UserDbEnds.MadeWellFormed | kernel/runtime/user.c:889-913 | the record of a created user is well-formed and its line fits the line buffer |
| Utf8.Next | rust/src/unicode.rs:124-185 | moves on by at least one byte in range, failing calls included, and decodes as defined |
| Utf8.StrictIffEncoded | rust/src/unicode.rs:124-185 | strict decoding succeeds at a place exactly if a well-formed sequence starts there |
| Utf8.DecodesEncoding | rust/src/unicode.rs:124-185 | the encoding of every scalar value is decoded to it, with its length |
| Utf8.DecodedIsEncoding | rust/src/unicode.rs:19-25 | what is decoded is the encoding of the scalar value returned |
| Utf8.ByteDecoder.DecodeByte | rust/src/unicode.rs:38-102 | one byte moves the state and puts out as the step function says |
| Utf8.DecodersAgreeIff | rust/src/unicode.rs:38-185 | both decoders put out the same list for a buffer exactly if no decode runs past the end, or the bytes behind the lead byte that is cut off are continuation bytes, one other byte, and at most one more lead byte |
| Utf8.CutOffEmits | rust/src/unicode.rs:158-162 | for too few bytes behind a lead byte, the byte decoder puts out a single replacement exactly if they settle it |
| DecimalPacking.UnpackPack | kernel/core/panic_qr.cpp:145-191 | every byte string comes back from its digits |
| DecimalPacking.DigitsSuffice | kernel/core/panic_qr.cpp:146-146 | 17 digits hold 7 bytes, the tail lengths hold their bytes, and no fewer digits would |
| DecimalPacking.BinaryToDecimal | kernel/core/panic_qr.cpp:145-191 | writes the packed digits and a terminator exactly if they fit, and reports 0 otherwise; with the fixed buffer, 1 to 2953 bytes always fit, and the length follows from their number and is never 0 |
| DecimalPacking.WritePadded | kernel/core/panic_qr.cpp:132-143 | writes exactly so many digits of the number |
| Checksum.OnesSumIsFolded | kernel/runtime/net.c:470-493 | the folded sum is the one's-complement sum of RFC 1071 |
| Checksum.Checksum | kernel/runtime/net.c:470-493 | up to 131072 bytes the loop gives the complement of that sum, without overflow, and ends |
| Checksum.StoredChecksOut | kernel/runtime/net.c:1513-1530 | a checksum stored in a zeroed even-offset field makes the one's-complement sum of the whole all ones, and so the whole check to zero |

## Left out

- TcpEngine.Tcp.Send: the loop is watched for a given number of turns, because for 65536 bytes or more it may not end; `TcpSpec.SendFinishesIff` states when it does.
- TcpEngine.Tcp.ProcessTcp: takes a segment with its fields; header lengths, checksums of received bytes and the peer's MAC address are not modelled.
- TcpEngine.Tcp.Connect: resolving the address is a parameter; the polling inside ARP resolution and the last-error code are not modelled.
- TcpEngine.Tcp.SendSegment: a segment the device refuses is recorded as such; what the wire does with it is up to the run.
- Scheduler.Scheduler.AddTask: whether a larger block can be allocated is a parameter, and the limit of 2^32 - 1 tasks is part of it.
- Scheduler.Scheduler.RunTask: what lies where the table was, and whom a write to it would hit, is not modelled.
- FileTree.Fs.WriteAll: paths on a mounted disk, the /dev and /proc views and the callers' permissions are not modelled; what the heap answers is a parameter.
- FileTree.Fs.VisitFile: the tar parser is not modelled, only that it strips slashes from both ends of a path (kernel/storage/ramdisk.c:121-142).
- AddressSpace.Vm.NextTable: a large bit in a root entry is a reserved bit and taken as clear; direct-map addresses are never null.
- KernelHeap.Heap.Kfree: a header that would run past the last address does not wrap around.
- Sha256.Hasher.Final: the compression function is a parameter; its rounds are not modelled.
- UserRecords.ReadRecord: the name hash behind default user ids is only computed, nothing is proved about it.
- `clks_vm_map_current_stack_window`: it needs the stack pointer and only calls map_page in a loop.
- Execute-disable detection, TLB invalidation and CR3 loads: hardware; CR3 is a field.
- Counters and statistics of the scheduler, the frame pool and the heap beyond those named above.
- ArpTable.Arp.Upsert: the 64-bit stamp is a natural number; its wrap-around is not modelled.
- UDP, DHCP, ICMP and the frames that feed the ARP table.
- Glyph parsing, compound glyphs, scaling and the `cmap` lookup of the font code.
- The rule-file loading, paging and commit logic of the input method around the phrase search.
- Interrupts between two steps of one call: every call is atomic except where a task's entry runs.
