# A microkernel, verified

This project models the state machines of a small x86 microkernel in the Orange'S tradition, and proves what
they promise. It covers rendezvous message passing and its teardown, the process lifecycle and the scheduler, the
file system, and memory, together with the argument stack of `exec` and number printing.

`dafny verify dfyconfig.toml` checks all of it.

## How the model is built

Each part has two layers. The imperative layer is written as the C code is: classes whose fields are assigned, lists
threaded through the process table, loops over arrays and sector buffers. The other layer is a set of functions on
plain values that say what one call does. Every method is proved equal to its function, and the properties are proved
about the functions: what each call keeps, and what holds over every run.

| part | values and their properties | code |
|---|---|---|
| message passing | `IpcSpec`, `IpcInvariant`, `IpcRuns`, `IpcResults`, `SendGraph`, `SendLists`, `IpcTeardown` | `Ipc` over `ProcTable` |
| scheduling | `Fairness` | `Scheduler` |
| process lifecycle | `LifeSpec`, `LifeInvariant`, `LifeRuns`, `LifeResults`, `LifeStatus`, `LifeDescent` | `Lifecycle` |
| messages and lifecycle together | `LifeIpc` | |
| file contents | `FileSpec` | `FileIo` over `Device` |
| allocation maps | `Bytes`, `Bitmap`, `Extents`, `MapCases` | `SectorMap`, `FreeMap`, `InodeMap` |
| inodes and open files | `InodeSpec`, `InodeInvariant`, `InodeCalls`, `InodeRuns`, `InodeResults`, `InodeCases` | `FileTable` |
| data of new files: map, inode and disk together | `NewFiles` | |
| the root directory | `DirSpec`, `DirOps`, `DirCases` | `Directory` |
| page tables | `PageSpec`, `PageInvariant`, `PageMap` | `Paging` |
| heap | `HeapSpec`, `Extents` | `Heap` |
| arguments of a new program | `ArgSpec` | `Args` |
| printing and parsing | `NumberSpec`, `FormatSpec`, `FormatResults` | `Printer` |

The modules whose names end in Results say what the functions mean, call by call, in the fields and bytes they leave
behind. Sizes that several parts share are in `Constants`. The modules whose names end in Cases hold runs from start-up in
which the system does less than it means to.

Each kernel call is one atomic step. An interrupt is a step of its own between calls. A call that halts the system
(a panic, or an assertion that fails in a task) returns a value that says so, with the state it leaves behind.

## Where the code does less than it means to

The model keeps these places as they are, says exactly when they do what they should, and names an input on which they
do not.

- `fork` copies a slot together with its list of blocked senders: `IpcInvariant.ForkKeepsInvIff`,
  `IpcInvariant.ForkCanBreakInv`.
- `wait` counts free slots that still name the caller as their parent: `LifeResults.ChildlessWaitIff`,
  `LifeResults.ChildlessWaitCanBlock`.
- `alloc_smap_bit` skips used sectors behind the first free one: `Extents.AllocateThenFreeIff`,
  `Extents.CreateKeepsExactIff`, `InodeMap.UnlinkRestoresMapIff`. On a disk as mkfs leaves it, the fifteenth file takes
  cmd.tar's sectors with it when it is unlinked: `MapCases.CmdTarIsFreed`.
- `do_unlink` keeps its reference when it refuses: `InodeInvariant.UnlinkBalancedIff`, `InodeRuns.LeaksIff`,
  `InodeCases.DeviceUnlinkLeaks`.
- `do_unlink` sets the directory's size to a count of its entries: `DirOps.RemovedKeepsInvIff`,
  `DirOps.StillFoundIff`, `DirCases.FileIsLost`.
- It does so also below the position of a process that has the directory open, so that a file position can lie behind
  the end of its file: `InodeRuns.CallKeepsPosIff`, `InodeRuns.RunKeepsPosIff`, `InodeCases.DirectoryCutRun`.
- `new_dir_entry` writes a thirteenth byte for a name of twelve characters: `DirOps.TwelveCharsIff`,
  `DirCases.LongNameHits`.
- `map_range_identity` leaves a page as it is that the kernel has mapped for itself in a shared table, so a process
  whose image lies there cannot get at it: `PageMap.MappedAsAskedIff`, `PageMap.ForkedImageIff`,
  `Paging.ReusedImageAtBoot`.
- `map_range_identity` walks no page of a range that reaches into the last page: `Paging.RangeCoveredIff`.
- `do_mallocfree` searches beyond the heap for sizes that do not fit it, and grants some of them:
  `HeapSpec.ScanInBoundsIff`, `HeapSpec.TooLargeIsGranted`.
- `schedule` does not end when no runnable process has ticks or a priority: `Fairness.SearchEndsIff`.
- `%d` of the most negative number prints no number, `%x` of a negative one no digits, and zeros are put before the
  sign: `NumberSpec.RoundTripIff`, `NumberSpec.AllDigitsIff`, `NumberSpec.PaddedRoundTripIff`.

## Model

| member | source | states |
|---|---|---|
| Ipc.Kernel.constructor | kernel/main.c:38-122 | The table at boot satisfies the invariant, with empty lists. |
| Ipc.Kernel.Deadlock | kernel/proc.c:214-239 | The walk ends, and its answer is true exactly when dest reaches src along sending edges. |
| Ipc.Kernel.MsgSend | kernel/proc.c:255-318 | Halts exactly when the send would close a cycle, else does what the value step says; list, slots and invariant kept. |
| Ipc.Kernel.MsgReceive | kernel/proc.c:335-486 | Takes the latched interrupt, the oldest sender, the named sender, or blocks, as the value step says, splicing only that sender out. |
| Ipc.Kernel.InformInt | kernel/proc.c:496-519 | Does in place what `IpcResults.InformMeans` describes, and keeps the invariant. |
| Ipc.Kernel.SysSendrec | kernel/proc.c:68-108 | Refuses free slots, stamps the message with the caller's pid, and dispatches; halts on a deadlock and on an unknown operation. |
| Ipc.Kernel.AbortIpc | mm/forkexit.c:248-321 | The staged teardown in place equals the one-step teardown on values. |
| SendGraph.AddEdgeAcyclic | kernel/proc.c:214-239 | A graph of blocked senders plus one edge is acyclic exactly if the edge's target did not reach its source. |
| IpcInvariant.SendClosesCycle | kernel/proc.c:262-265 | Blocking on dest would make the sending graph cyclic exactly when dest reaches the sender. |
| IpcInvariant.InitialInv | kernel/main.c:38-122 | The invariant holds at boot. |
| IpcInvariant.SendKeepsInv | kernel/proc.c:255-318 | A send that closes no cycle keeps the global invariant. |
| IpcInvariant.ReceiveKeepsInv | kernel/proc.c:335-486 | So does every receive, from one process, from anybody, or of an interrupt. |
| IpcInvariant.InformKeepsInv | kernel/proc.c:496-519 | So does an interrupt: none is left latched at a task that waits for it. |
| IpcInvariant.AbortKeepsInv | mm/forkexit.c:248-321 | So does a teardown. |
| IpcInvariant.AbortIsolates | mm/forkexit.c:253-318 | After it nobody sends to or waits for the process, no later send matches it, every other list keeps its order minus the process, and unrelated slots keep everything. |
| IpcInvariant.ForkKeepsInvIff | mm/forkexit.c:53-57 | Copying a slot keeps the invariant exactly when parent and child have no blocked senders and the parent is not one. |
| IpcInvariant.ForkCanBreakInv | mm/forkexit.c:53-57 | It fails from the first calls: a process sends to INIT, and INIT forks. |
| IpcInvariant.SetFlagsKeepsInv | mm/forkexit.c:340-365 | The memory manager's changes of WAITING, HANGING and FREE_SLOT keep the invariant of messages. |
| IpcInvariant.WithoutSplices | kernel/proc.c:440-466 | Taking a sender out of a list without duplicates is cutting at the one place where it stands. |
| IpcRuns.RunSound | kernel/proc.c:255-519 | Over every run the invariant and the ledger of messages hold. |
| IpcRuns.MessageFate | kernel/proc.c:296-307 | Every message ever accepted is settled once and in order, or is the one its sender is blocked on, standing in the addressee's list. |
| IpcRuns.HistoryGrows | kernel/proc.c:377-466 | What was accepted, settled or received is never taken back. |
| IpcRuns.ReceiveAnyTakesOldest | kernel/proc.c:377-397 | A receive from anybody takes the message that has waited longest, and that message is what lands in memory. |
| IpcRuns.SendHandsOver | kernel/proc.c:267-294 | A send to a process that is blocked for it lands at the address the receiver gave, at once, and blocks neither of them. |
| IpcRuns.ReceiveTakesNamed | kernel/proc.c:398-433 | A receive from a named blocked sender takes that message, and all other senders keep their places. |
| IpcRuns.HandedIsRead | kernel/proc.c:255-486 | Whatever a step hands a process, at most one message, lies in its memory at the address it gave. |
| IpcResults.InformMeans | kernel/proc.c:496-519 | An interrupt is latched and nothing else changes, unless the task is blocked for it: then it runs, and reads INTERRUPT and HARD_INT at its address. |
| IpcResults.LatchedIsTaken | kernel/proc.c:345-372 | A latched interrupt is what the next receive from anybody, or of interrupts, takes: the caller does not block, reads it, and has none latched. |
| IpcResults.ReceiveBlocks | kernel/proc.c:467-483 | A receive that finds nothing blocks the caller for what it asked for, at the address it gave. |
| IpcResults.SendBlocks | kernel/proc.c:290-318 | A send to a process that does not wait for it blocks the sender, last in the list. |
| IpcResults.ReceiverIsAnswered | mm/forkexit.c:299-310 | A receiver woken by a teardown reads SYSCALL_RET with the value given, at its address. |
| IpcResults.SenderIsReleased | mm/forkexit.c:255-317 | A sender woken by it runs with nothing handed over; the process itself is blocked for nobody. |
| IpcResults.ForkCopies | mm/forkexit.c:53-57 | A child has the memory and state of its parent, and nobody else changes. |
| IpcResults.LatchedIff | kernel/proc.c:345-519 | Over every run, an interrupt is latched exactly if the task was informed while not blocked for it, and has since neither received anything from anybody or an interrupt nor been torn down. |
| IpcResults.InterruptIsReceived | kernel/proc.c:345-372 | No interrupt is lost: the first such receive after it does not block and reads it, and no sender loses its place. |
| SendLists.SplicedLists | kernel/proc.c:440-466 | Re-linking around a sender leaves all lists as they were but for that sender. |
| SendLists.HungLists | kernel/proc.c:296-307 | Appending to a list through next_sending adds the sender at its end and disturbs no other list. |
| IpcTeardown.AbortInStages | mm/forkexit.c:255-318 | Waking senders, withdrawing, resetting and waking receivers in turn is the one-step teardown. |
| Scheduler.Cpu.Schedule | kernel/proc.c:33-53 | At most two rounds, and the slot picked is runnable with the most ticks, the first of them. |
| Scheduler.Cpu.Pick | kernel/proc.c:39-46 | One pass finds the first runnable slot with the most ticks, or that none has any. |
| Scheduler.Cpu.ClockHandler | kernel/clock.c:32-53 | Charges the running process, and reschedules only outside the kernel and with no time left. |
| Fairness.SearchEndsIff | kernel/proc.c:38-53 | The search for a process ends, within two rounds, exactly if a runnable process has ticks or a priority. |
| Fairness.BoundedWaiting | kernel/clock.c:32-53 | A process that stays runnable, with positive priority, waits for at most the sum of all ticks and priorities in clock interrupts. |
| Fairness.PotentialFalls | kernel/clock.c:37-51 | The potential behind that bound falls with each such interrupt, and no other event raises it. |
| LifeInvariant.ForkKeepsInv | mm/forkexit.c:36-57 | fork keeps the tree, takes a forked slot only, and leaves nobody waiting with a zombie. |
| LifeInvariant.ExitKeepsInv | mm/forkexit.c:330-365 | exit and kill keep the tree and the invariant that no WAITING process has a HANGING child. |
| LifeInvariant.WaitKeepsInv | mm/forkexit.c:407-435 | wait keeps them, too. |
| LifeRuns.RunHolds | mm/forkexit.c:330-435 | Over every run of fork, exit, kill and wait: the tree holds, and every process ever born is alive, a zombie, or reported once. |
| LifeResults.AllDescendFromRoots | mm/forkexit.c:349-365 | Following parents from any process in use leads, past live processes, to a native that forks: to INIT if no other does. |
| LifeResults.StatusGoesToWaitingParent | mm/forkexit.c:377-386 | An exit status goes to the waiting parent, or to INIT when the parent is dying, ends that wait, and answers no other. |
| LifeResults.ZombieStatusKept | mm/forkexit.c:340-347 | A zombie keeps its status until it is reaped, unless it is killed once more. |
| LifeResults.KillRewritesZombie | mm/forkexit.c:207-239 | Killing a zombie is accepted and replaces its status. |
| LifeResults.ChildlessWaitIff | mm/forkexit.c:407-435 | A wait without children is told so exactly when no free slot still names the caller as parent, else it blocks. |
| LifeResults.ChildlessWaitCanBlock | mm/forkexit.c:407-435 | It blocks after one fork, one exit and one wait. |
| LifeStatus.StatusIsTrue | mm/forkexit.c:330-386 | Over every run, the status a parent is told is the one of the last exit of just that process, or -1 if it was killed last. |
| LifeDescent.ForkMeans | mm/forkexit.c:36-57 | The child's slot was free, its parent is the caller, and no other slot's parent, status or flags change. |
| LifeDescent.WaitBlocks | mm/forkexit.c:407-435 | A caller with a child in use and no zombie waits, and nothing else happens. |
| LifeDescent.ParentIsForker | mm/forkexit.c:57-57 | Over every run, the parent of each process is the one that forked it as long as that lives, and INIT afterwards. |
| LifeDescent.ForkerIsTold | mm/forkexit.c:330-386 | When a process ends, its forker is told the status at once if it waits, else the status is kept for it. |
| LifeDescent.WaitTellsForker | mm/forkexit.c:407-435 | A wait by the forker of a zombie does not block, and is answered with the status a zombie child of its own ended with. |
| LifeIpc.StepIsTraffic | kernel/proc.c:255-519 | Messages and interrupts leave the flags of the family tree alone. |
| LifeIpc.AbortIsSilence | mm/forkexit.c:248-321 | The teardown of a process is what the lifecycle takes it for: its own flags become RECEIVING, and the tree flags of all others stay. |
| LifeIpc.ExitKeepsIpc | mm/forkexit.c:330-365 | Teardown, zombie or hand-over, and the adoption of the children keep the invariant of messages all the way. |
| LifeIpc.WaitKeepsIpc | mm/forkexit.c:407-435 | So does a wait. |
| LifeIpc.ForkKeepsIpcIff | mm/forkexit.c:36-57 | So does a fork exactly if nobody sends to either slot and the parent to nobody; the flags agree in any case. |
| LifeIpc.BothHold | mm/forkexit.c:36-435 | Over every run of messages, interrupts, forks, exits, kills and waits, both invariants hold and mean the same flags. |
| Lifecycle.MemoryManager.constructor | kernel/main.c:38-122 | At boot the tree is in order. |
| Lifecycle.MemoryManager.DoFork | mm/forkexit.c:36-57 | The first free slot gets the flags of the caller, and the caller as parent; no other slot changes; -1 when there is none. |
| Lifecycle.MemoryManager.DoExit | mm/forkexit.c:191-197 | Teardown, then the departure on values. |
| Lifecycle.MemoryManager.DoKill | mm/forkexit.c:207-239 | Accepted exactly for a known signal and another forked slot in use, and then like an exit with status -1. |
| Lifecycle.MemoryManager.DoProcessExit | mm/forkexit.c:330-365 | Zombie or hand-over, then the loop that gives the children to INIT. |
| Lifecycle.MemoryManager.Reparent | mm/forkexit.c:353-364 | The loop that interleaves reparenting and reaping equals doing the one and then reaping the first zombie. |
| Lifecycle.MemoryManager.Cleanup | mm/forkexit.c:377-386 | The parent gets the status, the slot becomes free and keeps its stale parent. |
| Lifecycle.MemoryManager.DoWait | mm/forkexit.c:407-435 | The first zombie child is reaped, else the caller waits if any slot names it, else it is told. |
| FileSpec.WriteIsByteArray | fs/read_write.c:78-133 | A write replaces file[pos..pos+n] and extends the file, and nothing else of it changes. |
| FileSpec.ReadAfterWrite | fs/read_write.c:78-133 | What was written at a position is read there. |
| FileSpec.WriteLeavesOthers | fs/read_write.c:100-124 | Files on other sectors are unchanged. |
| FileSpec.RewrittenInPart | fs/read_write.c:103-119 | Reading sectors, changing part of them and writing them back changes that part of the disk only. |
| FileSpec.MovedMore | fs/read_write.c:97-124 | Adjacent chunks make one transfer. |
| FileIo.DoRdwt | fs/read_write.c:35-135 | Count, buffer, disk, position, size and on-disk size after a read or write of any length at any position. |
| FileIo.Transfer | fs/read_write.c:92-124 | The chunk loop moves exactly the bytes asked for, whatever the alignment. |
| Bitmap.MarkedCount | fs/open.c:294-328 | Marking sets n clear bits, or all there are, and clears none. |
| Bitmap.MarkedAppend | fs/open.c:294-328 | Marking piece by piece is marking the whole. |
| Bitmap.RunIsMarked | fs/open.c:294-328 | The run of n bits from the first free one is inside the map and set afterwards. |
| Extents.AllocateThenFreeIff | fs/open.c:303-304 | Allocating n bits and freeing the run from the first of them restores the map exactly when that run was free. |
| Extents.FreeingHitsOthers | fs/link.c:109-149 | A used bit within n of the first free one is freed with the file, and some bit that was free stays set. |
| MapCases.FileFits | fs/main.c:262-307 | On the map that mkfs writes, the first fourteen files get adjacent sectors, each behind the last. |
| MapCases.CmdTarIsFreed | fs/main.c:262-307 | The next file runs into cmd.tar, and unlinking it frees cmd.tar's first sector and loses another. |
| Extents.CreateKeepsExactIff | fs/open.c:281-329 | The map keeps showing exactly the files' sectors, with no two files sharing one, exactly when the run was free. |
| Extents.UnlinkKeepsExact | fs/link.c:109-149 | Freeing a file's run keeps that. |
| SectorMap.AllocSmapBit | fs/open.c:281-329 | Over all sectors of the map: exactly the first n clear bits are set, the result names the first, and the rest of the disk is unchanged. |
| SectorMap.MarkSector | fs/open.c:294-324 | One sector of it, byte by byte, with what is left and whether it is dirty. |
| SectorMap.MarkByte | fs/open.c:297-313 | One byte of it, bit by bit. |
| FreeMap.FreeSmapBits | fs/link.c:93-149 | First byte, whole bytes and last byte together clear exactly the n bits, for every alignment, length and sector crossing, and no assertion in them fails. |
| FreeMap.WholeBytes | fs/link.c:128-138 | The middle phase, across sectors. |
| FreeMap.FreedMap | fs/link.c:109-149 | The same said about the bits of the map, with the rest of the disk unchanged. |
| InodeMap.AllocImapBit | fs/open.c:236-268 | The first clear bit of the inode map is set and its number returned. |
| InodeMap.FreeImapBit | fs/link.c:82-91 | The inode's bit is cleared and nothing else on the disk changes. |
| InodeMap.MapsApart | fs/open.c:236-329 | What changes one of the two maps leaves the other alone. |
| InodeMap.AllocatedRun | fs/link.c:109-118 | After an allocation the run that unlink clears is inside the map and set, so its assertions hold. |
| InodeMap.UnlinkRestoresMapIff | fs/link.c:109-149 | Create and unlink restore the disk's map byte for byte exactly when the first n free sectors were adjacent. |
| InodeSpec.RecIs | fs/main.c:494-502 | The records of a sector follow each other, and the sectors do. |
| InodeSpec.PutRecOnly | fs/main.c:535-550 | Writing one inode's record back leaves the others in its sector alone. |
| InodeInvariant.LookupFound | fs/main.c:474-490 | A lookup finds the one slot in use for the inode, or a free slot when there is none. |
| InodeInvariant.GotHolds | fs/main.c:467-508 | The caller gets one reference, to a slot that equals the record on the disk. |
| InodeInvariant.PutKeepsInv | fs/main.c:520-524 | Giving it back restores exact counts. |
| InodeInvariant.StatKeepsInv | fs/misc.c:69-80 | stat changes no slot in use. |
| InodeInvariant.StartKeepsInv | fs/main.c:138-172 | Empty tables and the root's inode satisfy the invariant. |
| InodeInvariant.AttachKeepsInv | fs/open.c:98-107 | Connecting a file slot, a descriptor and an inode keeps counts exact. |
| InodeInvariant.DetachKeepsInv | fs/open.c:176-185 | Giving a file slot up keeps counts exact, whether or not the descriptor is shared. |
| InodeInvariant.ShareKeepsInv | fs/main.c:564-569 | Sharing a descriptor with a child keeps counts exact. |
| InodeInvariant.UpdateKeepsInv | fs/read_write.c:126-131 | A written-through change keeps cache and disk equal, for this inode and the others. |
| InodeInvariant.NewNumberNotCached | fs/open.c:343-346 | A number the inode map gives out is in no slot, so a new inode shares none. |
| InodeInvariant.RemovableIff | fs/link.c:65-78 | A file is removed exactly when it is regular, nobody has it open, it is not the root, and no earlier removal was refused. |
| InodeInvariant.UnlinkKeepsInv | fs/link.c:65-160 | Unlink keeps the invariant, with the reference kept by a refusal counted. |
| InodeInvariant.UnlinkBalancedIff | fs/link.c:65-78 | With no leak so far, none is left by an unlink exactly if the inode is regular, nobody has it open, and it is not the root. |
| InodeCalls.CallKeepsInv | fs/main.c:51-86 | Every call keeps the cache coherent and all counts exact, also a call that fails or halts the system; creating and unlinking include the directory's new size. |
| InodeCalls.BornHolds | fs/open.c:343-360 | A new inode has the one reference of its creator and equals its record on the disk. |
| InodeRuns.RunLeavesOpen | fs/main.c:38-129 | Over every run, a file slot that is not closed stays open on the same inode, which is never removed. |
| InodeRuns.CallKeepsPosIff | fs/link.c:204-207 | A call keeps all file positions inside their files exactly if it does not cut the directory off below one. |
| InodeRuns.RunKeepsPosIff | fs/read_write.c:126-131 | Over a run, every file position stays inside its file exactly if no unlink in it does so. |
| InodeCases.DirectoryCutRun | fs/link.c:204-207 | Five calls after start-up, a position lies behind the end: the root opened and read to its end, a file made and unlinked. |
| InodeRuns.LeaksIff | fs/link.c:67-78 | References leak in exactly one way, known before the call: unlink of a file with a slot to be had that is not regular, is the root, is open, or leaked before. |
| InodeCases.DeviceUnlinkLeaks | fs/link.c:67-71 | Unlinking a device file right after start-up leaks a reference. |
| InodeRuns.SlotCountIsSum | fs/main.c:560-598 | An inode's count is the sum of its descriptors' counts, one more for the root, and what leaked. |
| InodeResults.OpenResultIff | fs/open.c:41-134 | Exactly when open halts the system, when it refuses, and that it gives a file slot otherwise. |
| InodeResults.OpenedMeans | fs/open.c:98-134 | Opening an existing file: the first free file slot is open on it at position 0 with the mode given, no other file slot changes, nor the disk. |
| InodeResults.CreatedMeans | fs/open.c:343-360 | Creating a file: the same, and on the disk a regular file of size 0 with 2048 sectors from the one given out; the root gets its size, no other record changes. |
| InodeResults.ClosedMeans | fs/open.c:176-185 | close gives just the one file slot up. |
| InodeResults.ForkedMeans | fs/main.c:560-572 | A forked process has the file slots of its parent. |
| InodeResults.ExitedMeans | fs/main.c:583-598 | A process that has ended has no file slot in use, and all others have theirs. |
| InodeResults.StatMeans | fs/misc.c:69-80 | stat changes nothing that is open, counted or on the disk. |
| InodeResults.WrittenMeans | fs/read_write.c:124-131 | The position moves, the size on the disk grows if it was passed, and no other field or record changes. |
| InodeResults.UnlinkedMeans | fs/link.c:150-207 | A removed file's number is free and its record zero; the root's size changes only if the entry was the last; no other record changes. |
| InodeResults.RefusedMeans | fs/link.c:65-78 | A refused unlink changes nothing on the disk and no file slot. |
| InodeResults.UnlinkResultIff | fs/link.c:65-78 | Exactly when unlink goes through, and when it halts the system. |
| NewFiles.NewSectorsApartIff | fs/open.c:281-329 | The sectors given to a new file belong to no other file exactly if the first free ones were adjacent. |
| NewFiles.NewFileIsApart | fs/open.c:343-360 | Open, map and disk together: what is written to the new file, where its record on the disk says, leaves every other file's contents and all that precedes the data sectors alone. |
| FileTable.Tables.constructor | fs/main.c:138-172 | The tables after start-up. |
| FileTable.Tables.GetInode | fs/main.c:467-508 | One scan finds the cached slot or the first free one, and loads the record; full is a halt, number 0 is nothing. |
| FileTable.Tables.PutInode | fs/main.c:520-524 | One reference less. |
| FileTable.Tables.SyncInode | fs/main.c:535-550 | The record in its sector equals the slot, the other fifteen are kept. |
| FileTable.Tables.NewInode | fs/open.c:343-360 | The slot of a new inode, with its first record on the disk. |
| FileTable.Tables.Open | fs/open.c:41-134 | First free slot and descriptor; create, open, not found, exists and full, as the value call says; a full inode map halts the system. |
| FileTable.Tables.Close | fs/open.c:176-185 | The value call. |
| FileTable.Tables.Stat | fs/misc.c:34-81 | The value call. |
| FileTable.Tables.ForkFiles | fs/main.c:560-572 | Copying the file slots and then counting each equals sharing them one by one. |
| FileTable.Tables.ExitFiles | fs/main.c:583-598 | All file slots of the process are given up. |
| FileTable.Tables.EndWrite | fs/read_write.c:124-131 | The position moves, and the size with it when it is passed, also on the disk. |
| FileTable.Tables.Unlink | fs/link.c:65-207 | Refused, or removed with the directory's size cut, as the value call says. |
| DirSpec.FoundIsLookup | fs/misc.c:95-136 | search_file looks names up as a map does, although it may compare one entry behind the end. |
| DirSpec.KeysDiffer | fs/misc.c:95-136 | Different names have different entries. |
| DirOps.AddedIsInserted | fs/open.c:372-418 | A new name of up to twelve characters maps to its inode and every other name to what it did, in a hole, at the end, or in a new sector, if the entry behind is intact. |
| DirOps.TwelveCharsIff | fs/open.c:410-411 | All other names keep what they stand for exactly if the name has at most eleven characters, or the next entry starts a sector or has an inode number that ends in a zero byte. |
| DirOps.NextIsHit | fs/open.c:410-411 | Otherwise the name behind comes to stand for its inode number with the lowest byte zeroed. |
| DirOps.AlwaysRoom | fs/open.c:384-411 | There is always room for the entry, though nobody checks: there are fewer inodes than entries. |
| DirOps.SizesAfter | fs/open.c:406-409 | What adding and removing do to the directory's size, as open and unlink take it. |
| DirOps.RemovedIsDeleted | fs/link.c:165-207 | Removing an entry removes just its name. |
| DirOps.RemovedKeepsInvIff | fs/link.c:204-207 | The directory stays in order exactly if the entry was not the last, or no unused entry precedes a used one. |
| DirOps.StillFoundIff | fs/link.c:204-207 | After the last entry is removed, another name is found exactly if its entry is at most one behind the new size, and in a sector that is read. |
| DirOps.AddThenRemove | fs/link.c:165-207 | Adding and removing a name restores the map of names. |
| DirCases.TwoHoles | fs/link.c:165-207 | From the directory of mkfs, four creations and two unlinks lead to a directory with two holes. |
| DirCases.FileIsLost | fs/link.c:204-207 | Unlinking the last file of it cuts off another, which is no longer found. |
| DirCases.LongNameHits | fs/open.c:410-411 | Two creations, one unlink and a file with a twelve character name make another file disappear. |
| Directory.RootDir.SearchFile | fs/misc.c:95-136 | The two loops return the inode of the name, or 0; "/" is the directory itself. |
| Directory.RootDir.NewDirEntry | fs/open.c:372-418 | The entry goes to the first unused slot or the end, as on values. |
| Directory.RootDir.RemoveEntry | fs/link.c:165-207 | The first entry of the inode is wiped and the size cut, or the system halts when there is none. |
| Directory.StripPath | fs/misc.c:167-193 | The first twelve characters behind a leading slash, refused exactly when one of them is a slash; what is kept is a name or empty. |
| PageInvariant.UnsharedFacts | mm/paging.c:92-110 | Giving a directory entry its own table changes no translation in any directory and leaves the kernel's tables alone. |
| PageInvariant.EntrySetTranslates | mm/paging.c:112-115 | Entering a page changes that page only, and only where it was absent, in the directories that share the table. |
| PageMap.MappedFacts | mm/paging.c:82-117 | Over any range: the invariant is kept, translations are only added, every page is present if the frames last. |
| PageMap.TranslationsSurvive | mm/paging.c:82-117 | A translation present in any directory survives every mapping call on any directory. |
| PageMap.ProcessesAreIsolated | mm/paging.c:101-110 | Mapping for a process leaves every other directory as it was, and the kernel's tables unwritten. |
| PageMap.MappedAsAskedIff | mm/paging.c:112-115 | A page of the range ends up on the frame of its own number, present, with just the write and user bits asked for, exactly if it was absent or was so before. |
| PageMap.MappedRights | mm/paging.c:92-115 | Through both levels, an absent page ends up usable by user code exactly if that was asked for, and writable exactly if that was. |
| PageMap.ClonedFacts | mm/paging.c:63-79 | A clone translates the kernel's first 12 MB as the kernel does, and nothing else. |
| PageMap.ForkedImageIff | mm/forkexit.c:111-112 | Every page of a forked image is mapped to itself with the rights asked for exactly if the kernel had mapped none of it, below 12 MB, in another way. |
| PageMap.ReusedImageIsClosed | mm/forkexit.c:111-115 | A page the kernel has mapped for itself stays closed to the user code of a process cloned later. |
| PageMap.ReusedImageFits | mm/forkexit.c:111-115 | So it does from any tables with two frames left, with no call refused. |
| Paging.ReusedImageAtBoot | mm/forkexit.c:111-115 | So it does from the tables the loader leaves, for every page between 10 MB and 12 MB. |
| Paging.RangeCoveredIff | mm/paging.c:84-85 | The pages walked cover the range exactly if the 32-bit sum does not wrap. |
| Paging.RangeExact | mm/paging.c:84-85 | No page is walked that has no byte of the range. |
| Paging.LoaderInv | boot/loader.asm:786-850 | What the loader builds satisfies the invariant and maps the first 10 MB to themselves, for all, to be written. |
| Paging.PageTables.constructor | mm/paging.c:20-22 | The tables as the loader leaves them. |
| Paging.PageTables.AllocTableFrame | mm/paging.c:28-37 | The next frame, up to the end of the table area. |
| Paging.PageTables.CloneKernelPde | mm/paging.c:63-79 | The loop copies three entries into a zeroed frame. |
| Paging.PageTables.MapRangeIdentity | mm/paging.c:82-117 | The page loop equals the mapping on values, stops where the frames run out, and else maps every absent page of the range to itself with the rights in the flags. |
| HeapSpec.ScanInBoundsIff | mm/main.c:184 | The search stays within the heap exactly for sizes above -31 up to 12288. |
| HeapSpec.OneByteTooMany | mm/main.c:184 | For 12289 the bound is the largest 32-bit number. |
| HeapSpec.TooLargeIsGranted | mm/main.c:184-204 | On an empty row every size above 12288 and up to 13056 is granted at the start of the heap, and runs over its end. |
| HeapSpec.RunKeepsInv | mm/main.c:153-228 | Over every run of matching calls the map shows exactly what is live, and nothing live overlaps. |
| HeapSpec.MallocGivesFreeMemory | mm/main.c:176-208 | What malloc gives is block aligned, inside the heap, large enough and apart from all that is live. |
| HeapSpec.MallocFailsIff | mm/main.c:184-208 | In every run it fails exactly when every place that is large enough is met by something live. |
| Extents.FillThenClear | mm/main.c:196-224 | malloc and the matching free restore the map. |
| Extents.AllocateKeepsExact | mm/main.c:196-204 | Taking a free run keeps the map exact and the runs disjoint. |
| Heap.BlockMaps.DoMallocFree | mm/main.c:153-228 | Lowest fit or 0; free only of what lies in the heap; rows of other processes untouched. |
| Heap.BlockMaps.FreeOkIff | mm/main.c:207-218 | free takes exactly pointers to the start of a block in the heap, with sizes that do not reach behind it. |
| Heap.BlockMaps.Serve | mm/main.c:153-228 | Matching calls of all processes take the steps of the runs, each on its own row, and keep every row's account. |
| Heap.BlockMaps.Malloc | mm/main.c:177-208 | The nested loops find the first run that fits. |
| ArgSpec.ReadBack | mm/exec.c:96-101 | A program that follows the pointers of a block reads the argument list it was laid out for. |
| ArgSpec.Relocated | mm/exec.c:87-94 | Moving a block is adding the distance to its pointers. |
| ArgSpec.PointersInside | lib/exec.c:75-82 | Every pointer of a block leads to a string inside it. |
| ArgSpec.FitsIff | lib/exec.c:66-82 | A list fits exactly if its pointers and strings have together fewer than 1024 bytes. |
| Args.Execv | lib/exec.c:60-96 | No assertion stops it exactly if the list fits, and then the buffer holds the list's block. |
| Args.Relocate | mm/exec.c:87-94 | Exactly the pointers before the null pointer are changed, and counted. |
| Args.DoExec | mm/exec.c:78-101 | argc is the length of the list, and the new stack holds its block at its new address. |
| Args.ExecvThenRun | mm/exec.c:78-101 | End to end: the new program reads the list that was passed. |
| NumberSpec.DigitsOfNat | lib/vsprintf.c:26-36 | i2a writes the digits of a number that is not negative, most significant first, with no zero in front. |
| NumberSpec.DigitsUnique | lib/vsprintf.c:26-36 | There is only one such string. |
| NumberSpec.AllDigitsIff | lib/vsprintf.c:28-33 | Only digits come out exactly if the number is not negative. |
| NumberSpec.RoundTripIff | lib/misc.c:193-213 | atoi reads back what %d prints exactly for all numbers but the most negative one. |
| NumberSpec.PaddedRoundTripIff | lib/vsprintf.c:116-123 | With a width it does exactly if no padding is needed, or it is zeros before a number that is not negative. |
| NumberSpec.AtoiIsMod | lib/misc.c:193-213 | On every string it does not stop at, atoi gives the value modulo 2 to the 32. |
| NumberSpec.SignMeans | lib/misc.c:193-213 | A plus sign in front makes no difference, and a minus sign negates. |
| FormatResults.DecimalMeans | lib/vsprintf.c:98-104 | atoi of what %d prints is the number exactly if it is not the most negative one; digits only, no zero in front, a minus sign for negative ones. |
| FormatResults.HexMeans | lib/vsprintf.c:92-97 | What %x and %X print has the value of the number in base 16, in base-16 digits, exactly if it is not negative. |
| FormatResults.TextMeans | lib/vsprintf.c:105-109 | %s prints the string. |
| FormatResults.CharMeans | lib/vsprintf.c:88-91 | %c prints the character, and nothing for zero. |
| FormatResults.WidthPads | lib/vsprintf.c:116-123 | With a width, what the letter prints on its own comes last, behind zeros or spaces up to the width. |
| FormatResults.FormatAppend | lib/vsprintf.c:56-124 | A format that is followed by another prints what it prints, and then the other what it prints. |
| FormatResults.ChildName | mm/forkexit.c:63-63 | The name fork makes up: the parent's name, an underline, and the pid in decimal. |
| FormatSpec.FormatOfPieces | lib/vsprintf.c:56-124 | Whatever pieces a format was written from, each is printed as if it stood alone. |
| Printer.I2a | lib/vsprintf.c:26-36 | The recursion through an advancing pointer writes the digits and nothing else. |
| Printer.Vsprintf | lib/vsprintf.c:45-129 | The buffer holds what the format says, with a zero behind it, and the length is returned. |
| Printer.Isnum | lib/misc.c:175-188 | True exactly for the strings on which atoi does not stop. |
| Printer.ParseInt | lib/misc.c:193-213 | The loop accumulates the number with 32-bit arithmetic, or stops at a character that is no digit. |

## Left out

- Boot code, assembly, descriptor tables, interrupt entry and exit: hardware effects. kernel/kernel.asm enables
  interrupts again inside system calls; here an interrupt happens between calls.
- kernel/hd.c: the disk is an array of sectors, and reading and writing sectors are copies.
- kernel/console.c, kernel/keyboard.c, kernel/tty.c: the terminal; device files in `do_open` and `do_rdwt`.
- kernel/log.c, fs/disklog.c and all debug output.
- `do_lseek`, which no message reaches.
- `alloc_pages`: it depends on processor registers, and takes data frames from the area of process images.
- ELF loading, names and registers in `do_exec`; the callers of the C library; command/.
- Ipc.Kernel.MsgSend: does not print the deadlock message; a deadlock is a returned flag, and the state is as before.
- Ipc.Kernel.SysSendrec: does not model the table index for a receive from ANY or INTERRUPT, which lies outside the
  table; that comparison is made for pids only. A send to one of them is not modelled.
- Ipc.Kernel.MsgReceive: does not switch processes; giving up the processor is an event of its own in `Fairness`.
- Scheduler.Cpu.ClockHandler: does not call `inform_int`; the keyboard's interrupt is an event of its own.
- Scheduler.Cpu.Schedule: does not end when no runnable process has ticks or priority, as in the code; its
  precondition says that one has, which is when it ends: Fairness.SearchEndsIff.
- FileIo.DoRdwt: does not check the end of the disk; the last chunk may read up to one buffer behind a file. It does not
  model a negative length, nor a read at a position behind the end of a directory that unlink has cut, where the number
  of bytes left is negative.
- FileTable.Tables.Open: does not search the directory or the maps; what these give is passed in, with the directory's
  new size, as their own modules compute it.
- FileTable.Tables.Unlink: does not clear the maps or the directory entry, which FreeMap, InodeMap and Directory do; the
  directory's new size is passed in.
- FileTable.Tables.Stat: does not return the record; it is there for what stat does to the slots.
- Lifecycle.MemoryManager.DoExit: does not run the teardown, but sets the flags that it leaves: LifeIpc.AbortIsSilence.
- Lifecycle.MemoryManager.DoKill: the same.
- Lifecycle.MemoryManager.DoProcessExit: does not send the message to the file system.
- Lifecycle.MemoryManager.Cleanup: does not send the answer; it is appended to a list.
- Heap.BlockMaps.DoMallocFree: does not accept sizes for which the search would leave the row, or of -31 and below.
- Directory.RootDir.NewDirEntry: does not check that the directory has room, as the code does not. It always has:
  DirOps.AlwaysRoom.
- Printer.Vsprintf: does not model a format that ends inside a conversion.
- MapCases.CmdTarIsFreed: does not include the sectors at the end of the disk that the disk log takes.
- One device and one super block. Liveness of replies from tasks to processes that have been killed.
- A message is a record with the fields the kernel and the memory manager use; memory is one map per process.
