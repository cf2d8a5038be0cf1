# Verified models of a teaching operating system's memory, scheduler and object store

Three machines of the assignments are modelled as they are written, in imperative Dafny, each proved
against a specification on values about which the main theorems are stated.

* **Page tables** (`Paging.dfy`, `Segments.dfy`, `Growth.dfy`, `Pruning.dfy`, `Teardown.dfy`, `Space.dfy`,
  `Room.dfy` and `AddressSpace.dfy` with the machine itself): physical memory is an array of 64-bit words, 512 to a
  frame. `prepare_context_mm`, `handle_page_fault`, `expand`, `shrink`, `write` and `cleanup_context_mm`
  walk and write it. A ghost map from frame to path is the proof that the tables form a tree; it is the
  invariant of every run, together with access rights, agreement of the TLB with the tables and
  conservation of frames. Runs are proved to implement a set of mapped pages.
* **Scheduler** (`Scheduler.dfy`, `Process.dfy`, `TrapFrame.dfy`, `Kernel.dfy`): the handlers of `schedule.c`
  on a context list, `free_os_pfn` and trap frames, each equal to a step of a state machine. Theorems are
  about all runs, for any number of processes N >= 2: safety, bounded waiting, exact wake-up, register
  isolation, stack frames, signal handlers, the memory of clones. The slots of the trap frames are proved
  against the pushes and pops around the handlers.
* **Object store** (`Bitmap.dfy`, `CacheSpec.dfy`, `CacheUse.dfy`, `BlockCache.dfy`, `ObjectTable.dfy`,
  `ObjectRun.dfy`): the bitmap allocators, the write-back LRU cache with its two linked structures over the same nodes, the
  object table on top of it, mounting and unmounting. `Common.dfy` holds what all share.

## Repairs in the block cache

The list operations, chain insertion, search, allocators and addressing of `Assn4/objstore.c` are as
written. The cache as a whole is proved with four repairs to that file, and what happens without each is
stated as well, in `CacheSpec.dfy` for (a) and (d) and in `BlockCache.dfy` for (b) and (c):

* (a) lines 354-358: a hit carries the dirty flag into the new node. Without it: `HitAsWrittenFlushes`, `LostWrite`.
* (b) lines 522-524: removing the head of a chain keeps the rest. Without it:
  `RemoveFromChainAsWritten`, `LoseFromIndex`, `LoseWrittenBlock`.
* (c) lines 363-366: a hit takes the old node out of its chain before it is discarded. Without
  it: `HitAsWritten`.
* (d) lines 269, 286, 385: room is made before the slot is taken, so at most 32766 blocks are resident on
  32766 slots. Without it: `SlotsStayDistinctIff`, `SlotZeroShared`.

## Where the code and its documentation differ

The code is followed, and the difference is a theorem:

* Accesses to DATA and RODATA are promised up to `next_free - 1`; the tests at lines 367 and 416 of
  `Assn2/entry.c` are `>` and admit `next_free` too (`HandlePageFault`, `TouchAtMarker`).
* `shrink` multiplies in 32 bits, so requests of 2^20 pages and more can pass its guard (`ShrinkGuard`, `ShrinkWrapWitness`).
* `write` promises a check of the buffer and looks up its first page only (`SysWrite`, `WriteAcrossPages`).
* `sleep(0)` never wakes (`SleepWakesIff`), and a sleeper's rax is not saved (`SleptAndResumed`, `RaxLost`).
* An alarm is promised after every so many timer interrupts, and the handler counts only those that find the
  process current (`AlarmRings`, `AlarmTimerIff`, `AlarmLate`).
* A pid that is reused and exits between two ticks loses its first stack (`ExitLeaksIff`, `LeakWitness`).
* The teardown frees the shared L3 table twice, frees the last page it found again where the first data page
  was unmapped, and frees nothing that faults mapped elsewhere (`CleanupContextMm`).

## Assumptions

* `os_pfn_alloc` returns an unused frame, zero-filled for OS_PT_REG, with number below 2^20, and
  allocation finds one: a handler is called only when the pools hold the frames it takes (`Serves`). Memory
  does not run out where there are as many frames as the segments have pages and tables (`Boot`,
  `EnoughIf`). Allocation picks any free frame.
* `os_pfn_free` leaves the words of a frame alone: the teardown reads tables after it has freed them
  (`Assn1/context_mm.c` lines 192 and 223-231).
* Segments satisfy `Layout`, which the constants of `Assn1/context.h` do (`ContextLayout`). Segment ends are
  inclusive, as the fault handler's tests read them.
* `list[i].pid == i`; slot 0 is the swapper, which makes no system call; `get_new_ctx` answers an unused slot.
* SIGALRM is 2 and there are 3 signals; the header that defines them is not part of this model.
* The loop of `shrink` counts to its 32-bit argument. `invlpg` drops the translation of the page named by bits 12 to 47.
* Disk reads and writes succeed, the disk has at least 2^23 blocks, and memory for nodes and buffers is available.
* Ids passed to the object table are 2 or more and their blocks are on the disk; `fetch_free_id` answers [2, 2^20).

## Model

| member | source | states |
|---|---|---|
| `Paging.EncodeDecode` | Assn2/entry.c:377-407 | An entry written as `(pfn << 12) \| flags` reads back as the same frame exactly when pfn < 2^20 (the shift is a u32 shift), and is 4096 pfn + flags then; the present, write and user bits, bits 0 to 2, read back always |
| `Paging.ClearedEntry` | Assn2/entry.c:181-185 | `entry & ~1` is not present and still holds the old frame number |
| `Paging.ExtractOffsets` | Assn2/entry.c:357-361 | The four shift-and-mask extractions are the base-512 digits of the page number; put together with the offset in the page they are the low 48 bits of the address |
| `Paging.DigitsInjective` | Assn2/entry.c:357-361 | Numbers below 512^k with the same k digits are equal |
| `Paging.PagePathInjective` | Assn2/entry.c:357-361 | Two pages below 2^48 with the same four indices are the same page |
| `Paging.IndicesArePagePath` | Assn2/entry.c:357-361 | Indices of an address are those of the page the processor looks up: bits above 47 do not matter |
| `Paging.WalkOwned` | Assn2/entry.c:366-504 | In a tree, a walk that succeeds ends in a frame whose recorded path is the one walked |
| `Paging.NoSharing` | Assn2/entry.c:366-504 | No frame, table or leaf, is reached by two paths |
| `Paging.TranslationInjective` | Assn2/entry.c:366-504 | No two virtual pages translate to the same frame |
| `Paging.InstallWalk` | Assn2/entry.c:377-407 | Pointing an absent entry at a fresh frame (blank, if it is a table) makes exactly one new path walk and changes no other walk |
| `Paging.Install` | Assn2/entry.c:377-407 | The same write keeps the tree, with one more owned frame |
| `Paging.ClearWalk` | Assn2/entry.c:181-185 | Clearing the present bit of a leaf entry ends exactly one walk, stale frame number or not |
| `Paging.Clear` | Assn2/entry.c:181-185 | The same write keeps the tree, with one owned frame less |
| `Paging.Outside` | Assn1/context_mm.c:26-27 | Filling a frame outside the tree changes no walk and keeps the tree |
| `Segments.ShrinkGuard` | Assn2/entry.c:151-157 | The marker stays in the segment iff the request fits; the guard as written tests the request modulo 2^20 pages, and in a segment below 4 GB it decides the same as the unbounded test iff the request is below 2^20 pages or its remainder does not fit either |
| `Segments.ShrinkWrapWitness` | Assn2/entry.c:151-157 | Concrete case: 2^20 pages pass the guard of a segment with one page in use, and the marker leaves the segment |
| `Segments.ContextLayout` | Assn1/context.h:27-34 | Segments placed by these constants satisfy the layout that every other statement asks for |
| `Segments.TopIndices` | Assn2/entry.c:357-361 | Below 2^39 the L4 index is 0 and the L3 index is the 1 GB slot |
| `Segments.VisitedPages` | Assn2/entry.c:155-163 | The loop of shrink visits exactly the pages in [new marker, old marker) |
| `Segments.AdmitsIff` | Assn2/entry.c:366-504 | Segment by segment, which faults are admitted: DATA up to its marker, RODATA up to its marker for reads, all of STACK, nothing else, and none with an odd error code |
| `Growth.RightsGrown` | Assn2/entry.c:377-407 | Mapping along one path with the flags of its segment keeps: user everywhere, writable below L3 exactly outside the read-only slots, L4 entry writable |
| `Growth.GrownPages` | Assn2/entry.c:377-407 | Entries added along the path of an address change the translation of no other page |
| `Growth.GrownCoherent` | Assn2/entry.c:377-407 | Faults only add translations, so cached ones stay right |
| `Pruning.RemovedCoherent` | Assn2/entry.c:190-197 | After invlpg of the cleared page every cached translation agrees with the tables |
| `Growth.MappedUser` | Assn2/entry.c:376-407 | On values: what mapping the page of an address does to rights, translations and the TLB |
| `Growth.PageAtMarker` | Assn2/entry.c:366-374 | The one admitted address of DATA or RODATA whose page lies outside [start, next_free) is next_free itself |
| `Growth.PreparedConfined` | Assn1/context_mm.c:33-164 | Straight after preparation, mapped DATA and RODATA pages are all below next_free iff data.next_free > data.start |
| `Pruning.PrunedConfined` | Assn2/entry.c:151-202 | A shrink that fits keeps mapped pages of both segments below their markers |
| `Pruning.PrunedFits` | Assn2/entry.c:151-202 | A shrink that fits lowers the marker by its bytes and unmaps exactly the pages passed |
| `Pruning.PrunedOwner` | Assn2/entry.c:181-188 | The frames that leave the tree are those on visited paths |
| `Growth.FaultConfined` | Assn2/entry.c:366-422 | After an admitted fault mapped pages still lie below the markers iff it was not at a marker |
| `Teardown.CleanupTwice` | Assn1/context_mm.c:174-273 | The paths met twice by teardown are exactly: the shared L3 table, always, and the last leaf found when a later one is absent |
| `Teardown.CleanupCovers` | Assn1/context_mm.c:174-273 | The paths met are exactly the prefixes of the three pages' paths, down to the L2 table only where the leaf is absent |
| `Teardown.CleanupLog` | Assn1/context_mm.c:174-273 | The same for the frames freed, in any state with the tables of the three pages in place |
| `Teardown.PreparedOwners` | Assn1/context_mm.c:23-164 | Straight after preparation, the frames along the three paths are all but the root |
| `AddressSpaces.AddressSpace.constructor` | Assn1/context_mm.c:23-26 | A new machine, its memory included, with nothing mapped and every frame but the argument page free |
| `AddressSpaces.AddressSpace.AllocTable` | Assn1/context_mm.c:46-48 | os_pfn_alloc(OS_PT_REG): some free frame, zero-filled; no walk changes |
| `AddressSpaces.AddressSpace.WriteEntry` | Assn2/entry.c:381-381 | Writing an absent entry keeps the tree, grows the walks along one path only, and leaves 4096 f + flags there |
| `AddressSpaces.AddressSpace.NextTable` | Assn2/entry.c:377-382 | One upper level, whichever branch: the child table for the next index, tree kept, growth along one path, one frame taken iff the table was absent |
| `AddressSpaces.AddressSpace.WalkTables` | Assn2/entry.c:376-398 | The three upper levels end in the table that owns the first three indices |
| `AddressSpaces.AddressSpace.NextLeaf` | Assn2/entry.c:400-407 | A present leaf is kept, an absent one gets a frame from the user pool |
| `AddressSpaces.AddressSpace.MapPage` | Assn2/entry.c:376-407 | The four-level block: the page is mapped, on a fresh frame if it was not, whatever tables existed |
| `AddressSpaces.AddressSpace.AllocRoot` | Assn1/context_mm.c:25-27 | A tree with its root only |
| `AddressSpaces.AddressSpace.MapArgument` | Assn1/context_mm.c:119-161 | The data block maps arg_pfn at the first data page |
| `AddressSpaces.AddressSpace.PreparePage` | Assn1/context_mm.c:75-116 | One block of preparation: exactly one page more is walked, with the rights of its segment |
| `AddressSpaces.AddressSpace.PrepareContextMm` | Assn1/context_mm.c:23-164 | Afterwards exactly three pages are mapped: that of stack.end - 1, writable, and no other page of the stack; the first of the code, read-only; the first of the data, writable, on arg_pfn. The tree, rights, TLB and conservation invariants hold; at most 8 table frames and 2 user frames are taken |
| `AddressSpaces.AddressSpace.StartPages` | Assn1/context_mm.c:33-164 | The mapped pages of a prepared context by their numbers |
| `AddressSpaces.AddressSpace.StartRights` | Assn1/context_mm.c:33-164 | Which of them are writable |
| `AddressSpaces.AddressSpace.ConfinedAtStart` | Assn1/context_mm.c:33-164 | The marker invariant at the start, iff the data segment has a page in use |
| `AddressSpaces.AddressSpace.MapUser` | Assn2/entry.c:376-407 | Mapping a page in a prepared context keeps every invariant; the page has its segment's rights and no other translation changes |
| `AddressSpaces.AddressSpace.MapFault` | Assn2/entry.c:374-409 | The block of an admitted fault's segment: page mapped with its rights, marker invariant kept iff the fault is not at a marker |
| `AddressSpaces.AddressSpace.HandlePageFault` | Assn2/entry.c:324-513 | Segment by segment, on the fields: with an even error code any address of STACK resumes, mapped and writable; one of DATA resumes iff it is at most next_free, then writable; one of RODATA iff at most next_free and read, then read-only; an odd error code or an address in none of the three exits. An exit changes nothing; otherwise the page is on a fresh user frame if it was absent and all other translations are unchanged; a table frame is taken at most for each table that was absent; mapped pages stay below the markers iff the fault was not at a marker |
| `AddressSpaces.AddressSpace.TouchAtMarker` | Assn2/entry.c:366-374 | The written test admits next_free: the page there gets mapped, outside the used part |
| `AddressSpaces.AddressSpace.FindLeafTable` | Assn2/entry.c:165-179 | The walk of shrink and write finds the L1 table of the page, or the page is unmapped |
| `AddressSpaces.AddressSpace.ClearLeaf` | Assn2/entry.c:181-185 | The leaf's frame leaves the tree and exactly its path stops walking |
| `AddressSpaces.AddressSpace.ReleaseLeaf` | Assn2/entry.c:181-197 | Clear, free, invlpg: invariants (TLB coherence among them) kept with fills at any point, one frame moved from the tree to the pool |
| `AddressSpaces.AddressSpace.ShrinkPage` | Assn2/entry.c:156-199 | One page, mapped or not |
| `AddressSpaces.AddressSpace.ShrinkLoop` | Assn2/entry.c:155-199 | After `size` rounds exactly the visited pages are unmapped and their frames freed once each; tables stay |
| `AddressSpaces.AddressSpace.Shrink` | Assn2/entry.c:130-256 | Refused iff the guard says so, then nothing changes; otherwise returns the new marker, unmaps exactly the visited pages, frees exactly their frames, each once; markers stay in range iff the request fits |
| `AddressSpaces.AddressSpace.ShrinkFitting` | Assn2/entry.c:130-256 | In plain numbers: for a request that fits, MAP_WR takes 4096 size off data.next_free and MAP_RD off rodata.next_free, the other marker stays, the result is the new marker, and exactly the pages between it and the old one are unmapped |
| `AddressSpaces.AddressSpace.Expand` | Assn2/entry.c:98-128 | Refusals change nothing; otherwise next_free advances and the old value is returned; markers and mapped pages stay in range. In plain numbers, MAP_WR moves data.next_free up by 4096 size iff size is at most 512 and it stays within data.end, MAP_RD likewise rodata.next_free |
| `AddressSpaces.AddressSpace.LookUp` | Assn2/entry.c:46-80 | The walk answers whether the page is mapped |
| `AddressSpaces.AddressSpace.SysWrite` | Assn2/entry.c:46-95 | -1 iff the first page is unmapped or an argument is bad; otherwise the answer is at most the length and at most the string's length, and one of the two; the bytes written are all mapped iff the last one is, since only the first page is looked up |
| `AddressSpaces.AddressSpace.WriteAcrossPages` | Assn2/entry.c:46-95 | Concrete case: in a prepared context a write of two bytes across the end of the first data page is accepted, though its second byte is unmapped |
| `AddressSpaces.AddressSpace.MayFill` | Assn2/entry.c:190-197 | Between any two steps of a handler the processor may cache present translations (SDM 4.10): coherence allows it before every entry written |
| `AddressSpaces.AddressSpace.Unmap` | Assn2/entry.c:181-197 | The entry cleared while translations may be cached before and after: all but that page's stay right until invlpg |
| `AddressSpaces.AddressSpace.TlbFill` | Assn2/entry.c:190-197 | The processor may cache any present translation at any time (SDM 4.10): the invariant allows it |
| `AddressSpaces.AddressSpace.FreePath` | Assn1/context_mm.c:243-273 | One block of teardown, with its leaf or without: without it the L1 table stays and the frame found before is freed again; tables return to OS_PT_REG, pages to USER_REG |
| `AddressSpaces.AddressSpace.CleanupContextMm` | Assn1/context_mm.c:166-276 | In any state with the stack page mapped and the tables of the code and data pages in place: exactly which frames are freed, so that all a fault mapped elsewhere leaks, among them the frame of the page of stack.end - 1 and those of the first code and data pages that are mapped; exactly which are freed twice; how many calls are made; and the pool each returns to |
| `AddressSpaces.AddressSpace.PagesFreed` | Assn1/context_mm.c:166-276 | The frames of the three pages, by page number, are among those freed |
| `AddressSpaces.AddressSpace.CleanupPrepared` | Assn1/context_mm.c:166-276 | Straight after preparation: every frame reachable from pgd but pgd is freed, the page of stack.end - 1 among them; twice exactly the shared L3 table |
| `AddressSpaces.AddressSpace.Unshared` | Assn2/entry.c:366-504 | In every valid state two paths name one frame iff they are equal |
| `AddressSpaces.AddressSpace.FramesApart` | Assn2/entry.c:366-504 | Different pages have different frames, none free and none a table |
| `AddressSpaces.AddressSpace.WriteRights` | Assn2/entry.c:366-504 | A mapped page is writable over all four levels iff it is in DATA or STACK, never in CODE or RODATA |
| `AddressSpaces.AddressSpace.ShownAtStart` | Assn1/context_mm.c:33-164 | A prepared context shows exactly three mapped pages |
| `AddressSpaces.AddressSpace.ShownClosed` | Assn2/entry.c:98-256 | A machine is within its markers iff the space it shows is |
| `AddressSpaces.AddressSpace.PrepareShown` | Assn1/context_mm.c:23-164 | Preparation as it looks on the set of pages |
| `AddressSpaces.AddressSpace.FaultStep` | Assn2/entry.c:366-513 | A fault adds the page to the set of mapped pages iff it is admitted; pages stay below the markers iff it is not at one |
| `AddressSpaces.AddressSpace.ShrinkStep` | Assn2/entry.c:130-256 | A shrink takes exactly the visited pages out of the set and returns the specified value; markers and pages stay right iff it fits |
| `AddressSpaces.AddressSpace.Step` | Assn2/entry.c:98-256 | Each operation on the tables is the specified one on the set of pages and the markers; they stay right iff it meets neither gap |
| `AddressSpaces.AddressSpace.Run` | Assn2/entry.c:98-256 | Every sequence of faults, expand, shrink and TLB fills, of any length, up to the first admitted fault whose frames the pools do not hold, and to its end if there are frames for every page and table of the segments or four for every operation: the tables implement a set of pages, every call returns what that specification says, all invariants hold, and markers and pages are right throughout iff no operation meets one of the two gaps |
| `Spaces.NextClosedIff` | Assn2/entry.c:98-256 | From a state with right markers and pages below them, an operation leaves such a state iff it is neither a fault at a marker nor an accepted shrink that does not fit |
| `Spaces.ClosedRunIff` | Assn2/entry.c:98-256 | Over a whole run, markers and pages are right after every prefix iff no operation meets a gap |
| `AddressSpaces.Prepare` | Assn1/context_mm.c:23-164 | A machine from nothing to one prepared context: every frame accounted for, three pages mapped |
| `AddressSpaces.Boot` | Assn2/entry.c:98-256 | Boot, preparation and any run in one: all invariants, the specified pages and answers, the marker equivalence, and no stop when there are as many frames as the segments have pages and tables |
| `AddressSpaces.AddressSpace.RoomySuffices` | Assn2/entry.c:376-407 | With a frame for every page of the segments and every table of theirs, no operation runs out of frames in any state |
| `Room.FreeEnough` | Assn2/entry.c:376-407 | Frames in use have different paths among those possible, so enough are free for the paths missing |
| `Room.InsideMore` | Assn2/entry.c:376-407 | A fault adds walks only to the page at fault and its tables |
| `Room.InsidePruned` | Assn2/entry.c:151-202 | A shrink adds none |
| `Room.InsidePrepared` | Assn1/context_mm.c:23-164 | Preparation walks only pages of the segments and their tables |
| `Room.EnoughIf` | Assn2/entry.c:376-407 | For n pages in the segments, 3 n + 1 table frames and n user frames are enough for every run |
| `Room.TablePathsSize` | Assn2/entry.c:376-407 | Three tables a page and the root are always enough |
| `AddressSpaces.AddressSpace.FaultMaps` | Assn2/entry.c:366-513 | A fault on the set of pages, with the tables it may add |
| `AddressSpaces.AddressSpace.ExpandStep` | Assn2/entry.c:98-128 | An expand moves the marker of the specification and takes no frame |
| `AddressSpaces.AddressSpace.RunOps` | Assn2/entry.c:98-256 | The run itself, without the marker equivalence |
| `Spaces.ShrinkUndoesExpand` | Assn2/entry.c:98-202 | expand(n) then shrink(n) restores markers and mapped pages when those lie below the marker |
| `Spaces.MappedPruned` | Assn2/entry.c:151-202 | The mapped pages after the loop of shrink are those not visited |
| `Scheduler.PickNearest` | Assn3/schedule.c:151-162 | The pick is the nearest READY process after the current one, the swapper iff there is none |
| `Scheduler.FoundIffPicked` | Assn3/schedule.c:225-260 | The flag of the tick loop is set iff the pick is neither the swapper nor the current process |
| `Scheduler.StepSafe` | Assn3/schedule.c:166-283 | Every step keeps: exactly one RUNNING context and it is current, the swapper READY or RUNNING; shut-down happens only with no other process alive |
| `Scheduler.StepStacks` | Assn3/schedule.c:206-211 | Every step keeps stacks of live contexts and stacks waiting to be freed allocated and pairwise different |
| `Scheduler.TickFrees` | Assn3/schedule.c:206-211 | A tick frees allocated frames, each once, none the stack of a live context |
| `Scheduler.RunSafe` | Assn3/schedule.c:166-283 | Both invariants at the end of every run |
| `Scheduler.FreesBalanced` | Assn3/schedule.c:206-211 | Over any run, frees of a frame plus what is still held equals allocations plus what was held: no double free |
| `Scheduler.TickKeeps` | Assn3/schedule.c:206-260 | A tick moves no stack and kills no context; it empties slots 1 and up of free_os_pfn |
| `Scheduler.ExitKeeps` | Assn3/schedule.c:332-339 | An exit ends one context and records its stack, and touches no other stack |
| `Scheduler.ExitLeaksIff` | Assn3/schedule.c:339-339 | An exit loses a frame iff the slot still had a stack waiting to be freed, which line 339 overwrites |
| `Scheduler.LeakWitness` | Assn3/schedule.c:339-339 | Concrete run without a tick: an exit, a clone into its slot, a switch to the clone and its exit lose the first stack |
| `Scheduler.LeakStart` | Assn3/schedule.c:339-339 | A state from which that run can be made |
| `Scheduler.StepKeepsFrames` | Assn3/schedule.c:499-499 | No other step loses a frame |
| `Scheduler.StepTowards` | Assn3/schedule.c:151-162 | Every switch, and every tick, brings the CPU strictly nearer to any waiting READY process |
| `Scheduler.WaitsAtMostDist` | Assn3/schedule.c:225-260 | It runs within as many ticks as it is slots away |
| `Scheduler.BoundedWaiting` | Assn3/schedule.c:225-260 | A READY process other than the swapper runs within MAX_PROCESSES - 1 ticks in every run, and the swapper is not picked meanwhile |
| `Scheduler.StepSleeper` | Assn3/schedule.c:226-231 | Only ticks change a sleeper: count down, wake at 1 |
| `Scheduler.WakesExactly` | Assn3/schedule.c:226-231 | A sleeper with k > 0 ticks left is unchanged but for the count until the k-th tick and is READY or RUNNING at it |
| `Scheduler.SleeperRuns` | Assn3/schedule.c:226-231 | It runs within k + MAX_PROCESSES - 1 ticks and not before k; with 0 left, never |
| `Scheduler.SleepReturns` | Assn3/schedule.c:431-477 | The same from the call of sleep(k) |
| `Scheduler.SleepWakesIff` | Assn3/schedule.c:431-440 | A process that calls sleep(k) can ever run again iff k > 0 |
| `Scheduler.StepFiles` | Assn3/schedule.c:16-122 | One CPU with saved contexts refines a register file per process: a step changes the file of the current process, and of the slot a clone fills, and no other |
| `Scheduler.ResumedAsSaved` | Assn3/schedule.c:97-122 | A process off the CPU resumes with its saved registers in every run, by whichever path |
| `Scheduler.PreemptedAndResumed` | Assn3/schedule.c:246-283 | A preempted process resumes as it was, after the alarm signal if that was delivered |
| `Scheduler.SleptAndResumed` | Assn3/schedule.c:71-122 | A sleeper resumes with every register but rax; isolated iff rax already held its last saved value |
| `Scheduler.StepArmed` | Assn3/schedule.c:237-244 | Only ticks during which a process is current count its alarm; it fires at 1 and is reloaded |
| `Scheduler.AlarmBalance` | Assn3/schedule.c:237-244 | Over any run, own ticks and deliveries keep step with what is left of the count |
| `Scheduler.AlarmRings` | Assn3/schedule.c:614-623 | After alarm(k) with a handler, SIGALRM is delivered at the k-th tick during which the process is current and every k such ticks after: n of them make n / k deliveries |
| `Scheduler.AlarmNeedsHandler` | Assn3/schedule.c:240-243 | At the last tick of the count: delivery and reload iff a handler is registered; otherwise the count stops |
| `Scheduler.AlarmTimerIff` | Assn3/schedule.c:237-244 | n timer interrupts make n / k deliveries iff the process's own ticks give that quotient |
| `Scheduler.AlarmLate` | Assn3/schedule.c:237-244 | Concrete case: with another process READY, an alarm every tick is delivered once in two ticks |
| `Scheduler.RaxLost` | Assn3/schedule.c:71-95 | Concrete run: a process whose rax differs from what was last saved sleeps, and ticks alone resume it with another rax |
| `Scheduler.RaxStart` | Assn3/schedule.c:71-95 | A state from which that run can be made |
| `Processes.PickInOrder` | Assn3/schedule.c:151-162 | In pid order: the first READY process after the current one, else the first READY one from 1 up, else the swapper |
| `Processes.LeaverHandsOver` | Assn3/schedule.c:431-475 | A sleep, or an exit that is not the last, hands the CPU to that process, with its saved registers |
| `Processes.TickHandsOver` | Assn3/schedule.c:225-259 | A tick hands it to that process among those READY once sleepers have been woken, or leaves it where it is when there is none |
| `Processes.ShutsDownIff` | Assn3/schedule.c:334-341 | A step shuts the system down iff it ends the current process and every other slot but the swapper is UNUSED |
| `Processes.StepKeepsContext` | Assn3/schedule.c:602-611 | No step changes the page tables or segments of a context, and none its handlers but an accepted signal() of its own process, which changes that one |
| `Processes.StepEndsIff` | Assn3/schedule.c:588-589 | A process ends by exit or by a fault of its own without a handler, and by nothing else |
| `Processes.HandlerStays` | Assn3/schedule.c:607-610 | Over any run, a handler is what it was until its own process registers another for the same signal or ends |
| `Processes.SignalThenFault` | Assn3/schedule.c:591-610 | After an accepted signal(k, h), in every state up to the next one for k or the exit, handlers[k] is h, and a fault k of the process enters it: rip is h, the old rip is pushed, the other registers stay, the process lives |
| `Processes.SignalThenSignal` | Assn3/schedule.c:607-610 | The next accepted signal(k, _) then returns h |
| `Processes.FaultUnhandled` | Assn3/schedule.c:588-599 | A fault without a handler ends the process; SIGALRM without one changes nothing |
| `Processes.TickDelivers` | Assn3/schedule.c:237-244 | Which tick delivers SIGALRM, what it does to registers, user memory and the count, in the fields |
| `Processes.AlarmReturns` | Assn3/schedule.c:614-623 | alarm(j) after alarm(k) and n own ticks returns k - n % k |
| `Processes.NeverRings` | Assn3/schedule.c:237-244 | A process with no alarm set, as a clone has none, gets no SIGALRM until it sets one |
| `Processes.CloneCopies` | Assn3/schedule.c:484-572 | After a clone the page tables, each of the four segments and the handlers of the child are the parent's, its sleep, alarm and signal counters 0, its entry registers those given; no other context changes |
| `Processes.MemoryStays` | Assn3/schedule.c:484-572 | Over any run, the page tables and segments of a process that does not end stay as they are |
| `Processes.ClonesShareMemory` | Assn3/schedule.c:544-562 | Parent and clone have the same page tables and segments for as long as both live |
| `TrapFrames.PopsUndoPushes` | Assn3/schedule.c:169-182 | Popping in the reverse order of any pushes gives each register back |
| `TrapFrames.TimerFrame` | Assn3/schedule.c:169-182 | The slots that the timer handler reads are the registers that the interrupt and its fourteen pushes put there |
| `TrapFrames.TimerReturn` | Assn3/schedule.c:264-280 | Its pops and iretq load exactly what those slots hold |
| `TrapFrames.CallReturn` | Assn3/schedule.c:457-475 | The pops from +1 on and the iretq at the end of sleep and exit load exactly the slots that the switch fills |
| `TrapFrames.CallFrame` | Assn3/schedule.c:71-95 | The slots that a system call is saved from are in the order of those pops without rax, one slot higher |
| `SchedulerKernel.Kernel.PickNextContext` | Assn3/schedule.c:151-162 | The loop computes the specified pick |
| `SchedulerKernel.Kernel.SwitchContextTimer` | Assn3/schedule.c:16-68 | Saves the whole interrupted frame in current, leaves the next context's registers in the frame |
| `SchedulerKernel.Kernel.SwitchContextSleep` | Assn3/schedule.c:71-122 | Saves slots +2..+20 in current (rax kept), and what the pops from +1 on load is the next context's registers |
| `SchedulerKernel.Kernel.FreePending` | Assn3/schedule.c:206-211 | Exactly the pending frames are freed and slots 1 and up cleared |
| `SchedulerKernel.Kernel.WakeSleepers` | Assn3/schedule.c:225-235 | Every sleeper takes its step; the flag is set iff another READY process exists |
| `SchedulerKernel.Kernel.InvokeSyncSignal` | Assn3/schedule.c:574-599 | Rejected, exit or delivery: return address pushed, rsp and rip replaced |
| `SchedulerKernel.Kernel.RingAlarm` | Assn3/schedule.c:237-244 | The alarm count of the current context, its reload, and delivery when it fires |
| `SchedulerKernel.Kernel.Schedule` | Assn3/schedule.c:247-259 | The switch at the end of the handler is exactly the specified one |
| `SchedulerKernel.Kernel.HandleTimerTick` | Assn3/schedule.c:206-283 | The handler makes exactly the tick step of the specification |
| `SchedulerKernel.Kernel.DoSleep` | Assn3/schedule.c:431-475 | The handler makes exactly the sleep step |
| `SchedulerKernel.Kernel.DoExit` | Assn3/schedule.c:321-378 | The handler makes exactly the exit step; it shuts down iff no other process but the swapper is there |
| `SchedulerKernel.Kernel.DoClone` | Assn3/schedule.c:484-572 | The handler makes exactly the clone step: page tables, each segment and the handlers are the parent's, counters and signals cleared, the entry registers set |
| `SchedulerKernel.Kernel.DoSignal` | Assn3/schedule.c:602-611 | Registers the handler at its number and returns the old one; bad arguments answer -1 and change nothing |
| `SchedulerKernel.Kernel.DoAlarm` | Assn3/schedule.c:614-623 | Sets the count and its reload value and returns what was left |
| `Bitmaps.Bitmap.TakeFromByte` | Assn4/objstore.c:136-151 | The lowest clear, non-reserved bit of one byte, set; or nothing changes |
| `Bitmaps.Bitmap.Alloc` | Assn4/objstore.c:133-194 | 0 iff every id but 0 and 1 is taken; otherwise the least clear id from the cursor's byte up, or the least of all if there is none there; only its bit is set, cursor at its byte |
| `Bitmaps.FirstFromCursor` | Assn4/objstore.c:136-151 | That id is the first in the order of the search |
| `Bitmaps.Bitmap.AllocMany` | Assn4/objstore.c:133-194 | Over a run that only allocates, answers rise until the search wraps and rise again from the bottom; what is left clear is what was not answered |
| `Bitmaps.Bitmap.Free` | Assn4/objstore.c:201-219 | Exactly one bit is cleared, that of the id's place in its byte |
| `Bitmaps.Bitmap.Step` | Assn4/objstore.c:133-219 | An allocation answers 0 iff every id clear at first is held, otherwise such an id that is not |
| `Bitmaps.Bitmap.Run` | Assn4/objstore.c:133-219 | Over any run of allocations and frees, each allocation is answered so, ids held are distinct and the set bits are those of the start plus the held ones, in number too |
| `Bitmaps.TakeBit` | Assn4/objstore.c:146-146 | Setting the mask of an id sets that bit and no other |
| `Bitmaps.DropBit` | Assn4/objstore.c:202-203 | Clearing with the inverted mask clears that bit and no other |
| `CacheSpec.ReadInvisible` | Assn4/objstore.c:258-280 | A read, hit or miss, returns the block's contents and changes no block's (repairs a to d) |
| `CacheSpec.WriteVisible` | Assn4/objstore.c:282-298 | A write changes the contents of its block and of no other (repairs a to d) |
| `CacheSpec.EvictKeeps` | Assn4/objstore.c:385-389 | Eviction with write-back changes no block's contents |
| `CacheSpec.SyncFlushes` | Assn4/objstore.c:789-808 | After obj_sync the disk alone holds every block's contents |
| `CacheSpec.CacheInvisible` | Assn4/objstore.c:258-298 | After any run a block reads as the last value written to it, or the initial disk; after a sync the disk holds just that |
| `CacheSpec.RecencyOrder` | Assn4/objstore.c:354-395 | In every run the list is in order of last use, so the evicted tail is the block used longest ago |
| `CacheUse.ResidentIff` | Assn4/objstore.c:373-395 | Least recently used, exactly: after any run a block is resident iff it was used and fewer than the capacity of other blocks were used since |
| `CacheUse.PositionIs` | Assn4/objstore.c:398-412 | The i-th block of the list is the one after which i others were used |
| `CacheUse.DirtyIff` | Assn4/objstore.c:282-298 | A resident block is dirty iff this operation wrote it or it was dirty before; a sync clears no flag |
| `CacheUse.WrittenBack` | Assn4/objstore.c:385-389 | The disk is written only at blocks that were dirty: by a sync, or by the eviction that drops the block |
| `CacheSpec.HitAsWrittenFlushes` | Assn4/objstore.c:354-367 | Without repair (a), after a hit obj_sync stores all contents iff the block hit had nothing to write back |
| `CacheSpec.LostWrite` | Assn4/objstore.c:354-367 | Concrete case: write, read, sync; the disk keeps the old value |
| `CacheSpec.SlotsStayDistinctIff` | Assn4/objstore.c:269-286 | Without repair (d), residents keep different slots after a miss iff a slot was free or no resident that stays is on slot 0 |
| `CacheSpec.SlotZeroShared` | Assn4/objstore.c:385-389 | Concrete case: from a cache with all slots in use, two misses put two residents on slot 0 |
| `BlockCaches.CutLinks` | Assn4/objstore.c:424-432 | Links that step around one node spell the list without it |
| `BlockCaches.BlockCache.AddAtTop` | Assn4/objstore.c:398-412 | As written: the links spell [node] + list, size and both ends right |
| `BlockCaches.BlockCache.Unlink` | Assn4/objstore.c:447-466 | As written: the links spell the list without the node, size and both ends right |
| `BlockCaches.BlockCache.GetCacheObj` | Assn4/objstore.c:492-504 | Finds the node of a block in its chain iff there is one |
| `BlockCaches.BlockCache.InsertInChain` | Assn4/objstore.c:468-490 | As written: appends to one chain, the others stay |
| `BlockCaches.BlockCache.RemoveFromChain` | Assn4/objstore.c:507-528 | With repair (b): one node leaves its chain |
| `BlockCaches.BlockCache.RemoveFromChainAsWritten` | Assn4/objstore.c:507-528 | As written: the other blocks of the chain stay iff the block was not the head of others |
| `BlockCaches.BlockCache.Retrieve` | Assn4/objstore.c:341-371 | With repairs (a), (b), (c): null iff not resident; a hit moves the block to the front, slot and dirty flag kept |
| `BlockCaches.BlockCache.HitAsWritten` | Assn4/objstore.c:360-367 | The hit as written, without repair (c): at every hit the removal from the chain stops at, and reads, the node already discarded |
| `BlockCaches.BlockCache.LoseFromIndex` | Assn4/objstore.c:507-528 | Without repair (b): removing the block at the head of another's chain leaves the other in the list and not to be found |
| `BlockCaches.LoseWrittenBlock` | Assn4/objstore.c:507-528 | Concrete case from an empty cache: two blocks written that share a chain; after the removal of one the other, dirty, is in the list and lost to lookups |
| `BlockCaches.BlockCache.EvictLast` | Assn4/objstore.c:385-389 | The last node leaves chain, list and slot map and is written back iff dirty |
| `BlockCaches.BlockCache.TakeSlot` | Assn4/objstore.c:269-271 | A free slot is taken and filled; no resident's slot changes |
| `BlockCaches.BlockCache.EnsureRoom` | Assn4/objstore.c:385-389 | Room is made in a full cache; the block asked for stays absent and its contents on disk |
| `BlockCaches.BlockCache.Miss` | Assn4/objstore.c:373-396 | With repair (d): room is made, then the block is in front |
| `BlockCaches.BlockCache.Read` | Assn4/objstore.c:258-280 | The linked structures make exactly the read step and return the contents |
| `BlockCaches.BlockCache.Finish` | Assn4/objstore.c:284-297 | Both branches of a write after the lookup: the specified step |
| `BlockCaches.BlockCache.Write` | Assn4/objstore.c:282-298 | The linked structures make exactly the write step |
| `BlockCaches.BlockCache.Sync` | Assn4/objstore.c:789-808 | The loop over all chains leaves the disk exactly as the sync step does |
| `BlockCaches.BlockCache.Serve` | Assn4/objstore.c:258-298 | Any run on the linked structures: every read answers the last value written, and the list is that of the specified run |
| `ObjectTables.TableFillsReserved` | Assn4/objstore.c:547-549 | The table blocks of ids in [2, 2^20) are exactly 1312 to 17695, the end of what objstore_init reserves (8 * 2212) |
| `ObjectTables.BlockReservedIff` | Assn4/objstore.c:547-549 | A record lies in the reserved blocks iff its id is below 2^20 + 2; from there on it shares the data blocks |
| `ObjectTables.PlacesApart` | Assn4/objstore.c:547-550 | Different ids have different places in the table |
| `ObjectTables.RecordsApart` | Assn4/objstore.c:576-576 | Storing one record of a block changes that record and no other |
| `ObjectTables.PutChangesOne` | Assn4/objstore.c:567-580 | Read, store, write: the object of one id changes, and no block but its own |
| `ObjectTables.ObjectStore.GetObjectById` | Assn4/objstore.c:546-563 | Returns the 64 bytes at the id's place, in block 1312 + (id - 2) / 64, if their first four spell the id, none otherwise; changes no contents |
| `ObjectTables.ObjectStore.InsertToDisk` | Assn4/objstore.c:567-580 | Afterwards the id reads back as the object, whose bytes stand at 64 ((id - 2) mod 64) in block 1312 + (id - 2) / 64; every other id, and every block but that one, is unchanged |
| `ObjectTables.ObjectStore.FetchFreeBlock` | Assn4/objstore.c:177-195 | Never a metadata or table block; 0 iff every other block is taken |
| `ObjectTables.ObjectStore.FreeBlock` | Assn4/objstore.c:215-219 | Frees one block; the reserved range stays taken iff the block is not in it |
| `ObjectTables.ObjectStore.WriteData` | Assn4/objstore.c:282-298 | Writing a data block changes no object and no other block |
| `ObjectTables.ObjectStore.LoadMap` | Assn4/objstore.c:1098-1107 | Byte x of the bitmap read is byte x mod 4096 of the x / 4096-th block |
| `ObjectTables.ObjectStore.SaveBlock` | Assn4/objstore.c:1143-1159 | A metadata block written around the cache |
| `ObjectTables.ObjectStore.SaveMap` | Assn4/objstore.c:1147-1157 | And so are the blocks written; cached blocks and all others stay |
| `ObjectTables.ObjectStore.Init` | Assn4/objstore.c:1079-1117 | Bitmaps loaded byte for byte from blocks 1024 and 1056 on, ids 0 and 1 cleared, the first 17696 blocks reserved |
| `ObjectTables.ObjectStore.Destroy` | Assn4/objstore.c:1122-1169 | Afterwards the disk spells both bitmaps byte for byte from blocks 1024 and 1056 on and holds the contents of every table and data block |
| `ObjectTables.ObjectStore.ReadBlock` | Assn4/objstore.c:258-280 | A table or data block read through the cache, no contents changed |
| `ObjectTables.ObjectStore.StoreInBlock` | Assn4/objstore.c:576-578 | The record stored in the block read and written back: exactly the specified steps |
| `ObjectTables.Remount` | Assn4/objstore.c:1079-1169 | Unmount then mount: same objects, same data blocks, same free ids and blocks, ids 0 and 1 clear |
| `ObjectRuns.LeasedNew` | Assn4/objstore.c:177-195 | A block just fetched is none of those held and none that was taken |
| `ObjectRuns.LeasedFree` | Assn4/objstore.c:215-219 | Giving back a held block frees that one only |
| `ObjectRuns.LastPutStep` | Assn4/objstore.c:567-580 | What is last put under an id changes by a put of that id and by nothing else |
| `ObjectRuns.LeaseStep` | Assn4/objstore.c:177-219 | What becomes of a block by one more operation: taken, written, given back |
| `ObjectRuns.FetchGrants` | Assn4/objstore.c:177-195 | A block is refused iff every data block was taken at first or is held, otherwise it is one that is not |
| `ObjectTables.ObjectStore.SyncAll` | Assn4/objstore.c:789-808 | Afterwards the disk holds every block's contents and no contents changed |
| `ObjectRuns.StepObjects` | Assn4/objstore.c:546-580 | Puts, gets and syncs within a run; after a sync the disk holds every block's contents |
| `ObjectRuns.StepStore` | Assn4/objstore.c:258-298 | The operations on the cache leave both bitmaps alone |
| `ObjectRuns.StepData` | Assn4/objstore.c:258-298 | Reads and writes of held data blocks within a run |
| `ObjectRuns.StepBlocks` | Assn4/objstore.c:177-219 | Fetching and freeing blocks within a run: refused iff none is left, and a block given back is free |
| `ObjectRuns.StepIds` | Assn4/objstore.c:156-174 | Taking and giving back ids within a run: answered 0 iff every id clear at first is held, otherwise one that is not |
| `ObjectRuns.ToldQuiet` | Assn4/objstore.c:177-580 | One more right answer keeps all that is told of a run |
| `ObjectRuns.ToldRemounted` | Assn4/objstore.c:1079-1169 | What is told of a run holds across an unmount and a mount |
| `ObjectRuns.Run` | Assn4/objstore.c:156-580 | Any run of puts, gets, ids and blocks taken and given back, reads, writes and syncs: each get answers the last object put, each read of a held block the last data written to it, a block is refused iff none is left, ids are answered fresh, held blocks are apart from each other and the table, and both maps have gained exactly what is held |
| `ObjectRuns.OneSession` | Assn4/objstore.c:1079-1169 | A run followed by an unmount and a mount |
| `ObjectRuns.Sessions` | Assn4/objstore.c:1079-1169 | Any number of runs with an unmount and a mount after each: the same holds of all their operations as of one run |

## Left out

- Frames of number 2^20 and above: the machine is built with at most 2^20 frames; `EncodeDecode` says that no larger number survives.
- AddressSpaces.AddressSpace.CleanupContextMm: states without the stack page or without the upper tables of the code or data page; there the source follows pointers it has not set.
- Printed messages, `set_tss_stack_ptr` and `ack_irq` have no counterpart.
- SchedulerKernel.Kernel.DoClone: the child's name and `os_rsp`; the frame is chosen by the caller of the model.
- SchedulerKernel.Kernel.DoExit: the register frame when an exit is reached from a signal rather than a system call; the exit step itself is the same.
- SchedulerKernel.Kernel.DoSignal: signal numbers from `MAX_SIGNALS` up, which line 604 of `Assn3/schedule.c` does not reject, so that the source writes beyond the handler array; what lies there is not modelled.
- BlockCaches.BlockCache.Retrieve: that the source reads a node after `free`, lines 363-365; in the model a discarded node is merely unlinked, and repair (c) fixes the order.
- AddressSpaces.AddressSpace.SysWrite: reading the string and printing it; its length is a parameter, and a length past an unmapped page is not modelled as a fault.
- ObjectTables.ObjectStore.GetObjectById: ids 0 and 1, for which the subtraction wraps around and a metadata block is read; `InsertToDisk` likewise.
- AddressSpaces.AddressSpace.Run: mappings of one context only; contexts made by clone share the tables and run the same handlers.
- Segments.ShrinkGuard: counters of 2^31 and above, for which the signed loop variable overflows.
- `objstore_init` and `objstore_destroy` on the key hash table: chains are rebuilt from entries of another width than they are saved with; the blocks of the table are a parameter.
- `find_read_cached`, `find_write_cached`, `objstore_read`, `objstore_write`: the block count is bumped twice, the first indirect block is always written and the read loop wraps for sizes that are no multiple of 4096.
- `insert_to_hash_table`, `create_object`, `destroy_object`, `rename_object`: heads are replaced and nodes freed while still linked.
- `remove_object_cached`, `free_object_blocks`: swapped arguments and an inverted test.
- The uncached branches of `Assn4/objstore.c`, which are stubs, and `switch_context_exit`, which nothing calls.
- Error returns of `read_block`, `write_block` and `mmap`.
- `handle_div_by_zero` and the other exception entry code, beyond its effect on the trap frame. The code that pushes the frame of a system call is not part of this model; `CallFrame` says which order the slots that the handlers read are in.
- ObjectTables.Remount: the key hash table, whose blocks are a parameter of `Destroy` and which `Init` does not read back.
- The initial value of `next_free`, which code outside the repository sets; `ConfinedAtStart` says what it must be.
- `Assn4/objfs.c` passes requests from FUSE on to the store; the test programs, both `init.c` files, `pthreads`, `HW1` and `HW2` are user programs that hold no kernel or store state.
