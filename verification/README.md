# NAUL kernel: a verified model

This project models five parts of the NAUL kernel and proves what they are for.

* **Physical allocator** (`SlotTable`, `Allocator`, `AllocatorRuns`, `AllocatorThreads`): the record table
  with its reused slots, the restarting first-fit scans, the lock. `SlotTable` holds the specification
  functions, the class `Allocator` updates the table in place, `AllocatorRuns` is about whole runs and
  `AllocatorThreads` about any number of threads interleaved statement by statement.
* **Scheduler, joins and sleeping** (`Rings`, `Schedules`, `Scheduler`, `SchedulerRuns`, `JoinWindows`,
  `Deadlines`, `Hpet`):
  the intrusive circular lists on the heap, the run queue whose head is itself a thread, waiting for a
  thread's end, the cleaner, and deadlines on a wrapping 64-bit counter. `Schedules` and `Deadlines` hold the
  specification on values; each method of the classes is proved to be the operation of that name there.
  `SchedulerRuns` takes each system call as one step, `JoinWindows` takes waiting and exiting apart at their
  critical sections.
* **Processes** (`Paging`, `Lifetimes`, `Coverage`, `Processes`, `Parties`, `Cleaners`): `createTable` against
  the four-level walk of section 4.5 of the Intel manual, volume 3A; `getAddress` against both; `execute`, `quit`
  and the cleaner against the allocator, in place (`Processes`, `Cleaners`), on the record table (`Lifetimes`; what
  the blocks cover, in figures, in `Coverage`) and as one party among others whose calls come in between
  (`Parties`).
* **Strings and symbols** (`Digits`, `Strings`, `Symbols`): hexadecimal conversion, the two-pass parser of
  `nm` output and the nearest-symbol search.
* **Number formatting** (`FormatSpecs`, `Fields`, `Integers`, `Doubles`, `HexFloats`, `Decimals`,
  `DecimalFloats`, `DecimalAccuracy`, `SmallDecimals`, `Floats`, `Printf`, `Standard`, `Conformance`): the
  nanoprintf configuration of `programs/compatibility/include/stdio.h`, conversion specifications, integers,
  hexadecimal floats and the 32-bit decimal float converter, and the loop of `npf_vpprintf` around them. Doubles
  are 64-bit patterns, never machine floats. `Standard` says what section 7.21.6.1 of ISO/IEC 9899:2011 asks of
  a conversion, from the characters of the format alone; `Conformance` compares what is printed with it.

Memory is an array of 64-bit words where addresses matter (`Paging`), a table of records where blocks matter
(`Allocator`), and buffers are arrays of characters. Arithmetic is unbounded except where the source relies on
a width: `Words.Wrap` is reduction to 64 bits, `DecimalFloats.Word32` to 32 bits.

The source repeats one slot search three times and one scan twice; the model has each once (`FreeSlot`,
`Scan`). Loops that a method shares with its surroundings (the search of `createThread`, the scans of `hpet`
and `cancelWait`, the parts of `parseSymbols`, `npf_ftoa_rev` and `npf_parse_format_spec`) are methods of
their own, called in the source's order.

Some promises do not hold of the code as written. Each is stated with the exact condition under which it
does, or with an input on which it fails:

* an aligned allocation can pass over a free multiple and its answer depends on the slot order
  (`SlotTable.AlignedLeastExactlyWhen`, `SlotTable.AlignedSkipsAndDependsOnOrder`);
* empty blocks share starts (`AllocatorRuns.StartIsOwnExactlyWhenPositive`), so that a process whose symbol file
  lists no text symbol may free another's block (`Lifetimes.LifetimeNeutralExactlyWhen`);
* the cleaner can go to sleep over a dead thread (`SchedulerRuns.StrandedExactlyWhenLate`);
* a waiter is not woken by the end of the thread it waits for (`JoinWindows.LostExactlyWhenEarly`,
  `JoinWindows.LostHappens`);
* a wait shorter than a tick, or one that shares a deadline, strands sleepers
  (`Deadlines.SleepOnTimeExactlyWhen`);
* the decimal converter rounds wrongly without places in two narrow intervals
  (`DecimalAccuracy.IntegerRoundsExactlyWhen`);
* a float zero with a precision of 0 is filled with spaces where the flag 0 asks for zeros
  (`Conformance.ZeroFillExactlyWhen`);
* a hexadecimal float has 13 digits after the point where more are asked for (`HexFloats.HexTextShape`).

`dafny verify dfyconfig.toml` checks the whole project.

## Model

| member | source | states |
|---|---|---|
| Allocators.Allocator.constructor | os/src/allocator.c:16-18 | a new allocator has no records, whatever the memory of the record table holds |
| Allocators.Allocator.Scan | os/src/allocator.c:52-75 | the restarting scan terminates (records ending above the candidate, then slots left) and returns the address the search function names |
| Allocators.Allocator.FreeSlot | os/src/allocator.c:76-82 | the slot loop stops at the first unused slot, the one after the last if all are used; a never-written slot does not change the result |
| Allocators.Allocator.Store | os/src/allocator.c:83-86 | the record takes the first free slot, the count goes up by one, every other slot is as it was |
| Allocators.Allocator.MarkUnusable | os/src/allocator.c:33-47 | a marked range becomes a record and its length is added to `unusable` |
| Allocators.Allocator.Allocate | os/src/allocator.c:49-89 | returns the least address from 0x1000000 on whose bytes conflict with no live record, and records exactly that block |
| Allocators.Allocator.AllocateAligned | os/src/allocator.c:91-131 | returns the aligned search's address and records exactly that block |
| Allocators.Allocator.Unallocate | os/src/allocator.c:133-144 | only the first present record with that start is cleared; the loop needs no end test on a live start |
| Allocators.Allocator.GetUsage | os/src/allocator.c:146-161 | the lengths of all live records, less those marked unusable |
| SlotTable.SearchRestarts | os/src/allocator.c:60-71 | the search moves past the first conflicting record in slot order and starts over, and stops where there is none |
| SlotTable.FeasibleIs | os/src/allocator.c:60 | an address conflicts with no live record if and only if each of them ends at or before it or starts at or after the block's end |
| SlotTable.SearchPasses | os/src/allocator.c:55-75 | every address passed over conflicts with a live record and the result conflicts with none, so the result is the least feasible address from the candidate on |
| SlotTable.AllocateIsLeast | os/src/allocator.c:49-89 | the address is the least one from MEMORY_START on that conflicts with no live record |
| SlotTable.AllocateIgnoresSlotOrder | os/src/allocator.c:49-89 | tables with the same live records in any slots give the same address |
| SlotTable.AfterIsNextMultiple | os/src/allocator.c:94 | the start and restart formula gives the next multiple strictly above, even above a multiple |
| SlotTable.AlignedSearchPasses | os/src/allocator.c:97-117 | every multiple passed over conflicts with a live record or is some live record's end |
| SlotTable.AllocateAlignedFits | os/src/allocator.c:91-131 | the address is a multiple above MEMORY_START free of conflicts; every smaller multiple conflicts or is a live record's end |
| SlotTable.AlignedLeastExactlyWhen | os/src/allocator.c:91-131 | the aligned address is the least free multiple if and only if the scan never restarts at a record whose end is itself a free multiple |
| SlotTable.AlignedLeastInEveryOrder | os/src/allocator.c:91-131 | where no live record ends on a free multiple the answer is the least one, whatever slots the records occupy |
| SlotTable.AlignedSkipsAndDependsOnOrder | os/src/allocator.c:108 | two slot orders of the same records where the aligned answers differ, and one passes over a free multiple |
| SlotTable.PutAdds | os/src/allocator.c:83-86 | storing adds one record to the live ones and its length to their total, whichever slot it takes |
| SlotTable.TakeRemoves | os/src/allocator.c:136-142 | clearing removes exactly the found record and its length |
| AllocatorRuns.RunsAreSafe | os/src/allocator.c:33-161 | over every legal run every block starts at 0x1000000 or above, and of a block and any other live record one ends before the other starts |
| AllocatorRuns.MarkKeeps | os/src/allocator.c:33-47 | marking before the first allocation keeps the table invariant |
| AllocatorRuns.AllocateKeeps | os/src/allocator.c:49-131 | both allocations keep the table invariant and their block conflicts with no live record |
| AllocatorRuns.UnallocateKeeps | os/src/allocator.c:133-144 | freeing a live start keeps the table invariant |
| AllocatorRuns.StartsAreUnique | os/src/allocator.c:137 | with positive sizes a start names one live block, so `unallocate` clears the block that was meant |
| AllocatorRuns.StartIsOwnExactlyWhenPositive | os/src/allocator.c:49-89 | with no empty record live, a block has its start to itself, now and at the next request, if and only if it is not empty |
| AllocatorRuns.EmptyStartAfterAllocate | os/src/allocator.c:49-89 | an empty request is answered where it was before, whatever was allocated since: all empty blocks share one start |
| AllocatorRuns.EmptyStartAfterFree | os/src/allocator.c:133-144 | the same after a free |
| AllocatorRuns.SlotsUsedIsPeak | os/src/allocator.c:78-82 | the table never uses more slots than the greatest number of records live at once |
| AllocatorRuns.UsageIsOutstanding | os/src/allocator.c:146-161 | over every run usage is what allocations added less what frees removed |
| AllocatorRuns.BlocksArePacked | os/src/allocator.c:55-75 | the lengths of the allocated blocks add up to at most the highest end less MEMORY_START |
| AllocatorRuns.UsageIsPacked | os/src/allocator.c:146-161 | `getUsage` never exceeds the highest block end less MEMORY_START |
| AllocatorRuns.RecordsStep | os/src/allocator.c:49-144 | one operation adds or removes exactly its own record |
| AllocatorRuns.RecordsBalance | os/src/allocator.c:49-144 | over every run, live records at the end plus all removed are those at the start plus all added |
| AllocatorRuns.BalancedPartyIsNeutral | os/src/allocator.c:49-144 | a party that removes just what it added, whoever else runs between, leaves the others' records alone |
| AllocatorThreads.LockKeeps | include/cpu.h:7-10 | a thread that wins the compare-exchange is the only one in the critical section; one that does not yields and tries again |
| AllocatorThreads.UnlockKeeps | include/cpu.h:12-15 | the release leaves a free lock over a table in its invariant with the operation done |
| AllocatorThreads.UnlockAnswers | include/cpu.h:12-15 | when the lock is released the block returned is recorded in full, and it conflicted with no record live when the lock was taken |
| AllocatorThreads.StepKeeps | include/cpu.h:7-15 | every statement of any thread keeps: one thread at most inside, the invariant whenever the lock is free, every block handed out owned once |
| AllocatorThreads.InterleavedRunsAreSafe | include/cpu.h:7-15 | in every run of any number of threads interleaved statement by statement, no two threads are inside, the table invariant holds while the lock is free, and of two blocks held one ends before the other starts |
| AllocatorThreads.ScanTestKeeps | os/src/allocator.c:55 | the scan's loop test, taken as a step of its own |
| AllocatorThreads.ScanReadKeeps | os/src/allocator.c:57-59 | reading a slot, unwritten memory included |
| AllocatorThreads.ScanCompareKeeps | os/src/allocator.c:60-70 | the conflict test, the step on or the restart |
| AllocatorThreads.StoreKeeps | os/src/allocator.c:76-85 | the slot search and the three separate writes of the record |
| AllocatorThreads.CountUpKeeps | os/src/allocator.c:86 | the count is raised only after the record is complete |
| AllocatorThreads.CountDownKeeps | os/src/allocator.c:141-142 | clearing and counting down are two steps, and the table is whole after both |
| AllocatorThreads.CriticalStepKeeps | os/src/allocator.c:49-144 | between lock and unlock every statement keeps what the holder knows of the table it found |
| Rings.LinkList | include/list.h:24-30 | the element goes in before the head: a ring with one more node, at the end |
| Rings.UnlinkList | include/list.h:32-36 | the ring without that node; the node's own pointers keep their values |
| Rings.ListLength | include/list.h:38-47 | the number of elements, the head not counted |
| Schedulers.Scheduler.constructor | os/src/scheduler.c:33-38 | boot thread and cleaner on the run queue, nobody waiting, nobody dead |
| Schedulers.Scheduler.Runnable | os/src/scheduler.c:42-43 | the first successor of a node that is not waiting, found by following `next` |
| Schedulers.Scheduler.NextThread | os/src/scheduler.c:40-49 | the current thread becomes the first non-waiting one in ring order after it |
| Schedulers.Scheduler.UnusedId | os/src/scheduler.c:150-167 | the restarting search terminates with the least id no thread on the ring has |
| Schedulers.Scheduler.CreateThread | os/src/scheduler.c:119-172 | the new thread has the least unused id and stands at the end of the ring |
| Schedulers.Scheduler.AddToRing | os/src/scheduler.c:169 | the run queue gets the thread at its end, dead list and waiting list stay |
| Schedulers.Scheduler.LinkThread | os/src/scheduler.c:168-169 | linking leaves every other thread and both other lists as they were |
| Schedulers.Scheduler.Exists | os/src/scheduler.c:176-191 | whether a thread on the ring has the id |
| Schedulers.Scheduler.WaitForThread | os/src/scheduler.c:174-207 | a live id: the waiting list is the old one and the caller's entry, the caller is marked, ring, ids and dead list stay, and the current thread is the first after the caller that is not marked; any other id: nothing changes |
| Schedulers.WakeWaiters | os/src/scheduler.c:241-253 | unlinking while iterating visits each entry once, removes exactly those with the id, keeps the others in order and clears exactly the removed ones' flags |
| Schedulers.Scheduler.WakeAll | os/src/scheduler.c:240-253 | the waiting list and flags after the loop, the run queue untouched |
| Schedulers.Scheduler.UnlinkThread | os/src/scheduler.c:226-232 | the thread leaves the ring, the others keep their order |
| Schedulers.Scheduler.DestroyThread | os/src/scheduler.c:209-236 | waiters woken, then the one thread with that id off the ring |
| Schedulers.Scheduler.ExitThread | os/src/scheduler.c:238-262 | waiters woken, the thread moved to the dead list, the cleaner made runnable, the successor dispatched |
| Schedulers.Scheduler.TakeDead | os/src/scheduler.c:78-79 | the cleaner takes the oldest dead thread and leaves the rest in order |
| Schedules.DispatchIsFirst | os/src/scheduler.c:40-49 | the dispatched thread is not waiting and every thread between it and the last one is |
| Schedules.DispatchFirstAfter | os/src/scheduler.c:40-49 | dispatching changes nothing but the current thread, and going round from it everybody passed over waits and the one reached does not |
| Schedules.WaitIs | os/src/scheduler.c:174-207 | what a wait for a live thread does to each part of the state, and that any other wait does nothing |
| Schedules.WakeIs | os/src/scheduler.c:241-253 | just the entries for the id go, and just the threads they name are unmarked |
| Schedules.DestroyIs | os/src/scheduler.c:209-236 | just the thread's waiters are woken and just it leaves the ring |
| Schedules.ExitIs | os/src/scheduler.c:238-262 | just the waiters and the cleaner are woken, and the current thread goes from the ring to the end of the dead list |
| Schedules.DispatchApproaches | os/src/scheduler.c:40-49 | a runnable thread that is not dispatched is strictly nearer in ring distance afterwards |
| Schedules.ExitResumesAtSuccessor | os/src/scheduler.c:256-261 | dispatch order after an exit is the order before it without the exited thread: none skipped, none repeated |
| Schedules.KeepMembers | os/src/scheduler.c:241-253 | the kept entries are exactly those naming another id |
| SchedulerRuns.CreateKeeps | os/src/scheduler.c:150-170 | live ids stay pairwise distinct |
| SchedulerRuns.WaitKeeps | os/src/scheduler.c:174-207 | a wait taken as one step keeps distinct ids, join safety, one place per thread and the lateness count |
| SchedulerRuns.WakeKeeps | os/src/scheduler.c:240-253 | no entry names the id any more, exactly the threads listed for it are unlisted and runnable again, the rest is safe |
| SchedulerRuns.BuriedKeeps | os/src/scheduler.c:238-260 | the exiting thread is off the ring and on the dead list, and just its waiters and the cleaner are runnable again, the waiters no longer listed |
| SchedulerRuns.ExitKeeps | os/src/scheduler.c:238-262 | an exit keeps distinct ids, join safety, one place per thread and the lateness count |
| SchedulerRuns.DestroyKeeps | os/src/scheduler.c:209-236 | the same for a destroyed thread |
| SchedulerRuns.CleanKeeps | os/src/scheduler.c:75-86 | each of the cleaner's statements keeps every thread in one place |
| SchedulerRuns.StepKeeps | os/src/scheduler.c:40-262 | every event keeps distinct ids, join safety, one place per thread and the lateness count |
| SchedulerRuns.RunsAreSafe | os/src/scheduler.c:40-262 | over every run: ids distinct, every entry names a live id and a waiting thread, each thread in exactly one of ring, dead list, freed, and freed once |
| SchedulerRuns.WaitLasts | os/src/scheduler.c:174-262 | over every run, from its wait for a live thread on the caller stays listed, marked and undispatched for as long as no thread with that id exits or is destroyed |
| SchedulerRuns.WaitEnds | os/src/scheduler.c:240-253 | the exit or destruction of the thread with that id takes the caller's entry off and its mark away |
| SchedulerRuns.StrandedExactlyWhenLate | os/src/scheduler.c:75-85 | the cleaner sleeps over a dead thread if and only if an exit fell between its last test of the dead list and its marking itself as waiting |
| SchedulerRuns.StrandedHappens | os/src/scheduler.c:84 | a run that ends with the cleaner asleep and a dead thread unreclaimed |
| JoinWindows.WakeAllGood | os/src/scheduler.c:240-254 | the waking loop, with waiters anywhere between their search and their marking, keeps the invariant: a waiter is early if and only if its thread is done |
| JoinWindows.LeaveGood | os/src/scheduler.c:255-261 | the unlinking, after which ids may be used again, keeps it |
| JoinWindows.StepGood | os/src/scheduler.c:40-262 | search, listing, marking, waking and leaving, each its own step with any other thread in between, keep it |
| JoinWindows.LostExactlyWhenEarly | os/src/scheduler.c:174-262 | over every run a sleeping waiter is lost if and only if the thread its search found did its waking before the waiter marked itself; any other one is listed for that thread, which is still on the ring |
| JoinWindows.TimelyWaitersWake | os/src/scheduler.c:240-253 | a waiter that marked itself in time is woken when its thread does its waking |
| JoinWindows.WokenOnlyByEntry | os/src/scheduler.c:240-253 | nothing but a waking that finds an entry of the waiter's ends its sleep |
| JoinWindows.LostForever | os/src/scheduler.c:174-262 | a lost waiter whose entry is gone sleeps through every run |
| JoinWindows.LostHappens | os/src/scheduler.c:192-203 | for any three threads, a run that ends with the waiter lost and no entry left |
| Deadlines.SoonestIs | os/src/hpet.c:36-43 | the scan's choice is the one entry that is first among those nearest ahead of the counter in 64-bit arithmetic |
| Deadlines.ComparatorIsNearest | os/src/hpet.c:32-48 | on time, the comparator holds the deadline the wrapping counter reaches first, and it is the earliest due |
| Deadlines.TickIdle | os/src/hpet.c:50-63 | a tick that reaches no deadline fires nothing and stays on time |
| Deadlines.TickFires | os/src/hpet.c:55-68 | a tick that reaches a deadline wakes exactly that sleeper, at that deadline, and stays on time |
| Deadlines.SleepKeeps | os/src/hpet.c:106-112 | a wait of at least a tick with a fresh deadline keeps everybody on time |
| Deadlines.DropKeeps | os/src/hpet.c:128-130 | a cancelled wait keeps the rest on time |
| Deadlines.RunsWakeOnTime | os/src/hpet.c:32-132 | in every run of waits, cancels and ticks every wake is at its own deadline and no deadline is passed over |
| Deadlines.TicksWithoutMatch | os/src/hpet.c:53-63 | a comparator no sleeper waits for fires nothing until the counter comes round |
| Deadlines.ShortWaitStrandsEverybody | os/src/hpet.c:108-112 | a wait of less than a tick puts the comparator where the counter already is: nobody is woken until it wraps |
| Deadlines.SharedDeadlineStrands | os/src/hpet.c:55-68 | with a shared deadline the match wakes one sleeper and leaves the comparator on a time already passed |
| Deadlines.FreshWaitOnTime | os/src/hpet.c:106-112 | after a wait of at least a tick with a deadline of its own, ticks never find anybody asleep at or after the due time |
| Deadlines.SharedWaitNotOnTime | os/src/hpet.c:55-68 | after a wait that shares a pending deadline, some tick leaves a sleeper behind its due time |
| Deadlines.SleepOnTimeExactlyWhen | os/src/hpet.c:50-112 | from a wait on, plain ticks never leave anybody asleep past the due time if and only if it is a tick or longer and no pending deadline equals its own |
| Deadlines.AsleepUntilDue | os/src/hpet.c:50-68 | a sleeper with a deadline of its own is on the list after k plain ticks if and only if they have not reached it |
| Deadlines.FemtosecondsAsleep | os/src/hpet.c:106-112 | a wait of f femtoseconds with a fresh deadline still lasts after k ticks if and only if (k + 1) periods are at most f |
| Hpets.Hpet.Sooner | os/src/hpet.c:39 | the wrapping comparison says which time the counter reaches first |
| Hpets.Hpet.NearestOnWalk | os/src/hpet.c:34-43 | the list scan with wrapping differences finds that entry, and none only on an empty list |
| Hpets.Hpet.UpdateTimer | os/src/hpet.c:32-48 | the comparator takes that deadline, or keeps its value on an empty list |
| Hpets.Hpet.FindTime | os/src/hpet.c:53-62 | the first entry with the comparator's value, or the list head |
| Hpets.Hpet.Interrupt | os/src/hpet.c:50-70 | the first sleeper whose time the comparator shows leaves the list and is runnable, and the comparator is set again; nothing happens where there is none |
| Hpets.Hpet.WaitFemtoseconds | os/src/hpet.c:106-113 | the caller is listed behind the others with the counter plus the whole ticks in the time as its deadline, ticks * period <= time < (ticks + 1) * period, marked, and the comparator set |
| Hpets.Hpet.CancelWait | os/src/hpet.c:117-132 | the first sleeper with that id is released before its time, and no other |
| Paging.FillDirectory | os/src/paging.c:35-43 | one directory holds the next 512 pages, zeros after the last, and nothing else is written |
| Paging.AddDirectory | os/src/paging.c:33-46 | one pass of the outer loop extends the tables by one directory |
| Paging.CreateTable | os/src/paging.c:24-49 | the three levels are laid out and every write is inside the block |
| Paging.Mapped | os/src/paging.c:31-48 | the hardware's walk takes every address of the program's pages to its place in the block |
| Paging.Unmapped | os/src/paging.c:31-48 | every other address outside the shared first slot has no translation |
| Paging.EntriesWritable | os/src/paging.c:34-48 | every entry of the tables but the kernel's is empty, or present and writable |
| Paging.KernelShared | os/src/paging.c:29-31 | an address below 0x8000000000 is translated alike through every process's tables |
| Paging.SetMemory64 | include/mem.h:44-50 | exactly the given words take the value |
| Paging.GetAddress | include/mem.h:8-17 | an address below 0x8000000000 is returned as it is |
| Paging.GetAddressIs | include/mem.h:8-17 | the shortcut's three loads give the start of the block plus the offset |
| Paging.GetAddressAgrees | include/mem.h:8-17 | shortcut and full walk agree on an address if and only if it is mapped |
| Processes.Obtain | os/src/processes.c:26 | the address the search gives, and exactly its record more in the table |
| Processes.GiveBack | os/src/processes.c:57 | the table without the record that is found for the pointer |
| Processes.LoadSymbols | os/src/processes.c:33-43 | the program's symbols and their number become the current thread's, or none do; a symbol file without text symbols takes an empty block |
| Processes.NameAndSymbols | os/src/processes.c:28-44 | the symbol file's name is built, used and freed |
| Processes.LoadImage | os/src/processes.c:26-44 | the program's block is taken before the name's and the symbols', on a large page, and the symbols are the current thread's; `Coverage.LoadedCovers` has the blocks' sizes |
| Processes.MakeTable | os/src/processes.c:47 | the page table's block is taken and laid out |
| Processes.NewThread | os/src/processes.c:48 | the thread's two blocks |
| Processes.Execute | os/src/processes.c:21-53 | program, symbols, page tables, thread (72 bytes) and stack (1 MB) are recorded in full, share no byte with each other or with any block live before, and lie where their alignment asks; every address of the image is mapped into the program's record; nothing but the tables' block is written, and the caller's symbols and table are as before |
| Processes.ImageMapped | os/src/processes.c:45-48 | the walk takes PROCESS_ADDRESS + k, for every k below the program's size, to byte k of its block |
| Processes.ExecuteSpares | os/src/processes.c:21-53 | every block live before is still recorded and shares no byte with the process's |
| Coverage.NameIsWhole | os/src/processes.c:28-31 | while it is used the symbol file's name has room for its characters and the NUL |
| Coverage.LoadedCovers | os/src/processes.c:26-44 | once loaded, the program's size in bytes and 264 bytes for each symbol are recorded and lie apart |
| Coverage.ExecutedCovers | os/src/processes.c:21-53 | after `execute`, whatever was live before, all five blocks are recorded in full and pairwise apart |
| Coverage.ExecutedSpares | os/src/processes.c:21-53 | and no block live before loses its record or a byte |
| Coverage.ExecutedPlaced | os/src/processes.c:26-48 | the program starts on a large page, the tables on a page, the stack on a multiple of 16, all at 0x1000000 or above |
| Processes.Quit | os/src/processes.c:55-64 | the image found through the page table, the table and the symbols are freed, in this order |
| Lifetimes.Loads | os/src/processes.c:26-44 | the program takes the first free slot, the symbols the third, and the name's slot is free again |
| Lifetimes.QuitFrees | os/src/processes.c:57-60 | the first two frees of `quit` clear the program's and the table's own records |
| Lifetimes.SymbolsMisfreed | os/src/processes.c:61-64 | where another record claims the symbols' start in an earlier slot, that record goes and theirs stays |
| Lifetimes.LifetimeNeutralExactlyWhen | os/src/processes.c:21-66 | with no empty block live before, execute, quit and the cleaner leave the live records what they were if and only if not (the symbol file lists no text symbol and a record before the third free slot starts where an empty block goes) |
| Lifetimes.LifetimeKeepsStarts | os/src/processes.c:21-66 | whatever is live before, empty blocks included, every `unallocate` of a lifetime finds a record and every start is live at the end as often as before |
| Lifetimes.MisfreeTakes | os/src/processes.c:61-64 | otherwise a live block is taken from its owner and the empty record stays |
| Parties.ProcessIsFair | os/src/processes.c:21-66 | in any interleaving a process holds just the blocks of its stage and frees only what it holds |
| Parties.ProcessIsNeutral | os/src/processes.c:21-66 | whatever others do between its calls, a process that has come to its end has freed exactly the blocks it was given: the live records are what the others alone account for |
| Parties.ProcessHoldsItsBlocks | os/src/processes.c:21-66 | at any moment each of its blocks can be freed, and freeing it clears its own record |
| Parties.PartyAccount | os/src/allocator.c:49-144 | over every run, what a party was given is what it gave back and what it holds, and each block held is live under its own start |
| Parties.SettledPartyIsNeutral | os/src/allocator.c:49-144 | a party that holds nothing any more is balanced, so the live records are what the others alone account for |
| Cleaners.Clean | os/src/scheduler.c:78-83 | the cleaner's loop takes one dead thread after the other off the list and frees its stack and the thread |
| Cleaners.ExactlyTheDead | os/src/scheduler.c:78-83 | over any number of dead threads the loop removes exactly their blocks' records |
| Cleaners.QuitAndExit | os/src/processes.c:55-66 | `quit` with its `exitThread`: the image is freed and the thread is on the dead list |
| Cleaners.Lifetime | os/src/processes.c:21-66 | execute, quit and the cleaner's loop, over allocator, memory and scheduler: every start is live as often as before, and with no empty block live before the records are what they were, except in the one case named |
| Processes.Reclaim | os/src/scheduler.c:81-82 | the cleaner's two frees remove the thread's block and its stack's |
| Strings.StringLength | include/str.h:5-13 | the number of characters before the NUL, read no further |
| Strings.ReverseString | include/str.h:15-24 | the text reversed in place, the NUL and what follows it as before |
| Strings.HexBackwards | include/str.h:41-96 | the digit loop writes the shortest numeral, last digit first, in at most 16 characters |
| Strings.ToHex | include/str.h:38-99 | the shortest lower-case hexadecimal numeral, one digit for zero |
| Strings.FromHex | include/str.h:114-172 | the 64-bit value of the text, characters that are no lower-case digits counting as 0, with the counter wrapping below zero |
| Strings.HexValueAgrees | include/str.h:121-168 | on lower-case digits that is the number the text denotes |
| Strings.HexValueCleaned | include/str.h:121-168 | on any text it is the number of the text with a 0 for everything that is no lower-case digit |
| Strings.HexRoundTrip | include/str.h:38-172 | `fromHex` undoes `toHex` on every 64-bit word |
| Strings.FixedRead | include/str.h:114-172 | a fixed number of digits with leading zeros is read exactly |
| SymbolTables.LineStart | os/src/symbols.c:43-55 | where a printed line starts its fields are at the offsets the parser uses, and the next line starts after it |
| SymbolTables.LineIs | os/src/symbols.c:43-55 | sixteen lower-case digits that denote the address, the letter between two spaces, the name, a newline |
| SymbolTables.KeptIs | os/src/symbols.c:45-48 | a symbol is kept if and only if it is that of a line with T or t |
| SymbolTables.CountSymbols | os/src/symbols.c:41-55 | the first pass counts exactly the T and t lines and stays inside the file |
| SymbolTables.ReadAddress | os/src/symbols.c:63-64 | the sixteen digits give the exact address |
| SymbolTables.ReadSymbol | os/src/symbols.c:63-73 | address and name of a line, the length counted in 8 bits |
| SymbolTables.SkipLine | os/src/symbols.c:77-81 | another line is passed over whole |
| SymbolTables.ParseSymbols | os/src/symbols.c:37-87 | exactly the T and t entries in order with exact addresses and names, the second pass filling just what the first counted, no read past the text |
| SymbolTables.GetSymbol | os/src/symbols.c:94-109 | the first symbol at the least wrapping distance below the address, with that distance |
| SymbolTables.ClosestIsBelow | os/src/symbols.c:100-108 | where a symbol is at or below the address that is the greatest such and the offset is exact; otherwise it is the greatest symbol of all |
| Digits.NumeralValue | programs/compatibility/include/nanoprintf.h:569-579 | a numeral consists of digits of its base and denotes its number |
| Digits.GlyphIs | programs/compatibility/include/nanoprintf.h:572-576 | the sixteen digits, one by one, in both cases |
| Digits.NumeralLead | programs/compatibility/include/nanoprintf.h:569-579 | only zero's numeral starts with 0 |
| Digits.NumeralShort | programs/compatibility/include/nanoprintf.h:569-579 | a number below the n-th power of the base has at most n digits |
| Integers.PutDigit | programs/compatibility/include/nanoprintf.h:572-576 | one turn of the digit loop moves one digit from the number to the buffer |
| Integers.Utoa | programs/compatibility/include/nanoprintf.h:569-579 | the buffer holds the shortest numeral backwards, in at most 22 characters |
| FormatSpecs.ParseFlags | programs/compatibility/include/nanoprintf.h:417-431 | the flags in any order and number, + prevailing over space |
| FormatSpecs.ParseNumber | programs/compatibility/include/nanoprintf.h:440-443 | the value of the digits that stand there |
| FormatSpecs.ParseWidth | programs/compatibility/include/nanoprintf.h:434-445 | a star, a number or nothing |
| FormatSpecs.ParsePrec | programs/compatibility/include/nanoprintf.h:448-465 | a point with a star, digits, or a minus and digits that count as no precision |
| FormatSpecs.ParseMod | programs/compatibility/include/nanoprintf.h:468-498 | the longest length modifier that stands there |
| FormatSpecs.ParseFormatSpec | programs/compatibility/include/nanoprintf.h:404-567 | a positive length only for a well-formed specification that stands at the %, with what its parts ask for; 0 if none does. `Conformance.AskedFor` and `Conformance.ByLetter` say what that is character by character |
| FormatSpecs.ScanFinds | programs/compatibility/include/nanoprintf.h:404-567 | a specification standing in the text is what the scan finds |
| FormatSpecs.SpecificationsAreFound | programs/compatibility/include/nanoprintf.h:404-567 | parts stand in the text as a specification if and only if they are the scanned ones and well-formed: parsing is the inverse of writing, and never ambiguous |
| Fields.Output.Put | programs/compatibility/include/nanoprintf.h:934-938 | one character more, counted once |
| Fields.Padding | programs/compatibility/include/nanoprintf.h:1228-1267 | pad character and amounts of padding |
| Fields.Output.EmitFront | programs/compatibility/include/nanoprintf.h:1269-1289 | sign and prefix stand before zero padding and after space padding |
| Fields.Output.Emit | programs/compatibility/include/nanoprintf.h:1228-1310 | the field in full, and the count raised by its length |
| Fields.LaidParts | programs/compatibility/include/nanoprintf.h:1228-1310 | the emission order produces one field of spaces, sign, prefix, zeros, payload, spaces |
| Integers.Extracted | programs/compatibility/include/nanoprintf.h:1061-1124 | the one integer in the range of the length modifier, signed or not, that agrees with the argument slot modulo that range; 0 for `L`. `Conformance.ExtractedIsPassed` has the ranges in figures |
| Integers.ConvertSigned | programs/compatibility/include/nanoprintf.h:1079-1094 | the magnitude's digits, of the least integer too; none for zero under precision 0 |
| Integers.ConvertUnsigned | programs/compatibility/include/nanoprintf.h:1126-1153 | the digits in the base, octal's extra 0, none for zero under precision 0 |
| Integers.PutInteger | programs/compatibility/include/nanoprintf.h:1061-1310 | exactly the conversion's text is printed, and counted |
| Integers.TextLength | programs/compatibility/include/nanoprintf.h:1243-1267 | the field is as wide as the greater of the width and sign, prefix and the greater of precision and digit count |
| Integers.TextReads | programs/compatibility/include/nanoprintf.h:1061-1310 | skipping spaces, sign and prefix and reading the digits in the base gives back the argument |
| Integers.NoLeadingZero | programs/compatibility/include/nanoprintf.h:569-579 | without # in octal the digits of a value other than zero start with no 0 |
| HexFloats.Discard | programs/compatibility/include/nanoprintf.h:846-853 | the nibble loop rounds by the last discarded digit |
| HexFloats.RoundedNearest | programs/compatibility/include/nanoprintf.h:846-853 | that is the nearest multiple, the greater one on a tie |
| HexFloats.LeadingDigit | programs/compatibility/include/nanoprintf.h:873 | the leading digit is at most 2 |
| HexFloats.PutFraction | programs/compatibility/include/nanoprintf.h:861-865 | the fraction digits and what is left above them |
| HexFloats.PutExponent | programs/compatibility/include/nanoprintf.h:855-859 | exponent, sign and letter |
| HexFloats.Atoa | programs/compatibility/include/nanoprintf.h:826-876 | nothing for infinities and NaNs, else the text backwards within 40 characters |
| HexFloats.HexTextReads | programs/compatibility/include/nanoprintf.h:826-876 | the text denotes the rounded mantissa and the exponent |
| HexFloats.HexFloatAccurate | programs/compatibility/include/nanoprintf.h:842-853 | exact from 13 digits on, otherwise at most half a unit of the last digit off; zero and subnormals included |
| HexFloats.HexTextShape | programs/compatibility/include/nanoprintf.h:826-876 | a leading digit up to 2, a point where digits follow or # asks for it, as many digits as asked for but 13 at most, p, the exponent's sign and its digits without leading zeros; the exponent is the double's, 0 for zero; letters in the case asked for |
| Decimals.RoundPlace | programs/compatibility/include/nanoprintf.h:785-789 | one turn of the rounding loop keeps the number with its pending carry |
| Decimals.Round | programs/compatibility/include/nanoprintf.h:783-790 | rounding adds one at its place, past point and nines, growing the text by at most what fits, and never leaves a 0 in front that was not there |
| Decimals.ReadingOrder | programs/compatibility/include/nanoprintf.h:762-792 | a finished buffer is digits, a point where asked for, and exactly the places; read together they are the number |
| DecimalFloats.ScaleInteger | programs/compatibility/include/nanoprintf.h:697-708 | the scaling loop ends, its zeros and its 32-bit word as the recurrence says, or stops at the buffer's end |
| DecimalFloats.PutWhole | programs/compatibility/include/nanoprintf.h:714-718 | the digit loop writes the numeral, and stops at the buffer's end just when it does not fit |
| DecimalFloats.TameStep | programs/compatibility/include/nanoprintf.h:747-760 | no multiplication by 5 overflows 32 bits |
| DecimalFloats.TameRun | programs/compatibility/include/nanoprintf.h:747-760 | the scaling ends with the first digit in 4.28 fixed point, below 10 |
| DecimalFloats.ScaleFraction | programs/compatibility/include/nanoprintf.h:746-760 | the loop computes that recurrence, writes only zeros and keeps the bound |
| DecimalFloats.PutFractionDigits | programs/compatibility/include/nanoprintf.h:768-776 | every place is a digit, together the number the fixed-point start makes, and what is left decides the rounding |
| DecimalFloats.PutFraction | programs/compatibility/include/nanoprintf.h:721-781 | the places and the rounding bit of a number with a fraction |
| DecimalFloats.PutInteger | programs/compatibility/include/nanoprintf.h:680-719 | the integer part, or failure just when it does not fit |
| DecimalFloats.Compose | programs/compatibility/include/nanoprintf.h:670-781 | both parts and the point make the unrounded number |
| DecimalFloats.PutFinite | programs/compatibility/include/nanoprintf.h:662-792 | a finite number's text, fully written, denotes the unrounded number plus what rounding adds |
| DecimalFloats.Ftoa | programs/compatibility/include/nanoprintf.h:649-798 | ends with indices below 64 and either the message and -3 or a text of digits and at most a point with exactly the places asked for and no leading zero but a single one; never fails where there is room |
| Doubles.Encoded | programs/compatibility/include/nanoprintf.h:826-841 | sign, exponent with a bias of 1023 and 52 bits of fraction, by position in the 64 bits |
| DecimalAccuracy.FloorAndFraction | programs/compatibility/include/nanoprintf.h:725-742 | integer part and fraction word together are all of the double |
| DecimalAccuracy.IntegerPartExact | programs/compatibility/include/nanoprintf.h:680-792 | below 2^32 the integer part is the floor, or one more exactly when all places are nines and round up |
| DecimalAccuracy.AlwaysFits | programs/compatibility/include/nanoprintf.h:703-715 | below 2^32 there is always room with up to 52 places |
| DecimalAccuracy.PrintedParts | programs/compatibility/include/nanoprintf.h:649-798 | the digits before and after the point denote those two numbers |
| DecimalAccuracy.IntegerRoundsExactlyWhen | programs/compatibility/include/nanoprintf.h:761-779 | without places the number is rounded half up if and only if the fraction is outside the two intervals where the rounding bit is carried or wraps |
| DecimalAccuracy.IntegerRoundsWrongly | programs/compatibility/include/nanoprintf.h:761 | a double just below 1 printed as 0 and one below 1.5 printed as 2 |
| DecimalAccuracy.StartClose | programs/compatibility/include/nanoprintf.h:746-761 | after the scaling the fixed-point number is within 5/2 units of ten times the fraction |
| DecimalAccuracy.PlacesRoundHalfUp | programs/compatibility/include/nanoprintf.h:768-779 | the places are the fixed-point number rounded to the nearest, a half upwards |
| DecimalAccuracy.DecimalClose | programs/compatibility/include/nanoprintf.h:649-792 | from 1/2 to 2^32 the text is off by at most half its last place and 5/2 units of 2^-28 in the first |
| SmallDecimals.TinyIsZero | programs/compatibility/include/nanoprintf.h:747-762 | below 2^-252, subnormals included, the places run out before the exponent does and every place is 0 |
| SmallDecimals.CloseRun | programs/compatibility/include/nanoprintf.h:746-760 | every step of the long scaling loses at most one part in 2^27 |
| SmallDecimals.SmallClose | programs/compatibility/include/nanoprintf.h:649-792 | below 1/2 the text is off by at most half its last place and 257 parts in 2^27 of itself, at any precision from 1 to 62 |
| DecimalAccuracy.LargeStepRounds | programs/compatibility/include/nanoprintf.h:698-706 | each turn doubles the word with its carry, or divides them by five to the nearest and counts a zero |
| DecimalAccuracy.LargeClose | programs/compatibility/include/nanoprintf.h:697-718 | from 2^32 on it is off by at most half its last computed digit upwards and 4 parts in 2^31 for each zero downwards |
| Floats.PutDecimal | programs/compatibility/include/nanoprintf.h:1216-1222 | the decimal text in reading order, or the message |
| Floats.Convert | programs/compatibility/include/nanoprintf.h:1211-1222 | hexadecimal falls back on the decimal routine for infinities and NaNs |
| Floats.PutFloat | programs/compatibility/include/nanoprintf.h:1185-1310 | the whole field of a float conversion; messages are never padded with zeros |
| Printf.ItemsSpell | programs/compatibility/include/nanoprintf.h:949-955 | the loop's items, specifications and characters, spell the format up to its NUL: nothing is lost, nothing taken twice |
| Printf.TakeStars | programs/compatibility/include/nanoprintf.h:957-971 | star width and precision from the next slots; a negative width is its absolute value and left-justifies, a negative precision is none |
| Printf.MeaningValid | programs/compatibility/include/nanoprintf.h:957-971 | a scanned specification, whatever its stars are, meets what the field lemmas ask for |
| Printf.PutConversion | programs/compatibility/include/nanoprintf.h:1040-1310 | the field of a %%, character, integer or float conversion |
| Printf.PrintItem | programs/compatibility/include/nanoprintf.h:949-1310 | one turn of the loop prints the item that stands there, with the slots that come next, and goes on behind it |
| Printf.VPrintf | programs/compatibility/include/nanoprintf.h:940-1315 | the text is the concatenation of what the items print, each with its own slots, and the result is the length of the text |
| Printf.FieldsAreWide | programs/compatibility/include/nanoprintf.h:1228-1310 | every conversion's piece is at least as wide as the width asked for, written or a star's |
| Conformance.GrammarIsStandard | programs/compatibility/include/nanoprintf.h:404-567 | the specifications taken for one are the standard's, and with the letters b and B or a minus before a precision's digits besides |
| Conformance.ConvertedExactlyWhen | programs/compatibility/include/nanoprintf.h:955-957 | where the items before it end, a text is converted as a specification if and only if one stands there after a %; any other character stands for itself |
| Conformance.LiteralPieceIs | programs/compatibility/include/nanoprintf.h:956 | and is printed as it is |
| Conformance.AskedFor | programs/compatibility/include/nanoprintf.h:404-567 | flags, width, precision, letter and stars ask for what their characters say; a negative star width is its absolute value and left-justifies, a negative star precision is none |
| Conformance.ByLetter | programs/compatibility/include/nanoprintf.h:512-515 | d and i are signed in base 10, u unsigned in base 10, o in base 8, x and X in base 16, and X alone in capitals |
| Conformance.ExtractedIsPassed | programs/compatibility/include/nanoprintf.h:1061-1124 | the value taken is the one passed: of 8 bits for hh, 16 for h, 32 without a modifier, 64 for l, ll, j, z and t, signed for d and i, whatever the rest of the slot holds |
| Conformance.NeedsByLetter | programs/compatibility/include/nanoprintf.h:957-1158 | a conversion takes a slot for each star and one for its value, but for %% and integers with `L` |
| Conformance.TextIsStandard | programs/compatibility/include/nanoprintf.h:1061-1310 | an integer's text is the field the standard asks for: sign, prefix, digits, precision, padding |
| Conformance.IntegerPieceIsStandard | programs/compatibility/include/nanoprintf.h:957-1310 | and with its slots taken, reading it in the letter's base gives back the value that was passed |
| Conformance.ArgumentsReadBack | programs/compatibility/include/nanoprintf.h:940-1315 | so it is wherever the conversion stands in the format, with the slots after those of the items before it |
| Conformance.CharPieceIs | programs/compatibility/include/nanoprintf.h:1040-1310 | %% and %c print their character in a field like a number's, zeros before it with a precision |
| Conformance.FloatPieceByLetter | programs/compatibility/include/nanoprintf.h:1185-1310 | a float's field is its letter's: the sign the flags ask for, 0x for a and A, exactly the places asked for (6 without a precision, 13 for a and A), the digits of the converters above, or INF, NAN and ERR in the letter's case; no number below 2^32 gives way to ERR with up to 52 places |
| Conformance.ZeroFillExactlyWhen | programs/compatibility/include/nanoprintf.h:1231-1240 | a float's field is filled with zeros where the flag 0 asks for it if and only if it is not a zero with a precision of 0, unless nothing is to be filled on its left |

## Left out

- Allocator arithmetic: `value + amount` is taken not to overflow 64 bits (`SlotTable.Fits`), and the record
  table to lie apart from the memory it describes.
- AllocatorRuns.MarkKeeps: `markUnusable` is legal only before the first allocation, as the boot code calls it.
- AllocatorRuns.StartsAreUnique: blocks of positive size only; `AllocatorRuns.StartIsOwnExactlyWhenPositive` shows
  why.
- AllocatorThreads.InterleavedRunsAreSafe: `getUsage` and `markUnusable`, which take no lock, are not among the
  threads' operations, and a thread frees only a block it holds.
- Schedulers.Scheduler.WaitForThread: search, listing and marking are one step here, as `exitThread` is;
  `JoinWindows` has them apart.
- SchedulerRuns.WaitKeeps: likewise one step.
- JoinWindows.StepGood: `destroyThread`, whose waking and unlinking are apart as in `exitThread`, and sleeping are
  not among the steps there; the boot thread and the cleaner do not exit.
- Schedulers.Scheduler.NextThread: some thread must be runnable; otherwise the kernel spins, which is not modelled.
- Schedulers.Scheduler.ExitThread: not by the boot thread, whose node is the list's head.
- Schedulers.Scheduler.DestroyThread: not the boot thread, the cleaner, the caller or a thread that waits.
- Schedulers.Scheduler.Runnable: register, SIMD and CR3 saving and stack switching are kept only as the change
  of the current thread.
- Hpets.Hpet.WaitFemtoseconds: linking, marking and `updateTimer` are one step, as interrupts are off; the
  counter does not advance within it.
- Hpets.Hpet.CancelWait: some sleeper must have the id; the code then reads the list head as an entry, which is
  not modelled.
- Hpets.Hpet.Interrupt: a match fires in the tick that reaches it; interrupt latency is not modelled.
- Processes.Execute: the file lookup is given, the program has at least a byte besides its entry point, its bytes
  are not copied, and pages past its end cover memory not reserved for it, so isolation is not claimed.
- Lifetimes.LifetimeNeutralExactlyWhen: no other empty block is live when the process starts; for any table
  `Lifetimes.LifetimeKeepsStarts` says what is left. The process frees what it allocated itself before it quits.
- Parties.ProcessIsNeutral: nobody asks for an empty block, and the others free nothing the process holds.
- Cleaners.Lifetime: the scheduler is given as it is when the process's thread is the current one.
- Strings.FromHex: `fromString` subtracts in the opposite order, so no decimal round trip is stated for it.
- SymbolTables.ParseSymbols: lines have exactly the fields `nm` prints with sixteen digits; the file lookup and
  the load offset of `initSymbols` are left out.
- SymbolTables.GetSymbol: at least one symbol; without any the code reads past an empty array.
- FormatSpecs.ParseFormatSpec: numbers are unbounded, so a width or precision that overflows `int` is not modelled.
- Integers.PutInteger: star arguments are already in the specification; `Printf.TakeStars` puts them there.
- Printf.VPrintf: arguments are 64-bit slots, C's varargs are not modelled; a star width of the least `int`, whose
  negation overflows, counts as its absolute value.
- Conformance.AskedFor: behind a minus a precision's digits keep their value and no precision counts as given,
  as the code has it; the standard has no such precision.
- Conformance.IntegerPieceIsStandard: `L` has no meaning for integers; the code takes no slot and prints 0.
- Fields.Output.Emit: strings, pointers, binary and `%n` are left out: short loops over the same emission.
- DecimalAccuracy.DecimalClose: an error bound, not correct rounding: the converter is approximate by design.
- Floats.PutFloat: `%e` and `%g` print as `%f`, as the code has it; `long double` is not modelled.
- Device and firmware code (ACPI, IOAPIC, IDT, GDT, serial, clock), terminal, panic screen, fonts: port and
  memory-mapped I/O and drawing.
- Keyboard, mouse, TTY, IPC, syscall dispatch and the flat file system: short loops over the same list.
