# Nachos in Dafny

A model of the Nachos instructional operating system in this repository - its kernel threads and
monitors, its file system, its simulated MIPS machine, its added IP/UDP stack - and of the Ethernet
switch that connects the machines. The model follows the C++ code branch by branch; the proofs say
what the code guarantees for all inputs, all runs and all reachable states.

Code that the source runs on its own state is a class or a method with loops here, proved against a
function on values. Where threads interleave, the program is a state machine whose step is one
statement of one thread, and the theorems quantify over every schedule.

| file | models |
|---|---|
| `Semaphores.dfy` | P and V, and every run of them |
| `SynchLists.dfy`, `SynchCalls.dfy`, `Monitors.dfy` | the monitor-protected list: Lock, Condition and SynchList together, every interleaving; what each call gives and returns; and the same in place |
| `Scheduling.dfy` | ready list, Sleep, Yield, Fork, Finish, and where every thread is |
| `Interrupts.dfy` | simulated time and pending interrupts |
| `Disks.dfy`, `DiskTiming.dfy` | sectors and words on disk; seek, rotation and track buffer, one request at a time |
| `Bitmaps.dfy`, `OpenFiles.dfy`, `FileHeaders.dfy`, `Directories.dfy`, `FileSystems.dfy`, `FileMaps.dfy` | the file system, from bits of the free map to Create, Open, Remove and format, and all of it as a map from names to bytes |
| `Reassembly.dfy` | IP fragmentation and reassembly, and UDP over it |
| `LearningSwitch.dfy` | the learning switch |
| `MachineWords.dfy`, `Memory.dfy`, `Multiply.dfy`, `Cpu.dfy`, `Alu.dfy`, `Decoding.dfy`, `Unaligned.dfy`, `Machines.dfy` | words, translation, the processor, its arithmetic, and the machine in place |
| `Instructions.dfy` | what every instruction leaves in the registers, memory and program counters |
| `Loading.dfy` | the loops that copy a program into the frames of its space |
| `AddressSpaces.dfy` | frames handed out to address spaces, and what programs can see of each other |
| `Lists.dfy`, `HashTables.dfy` | the linked list and the hash table of the library |
| `Decimal.dfy`, `Numbers.dfy` | decimal notation, and the system calls that read and print numbers |
| `Options.dfy` | shared facts about sequences, sets and division |

## Conventions

- Integers are unbounded in Dafny. 32-bit wrap-around in the machine's registers, in the clipping
  of file requests and in the scanned numbers, the 13-bit fragment offset, the 16-bit UDP length,
  C's truncating division and its arithmetic right shift are written out.
- Simulated time is an idealisation: `totalTicks + fromNow` is an int in the source and unbounded
  here, in `Interrupts.dfy` and `DiskTiming.dfy` alike, and so are the counts of items, threads
  and events.
- An `ASSERT` of the source is either a precondition, where it is a demand on the caller, or a fact
  proved on the way. In the state machines a failing ASSERT leads to a failed state that the
  theorems show unreachable.
- The host is little-endian and the page table linear (no TLB). Plain `char` is signed.
- What interrupt handlers do is an arbitrary script; what the rest of the kernel does to user
  registers between instructions is arbitrary as well.

Six places where the code does something other than its names or comments suggest are stated as
they are, with the exact condition: SRL and SRLV shift in the sign (`Alu.ShiftIsLogicalIff`), an
interrupt can change the result of LWL and LWR into R0 (`Cpu.MergeIntoZero`, with a reachable case
in `Cpu.ForcedLoadShows`), a file request whose end does not fit an int is not cut at the end of
the file (`OpenFiles.TransferIff`, with a case in `OpenFiles.RunsPastTheEnd`), loading a program
can overwrite another address space (`Loading.ProgramStaysIff`, with a run in
`AddressSpaces.LoadOverruns`), reassembly keys
identify a datagram only for a fixed destination (`Reassembly.KeysIdentify`), and a UDP payload of
65528 bytes or more has its count wrapped (`Reassembly.UdpRoundTrip`).

## Model

| member | source | states |
|---|---|---|
| `Semaphores.TryP` | Nachos_Project/code/threads/synch.cc:71-86 | one pass of P gets through exactly when the value is positive, and then lowers it by one and leaves the queue alone; otherwise the value stays and the thread joins the end of the queue |
| `Semaphores.Post` | Nachos_Project/code/threads/synch.cc:96-109 | V raises the value by one, waiter or not, and takes exactly the longest waiting thread off the queue, nobody exactly when it is empty |
| `Semaphores.Semaphore.constructor` | Nachos_Project/code/threads/synch.cc:47-51 | the value given, nobody waiting |
| `Semaphores.Semaphore.TestOnce` | Nachos_Project/code/threads/synch.cc:71-86 | the object does what TryP says, in place |
| `Semaphores.Semaphore.V` | Nachos_Project/code/threads/synch.cc:96-109 | the object does what Post says, in place |
| `SemaphoreRuns.TestKeepsInv` | Nachos_Project/code/threads/synch.cc:71-86 | a pass of P's loop keeps the invariant that a waiter with value to spare has a woken thread yet to re-test |
| `SemaphoreRuns.VKeepsInv` | Nachos_Project/code/threads/synch.cc:96-109 | V keeps it, because every wake-up adds one unit and one woken thread |
| `SemaphoreRuns.EveryRun` | Nachos_Project/code/threads/synch.cc:71-109 | after every run of P and V steps by any number of threads: value = initial + Vs − completed Ps and is never negative, exactly the sleeping threads are queued, a non-empty queue leaves at most as much value as there are woken threads still to re-test, and so nobody sleeps for ever next to a positive value |
| `SynchLists.AcquireKeepsMutex` | Nachos_Project/code/threads/synch.cc:165-168 | Acquire keeps: at most one thread is between the decrement and the increment, and lockHolder, once stored, is that thread |
| `SynchLists.ReleaseKeepsMutex` | Nachos_Project/code/threads/synch.cc:181-185 | Release keeps it |
| `SynchLists.ReleaseKeepsQueue` | Nachos_Project/code/threads/synch.cc:181-185 | a thread asleep on a free lock always has a woken thread ahead of it |
| `SynchLists.SignalKeepsCondition` | Nachos_Project/code/threads/synch.cc:250-259 | Signal keeps: every queued waiter has its own fresh semaphore, nobody is queued twice, and a sleeper is queued or about to be woken |
| `SynchLists.WaitKeepsCondition` | Nachos_Project/code/threads/synch.cc:222-233 | Wait keeps it: the waiter is queued before the lock is given up |
| `SynchLists.SignalKeepsWake` | Nachos_Project/code/threads/synch.cc:250-259 | Signal hands on its duty: an item left behind is always covered by a thread that will look at the list again |
| `SynchLists.StepKeepsInv` | Nachos_Project/code/threads/synchlist.cc:50-75 | every statement of every thread keeps the whole invariant |
| `SynchLists.EveryInterleaving` | Nachos_Project/code/threads/synchlist.cc:50-75 | in every interleaving of any number of producers and consumers: what was removed, in removal order, followed by what is in the list, is what was appended, in append order; at most one thread is inside the lock, the lock's value is 1 exactly when none is, and lockHolder is the thread inside from Acquire's store until Release's and none otherwise; and none of the ASSERTs on lock ownership, on waiting twice or on removing from an empty list fails |
| `SynchLists.NoLostWakeup` | Nachos_Project/code/threads/synch.cc:222-259 | whenever the lock is free, either no consumer is queued on the condition or there are at most as many items as signalled consumers that have not looked again |
| `SynchLists.NeverStuck` | Nachos_Project/code/threads/synchlist.cc:66-75 | if every thread is outside or asleep, the lock is free with nobody asleep on it, and consumers are asleep only on an empty list |
| `SynchCalls.EveryCall` | Nachos_Project/code/threads/synchlist.cc:50-75 | in every interleaving, for every item: the calls of Append got it exactly as often as it was appended or is still in a producer's hands; it left the list exactly as often as RemoveFront returned it or is about to; so every copy given is in hand, in the list, on its way out or returned, and no other exists; every thread is inside the call it started, a producer with its own item |
| `SynchCalls.PutAlone` | Nachos_Project/code/threads/synchlist.cc:50-55 | an Append that runs undisturbed on a free lock puts its item at the end of the list, wakes the consumer that has waited longest, and frees the lock, waking one of those asleep on it |
| `SynchCalls.TakeAlone` | Nachos_Project/code/threads/synchlist.cc:66-75 | a RemoveFront that runs undisturbed returns the first item, which leaves the list |
| `SynchCalls.TakeSleeps` | Nachos_Project/code/threads/synch.cc:222-233 | on an empty list it ends up asleep on a semaphore of its own, last on the condition, with the lock free |
| `SynchCalls.WokenTakes` | Nachos_Project/code/threads/synch.cc:222-233 | once signalled, with the lock free and something in the list, it returns the first item and its semaphore is gone |
| `Monitors.SynchList.constructor` | Nachos_Project/code/threads/synchlist.cc:23-27 | a free lock, an empty list, nobody waiting |
| `Monitors.SynchList.Acquire` | Nachos_Project/code/threads/synch.cc:165-168 | Lock::Acquire on the objects, statement by statement, is the step of the state machine |
| `Monitors.SynchList.Append` | Nachos_Project/code/threads/synchlist.cc:50-55 | so are Append and Signal; SynchCalls says what that step does to the list |
| `Monitors.SynchList.RemoveFront` | Nachos_Project/code/threads/synchlist.cc:66-75 | and RemoveFront |
| `Monitors.SynchList.Wait` | Nachos_Project/code/threads/synch.cc:222-233 | and Wait, with the semaphore it allocates |
| `Monitors.SynchList.Release` | Nachos_Project/code/threads/synch.cc:181-185 | and Release |
| `Monitors.SynchList.Perform` | Nachos_Project/code/threads/synchlist.cc:50-75 | so every run of the objects is a run of the state machine, to which the theorems above apply |
| `Scheduling.DispatchKeeps` | Nachos_Project/code/threads/thread.cc:231-245 | Sleep's idle loop keeps every live thread in exactly one place |
| `Scheduling.YieldKeeps` | Nachos_Project/code/threads/thread.cc:195-209 | Yield keeps it: the next thread leaves the ready list before the current one joins it |
| `Scheduling.TestKeeps` | Nachos_Project/code/threads/synch.cc:71-86 | a pass of P's loop inside the scheduler keeps it, whether it succeeds or sleeps |
| `Scheduling.FinishKeeps` | Nachos_Project/code/threads/thread.cc:167-175 | Finish keeps it: the finishing thread is on no list |
| `Scheduling.PostKeeps` | Nachos_Project/code/threads/synch.cc:96-109 | V keeps it, in a thread or in an interrupt handler |
| `Scheduling.ForkKeeps` | Nachos_Project/code/threads/thread.cc:91-105 | Fork keeps it: a new thread joins the ready list once |
| `Scheduling.StepKeeps` | Nachos_Project/code/threads/scheduler.cc:52-156 | every action keeps it |
| `Scheduling.EveryRun` | Nachos_Project/code/threads/scheduler.cc:52-156 | after every run of Fork, Yield, Finish, P, V and interrupts each live thread is running, or exactly once on the ready list, or exactly once on the queue of the one semaphore it waits for, and nowhere else; threads are chosen in the order they became ready |
| `Scheduling.Yields` | Nachos_Project/code/threads/thread.cc:195-209 | Yield: the first ready thread runs and the old one is last on the ready list; with none ready nothing changes |
| `Scheduling.Forks` | Nachos_Project/code/threads/thread.cc:91-105 | Fork: the new thread is ready behind all others, and the old one runs on |
| `Scheduling.Passes` | Nachos_Project/code/threads/synch.cc:71-86 | P on a positive value lowers it by one and the thread runs on |
| `Scheduling.Waits` | Nachos_Project/code/threads/synch.cc:71-86 | P on zero puts the thread last on the queue, blocked, and the first ready thread runs, or nobody when there is none |
| `Scheduling.Posts` | Nachos_Project/code/threads/synch.cc:96-109 | V raises the value by one and makes the longest waiting thread ready behind all others; the current thread runs on |
| `Scheduling.Finishes` | Nachos_Project/code/threads/thread.cc:167-175 | Finish: the first ready thread runs and the finished one is gone, or nobody runs until an interrupt |
| `Scheduling.HandlerPosts` | Nachos_Project/code/threads/synch.cc:96-109 | a handler's Vs raise each semaphore by as many as go to it and take as many threads off its queue, while there are any |
| `Scheduling.HandlerIsVs` | Nachos_Project/code/threads/synch.cc:96-109 | while a thread runs they are V actions one after the other |
| `Scheduling.Interrupts` | Nachos_Project/code/threads/thread.cc:231-245 | while nobody runs, the first thread that an interrupt makes ready gets the processor, and a finishing thread is then gone |
| `Scheduling.Kernel.ReadyUp` | Nachos_Project/code/threads/scheduler.cc:52-58 | appends to the ready list; the no-duplicate ASSERT of List::Append holds |
| `Scheduling.Kernel.FindNextToRun` | Nachos_Project/code/threads/scheduler.cc:68-76 | takes the first ready thread, if any |
| `Scheduling.Kernel.SwitchTo` | Nachos_Project/code/threads/scheduler.cc:95-142 | the next thread runs; toBeDestroyed is free when a finishing thread is put there |
| `Scheduling.Kernel.LeaveIdle` | Nachos_Project/code/threads/thread.cc:231-245 | the end of Sleep's loop, once a thread is ready |
| `Scheduling.Kernel.FinishThread` | Nachos_Project/code/threads/thread.cc:167-175 | the current thread stops for good |
| `Scheduling.Kernel.YieldThread` | Nachos_Project/code/threads/thread.cc:195-209 | gives the processor to the next ready thread, if there is one |
| `Scheduling.Kernel.PassP` | Nachos_Project/code/threads/synch.cc:71-86 | one pass of P by the current thread |
| `Scheduling.Kernel.PostSem` | Nachos_Project/code/threads/synch.cc:96-109 | V by the current thread or a handler |
| `Scheduling.Kernel.HandleInterrupt` | Nachos_Project/code/threads/thread.cc:231-245 | the Vs of the interrupt handlers that Idle runs |
| `Scheduling.Kernel.Perform` | Nachos_Project/code/threads/scheduler.cc:52-156 | the in-place kernel does, for every action, what the value-level step does, with every ASSERT on the way proved |
| `Bitmaps.SetOneBit` | Nachos_Project/code/lib/bitmap.cc:51-57 | after setting bit b of a word that bit is set and every other bit is as before |
| `Bitmaps.ClearOneBit` | Nachos_Project/code/lib/bitmap.cc:66-72 | after clearing bit b of a word that bit is clear and every other bit is as before |
| `Bitmaps.Bitmap.constructor` | Nachos_Project/code/lib/bitmap.cc:21-35 | nothing is marked |
| `Bitmaps.Bitmap.Test` | Nachos_Project/code/lib/bitmap.cc:81-89 | tells whether a number is in the set of marks |
| `Bitmaps.Bitmap.Mark` | Nachos_Project/code/lib/bitmap.cc:51-57 | adds exactly one mark |
| `Bitmaps.Bitmap.Clear` | Nachos_Project/code/lib/bitmap.cc:66-72 | takes exactly one mark away |
| `Bitmaps.Bitmap.FindAndSet` | Nachos_Project/code/lib/bitmap.cc:100-108 | marks and returns the least unmarked number, or returns -1 and changes nothing when all are marked |
| `Bitmaps.Bitmap.NumClear` | Nachos_Project/code/lib/bitmap.cc:116-125 | the number of unmarked numbers |
| `Bitmaps.TakenAreFree` | Nachos_Project/code/lib/bitmap.cc:100-108 | while there is room, repeated FindAndSet returns distinct numbers that were not marked, and marks exactly those |
| `Disks.WordsOfBytes` | Nachos_Project/code/filesys/pbitmap.cc:58-71 | words written as bytes are read back as the same words |
| `OpenFiles.OpenFile.constructor` | Nachos_Project/code/filesys/openfile.cc:29-33 | the header is what its sector holds, the position is 0 |
| `OpenFiles.OpenFile.Seek` | Nachos_Project/code/filesys/openfile.cc:50 | the next Read or Write starts at the position given |
| `OpenFiles.OpenFile.Read` | Nachos_Project/code/filesys/openfile.cc:65-69 | reads at the seek position and advances it by what was read, where the end of the request fits an int |
| `OpenFiles.OpenFile.Write` | Nachos_Project/code/filesys/openfile.cc:71-75 | writes at the seek position and advances it by what was written, where the end of the request fits an int |
| `OpenFiles.OpenFile.ReadAt` | Nachos_Project/code/filesys/openfile.cc:103-127 | for every position and length whose sum fits an int, aligned or not, the buffer receives exactly the clipped slice of the file's bytes and nothing else of it changes |
| `OpenFiles.OpenFile.WriteAt` | Nachos_Project/code/filesys/openfile.cc:129-164 | for every position and length whose sum fits an int exactly the clipped slice of the file changes, and no sector outside the file's changes |
| `OpenFiles.TransferIff` | Nachos_Project/code/filesys/openfile.cc:107-108 | a request that starts inside the file is cut at its end exactly when position + numBytes stays below 2^31; otherwise the sum is negative, nothing is cut, and the transfer runs past the file |
| `OpenFiles.RunsPastTheEnd` | Nachos_Project/code/filesys/openfile.cc:134-135 | so it does for 2147483647 bytes at position 1 of a file of length 2 |
| `OpenFiles.OpenFile.Patch` | Nachos_Project/code/filesys/openfile.cc:129-164 | the buffer that WriteAt sends to disk holds the new bytes and, around them inside the file, the old ones, although only the partly overwritten sectors are read |
| `OpenFiles.WriteThenRead` | Nachos_Project/code/filesys/openfile.cc:103-164 | what was written is read back; the rest of the file and every file without a common sector are as before |
| `FileHeaders.HeaderRoundTrip` | Nachos_Project/code/filesys/filehdr.cc:78-94 | a header read from the sector it was written to is the same |
| `FileHeaders.FileHeader.Allocate` | Nachos_Project/code/filesys/filehdr.cc:43-56 | succeeds exactly when the free map has room; then the file has distinct sectors, all of them free before and marked now, and otherwise the map is unchanged |
| `FileHeaders.FileHeader.Deallocate` | Nachos_Project/code/filesys/filehdr.cc:64-70 | unmarks exactly the file's sectors; that they are marked (the ASSERT) is the caller's duty, and stays true to the last one |
| `FileHeaders.FileHeader.FetchFrom` | Nachos_Project/code/filesys/filehdr.cc:78-81 | the header is what the sector holds |
| `FileHeaders.FileHeader.WriteBack` | Nachos_Project/code/filesys/filehdr.cc:89-92 | the sector holds the header and no other sector changes |
| `Directories.SameNameIff` | Nachos_Project/code/filesys/directory.cc:80-85 | strncmp on nine characters is equality of the names cut at nine characters or at their NUL |
| `Directories.CopiedName` | Nachos_Project/code/filesys/directory.cc:114-126 | a name copied by strncpy compares equal to the original, whatever the entry held before |
| `Directories.TableRoundTrip` | Nachos_Project/code/filesys/directory.cc:57-71 | a directory read back from where it was written is the same |
| `Directories.Directory.FindIndex` | Nachos_Project/code/filesys/directory.cc:80-86 | the first entry in use under the name, or -1 when there is none |
| `Directories.Directory.Find` | Nachos_Project/code/filesys/directory.cc:96-102 | that entry's sector, or -1 |
| `Directories.Directory.Add` | Nachos_Project/code/filesys/directory.cc:114-127 | fails exactly when the name is taken or no entry is free, and otherwise fills the first free entry and no other |
| `Directories.Directory.Remove` | Nachos_Project/code/filesys/directory.cc:135-142 | fails exactly when the name is not there, and otherwise frees its entry and no other |
| `Directories.Directory.FetchFrom` | Nachos_Project/code/filesys/directory.cc:57-59 | the table is what the file holds |
| `Directories.Directory.WriteBack` | Nachos_Project/code/filesys/directory.cc:68-71 | the file holds the table, and no sector outside it changes |
| `FileSystems.FetchMap` | Nachos_Project/code/filesys/pbitmap.cc:36-60 | the marks are those in the file |
| `FileSystems.WriteMap` | Nachos_Project/code/filesys/pbitmap.cc:69-71 | the file holds the marks, and no sector outside it changes |
| `FileSystems.CreateKeeps` | Nachos_Project/code/filesys/filesys.cc:173-212 | adding a file whose sectors were all free keeps the disk consistent: the free map marks exactly sectors 0 and 1, the sectors of the map and the directory, and the header and data sectors of each entry in use, all of them pairwise disjoint, and names differ on their first nine characters |
| `FileSystems.RemoveKeeps` | Nachos_Project/code/filesys/filesys.cc:252-280 | so does freeing an entry with its sectors |
| `FileSystems.ContentsStay` | Nachos_Project/code/filesys/filesys.cc:173-280 | a change of the map, the directory and free sectors leaves every file's header and bytes alone |
| `FileSystems.UserWriteKeeps` | Nachos_Project/code/filesys/openfile.cc:129-164 | writing the data of one file leaves the file system consistent and every other file's bytes alone |
| `FileSystems.CreateThenRemove` | Nachos_Project/code/filesys/filesys.cc:173-280 | creating a file and removing it gives back the free map and every entry in use |
| `FileSystems.FileSystem.Mount` | Nachos_Project/code/filesys/filesys.cc:136-142 | opening a consistent disk gives a valid file system |
| `FileSystems.FileSystem.Format` | Nachos_Project/code/filesys/filesys.cc:81-136 | whatever the disk held, it is now consistent and has no files; the two ASSERTs on allocation hold |
| `FileSystems.FileSystem.Create` | Nachos_Project/code/filesys/filesys.cc:173-212 | keeps the disk consistent; succeeds exactly when the name is new, an entry is free and the sectors suffice; a failing Create leaves the disk unchanged; a successful one adds one file of the size asked for under that name, on sectors that were free |
| `FileSystems.FileSystem.Open` | Nachos_Project/code/filesys/filesys.cc:224-236 | finds a file exactly when the name is there, and it is that file |
| `FileSystems.FileSystem.Remove` | Nachos_Project/code/filesys/filesys.cc:252-280 | keeps the disk consistent; fails exactly when the name is not there, leaving the disk unchanged; otherwise frees exactly that entry and that file's sectors |
| `FileSystems.FileSystem.WriteFile` | Nachos_Project/code/filesys/openfile.cc:129-164 | opening a file and writing to it, where position and length add up to an int, keeps the disk consistent and changes only that file's bytes |
| `FileMaps.MarksAreFiles` | Nachos_Project/code/filesys/filehdr.cc:43-56 | the number of marked sectors is five for the system plus, for each file, its header and its data sectors |
| `FileMaps.CanCreateFits` | Nachos_Project/code/filesys/filesys.cc:173-212 | Create's condition, on the disk, is one on the map alone: a new name, fewer than ten files, and room |
| `FileMaps.AlwaysRoom` | Nachos_Project/code/filesys/filesys.cc:173-212 | a consistent disk never has more than 315 sectors marked |
| `FileMaps.FitsIff` | Nachos_Project/code/filesys/filesys.cc:173-212 | so a file fits exactly when its name is new and there are fewer than ten files: Create never fails for lack of sectors |
| `FileMaps.CreatedFiles` | Nachos_Project/code/filesys/filesys.cc:173-212 | a successful Create adds one name, with the size asked for, to the map and changes nothing else of it |
| `FileMaps.RemovedFiles` | Nachos_Project/code/filesys/filesys.cc:252-280 | Remove takes the name out of the map and changes nothing else of it |
| `FileMaps.WroteFiles` | Nachos_Project/code/filesys/openfile.cc:129-164 | a write changes one file's bytes in the map, exactly in the clipped slice |
| `FileMaps.NoFiles` | Nachos_Project/code/filesys/filesys.cc:81-136 | a formatted disk is the empty map |
| `FileMaps.Create` | Nachos_Project/code/filesys/filesys.cc:173-212 | succeeds exactly when the name is new and the directory is not full, and acts on the map |
| `FileMaps.Remove` | Nachos_Project/code/filesys/filesys.cc:252-280 | succeeds exactly when the name is in the map, and acts on it |
| `FileMaps.Write` | Nachos_Project/code/filesys/openfile.cc:129-164 | opening by name and writing acts on the map, and returns how many bytes lay in the file |
| `FileMaps.Read` | Nachos_Project/code/filesys/openfile.cc:103-127 | opening by name and reading returns the clipped slice of the bytes the map has for the name, or nothing when it has none |
| `FileMaps.Serve` | Nachos_Project/code/filesys/filesys.cc:173-280 | every sequence of Create, Remove and write requests acts on the disk, step by step, as on a map from names (cut at nine characters) to bytes |
| `Reassembly.KeysIdentify` | Nachos_Project/code/network/post.cc:129-140 | for a fixed destination two reassembly keys are equal exactly when source and identification are equal |
| `Reassembly.KeysClashAcrossDestinations` | Nachos_Project/code/network/post.cc:129-140 | without the fixed destination they are not: a host and its peer share a key |
| `Reassembly.OffsetExact` | Nachos_Project/code/network/post.cc:188-205 | the 13-bit fragment offset does not wrap for any datagram of at most 45 fragments |
| `Reassembly.Send` | Nachos_Project/code/network/post.cc:142-219 | the fragments are the consecutive chunks of the data, the last one padded with zeros, MF set on all but the last |
| `Reassembly.IpLayer.InsertToMap` | Nachos_Project/code/network/post.cc:221-263 | the fragment is put before the first one with a larger offset, under its key only |
| `Reassembly.IpLayer.Check` | Nachos_Project/code/network/post.cc:265-292 | hands the datagram up and forgets the key exactly when the offsets are the first multiples of 185 and the last fragment has no MF |
| `Reassembly.IpLayer.OnFragment` | Nachos_Project/code/network/post.cc:294-302 | a received fragment goes through insertion and check |
| `Reassembly.InsertRepresents` | Nachos_Project/code/network/post.cc:239-262 | insertion keeps the fragments of a datagram sorted, whatever the order of arrival |
| `Reassembly.CompleteIff` | Nachos_Project/code/network/post.cc:265-292 | the check succeeds exactly when every fragment of the datagram has arrived |
| `Reassembly.HandedWhenComplete` | Nachos_Project/code/network/post.cc:221-302 | for every order of arrival and every interleaving with other datagrams: an arrival hands up its own datagram, whole, exactly when it is the last missing fragment, and nothing otherwise |
| `Reassembly.HandedOnce` | Nachos_Project/code/network/post.cc:221-302 | a datagram all of whose fragments arrive is handed up exactly once |
| `Reassembly.UdpHeader` | Nachos_Project/code/network/post.cc:306-318 | the first eight bytes are the source port, destination port, length with the header and checksum of RFC 768, two bytes each, the low byte first; then come the data |
| `Reassembly.UdpRoundTrip` | Nachos_Project/code/network/post.cc:306-330 | the receiver gets the data as a prefix and the destination port; its byte count is right exactly when the length with the header fits 16 bits |
| `Reassembly.EndToEnd` | Nachos_Project/code/network/post.cc:142-330 | what UDP sends is what UDP delivers, once, on the right port, for every arrival order and interleaving |
| `Multiply.ShiftAdd` | Nachos_Project/code/machine/mipssim.cc:769-786 | the shift-and-add loop with its early break and arithmetic right shift computes the 64-bit product of two magnitudes |
| `Multiply.Mult` | Nachos_Project/code/machine/mipssim.cc:747-799 | hi:lo is the exact 64-bit product for all 32-bit operands, signed, -2^31 included, and unsigned |
| `Memory.Translate` | Nachos_Project/code/machine/translate.cc:180-248 | a translated address lies in memory, at the same offset, in the frame of its page's entry |
| `Memory.AccessExactly` | Nachos_Project/code/machine/translate.cc:180-248 | which accesses go through, and where to, and exactly when each exception is raised |
| `Memory.PutThenFetch` | Nachos_Project/code/machine/translate.cc:82-163 | reading back what was written gives the low bytes as ReadMem extends them, a char signed and a short not; no other byte changes |
| `Cpu.OverflowExact` | Nachos_Project/code/machine/mipssim.cc:148-168 | the sign-bit tests of ADD, ADDI and SUB raise the overflow exception exactly when the sum or difference does not fit 32 bits |
| `Cpu.ExecKeepsGood` | Nachos_Project/code/machine/mipssim.cc:115-696 | between instructions R0 is zero and the pending load's target is a general register, after every instruction and trap |
| `Cpu.ForcedLoadInvisible` | Nachos_Project/code/machine/interrupt.cc:292-294 | landing the pending load early, as an interrupt does, leaves the next instruction's result as it was, for every instruction that does not name the target, and for LWL and LWR merging into it |
| `Cpu.MergeIntoZero` | Nachos_Project/code/machine/mipssim.cc:302-404 | the one exception, LWL and LWR into R0 with R0 pending: the result is the same exactly when the access faults or the bytes kept of the discarded value are zero |
| `Cpu.ForcedLoadShows` | Nachos_Project/code/machine/mipssim.cc:302-349 | such a state is reached: after LW into R0 of a word holding 1, landing the load early changes what LWL into R0 leaves pending |
| `Machines.StepForced` | Nachos_Project/code/machine/interrupt.cc:292-294 | the same for a whole step: fetch, decode and execute give the same state and the same outcome with the pending load landed early |
| `Machines.ForcedAnywhere` | Nachos_Project/code/machine/mipssim.cc:64-69 | for every program, every kernel in between and every choice of points at which interrupts land the pending load: if no instruction has to do with a pending target (nor, with none pending, merges into R0), the machine goes through the same states as without interrupts |
| `Alu.LogicInstructions` | Nachos_Project/code/machine/mipssim.cc:176-184 | AND, OR, XOR, NOR and the immediate forms write, at each of the 32 bits, the operation they are named after on the operands' bits, the immediate extended with zeros |
| `Alu.DivisionLaw` | Nachos_Project/code/machine/mipssim.cc:219-227 | DIV leaves q in LO and r in HI with rs = q * rt + r, r smaller than rt in magnitude and of the dividend's sign |
| `Alu.ShiftIsLogicalIff` | Nachos_Project/code/machine/mipssim.cc:508-518 | what SRL and SRLV put into rd is the logical shift exactly when the register is not negative or nothing is shifted; otherwise they shift in the sign |
| `Decoding.EveryWord` | Nachos_Project/code/machine/mipssim.cc:703-738 | every word is an encoding in the immediate and the jump format and, with top field 0, in the register format, so the four rows below say what every word decodes to |
| `Decoding.DecodeR` | Nachos_Project/code/machine/mipssim.cc:703-723 | every register-format encoding decodes to its operation and fields |
| `Decoding.DecodeI` | Nachos_Project/code/machine/mipssim.cc:703-723 | every immediate-format encoding decodes to its operation, registers and sign-extended immediate |
| `Decoding.DecodeJ` | Nachos_Project/code/machine/mipssim.cc:703-723 | J and JAL keep their 26 bits |
| `Decoding.DecodeB` | Nachos_Project/code/machine/mipssim.cc:724-737 | the rt field of BCOND selects the four branches and nothing else |
| `Decoding.AssembleThenDecode` | Nachos_Project/code/machine/mipssim.h:117-148 | every instruction assembled with the MIPS manual's operation and function codes decodes to itself: its operation, registers and extra field, as far as its format has them |
| `Decoding.DecodeThenAssemble` | Nachos_Project/code/machine/mipssim.cc:703-738 | every word that decodes to an operation of the machine is what the manual's assembler makes of that instruction |
| `Instructions.Branches` | Nachos_Project/code/machine/mipssim.cc:185-217 | BEQ, BNE, BGEZ, BGTZ, BLEZ and BLTZ: the condition under which NextPC becomes NextPC + 4 * extra instead of NextPC + 4, nothing else changing but the pending load that lands |
| `Instructions.LinkingBranches` | Nachos_Project/code/machine/mipssim.cc:190-211 | BGEZAL and BLTZAL leave the return address in R31 taken or not, before the test |
| `Instructions.Jumps` | Nachos_Project/code/machine/mipssim.cc:243-247 | J and JAL keep the top four bits of the following address and replace the rest by 4 * extra; JAL leaves the return address in R31 |
| `Instructions.RegisterJumps` | Nachos_Project/code/machine/mipssim.cc:249-253 | JR and JALR go to register rs, JALR having put the return address in rd first |
| `Instructions.Wrapping` | Nachos_Project/code/machine/mipssim.cc:168-174 | ADDU, SUBU and ADDIU give the sum or difference modulo 2^32 |
| `Instructions.Checked` | Nachos_Project/code/machine/mipssim.cc:148-166 | ADD, ADDI and SUB give the exact sum or difference, or trap, changing no register but for the landing load, exactly when it does not fit 32 bits |
| `Instructions.Comparisons` | Nachos_Project/code/machine/mipssim.cc:467-497 | SLT and SLTI compare as signed numbers, SLTU and SLTIU modulo 2^32 |
| `Instructions.LoadUpper` | Nachos_Project/code/machine/mipssim.cc:285-289 | LUI: the low half of the immediate is the high half of the register, the rest zero |
| `Instructions.LeftShifts` | Nachos_Project/code/machine/mipssim.cc:458-465 | SLL and SLLV multiply by a power of two modulo 2^32, the distance being the field or the low five bits of rs |
| `Instructions.RightShifts` | Nachos_Project/code/machine/mipssim.cc:499-518 | SRA, SRAV, SRL and SRLV divide by a power of two, rounding down |
| `Instructions.Logicals` | Nachos_Project/code/machine/mipssim.cc:176-184 | AND, OR, XOR, NOR and the immediate forms, executed, leave in the destination the operation on each bit |
| `Instructions.HiLoMoves` | Nachos_Project/code/machine/mipssim.cc:406-420 | MFHI and MFLO copy HI and LO to rd; MTHI and MTLO copy rs to the one and leave the other |
| `Instructions.DivisionByZero` | Nachos_Project/code/machine/mipssim.cc:219-241 | DIV and DIVU by zero clear HI and LO |
| `Instructions.SignedDivision` | Nachos_Project/code/machine/mipssim.cc:219-227 | DIV, executed, leaves quotient and remainder in LO and HI, the remainder smaller than the divisor and of the dividend's sign |
| `Instructions.UnsignedDivision` | Nachos_Project/code/machine/mipssim.cc:229-241 | DIVU: quotient and remainder of the unsigned readings |
| `Instructions.Multiplications` | Nachos_Project/code/machine/mipssim.cc:422-430 | MULT and MULTU leave the exact product, signed or unsigned, in HI and LO |
| `Instructions.LoadBytes` | Nachos_Project/code/machine/mipssim.cc:255-266 | LB and LBU: the byte addressed, extended with its sign or with zeros, is pending for rt; the page is marked used; an unmapped address traps with its exception and no other change |
| `Instructions.LoadHalves` | Nachos_Project/code/machine/mipssim.cc:268-283 | LH and LHU the same of two bytes, the low one first; an odd address is an address error |
| `Instructions.LoadWords` | Nachos_Project/code/machine/mipssim.cc:291-300 | LW the same of four bytes at a multiple of four |
| `Instructions.PartialLoadMoves` | Nachos_Project/code/machine/mipssim.cc:302-404 | LWL and LWR: also the page marks, the program counters and the trap |
| `Instructions.StoreBytes` | Nachos_Project/code/machine/mipssim.cc:446-450 | SB changes the byte addressed to the low byte of rt and marks the page used and dirty, or traps |
| `Instructions.StoreHalves` | Nachos_Project/code/machine/mipssim.cc:452-456 | SH the same of two bytes, the low one first, at an even address |
| `Instructions.StoreWords` | Nachos_Project/code/machine/mipssim.cc:534-538 | SW the same of four bytes at a multiple of four |
| `Instructions.PartialStoreMoves` | Nachos_Project/code/machine/mipssim.cc:540-647 | SWL and SWR that go through: page marks and program counters |
| `Instructions.PartialStoreTraps` | Nachos_Project/code/machine/mipssim.cc:540-647 | those that do not trap as a read would or, on a page that can only be read, with the read-only exception, at the aligned address, with memory unchanged |
| `Instructions.KernelTraps` | Nachos_Project/code/machine/mipssim.cc:649-665 | SYSCALL and the operations that the machine lacks trap with the program counters unchanged |
| `Instructions.Fetched` | Nachos_Project/code/machine/mipssim.cc:127-129 | the machine executes the instruction whose encoding is in the four bytes at PC, and traps with PC as the bad address when it is not a multiple of four or not mapped |
| `Unaligned.MergeLeftBytes` | Nachos_Project/code/machine/mipssim.cc:302-349 | byte by byte, what LWL takes from memory and what it keeps of the register |
| `Unaligned.MergeRightBytes` | Nachos_Project/code/machine/mipssim.cc:352-404 | the same of LWR |
| `Unaligned.StoreLeftBytes` | Nachos_Project/code/machine/mipssim.cc:540-593 | byte by byte, what SWL writes of the register and what it keeps of the word in memory |
| `Unaligned.StoreRightBytes` | Nachos_Project/code/machine/mipssim.cc:595-647 | the same of SWR |
| `Unaligned.PartialLoad` | Nachos_Project/code/machine/mipssim.cc:302-404 | LWL and LWR go through exactly when the byte addressed is mapped; then the merged word is pending, and memory, HI, LO and the general registers are as before but for the load pending until then, which lands |
| `Unaligned.PartialStore` | Nachos_Project/code/machine/mipssim.cc:540-647 | SWL and SWR go through exactly when the byte addressed may be written, and rewrite its aligned word |
| `Unaligned.StoreEffect` | Nachos_Project/code/machine/mipssim.cc:540-647 | which byte of the register goes to which place of memory, and that nothing else changes |
| `Unaligned.LoadPair` | Nachos_Project/code/machine/mipssim.cc:302-404 | at every address, aligned or not, LWR A and LWL A+3, back to back through the load delay slot and in either order, load exactly the four bytes from A; they go through exactly when the four are mapped; memory, HI, LO and all other registers are as without the pair |
| `Unaligned.StorePair` | Nachos_Project/code/machine/mipssim.cc:540-647 | SWR A and SWL A+3, in either order, store the register into exactly the four bytes from A, even across pages that share a frame |
| `Unaligned.StoreThenLoad` | Nachos_Project/code/machine/mipssim.cc:302-404 | a word stored at any address by one pair is loaded from there by the other |
| `Machines.Machine.constructor` | Nachos_Project/code/machine/machine.cc:57-80 | registers and memory are zero |
| `Machines.Machine.DelayedLoad` | Nachos_Project/code/machine/mipssim.cc:691-696 | the pending load lands, the next one is remembered, R0 is zero again |
| `Machines.Machine.RaiseException` | Nachos_Project/code/machine/machine.cc:96-104 | the bad address is recorded and the pending load lands before the kernel is entered |
| `Machines.Machine.TranslateAddress` | Nachos_Project/code/machine/translate.cc:180-248 | the physical address or the exception, checked in the source's order; use and dirty bits are set only on success |
| `Machines.Machine.ReadMem` | Nachos_Project/code/machine/translate.cc:82-115 | the value at a virtual address, or the trap |
| `Machines.Machine.WriteMem` | Nachos_Project/code/machine/translate.cc:131-163 | the bytes at a virtual address, or the trap |
| `Machines.Machine.Multiplied` | Nachos_Project/code/machine/mipssim.cc:747-799 | MULT and MULTU through the multiplication loop agree with the instruction's meaning |
| `Machines.Machine.Load` | Nachos_Project/code/machine/mipssim.cc:302-404 | the loads, in place |
| `Machines.Machine.StoreTo` | Nachos_Project/code/machine/mipssim.cc:540-647 | the stores, in place |
| `Machines.Machine.OneInstruction` | Nachos_Project/code/machine/mipssim.cc:115-685 | fetch, decode and execute in place are the value-level step, of which Instructions says what it does, and R0 and the pending target stay as they must |
| `AddressSpaces.StepKept` | Nachos_Project/code/machine/mipssim.cc:115-685 | no instruction changes a byte of a frame that its page table does not own, or the mapping |
| `AddressSpaces.HappenKeeps` | Nachos_Project/code/userprog/addrspace.cc:86-92 | creating and destroying spaces and running instructions in them keeps the live spaces' frames pairwise disjoint and the bitmap exact |
| `AddressSpaces.StartIsSound` | Nachos_Project/code/threads/kernel.cc:112-113 | that holds at boot |
| `AddressSpaces.RunKeeps` | Nachos_Project/code/userprog/addrspace.cc:126-164 | so at every point of every run |
| `AddressSpaces.Undisturbed` | Nachos_Project/code/userprog/addrspace.cc:126-181 | whatever other spaces do, and however many are created and destroyed, a space reads the same at every address as long as no event is its own and every program loaded meanwhile is copied into its own frames only, the exact condition for which is in `Loading.ProgramStaysIff` |
| `AddressSpaces.TidyUntilExit` | Nachos_Project/code/userprog/addrspace.cc:146-181 | until a space is destroyed, every program whose segments end inside its space is copied into its own frames only |
| `AddressSpaces.LoadOverruns` | Nachos_Project/code/userprog/addrspace.cc:174-181 | after that it need not be: in a run from boot, loading a third program overwrites the first bytes of a second one that is still alive |
| `AddressSpaces.LoadedProgram` | Nachos_Project/code/userprog/addrspace.cc:126-181 | on consecutive frames, a new space reads its initialised data, its code and zeros elsewhere, each byte at its virtual address |
| `AddressSpaces.PagesExact` | Nachos_Project/code/userprog/addrspace.cc:126-130 | a program takes k pages or fewer exactly when k pages hold its code, its initialised and uninitialised data and the 1024 bytes of stack |
| `AddressSpaces.NewSpaceReads` | Nachos_Project/code/userprog/addrspace.cc:126-164 | after a Create that fits, every byte below that sum, and up to the end of its last page, can be read, and every address from there on is an address error; after one that does not fit, every address is |
| `Loading.CopyStaysIff` | Nachos_Project/code/userprog/addrspace.cc:166-181 | a copying loop changes no byte outside the new space's frames, whatever the file holds, exactly when the frames of the first and last byte of every piece it copies are among them |
| `Loading.ProgramStaysIff` | Nachos_Project/code/userprog/addrspace.cc:166-181 | the same for both loops together |
| `Loading.ConsecutiveIff` | Nachos_Project/code/userprog/addrspace.cc:166-181 | on consecutive frames that is exactly when what is copied ends inside the space |
| `Loading.AtZeroPlaced` | Nachos_Project/code/userprog/addrspace.cc:166-172 | a segment at virtual address 0 is always inside, and every byte of it at its virtual address, whatever the frames |
| `Loading.ProgramPlaced` | Nachos_Project/code/userprog/addrspace.cc:166-181 | on consecutive frames both segments end up at their virtual addresses, with the data over the code where they overlap |
| `AddressSpaces.WriteThenRead` | Nachos_Project/code/machine/translate.cc:131-163 | after a write by a space, reading the address gives the value back as ReadMem extends it, and every byte outside the access reads as before |
| `AddressSpaces.UserMemory.constructor` | Nachos_Project/code/threads/kernel.cc:112-113 | no spaces, no frame marked |
| `AddressSpaces.UserMemory.Load` | Nachos_Project/code/userprog/addrspace.cc:126-181 | a space that fits gets distinct free frames, zeroed, and then the two segments, page by page up to the end of the file; one that does not fit gets no pages and nothing changes |
| `AddressSpaces.UserMemory.CopySegment` | Nachos_Project/code/userprog/addrspace.cc:166-181 | each copying loop in place is the value-level copy |
| `AddressSpaces.UserMemory.Allocate` | Nachos_Project/code/userprog/addrspace.cc:146-164 | the loop over FindAndSet: the frames are the least free ones, in order |
| `AddressSpaces.UserMemory.Release` | Nachos_Project/code/userprog/addrspace.cc:86-92 | exactly the space's frames are unmarked |
| `AddressSpaces.UserMemory.RunIn` | Nachos_Project/code/userprog/addrspace.cc:260-263 | one instruction with the space's page table as the machine's, writing through to it |
| `Interrupts.ServeProgress` | Nachos_Project/code/machine/interrupt.cc:297-302 | every round of the handler loop leaves one fewer interrupt due, whatever its handler schedules, so the loop ends |
| `Interrupts.DrainFires` | Nachos_Project/code/machine/interrupt.cc:297-302 | the loop fires exactly what was due when it started, in order, and nothing its handlers schedule |
| `Interrupts.EventFires` | Nachos_Project/code/machine/interrupt.cc:120-169 | what a tick or an idle period fires: exactly the interrupts due by then, in order, at once; CheckIfDue returns whether it fired any |
| `Interrupts.EventKeeps` | Nachos_Project/code/machine/interrupt.cc:243-305 | every event keeps the invariant of EveryRun |
| `Interrupts.EveryRun` | Nachos_Project/code/machine/interrupt.cc:120-305 | in every run, for every behaviour of the handlers: every interrupt scheduled is pending or has fired exactly once; they fire by time, ties in scheduling order, never early and less than one system tick late; what is pending is strictly in the future; total ticks are idle, system and user ticks together |
| `Interrupts.DeviceServed` | Nachos_Project/code/machine/interrupt.cc:243-253 | in every run, a device that asks at time t for an interrupt after d ticks is served exactly once, at a time from t + d to before t + d plus one system tick, and its request is pending until then |
| `Interrupts.HandlerServed` | Nachos_Project/code/machine/interrupt.cc:243-253 | so is every request of every handler, d counted from when its own interrupt fired |
| `Interrupts.TimeGoes` | Nachos_Project/code/machine/interrupt.cc:146-153 | user time is the number of ticks in user mode, system time ten for every other tick, and total time is both and the idle time |
| `Interrupts.EventTime` | Nachos_Project/code/machine/interrupt.cc:146-153 | which counters each event raises and by how much; an idle period ends when the next interrupt is due |
| `Interrupts.Interrupt.Insert` | Nachos_Project/code/lib/list.cc:214-239 | the sorted insertion: after every entry that is not later |
| `Interrupts.Interrupt.Schedule` | Nachos_Project/code/machine/interrupt.cc:243-253 | the request becomes pending in place; DeviceServed and HandlerServed say when it is served |
| `Interrupts.Interrupt.CheckIfDue` | Nachos_Project/code/machine/interrupt.cc:266-305 | in place what the value-level check does |
| `Interrupts.Interrupt.OneTick` | Nachos_Project/code/machine/interrupt.cc:142-169 | the tick is counted as system or user time and what is due fires |
| `Interrupts.Interrupt.SetLevel` | Nachos_Project/code/machine/interrupt.cc:120-131 | turning interrupts on takes one tick; turning them off takes none |
| `Interrupts.Interrupt.Idle` | Nachos_Project/code/machine/interrupt.cc:198-216 | the clock jumps to the next interrupt; the machine stops exactly when none is pending |
| `HashTables.AppendRepresents` | Nachos_Project/code/lib/hash.cc:101-114 | appending to the chain its key hashes to adds the item to the map |
| `HashTables.RemoveRepresents` | Nachos_Project/code/lib/hash.cc:192-204 | taking an item out of its chain takes its key out of the map |
| `HashTables.FlatVisits` | Nachos_Project/code/lib/hash.cc:228-261 | the chains one after the other hold every item of the map once |
| `HashTables.HashTable.constructor` | Nachos_Project/code/lib/hash.cc:29-34 | the empty map in four buckets |
| `HashTables.HashTable.Find` | Nachos_Project/code/lib/hash.cc:155-181 | the item with the key, or none |
| `HashTables.HashTable.Insert` | Nachos_Project/code/lib/hash.cc:101-114 | adds the item to the map; every item stays in the bucket its key hashes to, the count is the total of the chains and at most three times the buckets |
| `HashTables.HashTable.ReHash` | Nachos_Project/code/lib/hash.cc:125-142 | four times the buckets, the same map |
| `HashTables.HashTable.Remove` | Nachos_Project/code/lib/hash.cc:192-204 | returns the item and takes its key out of the map |
| `HashTables.HashIterator.constructor` | Nachos_Project/code/lib/hash.cc:302-309 | everything is still to be visited |
| `HashTables.HashIterator.Next` | Nachos_Project/code/lib/hash.cc:317-327 | what is still to be visited loses its first item |
| `HashTables.VisitAll` | Nachos_Project/code/lib/hash.cc:302-327 | an iteration sees every item of the table exactly once and nothing else |
| `Lists.List.IsInList` | Nachos_Project/code/lib/list.cc:173-182 | whether the item is in the list |
| `Lists.List.Append` | Nachos_Project/code/lib/list.cc:69-83 | the linked list becomes the old one and the item |
| `Lists.List.Prepend` | Nachos_Project/code/lib/list.cc:90-104 | the item and the old list |
| `Lists.List.RemoveFront` | Nachos_Project/code/lib/list.cc:115-132 | the first item comes off |
| `Lists.List.Remove` | Nachos_Project/code/lib/list.cc:139-164 | the first occurrence is unlinked and, items being in a list once, the item is in the list no more |
| `Lists.List.Insert` | Nachos_Project/code/lib/list.cc:214-239 | the item goes before the first one it is less than, after all others, and a list sorted by a total preorder stays sorted |
| `Lists.InsertSorts` | Nachos_Project/code/lib/list.cc:214-239 | put before the first item it is less than, an item keeps a sorted sequence sorted |
| `Numbers.CompareNumAndString` | Nachos_Project/code/userprog/ksyscallhelper.h:65-84 | the digit loop tells exactly whether a string is the decimal form of a number, except that -2^31 is taken for "-"; it asks only that the digits of a positive number do not run on to the left of the string |
| `Numbers.Scan` | Nachos_Project/code/userprog/ksyscall.h:34-48 | the scan leaves the value wrapped to 32 bits and the number of leading zeros, exactly when all characters are digits |
| `Numbers.CanonicalIff` | Nachos_Project/code/userprog/ksyscall.h:23-87 | a string is the canonical form of an int exactly when it is a proper numeral whose value fits, and then of that value |
| `Numbers.ReadNumber` | Nachos_Project/code/userprog/ksyscall.h:23-87 | for every buffer: v when it is the canonical decimal form of an int v, 0 otherwise, although overflow is noticed only by comparing digits with the wrapped value |
| `Numbers.ReadUntilBlank` | Nachos_Project/code/userprog/ksyscallhelper.h:35-58 | the token up to a blank, a byte 255 (which the console cannot tell from the end) or the end, at most twelve characters of it, and what is left of the input |
| `Numbers.SysReadNum` | Nachos_Project/code/userprog/ksyscall.h:23-87 | the same for the token the input starts with, up to its first zero byte |
| `Numbers.SysPrintNum` | Nachos_Project/code/userprog/ksyscall.h:89-110 | prints the canonical form of every int, -2147483648 included |
| `Numbers.PrintThenRead` | Nachos_Project/code/userprog/ksyscall.h:23-110 | what is printed and followed by a blank is read back, and the rest of the input stays |
| `DiskTiming.UnbufferedIsEarliest` | Nachos_Project/code/machine/disk.cc:210-230 | an unbuffered request completes when the head has passed the target once after the seek, at the earliest such time |
| `DiskTiming.HitIff` | Nachos_Project/code/machine/disk.cc:210-230 | the track buffer answers exactly the reads of the current track whose sector has passed the head since the buffer was started |
| `DiskTiming.EventKeeps` | Nachos_Project/code/filesys/synchdisk.cc:54-83 | every step of the lock-request-interrupt-release protocol keeps: one request in flight, and the buffer's start a sector boundary not later than its answer |
| `DiskTiming.EveryRequest` | Nachos_Project/code/filesys/synchdisk.cc:54-83 | in every run of requests by any number of threads, each request finds the disk free (the ASSERT) and the buffer's start at a boundary not later than now, and its answer is due as the two rows above say |
| `DiskTiming.HeadOf` | Nachos_Project/code/machine/disk.cc:237-245 | at every point of every run lastSector is the sector asked for last, and bufferInit the first sector boundary after the head came to its track, at 500 ticks a track, by the last request that had to seek, or 0 if none had to |
| `DiskTiming.Disk.TimeToSeek` | Nachos_Project/code/machine/disk.cc:161-175 | the seek time and the wait for the next sector boundary |
| `DiskTiming.Disk.ComputeLatency` | Nachos_Project/code/machine/disk.cc:210-230 | in place what the value-level latency says |
| `DiskTiming.Disk.Request` | Nachos_Project/code/machine/disk.cc:106-138 | when the interrupt is to come, and the new head position and buffer start |
| `LearningSwitch.GetString` | Switch/switch.cpp:32-56 | the six bytes in decimal with dashes between them |
| `LearningSwitch.NamesDiffer` | Switch/switch.cpp:32-56 | different addresses never share a table key |
| `LearningSwitch.BroadcastName` | Switch/switch.cpp:210-210 | only the all-ones address is taken as broadcast |
| `LearningSwitch.TableIsLastPort` | Switch/switch.cpp:206-206 | after every run the table knows exactly the addresses heard, each at the port of its last frame |
| `LearningSwitch.EveryFrame` | Switch/switch.cpp:192-239 | where stations stay on their ports: a frame for a station heard goes to its port alone, any other to every port but its own, so it always reaches the station's port and no flood goes back |
| `LearningSwitch.Switch.Receive` | Switch/switch.cpp:192-239 | one frame in place: learn first, then broadcast, forward or flood |

## Left out

- SynchList::Apply, Condition::Broadcast and the semaphores offered to user programs: they would only add easy members.
- SynchLists.Step: the no-duplicate ASSERT of List::Append on the items themselves is not modelled, so equal items may be appended.
- Scheduling.EveryRun: context switches are atomic and stacks, user registers and the timer's time slice are not modelled.
- Semaphores.Semaphore.TestOnce: interrupt levels do not appear; a pass of P's loop is one atomic step because the source runs it with interrupts off.
- FileHeaders.FileHeader.Allocate: sizes above the 30 sectors a header can list are outside the model; the source does not check them.
- FileSystems.FileSystem.Create: sizes above the 30 sectors a header can list are outside the model; the source does not check them.
- FileSystems.FileSystem.Open: the table of open files, Close and the file types added to it are not modelled.
- OpenFiles.OpenFile.ReadAt: nothing is said of a request inside the file whose end is 2^31 or more, which goes on past the file's sectors (`OpenFiles.TransferIff`), nor of negative positions, which the source does not check.
- OpenFiles.OpenFile.WriteAt: the same; so for Read and Write.
- FileSystems.FileSystem.WriteFile: position plus length must be below 2^31, for the same reason; so in FileMaps.Write, FileMaps.Read and the writes of FileMaps.Serve.
- FileMaps.Serve: requests come one at a time; the source has no lock on the file system as a whole. The bytes of a new file are whatever its sectors held.
- Directories.TableRoundTrip: padding bytes of an entry are written as zeros, where the source writes whatever the memory held.
- Disks.SynchDisk.ReadSector: the transfer itself; waiting and time are in DiskTiming, which in turn has no data.
- Reassembly.Send: the random identification is a parameter, two datagrams in flight between the same hosts are assumed to have different ones, and the network delivers every fragment once; retransmission and time-outs do not exist in the source.
- Reassembly.IpLayer.OnFragment: header fields that the receiver ignores (version, TTL, checksum, total length) are not modelled.
- Cpu.ExecKeepsGood: DIV of -2^31 by -1, undefined in C, wraps to -2^31 here.
- Machines.Machine.RaiseException: the exception handler that runs next is not modelled, nor are the debugger and the TLB variant.
- AddressSpaces.UserMemory.Load: opening the executable and decoding its header, whose fields are parameters and not negative; a file that does not open leaves the source's fields unset. Nothing is said of a copy that leaves main memory, where the source writes past the array.
- Interrupts.Interrupt.OneTick: returns that the thread must yield instead of yielding; handlers cannot advance time, as in the source.
- Lists.List.Insert: Interrupts keeps its pending list as a sequence and not as this linked list; so does HashTables with its chains.
- Machines.ForcedAnywhere: the kernel between two instructions is an arbitrary function of the machine, the same whether or not the load was landed early.
- HashTables.HashTable.Insert: deletion of tables and SelfTest.
- Numbers.CompareNumAndString: nothing is said of a positive number whose digits run on to the left of the string, where the source reads outside it; SysReadNum never asks for that.
- Numbers.SysReadNum: runs alone. The buffer is one global for all processes and the console read blocks, so two calls at the same time would mix their tokens.
- Numbers.ReadUntilBlank: a further read at the end of the input returns at once here, where the source waits for ever.
- LearningSwitch.Switch.Receive: sockets, select and the frame's payload.
- Host input and output, the network device, system calls other than the two number ones, and the process table.
