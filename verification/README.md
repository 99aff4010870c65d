# Verified models of a teaching kernel and its companion programs

The repository holds a small 80x86 kernel (Pintos, under `proj-pregame/`) and programs around it: a linked-list library
(`hw-list/`) and two MapReduce systems, one in C (`hw-map-reduce/`) and one in Rust (`hw-map-reduce-rs/`). This project
models the parts of it that have to be right under every interleaving, every input and every order of messages, and proves
what their comments and documentation promise.

`dafny verify dfyconfig.toml` checks everything.

| file | what it is about |
|---|---|
| Semaphores, Kernel | FIFO scheduler and semaphores as a step system; an interrupt-off region is one step |
| RwLock | writer-preferring readers-writers lock on a guard lock and two Mesa condition variables, as a step system |
| InodeIO, Directory, FileSystem | byte-offset I/O over sectors, a directory stored as records, the life of inodes and sectors |
| NaturalMerge, LinkedList | the natural merge sort as functions, and the same on doubly linked nodes in the heap |
| Division | 64-bit division out of a 32-bit instruction |
| Heapsort | in-place heapsort and binary search |
| Codec, Keys, MapReduce, GroupBy, Counting, WordCount, VertexDegree | the data path of a MapReduce job, up to two applications |
| Coordinator | the MapReduce coordinator as a machine driven by messages |
| Malloc, Allocator | the states of the block allocator, and its calls with the bytes of memory that they touch |
| PageTable, Loader, AddressSpace | two-level page tables, the arithmetic of ELF segments, and the loading of segments into the page tables of a process |
| Ustar | archive headers |
| Basics, Pigeonhole | what several modules share |

Code that changes its state step by step is a method or a class here, and each such method is proved against a function
or a relation on values; the theorems are about those. Where the subject is what every interleaving or every sequence of
calls keeps (scheduler, readers-writers lock, file system, coordinator), the state is a value, an atomic step is a function
of it, and the theorems range over runs.

Some promises of the comments are not kept by the code for every input. There the model follows the code, and states
the inputs that fail and exactly when the promise holds, by a condition that can be looked up before the call:

- a report of a task that is no longer out makes the coordinator's counters wrong, over every run exactly then
  (`Coordinator.RunTrueIff`); a reduce task then goes out early, or the job never ends;
- two different keys compare equal exactly when they agree up to a common NUL or the end of the shorter one and their
  lengths are the same modulo 2^32 (`Keys.ByKeyZeroExact`), and `by_key` orders two keys as it should exactly when they
  differ before the end or the cut difference of their lengths keeps its sign (`Keys.ByKeyIsWideIff`). Where it does, keys are reduced apart exactly if no
  difference hides behind a NUL (`GroupBy.CGroupsIff`). Where it does not, two keys can each be below the other, exactly
  when they are half of 2^32 bytes apart (`Keys.ByKeyFlips`), three can go round in a circle (`Keys.ByKeyCycle`), and a key
  can be reduced twice although all keys are told apart (`GroupBy.HalfwayKeyIsReducedTwice`); `qsort` promises nothing for
  such a comparison;
- a request of 0xFFFFFFF5 bytes or more wraps around and gets too small a block (`Malloc.BigFitsIff`), which matters to the
  copy in `realloc` exactly when the old block has more than a page (`Allocator.CopyFitsIff`);
- a remainder that does not fit 32 bits is cut (`Division.Umod64`, `Division.Smod64`);
- a directory read that fails for want of a bounce buffer looks like the end of the directory, so `dir_add` can enter a
  name twice or over another one; exactly when is `Directory.AddRightIff`. No sector is shared even then, but a file whose
  record is overwritten is lost with its sectors (`FileSystem.OrphansIff`);
- a page directory in which a frame is mapped twice, or is itself a table, is destroyed only up to the second freeing of
  a page (`PageTable.Mmu.Destroy`);
- a negative file position is looked for outside the file (`InodeIO.PlaceInsideIff`);
- stripping looks only at the start of an archive name (`Ustar.StripLooksAtTheStart`).

`filesys_create` gives back only the header sector when the directory is full, so a used sector need not belong to anybody;
the theorems say that what belongs to somebody is marked used.

Two places where the code and its comments differ, and the model follows the code: `poll_job_1_svc` treats the job id -1 as
unknown although the lines before say that it means a bad application, and `submit_job_1_svc` queues a job with an unknown
application before it answers -1.

## Model

| member | source | states |
|---|---|---|
| Kernel.StepInv | proj-pregame/src/threads/thread.c:176-315 | every step of allocating, unblocking, blocking, yielding, exiting, switching and of semaphores keeps the invariant that ties statuses, ready list, wait lists and page counts together |
| Kernel.ThreadStates | proj-pregame/src/threads/thread.h:78-83 | over every run: exactly one thread runs, the ready list is exactly the ready threads other than idle, only blocked threads are on wait lists and no thread is on two lists, a blocked thread inside `sema_down` is on the list of that semaphore, and a page is freed once for each time it was given to a thread other than the initial one, never while it runs |
| Kernel.BlockedOnNoList | proj-pregame/src/threads/thread.c:176-213 | over every run: from its allocation until it is unblocked, a thread that is being created is blocked and on no list |
| Kernel.SemaphoreCounts | proj-pregame/src/threads/synch.c:58-109 | over every run, with the counters of each semaphore: value = initial + ups - downs, never negative; while threads wait, the value is at most the number of woken threads that have yet to test it again |
| Kernel.ValueCounts | proj-pregame/src/threads/synch.c:45-109 | over every run: the value of a semaphore is what it was initialised with, plus the number of `sema_up` actions since, less the number of passes of `sema_down` and `sema_try_down` that found it positive |
| Kernel.RaiseEffect | proj-pregame/src/threads/synch.c:97-109 | `sema_up` adds one unit; the front waiter, if there is one, leaves the list and becomes ready behind all others, and nothing else changes |
| Kernel.TakeEffect | proj-pregame/src/threads/synch.c:58-92 | a pass that finds the value positive takes one unit and the thread goes on, with no other change |
| Kernel.WaitEffect | proj-pregame/src/threads/synch.c:58-71 | a pass of `sema_down` that finds zero puts the thread at the end of the wait list, blocked, and the next ready thread runs |
| Kernel.TryFails | proj-pregame/src/threads/synch.c:78-92 | `sema_try_down` on zero changes nothing |
| Kernel.SwitchEffect | proj-pregame/src/threads/thread.c:215-315 | yielding, blocking and exiting give the processor to the front of the ready list, or to idle; a thread that yields goes to the end of that list unless it is idle, one that exits is gone unless it is the initial one, and nothing else changes |
| Kernel.CreateEffect | proj-pregame/src/threads/thread.c:176-261 | a new thread is blocked; unblocking puts a thread at the end of the ready list |
| Kernel.NothingIsRefused | proj-pregame/src/threads/synch.c:58-109 | in every state, each of these calls is possible under the conditions that the code asserts, and a thread inside `sema_down` can make its next pass |
| Kernel.ScheduleKeeps | proj-pregame/src/threads/thread.c:504-550 | a switch keeps what holds of every page, including that of a dying thread that is freed |
| Kernel.DispatchBound | proj-pregame/src/threads/thread.c:451-456 | a ready thread at position k runs before k + 1 switches have happened |
| Kernel.QueuedStep | proj-pregame/src/threads/thread.c:233-262 | a step moves a queued thread forward by one place exactly when it switches threads |
| Kernel.WaitListIsFifo | proj-pregame/src/threads/synch.c:65-68 | wait lists only grow at the end, by the thread that was running, and shrink at the front, whose thread is then ready |
| RwLock.StepInv | proj-pregame/src/threads/synch.c:222-358 | every atomic step of every thread keeps the invariant over counters, queues, guard and signalled waiters |
| RwLock.Exclusion | proj-pregame/src/threads/synch.c:222-277 | over every run: AR and AW are the numbers of accesses held, WR and WW those of threads in the wait regions, at most one writer and no reader beside it; the guard has at most one owner and every ASSERT on its holder is true |
| RwLock.WritersFirst | proj-pregame/src/threads/synch.c:230-257 | over every run: a reader is let in only while no writer is active or waiting, a writer only while nobody is active; at the test of its loop an acquiring thread goes on to wait exactly if somebody of these is there, and is let in otherwise |
| RwLock.WhoIsWoken | proj-pregame/src/threads/synch.c:259-277 | over every run: giving up an access signals a writer exactly if one waits and nobody is left active, and broadcasts exactly if it was the writer, no writer waits and readers do |
| RwLock.CallsAreAccesses | proj-pregame/src/threads/synch.c:230-277 | over every run: a call of acquire that returns has gained exactly one access of its kind, a call of release has lost exactly one, and neither touches the other kind |
| RwLock.NothingIsRefused | proj-pregame/src/threads/synch.c:230-277 | any thread may acquire, and release what it has; a thread inside that cannot go on is on a wait list |
| RwLock.NoLostWakeup | proj-pregame/src/threads/synch.c:230-277 | over every run, with the guard free: if nobody is active, a waiting writer has its signal; if no writer is active or waiting, the read queue is empty |
| RwLock.NeverAllAsleep | proj-pregame/src/threads/synch.c:230-358 | threads inside the lock are never all asleep while nobody is active |
| RwLock.WaitingWriterIsSignalled | proj-pregame/src/threads/synch.c:253-277 | names the waiting writer that can go on |
| RwLock.SignalReleasesFront | proj-pregame/src/threads/synch.c:314-345 | `cond_signal` on the write queue releases exactly the front waiter, for good, even between its release of the guard and its `sema_down`; the others keep their places |
| RwLock.BroadcastReleasesFront | proj-pregame/src/threads/synch.c:347-358 | the same for each signal of `cond_broadcast` on the read queue |
| RwLock.QueuesAreFifo | proj-pregame/src/threads/synch.c:314-358 | both condition queues only grow at the end and shrink at the front |
| InodeIO.InodeReadAt | proj-pregame/src/filesys/inode.c:165-203 | reads exactly the requested bytes that the file has, as a contiguous piece of the byte sequence, and leaves the rest of the buffer alone; without a bounce buffer, a prefix of them, which is empty for less than a sector |
| InodeIO.InodeWriteAt | proj-pregame/src/filesys/inode.c:215-268 | writes exactly the bytes that the file has room for, none when writes are denied, a prefix without a bounce buffer, and changes no other byte on the device |
| InodeIO.WriteChunk | proj-pregame/src/filesys/inode.c:238-258 | a partial sector goes through the bounce buffer without losing its other bytes |
| InodeIO.WriteRefinesBytes | proj-pregame/src/filesys/inode.c:215-268 | seen as a byte sequence, the file is overwritten in place: a later read returns what was written |
| InodeIO.WriteLeavesOthers | proj-pregame/src/filesys/inode.c:40-46 | a file on other sectors keeps its bytes |
| InodeIO.NoChunkLeft | proj-pregame/src/filesys/inode.c:170-183 | a transfer that finds no further chunk has moved max(0, min(size, length - offset)) bytes |
| InodeIO.SectorsAreLeast | proj-pregame/src/filesys/inode.c:22-24 | `bytes_to_sectors` is the least number of sectors that hold the bytes |
| InodeIO.PlaceInsideIff | proj-pregame/src/filesys/inode.c:40-46 | with the truncating operators of C, a position below the length is looked for in the sectors of the file, and inside the sector, if and only if it is not negative |
| Directory.FilledDecodes | proj-pregame/src/filesys/directory.c:143-145 | a record that was filled in reads back as that name and sector, in use |
| Directory.AddRefinesIff | proj-pregame/src/filesys/directory.c:131-146 | an entry written into any slot keeps names unique if and only if its name is new or the slot is its own, and adds just that entry to the map if and only if, besides, the slot held no other name |
| Directory.AddRightIff | proj-pregame/src/filesys/directory.c:128-146 | over both scans of `dir_add`: the map gains just the new entry if and only if the slot where the second scan stops is free and the name is new, or the slot is the name's own |
| Directory.DoubledName | proj-pregame/src/filesys/directory.c:128-146 | one used slot, one free slot and no buffer for the first scan: the name is then there twice |
| Directory.MissedNameIsDoubled | proj-pregame/src/filesys/directory.c:128-146 | a name that the first scan misses because a read failed is entered a second time |
| Directory.RoomIff | proj-pregame/src/filesys/directory.c:131-140 | a slot is free if and only if the map has fewer entries than the directory has slots |
| Directory.EraseRefines | proj-pregame/src/filesys/directory.c:173-176 | clearing in_use removes exactly that entry |
| Directory.ListingIsExact | proj-pregame/src/filesys/directory.c:190-201 | a full listing names every entry of the map once and nothing else |
| Directory.WriteRecords | proj-pregame/src/filesys/directory.c:142-146 | a write of a record changes that record and no other; a short one past the last slot changes none |
| Directory.Dir.Lookup | proj-pregame/src/filesys/directory.c:73-89 | finds the first record with the name exactly when it is before the first slot that cannot be read |
| Directory.Dir.DirLookup | proj-pregame/src/filesys/directory.c:95-107 | finds an entry exactly when the scan sees it, and what it finds is what the map has; when all reads succeed, it finds it exactly when the map has it |
| Directory.Dir.AddAnyhow | proj-pregame/src/filesys/directory.c:115-150 | whatever reads fail: succeeds exactly when the first scan does not see the name and the second stops at a slot, which then holds the new entry; no other record changes |
| Directory.Dir.Add | proj-pregame/src/filesys/directory.c:115-150 | whatever reads fail: says exactly when a record is written, and that the records then stand for the map with the new entry if and only if the written slot was right; when all reads succeed, this is so, and it succeeds exactly for a valid, new name while the map has fewer entries than there are slots and the write is possible |
| Directory.Dir.Remove | proj-pregame/src/filesys/directory.c:155-185 | whatever reads fail: the map loses exactly that entry if the scan sees it, otherwise nothing changes |
| Directory.Dir.Readdir | proj-pregame/src/filesys/directory.c:190-201 | the next name of the listing, and the position behind it; where a read fails, the listing pauses and nothing is skipped |
| FileSystem.StepInv | proj-pregame/src/filesys/filesys.c:39-77 | create, open, reopen, close, remove, deny and allow keep the invariant, whatever fails in them: allocation of sectors, inodes, files and handles, every read of a directory scan, the write of a record |
| FileSystem.AddSlotIff | proj-pregame/src/filesys/directory.c:121-146 | `dir_add` writes exactly the first slot that is free or cannot be read, if the name is valid, the first scan does not see it and the write works |
| FileSystem.NothingIsRefused | proj-pregame/src/filesys/filesys.c:39-77 | every call is possible for every name and open file, whatever free sectors the free map offers and whatever fails |
| FileSystem.VisibleEffect | proj-pregame/src/filesys/filesys.c:39-77 | a call that succeeds has its effect on the records of the directory and the open files and no other, one that fails has none, whatever reads fail |
| FileSystem.NamesEffect | proj-pregame/src/filesys/filesys.c:39-77 | when the scans get their buffers: with the directory standing for a map, create succeeds exactly for a new valid name and adds it, remove takes it away, open finds its inode, and the directory stands for the changed map |
| FileSystem.CreateSucceeds | proj-pregame/src/filesys/filesys.c:39-49 | a created file exists with the requested length, on sectors that were free |
| FileSystem.CreateFails | proj-pregame/src/filesys/filesys.c:44-45 | a failed creation leaves at most its data sectors marked used |
| FileSystem.NoSharedSectors | proj-pregame/src/filesys/free-map.c:25-41 | over every run: no sector belongs to two inodes that exist, and every sector that belongs to one is marked used |
| FileSystem.OnlyVictimsGo | proj-pregame/src/filesys/inode.c:135-160 | sectors are given back exactly when a removed file loses its last handle or a closed file is removed; then exactly its sectors; every other inode stays, except, exactly, those that are lost because their record was overwritten |
| FileSystem.OrphansIff | proj-pregame/src/filesys/directory.c:138-146 | an open file loses its name without being removed if and only if `dir_add` overwrites its record; while there is none of this kind, nothing is lost but closed files whose record is overwritten |
| FileSystem.ReadsOverwriteNothing | proj-pregame/src/filesys/directory.c:138-146 | with bounce buffers for its second scan, `dir_add` overwrites no record |
| FileSystem.NothingIsLost | proj-pregame/src/filesys/inode.c:135-160 | over every run in which `dir_add` gets these buffers, every open file without a name was removed, so its sectors come back |
| FileSystem.HeldWhileOpen | proj-pregame/src/filesys/inode.c:155-160 | through every run that does not close it, an open file keeps its inode and sectors, even when it is removed |
| FileSystem.CountsAreFiles | proj-pregame/src/filesys/inode.c:272-284 | open and deny counts are the numbers of open files on the inode, so the counting ASSERTs hold |
| FileSystem.CloseStore | proj-pregame/src/filesys/inode.c:141-152 | closing releases header and data sectors of a removed inode at its last close only; an inode ceases to exist at its last close exactly if it has no name |
| FileSystem.CoreClosable | proj-pregame/src/filesys/free-map.c:37-41 | the ASSERT of `free_map_release` holds at every close |
| FileSystem.CreateStore | proj-pregame/src/filesys/inode.c:60-89 | creating a file takes sectors that nobody owns, whichever slot is written; when no slot is, the new data sectors may stay marked used |
| FileSystem.CloseFile | proj-pregame/src/filesys/file.c:37-43 | closing a file that does not deny writes keeps the invariant |
| FileSystem.RemoveNamed | proj-pregame/src/filesys/directory.c:164-184 | removing the file of a slot keeps the invariant: it is open for the call, unlinked and closed |
| FileSystem.OpenAndClose | proj-pregame/src/filesys/inode.c:94-160 | opening an inode for a call and closing it again, as a failed `dir_remove` or `file_open` does, changes nothing |
| FileSystem.FilesAreSeparate | proj-pregame/src/filesys/inode.c:215-268 | after every run on a device on which the allocated sectors lie, writing to one file leaves the bytes and the header of every other as they were |
| FileSystem.StepLive | proj-pregame/src/filesys/filesys.c:39-77 | a call makes no inode exist but the one that it creates |
| FileSystem.RunWithin | proj-pregame/src/filesys/free-map.c:25-33 | over every run, all inodes stay on the device that the free map describes |
| FileSystem.FormattedInv | proj-pregame/src/filesys/filesys.c:79-87 | the formatted file system satisfies the invariant |
| NaturalMerge.MergeSorts | hw-list/list.c:320-341 | merging two sorted runs gives a sorted run |
| NaturalMerge.MergePermutes | hw-list/list.c:320-341 | merging loses and invents no element |
| NaturalMerge.MergeStable | hw-list/list.c:334-340 | elements of the left run keep their place before equal ones of the right run |
| NaturalMerge.PassHalvesRuns | hw-list/list.c:352-374 | a pass over r natural runs outputs ceil(r / 2) |
| NaturalMerge.PassImproves | hw-list/list.c:359-373 | a pass rearranges stably and leaves at most as many natural runs as it counted |
| NaturalMerge.PassAdvances | hw-list/list.c:354-374 | the loop ends: each pass with more than one output run leaves fewer runs, and one output run means sorted |
| NaturalMerge.StableSortIsUnique | hw-list/list.c:343-345 | at most one arrangement of different elements is sorted and stable, so the sort has only one possible result |
| LinkedList.Splice | hw-list/list.c:164-182 | moves a range to an earlier place of the same list; the result is well formed in both directions |
| LinkedList.SpliceLater | hw-list/list.c:164-182 | moves a range to a later place of the same list, or to where it is |
| LinkedList.SpliceBetween | hw-list/list.c:164-182 | moves a range from one list into another; both are well formed in both directions |
| LinkedList.FindEndOfRun | hw-list/list.c:307-318 | returns the end of the nondecreasing run |
| LinkedList.InplaceMerge | hw-list/list.c:325-341 | two adjacent runs become their merge, and the rest of the list is as it was |
| LinkedList.List.SortPass | hw-list/list.c:359-373 | one pass does to the links what the pass on sequences does |
| LinkedList.List.Sort | hw-list/list.c:346-377 | a well-formed list ends up well formed, made of the same nodes, sorted and stable, for every strict weak order |
| Division.Divl | proj-pregame/src/lib/arithmetic.c:25-33 | the quotient q with q * d <= n < q * d + d, or a trap exactly when d is zero or n >= 2^32 * d |
| Division.Nlz | proj-pregame/src/lib/arithmetic.c:37-63 | shifting left by the result puts the highest one bit on top |
| Division.NarrowCase | proj-pregame/src/lib/arithmetic.c:69-92 | the low digit fits 32 bits and completes the quotient |
| Division.WideEstimate | proj-pregame/src/lib/arithmetic.c:105-107 | dividing by the top bits of the shifted divisor does not trap, and the shifted result is the quotient or one more |
| Division.Correct | proj-pregame/src/lib/arithmetic.c:108-108 | one unit too much is noticed and taken back |
| Division.Udiv64 | proj-pregame/src/lib/arithmetic.c:67-111 | floor division for every dividend and nonzero divisor, with no trap |
| Division.Umod64 | proj-pregame/src/lib/arithmetic.c:115-115 | the remainder modulo 2^32, so exact just when the remainder fits |
| Division.Sdiv64 | proj-pregame/src/lib/arithmetic.c:119-124 | truncation toward zero, except for the one quotient that no 64-bit word holds |
| Division.Smod64 | proj-pregame/src/lib/arithmetic.c:128-128 | the low 32 bits of the truncating remainder, exact just when it fits |
| Heapsort.Heapify | proj-pregame/src/lib/stdlib.c:82-104 | restores heap order at an element whose subtrees have it, by moving elements of the heap among themselves |
| Heapsort.FindLargest | proj-pregame/src/lib/stdlib.c:85-93 | the largest of an element and its children |
| Heapsort.SiftStep | proj-pregame/src/lib/stdlib.c:95-102 | exchanging an element with its largest child moves the disorder down and leaves it nowhere else |
| Heapsort.RootIsMax | proj-pregame/src/lib/stdlib.c:124-128 | the root of a heap is not below any element |
| Heapsort.RootGoesBehind | proj-pregame/src/lib/stdlib.c:124-128 | the root goes to its final place, and the rest is a heap below its new root |
| Heapsort.Sort | proj-pregame/src/lib/stdlib.c:112-129 | for every array and total preorder: sorted, and a permutation |
| Heapsort.BinarySearch | proj-pregame/src/lib/stdlib.c:159-178 | finds an element that compares equal exactly when there is one |
| Codec.RoundTrip | hw-map-reduce/codec/codec.c:16-60 | reading a stream gives back exactly the packets that were written, in both formats |
| Codec.DecodeEncode | hw-map-reduce-rs/src/codec/mod.rs:88-145 | packets are read back one by one, and what follows is read after them |
| Codec.CutStream | hw-map-reduce/codec/codec.c:30-60 | a stream cut off anywhere loses packets at its end and garbles none |
| Codec.HeaderOrder | hw-map-reduce/codec/codec.c:16-19 | the length before a packet is eight bytes, the lowest first, in C, and four, the lowest last, in Rust |
| Codec.Writer.Write | hw-map-reduce/codec/codec.c:16-19 | the file grows by one packet |
| Codec.Writer.Send | hw-map-reduce-rs/src/codec/mod.rs:88-93 | the same, and a packet whose length does not fit 32 bits is refused |
| Codec.Reader.Next | hw-map-reduce/codec/codec.c:30-60 | the next packet and the rest of the file, or nothing at the end and at a packet that is cut off; when `malloc` fails, a packet that is not empty is not returned, and the file stands at its first byte |
| Codec.Reader.Take | hw-map-reduce-rs/src/codec/mod.rs:136-144 | ends only at the end of the buffer, and panics exactly at a packet that is cut off |
| Codec.Reader.Count | hw-map-reduce/codec/codec.c:62-73 | the number of packets that can be read |
| Keys.ByKeyZero | hw-map-reduce/lib/lib.c:26-39 | keys that `by_key` orders as it should compare equal if and only if they have the same length and agree up to their first NUL |
| Keys.ByKeyZeroExact | hw-map-reduce/lib/lib.c:26-39 | any two keys compare equal if and only if, as far as the shorter one goes, they agree up to their first NUL, and their lengths agree modulo 2^32 |
| Keys.ByKeyIsWideIff | hw-map-reduce/lib/lib.c:26-39 | `by_key` has the sign of the comparison without the cut to `int` if and only if the keys differ before the end or the cut difference of their lengths keeps its sign |
| Keys.LongKeysCollide | hw-map-reduce/lib/lib.c:30-38 | a key compares equal to every extension of it by 2^32 bytes |
| Keys.NulFreeSeparates | hw-map-reduce/lib/lib.c:33-38 | any two keys without NUL compare equal if and only if one starts with the other and their lengths agree modulo 2^32; so they are told apart when `by_key` orders them as it should |
| Keys.NulHidesTheRest | hw-map-reduce/lib/lib.c:33-38 | two different keys with NUL that compare equal |
| Keys.ByKeyTransitive | hw-map-reduce/lib/lib.c:26-39 | the comparison is transitive on keys that it orders pairwise as it should |
| Keys.ByKeyFlips | hw-map-reduce/lib/lib.c:26-39 | for keys of any length, exchanging the keys flips the sign if and only if they do not agree with lengths half of 2^32 apart |
| Keys.HalfwayKeys | hw-map-reduce/lib/lib.c:26-39 | the empty key and a key of 2^31 bytes are each below the other |
| Keys.ByKeyCycle | hw-map-reduce/lib/lib.c:26-39 | three keys without NUL of which each is below the next |
| Keys.OrdersAgree | hw-map-reduce-rs/src/worker/mod.rs:125-129 | without NUL bytes, the C comparison has the sign of the byte order of the Rust worker if and only if the cut difference of the lengths keeps its sign or does not matter |
| MapReduce.WriteMapKvs | hw-map-reduce/worker/task_handler.c:170-184 | file j of a map task gets exactly the pairs whose key belongs to task j, in order |
| MapReduce.CountEntries | hw-map-reduce/worker/task_handler.c:41-57 | the number of packets in all intermediate files of a reduce task |
| MapReduce.EntriesSuffice | hw-map-reduce/worker/task_handler.c:27-32 | the array for the pairs is big enough, even for malformed files |
| MapReduce.ReadMapKvs | hw-map-reduce/worker/task_handler.c:69-92 | all pairs of all intermediate files, file after file |
| MapReduce.CollectPairs | hw-map-reduce/worker/task_handler.c:14-32 | refuses an odd number of packets, otherwise loads every pair |
| MapReduce.ReduceKvs | hw-map-reduce/worker/task_handler.c:98-113 | the loop with two indices writes one result for each run of equal keys, in order |
| GroupBy.LoadFiles | hw-map-reduce/worker/task_handler.c:69-92 | reduce task j reads exactly the pairs of part j over all map tasks |
| GroupBy.GroupsExact | hw-map-reduce/worker/task_handler.c:96-113 | on sorted pairs each key has exactly one group, which is all its pairs |
| GroupBy.RunIsGroupBy | hw-map-reduce/worker/task_handler.c:69-116 | the run equals the sequential group-by for any number of tasks, any partition by key and any comparison that orders and separates the keys of the task: each key is reduced once, in its own task and no other, with exactly the multiset of its pairs |
| GroupBy.GroupByIff | hw-map-reduce/worker/task_handler.c:69-116 | for any comparison that orders the keys of a task: each group has one key if and only if the comparison separates these keys |
| GroupBy.CGroupsIff | hw-map-reduce/worker/task_handler.c:69-116 | with `by_key`, where it orders the keys of a task as it should: each group has one key if and only if no two different keys have the same length and agree up to their first NUL |
| GroupBy.ByKeyPreorder | hw-map-reduce/lib/lib.c:26-39 | keys that `by_key` orders pairwise as it should, among them all whose lengths fit an `int`, are ordered as `qsort` demands |
| GroupBy.HalfwayKeyIsReducedTwice | hw-map-reduce/worker/task_handler.c:96-113 | with a key of 2^31 bytes between them, two pairs with the empty key are in order and are reduced apart, although all keys are told apart |
| GroupBy.PartsConserve | hw-map-reduce-rs/src/worker/mod.rs:180-187 | partitioning loses no pair and sends none twice |
| GroupBy.GroupsConserve | hw-map-reduce-rs/src/worker/mod.rs:125-135 | grouping loses no pair |
| Counting.AddUp | hw-map-reduce/app/wc/wc.c:58-69 | the summing loop gives the key with the sum of the values |
| Counting.CountsAreTrue | hw-map-reduce/app/wc/wc.c:58-69 | a task writes each of its keys that occur once, with the number of occurrences over all inputs |
| WordCount.NumWords | hw-map-reduce/app/wc/wc.c:9-27 | the number of maximal runs of at least two letters |
| WordCount.ScanWords | hw-map-reduce/app/wc/wc.c:29-56 | the second scan finds the same words, in order, and fills the array that was sized by the first exactly |
| WordCount.WcMap | hw-map-reduce/app/wc/wc.c:29-56 | the words of the text as WordCount.WordsAreRuns describes them, each with the number one |
| WordCount.WordsAreRuns | hw-map-reduce/app/wc/wc.c:29-56 | byte by byte: a word is found as often as there are positions where the text has its letters, in either case, with no letter before or behind them, and at least two of them |
| WordCount.WordsInOrder | hw-map-reduce/app/wc/wc.c:29-56 | the words are found in the order of these positions, without overlap |
| WordCount.WordCountIsTrue | hw-map-reduce/app/wc/wc.c:29-69 | for any texts that `int` counters can scan and any number of reduce tasks, each word that stands somewhere in the texts, in whatever case, is written once, by its own task, with the number of places where it stands; the `int` is that number exactly when it is below 2^31 |
| WordCount.CountFits | hw-map-reduce/app/wc/wc.c:58-69 | a written count reads back as itself if and only if it is below 2^31 |
| VertexDegree.DegreesAreTrue | hw-map-reduce-rs/src/app/vertex_degree.rs:25-71 | every vertex with an edge is written once, by its own task, with its degree in the whole graph |
| VertexDegree.DegreesSum | hw-map-reduce-rs/src/app/vertex_degree.rs:25-71 | all degrees written add up to twice the number of edges |
| VertexDegree.OutputTotal | hw-map-reduce-rs/src/app/vertex_degree.rs:57-71 | the counts of a task add up to the number of pairs it read |
| VertexDegree.KeyOrder | hw-map-reduce-rs/src/app/vertex_degree.rs:31-42 | a vertex is a key of eight bytes, the lowest last |
| Coordinator.Server.SubmitJob | hw-map-reduce/coordinator/coordinator.c:62-121 | queues a job under a fresh id, with its files, its number of reduce tasks and nothing done; the reply is -1 for an unknown application |
| Coordinator.Server.PollJob | hw-map-reduce/coordinator/coordinator.c:124-157 | reports the job's flags; a done job leaves the queue, whose order is kept, and nothing else changes |
| Coordinator.Server.GetTask | hw-map-reduce/coordinator/coordinator.c:160-251 | serves the first job in the queue that has something to offer, late tasks first |
| Coordinator.Server.FindLate | hw-map-reduce/coordinator/coordinator.c:190-203 | a task that is overdue and not complete, exactly if there is one |
| Coordinator.Server.FinishTask | hw-map-reduce/coordinator/coordinator.c:254-284 | a report changes nothing for an unknown job, marks its job failed and done if it reports failure, and otherwise completes the record, counts its kind and sets done at the two goals; no other job changes |
| Coordinator.StepInv | hw-map-reduce/coordinator/coordinator.c:62-284 | every message keeps the invariant that ties counters, task table and flags to what was given out and reported |
| Coordinator.GivenInOrder | hw-map-reduce/coordinator/coordinator.c:172-248 | a task comes from a job that is not done; it is the next fresh id of its kind, or an overdue one that was given before; a map task comes with its own file |
| Coordinator.WaitIff | hw-map-reduce/coordinator/coordinator.c:172-251 | the answer is "wait" if and only if no job in the queue that is not done has a task that went out ten seconds ago or more and is not reported, a map task that has not gone out while map reports are missing, or a reduce task that has not gone out after as many map reports as files |
| Coordinator.FirstIsServed | hw-map-reduce/coordinator/coordinator.c:172-251 | the first job in the queue that has such work is served: with a timed-out task as it was given, if there is one, else with a fresh map task and its file, else with a fresh reduce task |
| Coordinator.TimedOutIsServed | hw-map-reduce/coordinator/coordinator.c:190-203 | while a job that is not done has a timed-out task, the answer is not "wait" |
| Coordinator.QueuedUntilDone | hw-map-reduce/coordinator/coordinator.c:62-157 | over every run: jobs are queued in the order of submission, and every job that is not done is in the queue |
| Coordinator.NothingIsRefused | hw-map-reduce/coordinator/coordinator.c:62-284 | jobs can be submitted and polled, and tasks asked for, in every state; a worker can report what it was given |
| Coordinator.NotAgainBeforeTimeout | hw-map-reduce/coordinator/coordinator.c:194-247 | a task that goes out for the first time is not given again in any run in which the clock stays below that moment plus the timeout |
| Coordinator.NoEarlyReduce | hw-map-reduce/coordinator/coordinator.c:228-247 | with no repeated report, a reduce task goes out only after every map task was reported |
| Coordinator.NothingLost | hw-map-reduce/coordinator/coordinator.c:224-245 | with no repeated report, the table shared by map and reduce tasks never loses a task that is still out |
| Coordinator.DoneExactly | hw-map-reduce/coordinator/coordinator.c:266-281 | with no repeated report, a job that has not failed is done if and only if it has tasks and all are reported |
| Coordinator.NeverReverts | hw-map-reduce/coordinator/coordinator.c:266-281 | over every run, done and failed are never taken back |
| Coordinator.CountsTrueIff | hw-map-reduce/coordinator/coordinator.c:272-278 | the counters are the numbers of different reported tasks if and only if no report was repeated |
| Coordinator.ReportCountsIff | hw-map-reduce/coordinator/coordinator.c:266-281 | a success report keeps the counters true if and only if the record of its task, of its kind, is there and not complete |
| Coordinator.RunTrueIff | hw-map-reduce/coordinator/coordinator.c:254-284 | over every run, the counters are true at its end if and only if they were at its start and every success report found its task still out |
| Coordinator.EarlyReduceIff | hw-map-reduce/coordinator/coordinator.c:228-247 | when a fresh reduce task goes out, all map tasks were reported if and only if no map report was repeated |
| Coordinator.MapTaskLostIff | hw-map-reduce/coordinator/coordinator.c:224-245 | an unreported map task is lost from the table if and only if the reduce task with its number went out |
| Coordinator.DoneTrulyIff | hw-map-reduce/coordinator/coordinator.c:279-281 | when the counters are at their goals, all tasks were reported if and only if no report was repeated |
| Coordinator.OvercountedForever | hw-map-reduce/coordinator/coordinator.c:228-281 | once the map counter is past the number of files, through every run no reduce task goes out and the job is not done unless it fails |
| Coordinator.RepeatedReportStallsJob | hw-map-reduce/coordinator/coordinator.c:272-282 | a run in which a repeated report puts the map counter past the number of files although every map task was reported |
| Coordinator.RepeatedReportLosesTask | hw-map-reduce/coordinator/coordinator.c:272-282 | a run in which a repeated report lets a reduce task go out early and push an unfinished map task out of the table |
| Malloc.MallocInit | proj-pregame/src/threads/malloc.c:68-79 | the descriptors that are made, and that they fit their array |
| Malloc.ArenaIsFull | proj-pregame/src/threads/malloc.c:68-79 | an arena has as many blocks as a page holds behind the header |
| Malloc.BlockToArena | proj-pregame/src/threads/malloc.c:237-257 | `block_to_arena` undoes `arena_to_block` |
| Malloc.FindDesc | proj-pregame/src/threads/malloc.c:94-96 | the smallest descriptor that is big enough; none exactly for sizes over 1024 |
| Malloc.BigFitsIff | proj-pregame/src/threads/malloc.c:97-105 | in 32-bit arithmetic, the pages for a big block hold it or the request is refused if and only if the size is below 0xFFFFFFF5; it is refused exactly from 2^32 - 4107 up to there |
| Malloc.BigIsTight | proj-pregame/src/threads/malloc.c:97-105 | no page too many is taken for a big block |
| Malloc.WrappedRequest | proj-pregame/src/threads/malloc.c:100-100 | a request of 2^32 - 1 bytes gets one page |
| Malloc.AllFree | proj-pregame/src/threads/malloc.c:216-223 | when the count reaches the top, every block of the arena is on the free list |
| Allocator.Heap.Malloc | proj-pregame/src/threads/malloc.c:83-142 | succeeds exactly if the descriptor of the size has a free block or gets a page, or, over 1024 bytes, the pages can be had and their number does not wrap to zero; hands out a block that nobody holds, keeps the invariant and changes no byte of a block that somebody holds; pages are taken only for a new arena; on failure nothing changes |
| Allocator.Heap.Free | proj-pregame/src/threads/malloc.c:196-234 | takes the block back, keeps the invariant (counts equal the blocks on the free lists and stay below the top, every block is free or held) and changes no byte of a block that is still held; the pages go back exactly when nobody holds a block of the arena any more |
| Allocator.Heap.Realloc | proj-pregame/src/threads/malloc.c:178-192 | size zero frees; otherwise it succeeds exactly when `malloc` does, a null block allocates and a failure changes nothing; the new block starts with the bytes of the old one, as many as both have, and no byte of any other held block changes, if the copy fits |
| Allocator.CopyFitsIff | proj-pregame/src/threads/malloc.c:184-189 | the copy of `realloc` fits into the new block if and only if the request is below 0xFFFFFFF5 or the old block fits one page |
| Allocator.Heap.InitArena | proj-pregame/src/threads/malloc.c:124-133 | a new arena has all its blocks on the free list; writing its header and links changes no byte of a held block |
| Allocator.Heap.RemoveBlocks | proj-pregame/src/threads/malloc.c:220-223 | the loop takes exactly the blocks of the arena off the list, and its link updates change no byte of a held block |
| Allocator.Heap.ReleaseArenaOf | proj-pregame/src/threads/malloc.c:216-224 | an arena that is entirely free leaves lists and pages; filling its page changes no byte of a held block |
| Allocator.FreeMisses | proj-pregame/src/threads/malloc.c:206-213 | the bytes of a free block, where links are stored, belong to no caller |
| Allocator.HeaderMisses | proj-pregame/src/threads/malloc.c:126-129 | the bytes of an arena header belong to no caller |
| Allocator.UnusedMisses | proj-pregame/src/threads/palloc.c:103-126 | the bytes of pages not in use belong to no caller |
| Allocator.BlockFits | proj-pregame/src/threads/malloc.c:92-111 | a held block lies on the pages of its arena, and is at least as big as requested if and only if the request was below 0xFFFFFFF5 |
| Allocator.BlocksAreDisjoint | proj-pregame/src/threads/malloc.c:12-35 | two blocks never overlap, held or free |
| Malloc.NewBigInv | proj-pregame/src/threads/palloc.c:65-91 | a run of free pages becomes a big block without touching any other arena |
| Malloc.ReleaseBigInv | proj-pregame/src/threads/palloc.c:103-126 | exactly the pages of the block go back, all of which were in use |
| PageTable.EntryIsExact | proj-pregame/src/threads/pte.h:66-98 | an entry gives back the page that it was made for, present, neither dirty nor accessed |
| PageTable.WritableIsExact | proj-pregame/src/threads/pte.h:85-94 | an entry is writable exactly if it was made so, and open to user code; entries of the directory are both |
| PageTable.DirtyIsExact | proj-pregame/src/userprog/pagedir.c:150-160 | changing the dirty bit changes neither the translation nor the accessed bit |
| PageTable.AccessedIsExact | proj-pregame/src/userprog/pagedir.c:173-183 | changing the accessed bit changes neither the translation nor the dirty bit |
| PageTable.IndexIsExact | proj-pregame/src/threads/pte.h:31-35 | two user addresses share both indices exactly when they are on the same page |
| PageTable.Mmu.LookupPage | proj-pregame/src/userprog/pagedir.c:50-75 | finds or creates the table, and changes no translation; a table and a page for it are taken exactly if one was missing |
| PageTable.Mmu.SetPage | proj-pregame/src/userprog/pagedir.c:87-104 | the map gains exactly that page, or is unchanged when no table can be had |
| PageTable.Mmu.GetPage | proj-pregame/src/userprog/pagedir.c:110-120 | the address in the frame that the map has, or nothing |
| PageTable.Mmu.ClearPage | proj-pregame/src/userprog/pagedir.c:126-137 | the map loses exactly that page |
| PageTable.Mmu.SetDirty | proj-pregame/src/userprog/pagedir.c:150-160 | no translation changes, and no other entry |
| PageTable.Mmu.SetAccessed | proj-pregame/src/userprog/pagedir.c:173-183 | no translation changes, and no other entry |
| PageTable.Mmu.IsDirty | proj-pregame/src/userprog/pagedir.c:143-146 | the dirty bit, false when there is no entry |
| PageTable.Mmu.IsAccessed | proj-pregame/src/userprog/pagedir.c:166-169 | the accessed bit, false when there is no entry |
| PageTable.Mmu.Destroy | proj-pregame/src/userprog/pagedir.c:24-42 | frees frames and tables in directory order, then the directory, each freed page being overwritten; gets to its end without freeing a page twice if and only if no frame is mapped twice or is itself a table or the directory |
| PageTable.DestroyFreesAll | proj-pregame/src/userprog/pagedir.c:22-42 | the pages freed are exactly the present frames, the tables and the directory |
| PageTable.ExclusiveIff | proj-pregame/src/userprog/pagedir.c:22-42 | each of them occurs once if and only if no frame is mapped twice or is itself a table or the directory |
| Loader.ValidIsInside | proj-pregame/src/userprog/process.c:371-410 | a segment that passes lies in user memory above page 0 and does not wrap around |
| Loader.ValidIff | proj-pregame/src/userprog/process.c:371-410 | for every 32-bit header: a segment passes if and only if, without wrapping, it is not empty, not smaller than its part in the file, starts within the file, lies in [PGSIZE, PHYS_BASE) with its end, and differs from its place in the file by whole pages |
| Loader.PlanIsExact | proj-pregame/src/userprog/process.c:327-341 | a valid segment is loaded into exactly the pages that it touches, and needs exactly its bytes of the file |
| Loader.PlanIsSound | proj-pregame/src/userprog/process.c:327-341 | no 32-bit computation wraps, the ASSERTs of `load_segment` hold, and the pages cover the segment |
| AddressSpace.UserSpace.InstallPage | proj-pregame/src/userprog/process.c:493-500 | on the real page tables: maps the page exactly if none was mapped there and a table exists or can be had; seen as the memory of the process, exactly that page is added, with its contents and permission, or nothing changes; a kernel page is taken exactly if the table was missing |
| AddressSpace.UserSpace.LoadSegment | proj-pregame/src/userprog/process.c:426-464 | on the real page tables: succeeds exactly when nothing is mapped there, the file has the bytes, and there are pages for the frames and for the page tables that are missing, counted; the byte counters never go below zero; when it fails, a prefix of the pages is loaded and nothing else has changed |
| AddressSpace.UserSpace.LoadHeader | proj-pregame/src/userprog/process.c:324-346 | succeeds exactly when the header is acceptable in the sense of Loader.ValidIff, its bytes are in the file, nothing is mapped in the pages that it touches, and there are pages for these and for the missing page tables; then memory at the segment is the file's bytes followed by zeros; on success and failure, every new page is a user page other than page 0 with the permission of the segment, and what was mapped is unchanged |
| AddressSpace.CanLoadIff | proj-pregame/src/userprog/process.c:433-462 | the next page can be loaded now if and only if that many pages could be loaded at the start |
| Loader.SegmentIsLoaded | proj-pregame/src/userprog/process.c:412-464 | every byte of the segment, by its address |
| Ustar.DigitLoop | proj-pregame/src/lib/stdio.c:487-495 | the octal digits of a number, least significant first |
| Ustar.FormatIsOctal | proj-pregame/src/lib/stdio.c:456-528 | a number that fits is printed with leading zeros in exactly the given width |
| Ustar.ParseOctalField | proj-pregame/src/lib/ustar.c:116-140 | the octal value of the leading digits, if there are some, a space or null byte follows inside the field and the value fits; failure in every other case |
| Ustar.OctalRoundTrip | proj-pregame/src/lib/ustar.c:107-140 | parsing undoes printing |
| Ustar.StripAntisocialPrefixes | proj-pregame/src/lib/ustar.c:60-64 | drops every prefix "/", "./" and "../" and terminates |
| Ustar.StripTwice | proj-pregame/src/lib/ustar.c:51-64 | stripping is idempotent and leaves a name that is not empty, does not start with "/", "./" or "../" and is not ".." |
| Ustar.DroppedIs | proj-pregame/src/lib/ustar.c:60-63 | what is dropped from the start is a sequence of "/", "./" and "../", and the rest stays as it is |
| Ustar.StripLooksAtTheStart | proj-pregame/src/lib/ustar.c:51-64 | "a/../../x" is left as it is |
| Ustar.CalculateChksum | proj-pregame/src/lib/ustar.c:34-49 | the sum of the bytes with spaces in the checksum field |
| Ustar.ChksumIsIndependent | proj-pregame/src/lib/ustar.c:40-47 | the checksum does not depend on its own field and fits seven octal digits |
| Ustar.OtherFields | proj-pregame/src/lib/ustar.c:87-99 | permissions, owner and time, which the parser ignores, are readable as what was meant; user and group are "root" |
| Ustar.EmptyFields | proj-pregame/src/lib/ustar.c:88-88 | all remaining fields are zero |
| Ustar.Layout | proj-pregame/src/lib/ustar.c:10-31 | where each field is among the 512 bytes |
| Ustar.AcceptedIff | proj-pregame/src/lib/ustar.c:157-198 | which headers are accepted, for every header, and what name, type and size are then |
| Ustar.DamageIsNoticed | proj-pregame/src/lib/ustar.c:36-49 | of two headers that differ in one byte outside the checksum field, at most one is accepted |
| Ustar.RoundTrip | proj-pregame/src/lib/ustar.c:73-198 | a header is made exactly when the stripped name has at most 99 bytes; parsing it gives back stripped name, type and size (0 for a directory), and fails exactly for a regular file of negative size |

## Left out

- The scheduler, the readers-writers lock and the life of inodes are models on values (state and step functions), not objects with fields: the theorems quantify over runs. Each system call of the file system is one step; calls that interleave are not modelled.
- Boot before `thread_start`, timer ticks, thread ids, priorities and scheduling policies other than FIFO.
- `list_insert`, `list_remove`, `list_reverse`, `list_insert_ordered`, `list_unique`: they would add shorter proofs of the same kind.
- InodeIO.InodeReadAt: offsets are not negative, which is what `file_seek` asserts; `InodeIO.PlaceInsideIff` says where a negative one leads. The order in which sectors reach the device is not modelled.
- InodeIO.InodeWriteAt: offsets are not negative, for the same reason.
- File positions (`file_read`, `file_write`, `file_seek`), which only add an offset.
- The contents of the free map file, crash consistency, and the hardware side of the block device.
- `ihash` is not modelled; MapReduce.WriteMapKvs and the theorems hold for any function from keys to reduce tasks.
- Sorting of pairs by `qsort` of the C library and `sort_unstable_by_key` is taken as given: any sorted permutation, for a comparison that orders the keys.
- Memory exhaustion in MapReduce workers beyond Codec.Reader.Next, and file names.
- Parsing of edge lists and printing of results in vertex_degree.rs; the grep application and the C version of vertex_degree.
- WorkerState::get_data and the RPC transport: a reduce task is given the bytes that the map tasks wrote.
- Allocator.Heap.Malloc: locks of the allocator are not modelled, and the values of the links and headers that it stores are arbitrary; what is proved is where they are stored.
- Allocator.Heap.Realloc: says nothing of the state after a copy that does not fit its block.
- `palloc_init`; in `Allocator` a pool is a set of pages in use, in `AddressSpace` the two pools are the pages that they will hand out, in order.
- PageTable.Mmu.SetPage: the processor's cached translations are not modelled.
- The rest of `load`: ELF header checks, stack setup and argument passing.
- The other conversions of `printf`, and `vsnprintf` beyond cutting its output to the field.
- `hw-memory/mm_alloc`, the shell, HTTP servers, device drivers, partition tables and the Rust coordinator, which is unfinished.
