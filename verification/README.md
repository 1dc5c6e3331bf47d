# A verified model of a small ARMv7 kernel

This project models the allocators, the page-table builder, the chained file system, the round-robin
scheduler and the software arithmetic and buffer routines of a small ARMv7 kernel written in C, and
proves what they promise over every input and over whole runs.

Each part has the same two layers. A specification layer says, on plain values, what an operation
does to the abstract state (a list of free extents, pools of objects, chains of blocks, six queues),
and states the theorems about runs of such operations. An imperative layer follows the C code
statement by statement on memory words, linked objects or arrays, and each of its methods is proved
to do exactly what the specification layer says.

| files | what they model |
|---|---|
| `Basics.dfy` | optional values, powers of two, bitwise operations on naturals and what they mean on aligned numbers, iterated partial steps |
| `Machine.dfy` | word memory, the kernel's address shift |
| `Pages.dfy`, `PageRuns.dfy` | the physical page allocator: an address-ordered, coalescing list of extents whose nodes lie inside the free memory |
| `Slab.dfy`, `SlabRuns.dfy`, `SlabServe.dfy`, `SlabMemory.dfy`, `SlabAllocator.dfy` | the slab allocator that keeps its own class records in itself |
| `Kmalloc.dfy` | variable-size allocation with a size header |
| `PageTable.dfy` | the two-level page tables of section B3.5.1 of ARM DDI 0406: builder and walker |
| `PageDemand.dfy` | when the builder gets the memory it asks for |
| `PageWorld.dfy` | all page tables of the system together, over runs of mappings and other memory traffic |
| `FsSpec.dfy`, `FsLocks.dfy`, `FsChains.dfy`, `FsImage.dfy`, `Fs.dfy` | the chained file system, opening and closing over runs, its checkpoint image and the disk |
| `SchedSpec.dfy`, `SchedRuns.dfy`, `Sched.dfy` | queues, life cycle, timer tick, register contexts, fork |
| `QueueMemory.dfy` | what the queues' elements do to the slab |
| `Division.dfy` | 32-bit division by shift and subtract, unsigned and signed |
| `Memcpy.dfy` | memory copy by bytes and words |
| `SnprintfSpec.dfy`, `SnprintfFormats.dfy`, `Snprintf.dfy` | bounded formatted printing |

Numbers are unbounded integers; where the width of a word matters the wrap-around is written out
(`up_bound`, the address shift, division, the program counter). Memory the program has not written
reads as zero. Out-of-memory spins are results, not loops. Disk transfers and allocations of file and
queue records succeed. `ghost` fields hold the abstract state that the real fields represent.

## What the proofs found out

- `slb_alloc_align` calls itself, and the comment at kern/mm/slb.c:66 asks whether that can go on for
  ever. It cannot: the class of class records is always present, so the calls are at most two deep
  (`SlabRuns.RecordClassPresent`, and the termination measure of `SlabAllocator.Slb.SlbAllocAlign`).
- `slb_free` does not undo `slb_alloc`: allocation raises the size to 4 and chooses an alignment where
  none is given, release does neither. Released with the arguments it was allocated with, an object is
  taken back if and only if the size is at least 4 and an alignment was given or the size is exactly 4;
  otherwise the call is refused and nothing changes (`SlabRuns.ReleaseAsRequested`).
- `kmfree` recomputes exactly the object size `kmalloc` used, but passes no alignment, so it gives a
  block back if and only if its size is 0; under alignment 4 the same release would succeed
  (`Kmalloc.Free`).
- `pages_alloc(0)` succeeds and ties the first node of the list into a loop, after which no list of
  extents is stored any more (`Pages.PageSpace.PagesAlloc`, `PageRuns.SelfLoopIsNoList`).
- A checkpoint of a file system without files does not load again: the list head then points at a
  record nobody filled in. With at least one file and no empty one it always does
  (`Fs.FileSystem.LoadFs`).
- An append to a file that is missing or that another process has open takes its blocks before it is
  refused; blocks are conserved over a run exactly if no append is made to such a file for a positive
  number of blocks that the free chain has (`FsSpec.BlocksConserved`).
- A file is one process's from its open to its close, but for a creation under the same number: that
  puts a closed file in front of the open one (`FsLocks.Exclusive`, `FsLocks.CreatedClosed`).
- A file created by name gets zero bytes for a name, so it is found again under that name only if the
  name is all zero bytes (`FsSpec.CreatedByName`).
- Unsigned division is right for every denominator below 2^31. Above, the first doubling drops the
  top bit; the result is then wrong exactly for 2^31 < d < 3 * 2^30 and n >= 2d - 2^32, and for d = 2^31
  the scaling loop never ends (`Division.CorrectIff`, `Division.NeverScaled`).
- Division by zero yields -1.
- `vsnprintf` tests `flag | FLAG_ZEROPAD`, which always holds, so numbers are never padded with spaces;
  a width below the number of digits prints the low digits only; an unknown conversion leaves its width
  to the next directive (`SnprintfFormats.WidthCarries`); and the value returned is the buffer size
  already when the output has size - 1 characters.
- `memcpy` is the forward byte copy even for overlapping regions. That is a copy of the old source
  whenever nothing is overwritten before it is read; with the destination inside the source and above
  it, exactly if the source repeats itself at the distance between the two (`Memcpy.OverlapExact`).
- An `mmap` of a range whose second-level tables are there succeeds exactly if as many pages are free as
  pages of the range are not mapped yet, however fragmented memory is (`PageDemand.MapCounted`).
- The scheduler's queues give no memory back: `queue_pop` releases its 8-byte element without an
  alignment, which the slab refuses, so every `queue_push`, one in every transition, takes an object for
  good (`QueueMemory.NeverGivenBack`).
- `sched_kill` keeps the queues consistent if and only if the process is NEW, READY, RUNNING or WAIT.

## Model

| member | source | states |
|---|---|---|
| Pages.PageSpace.InitPspace | kern/mm/pages_manage.c:14-18 | leaves a well-formed list holding exactly the one area of RAM |
| Pages.PageSpace.PagesFree | kern/mm/pages_manage.c:56-94 | refuses unaligned ends and then changes nothing; otherwise the stored list is the old one with the range released, and no word outside the free memory changes |
| Pages.PageSpace.PagesAlloc | kern/mm/pages_manage.c:20-54 | refuses unaligned sizes, reports no memory exactly if no extent fits, else returns the front of the lowest fitting extent and stores the list with exactly that range carved off; for size 0 it leaves a self-loop |
| Pages.PageSpace.PagesSplit | kern/mm/pages_manage.c:96-111 | refused without change exactly for a null node, a node too small or an unaligned size; otherwise the words stored are those of two nodes, and for a node of a well-formed list the list stored is the old one with that extent cut in two adjoining ones |
| Pages.CanonicalUnique | kern/mm/pages_manage.c:65-92 | ordered, aligned lists with gaps between neighbours that cover the same bytes are the same list |
| Pages.CarveCanonical | kern/mm/pages_manage.c:47-53 | allocation keeps the list ordered, aligned and with gaps |
| Pages.CarveCover | kern/mm/pages_manage.c:47-53 | allocation removes exactly the granted bytes from the free set |
| Pages.ReleaseMeaning | kern/mm/pages_manage.c:75-92 | release keeps the list canonical and adds exactly the released bytes to the free set |
| PageRuns.FirstFitComplete | kern/mm/pages_manage.c:35-45 | an extent is found if and only if some contiguous free run of that length exists anywhere, and none starts lower |
| PageRuns.AllocThenFree | kern/mm/pages_manage.c:20-94 | freeing what was just allocated restores the identical list |
| PageRuns.RunInv | kern/mm/pages_manage.c:14-94 | over any run every byte of RAM is either free or in a page handed out, and the list is canonical |
| PageRuns.ListIsCanonicalForm | kern/mm/pages_manage.c:75-92 | two runs that leave the same pages in use leave the identical list, whatever the order and pieces of the frees |
| PageRuns.AllFreedRestoresBoot | kern/mm/pages_manage.c:14-18 | once everything has been given back the list is the single area init_pspace made |
| PageRuns.SelfLoopIsNoList | kern/mm/pages_manage.c:47-52 | the self-loop pages_alloc(0) leaves represents no list of extents |
| Slab.FreshPoolUsable | kern/mm/slb.c:114-159 | a fresh pool holds at least one object, and at least nine if the alignment divides the size |
| Slab.SlotsSpread | kern/mm/slb.c:146-157 | the objects of a pool are aligned, inside it, in order and disjoint |
| SlabRuns.RecordClassPresent | kern/mm/slb.c:47-67 | in every state of the invariant the class of class records exists, so asking it for a record makes no new class |
| SlabRuns.AllocMeaning | kern/mm/slb.c:23-70 | an allocation keeps the invariant and adds exactly one outstanding object, of the size and alignment asked for |
| SlabRuns.FreeMeaning | kern/mm/slb.c:72-95 | releasing an outstanding object under the size and alignment of its pool finds its pool, keeps the invariant and takes away exactly that object |
| SlabRuns.ReleaseAsRequested | kern/mm/slb.c:23-95 | an object released with the size and alignment it was asked for with is taken back if and only if the size is at least 4 and there is an alignment or the size is 4; else the release is refused and changes nothing |
| SlabRuns.DefaultAlignRefused | kern/mm/slb.c:77-84 | a release without alignment is refused, for any address, if the size is above four: no class has alignment 0 |
| SlabRuns.SmallSizeRefused | kern/mm/slb.c:27-28 | a release of a size below four is refused under every alignment, because allocation raises such sizes to four |
| SlabRuns.InuseCountsOthers | kern/mm/slb.c:91 | the count of a pool with an outstanding object is positive, so decrementing it never wraps |
| SlabRuns.BootInv | kern/mm/slb.c:97-112 | slb_init establishes the invariant |
| SlabRuns.RunInv | kern/mm/slb.c:23-112 | every run of allocations and releases, mixed with direct page requests, keeps the invariant |
| SlabRuns.AlwaysSafe | kern/mm/slb.c:23-159 | in every reachable state an outstanding object is aligned, inside its pool, and disjoint from all other outstanding objects, free objects, class records, pool headers and free pages |
| SlabRuns.AlwaysCounted | kern/mm/slb.c:97-112 | each pool's count plus its free objects is its capacity, one short in the bootstrap pool only |
| SlabServe.AllocInExact | kern/mm/slb.c:32-44 | a class serves if and only if some pool of its size and alignment has a free object, and then memory stays as it was, or a pool's bytes are free in one piece, and then the lowest such piece is taken |
| SlabServe.NewClassExact | kern/mm/slb.c:47-66 | a new class serves if and only if a record is to be had and then a pool's bytes are still free in one piece |
| SlabServe.SlbAllocExact | kern/mm/slb.c:23-70 | an allocation succeeds if and only if free objects and free memory can serve it, for a class that exists and for a new one, said without the functions that compute it |
| SlabMemory.RepFrame | kern/mm/slb.c:12-159 | memory the allocators do not own may change without changing the state stored |
| SlabMemory.PopRep | kern/mm/slb.c:41-43 | the stores of taking an object leave the state without it stored, and touch two header words |
| SlabMemory.PushRep | kern/mm/slb.c:88-91 | the stores of giving an object back leave the state with it stored |
| SlabMemory.GrowRep | kern/mm/slb.c:36-39 | the stores of adding a pool leave the state with the pool stored |
| SlabAllocator.MaskFirstIs | kern/mm/slb.c:146-147 | for an alignment that is a power of two the mask arithmetic finds the first multiple behind the header |
| SlabAllocator.MaskSlotsAre | kern/mm/slb.c:150-157 | for an alignment that is a power of two, or none, the loop's mask tests find exactly the objects at multiples of the alignment |
| SlabAllocator.PoolSegm | kern/mm/slb.c:137-159 | whatever the alignment, header and free list in memory are those of the objects the mask tests find, last first; nothing outside the pool changes, and it fails exactly if the first object's place is past the end |
| SlabAllocator.Slb.PoolAlloc | kern/mm/slb.c:114-130 | takes the pool's pages off the page allocator and segments them |
| SlabAllocator.Slb.FindUsable | kern/mm/slb.c:32-34 | returns the first pool of the class that has a free object, or null |
| SlabAllocator.Slb.AllocFromClass | kern/mm/slb.c:29-45 | serves if and only if a pool has a free object or there is room for one, from the first usable pool, or from a new one, as specified, touching only memory the allocators own |
| SlabAllocator.Slb.SlbAllocAlign | kern/mm/slb.c:23-70 | terminates; succeeds if and only if free objects and free memory can serve the request; state and result are those of the specification, touching only memory the allocators owned |
| SlabAllocator.Slb.NewClass | kern/mm/slb.c:47-65 | a record from the class of records becomes a class with one fresh pool at the head of the list |
| SlabAllocator.Slb.SlbFreeAlign | kern/mm/slb.c:72-95 | state and code are those of the specification, including both refusals |
| SlabAllocator.Slb.SlbInit | kern/mm/slb.c:97-112 | stores the bootstrap state, and fails exactly if no extent can hold the first pool |
| SlabAllocator.NewClassThenAlloc | kern/mm/slb.c:47-66 | making the class and asking again is one allocation of the specification |
| Kmalloc.LowBitIsMask | kern/mm/kmemory_manage.c:28 | on every 32-bit word the lowest set bit is the bitwise AND of the word and its negative, taken in 32 bits |
| Kmalloc.UpBoundLoop | kern/mm/kmemory_manage.c:30-37 | terminates on every 32-bit word within 32 rounds and computes UpBound |
| Kmalloc.UpBoundLeast | kern/mm/kmemory_manage.c:30-37 | the result is the least power of two that holds size and header, whenever that sum is at most 2^31 |
| Kmalloc.Allocate | kern/mm/kmemory_manage.c:12-19 | succeeds if and only if the slab can serve the computed size; hands out the inside of an object of that size with alignment 4, which `Free` accepts as a block of that size, with the size stored in front, touching only memory the allocators owned |
| Kmalloc.Free | kern/mm/kmemory_manage.c:21-26 | the size recomputed is that of the object's pool, and under alignment 4 its release would succeed; the block is given back if and only if its size is 0, else the call is refused and changes no state and no word of memory |
| PageTable.WalkerReadsEntry | drivers/sd/use-sd-zynq7000.c:69-85 | where there is a table the walker's shifts and masks find the frame of the page's descriptor |
| Basics.OrIsSum | kern/mm/mmap.c:65-84 | ORing bits below a power of two into a multiple of it is adding them |
| PageTable.DescriptorWord | kern/mm/mmap.c:65-84 | a descriptor, attribute bits ORed into the physical address of a table or page, is their sum |
| PageTable.NewTable | kern/mm/mmap.c:58-69 | succeeds exactly if free objects and free memory can serve a table: then an empty entry gains an empty table in memory nobody held, with exactly the attribute bits given, and all other entries are as before |
| PageTable.NewPage | kern/mm/mmap.c:77-86 | succeeds exactly if an extent holds a page: then the page gains a zeroed frame nobody held, and no other entry changes |
| PageTable.MapPage | kern/mm/mmap.c:75-90 | one turn of the inner loop fails exactly if the page is to be mapped and no frame is to be had, and keeps the record of what is mapped and what must not have changed |
| PageTable.Mmap | kern/mm/mmap.c:45-96 | succeeds exactly if the allocators can serve, in this order, a table for each empty entry and a frame for each page to be mapped, and leaves them in that state; gives each entry that was empty a descriptor with exactly the bits of pattern1; maps all pages of the range and nothing else; changes no word if everything it would do has been done |
| PageDemand.ServeFrameCounts | kern/mm/mmap.c:80 | a frame is had exactly while some page is free, and then one page fewer is free |
| PageDemand.PagesCounted | kern/mm/mmap.c:72-90 | the pages of a stretch are all served exactly if as many pages are free, and then so many fewer are free |
| PageDemand.MapCounted | kern/mm/mmap.c:45-96 | if the tables of the range are there, mmap succeeds exactly if as many pages are free as pages of the range are not mapped, and it takes exactly so many |
| PageTable.MmapResolves | kern/mm/mmap.c:45-96 | afterwards every address of the range resolves through the walker: unmapped pages to zeroed, pairwise distinct frames that were the allocators' and so apart from every page anyone held at the call, mapped ones to the frame they had |
| PageTable.MmapElsewhere | kern/mm/mmap.c:75-76 | outside the range nothing gets mapped and what was mapped resolves as before |
| PageTable.MmapTwice | kern/mm/mmap.c:45-96 | what one mmap leaves satisfies the condition under which an identical second one changes nothing |
| PageTable.ClearedTable | kern/syscall.c:187-188 | a cleared first-level table fresh from the slab is an empty one |
| PageWorld.WorldTables | kern/mm/mmap.c:45-96 | where all tables and frames of the system are apart and held by no allocator, each table is one mmap accepts |
| PageWorld.MmapKeepsWorld | kern/mm/mmap.c:45-96 | an mmap on any one table keeps the first-level tables, second-level tables and frames of mapped pages, of all processes, in kernel memory, owned by no allocator and pairwise disjoint |
| PageWorld.NewFrameUnused | kern/mm/mmap.c:77-86 | a page newly mapped resolves to a frame to which no page of any table resolved before |
| PageWorld.MapStep | kern/mm/mmap.c:45-96 | mmap in memory succeeds exactly if the allocators can serve it, is then the map step of the runs, and keeps all tables and frames apart |
| PageWorld.DirStep | kern/syscall.c:187-188 | allocating and clearing a first-level table succeeds exactly if free objects and free memory can serve it, is then the step that adds a process's table, and keeps all tables and frames apart |
| PageWorld.RunWorld | kern/mm/mmap.c:45-96 | over any run of mmaps on any number of tables, new tables, slab and page traffic and stores by holders of memory, all tables and frames stay apart and held by no allocator |
| PageWorld.FramesNeverShared | kern/mm/mmap.c:77-86 | in every state of such a run two mapped pages, of one table or of two, resolve to different frames, and no allocator owns them |
| FsSpec.Pigeonhole | kern/fs/fs_manage.c:361-367 | with descriptors 1 to n all taken there are at least n files, which bounds the search |
| FsSpec.CreatedByName | kern/fs/fs_manage.c:341-374 | a file created by name is found under it exactly when the name is all zero bytes |
| FsSpec.MatchesName | kern/fs/fs_manage.c:345-350 | for a name without zero bytes the test is that the name stored, up to its first zero, is that name |
| FsSpec.LookupByName | kern/fs/fs_manage.c:341-354 | the lookup gives the descriptor of the first file with exactly the name, or -1 |
| FsSpec.DescriptorsDistinct | kern/fs/fs_manage.c:356-379 | files created by name never share a descriptor, whatever happens in between |
| FsSpec.AppendBlocks | kern/fs/fs_manage.c:225-258 | an append keeps all blocks when it succeeds or finds no space, and loses exactly the blocks taken when it is refused after that |
| FsSpec.BlocksConserved | kern/fs/fs_manage.c:141-258 | over any run from build_fs no block is in two places; free chain and files hold exactly the block table if and only if no append was made to a missing file, or one another process has open, for a positive number of blocks that the free chain has |
| FsSpec.FileCount | kern/fs/fs_manage.c:18-19 | if no file is empty there are at most 32768 files, so they fit the entry table and the image |
| FsSpec.AppendContents | kern/fs/fs_manage.c:225-281 | a successful append makes the file's contents the old ones followed by the data, and changes no other file's record or contents |
| FsSpec.ReadBack | kern/fs/fs_manage.c:326-339 | reading from the old end after an append returns exactly the data appended |
| FsLocks.OneCall | kern/fs/fs_manage.c:154-339 | a file that is closed or the process's own lets it open, close, append while there is space, and read what is there; one that another has open gives -2, -2, -3 or -1 and nothing, and does not change |
| FsLocks.Missing | kern/fs/fs_manage.c:154-339 | a number no file has gives -1, -1, -2 or -1 and nothing, and changes no file |
| FsLocks.Exclusive | kern/fs/fs_manage.c:154-178 | over any run in which the process that has a file open does not close it, it stays its own: everyone else is shut out and it is let in |
| FsLocks.Untouched | kern/fs/fs_manage.c:154-258 | and the file's record stays as it was unless that process appends |
| FsLocks.ContentUntouched | kern/fs/fs_manage.c:251-277 | and so does what the file holds, whatever others write to theirs |
| FsLocks.OpenToClose | kern/fs/fs_manage.c:154-178 | an open succeeds only on a file that is closed or one's own; from then on the file is the process's alone; after its close any process can open it |
| FsLocks.CreatedClosed | kern/fs/fs_manage.c:210-218 | a file just created is found under its number, closed and empty |
| FsChains.JoinLinked | kern/fs/fs_manage.c:245-249 | linking the last block of a file to loose blocks appends them to that chain and leaves all others |
| FsChains.CutLinked | kern/fs/fs_manage.c:190-200 | clearing one link splits the free chain after its first n blocks and leaves all files |
| FsImage.ImageFaithful | kern/fs/fs_manage.c:80-137 | two states saved as one image are the same but for who has a file open |
| FsImage.DataKept | kern/fs/fs_manage.c:121-129 | files read the same after the image has been written, because it lies past all blocks |
| FsImage.SaveBlocks | kern/fs/fs_manage.c:86-91 | the image holds every block's link |
| FsImage.LoadBlocks | kern/fs/fs_manage.c:47-51 | the table loaded is the one saved |
| Fs.FileSystem.BuildFs | kern/fs/fs_manage.c:141-152 | one chain of all blocks in order and no file |
| Fs.FileSystem.OpenFile | kern/fs/fs_manage.c:154-165 | marks the first file with the descriptor for the process, or refuses with -1 or -2 and changes nothing; what that means over runs is `FsLocks` |
| Fs.FileSystem.CloseFile | kern/fs/fs_manage.c:167-178 | the same with the mark cleared |
| Fs.FileSystem.DataAlloc | kern/fs/fs_manage.c:183-208 | cuts the first n blocks off the free chain, or takes nothing at all |
| Fs.FileSystem.AppendFile | kern/fs/fs_manage.c:225-281 | state, code and disk are those of the specification, for all four outcomes |
| Fs.FileSystem.WriteBlocks | kern/fs/fs_manage.c:251-277 | writes the data to the chain's sectors in order |
| Fs.FileSystem.SeekDatablock | kern/fs/fs_manage.c:309-324 | returns the head of the chain from pos on |
| Fs.FileSystem.ReadDatablock | kern/fs/fs_manage.c:326-339 | returns exactly the blocks from pos to the lesser of pos + size and the length |
| Fs.FileSystem.FnameToFd | kern/fs/fs_manage.c:341-354 | the descriptor of the first file whose name matches and ends there, or -1 |
| Fs.FileSystem.CreateFile | kern/fs/fs_manage.c:210-218 | a new empty file in front |
| Fs.FileSystem.CreateFileFromName | kern/fs/fs_manage.c:356-379 | takes the least descriptor not in use, found within one round more than there are files; refuses long names, and names that lead to descriptor 0 |
| Fs.FileSystem.CheckpointFs | kern/fs/fs_manage.c:80-137 | the state is saved on the disk, unchanged itself, and no sector outside the image changes |
| Fs.FileSystem.LoadFs | kern/fs/fs_manage.c:13-78 | from any saved state: same free chain, files, order, names, descriptors and chains, all files closed; a valid state if and only if there was a file |
| SchedSpec.WithoutAt | kern/sched/policy_rr.c:61-77 | taking an element out of a queue closes the gap and keeps the order of the others |
| SchedSpec.MoveInv | include/kern/sched/policy_rr.h:15-24 | a transition keeps every process in exactly the queue of its status if and only if it is called from its documented state |
| SchedSpec.KillInv | kern/sched/policy_rr.c:129-141 | sched_kill keeps it exactly for NEW, READY, RUNNING and WAIT |
| SchedSpec.KillMeaning | kern/sched/policy_rr.c:129-141 | a process killed is aborted and last in that queue, has left its own, and nothing else changes, order included |
| SchedSpec.FreeInv | kern/sched/policy_rr.c:143-146 | a freed zombie is in no queue |
| SchedSpec.NewInv | kern/sched/sched_main.c:82-95 | new_pcb keeps the invariant, with a new number, a zeroed record, and all other records as they were |
| SchedSpec.OneQueue | kern/sched/policy_rr.c:20-146 | a process not freed is in the queue of its status, once, in no other, and no other process has its number |
| SchedSpec.TickQueues | kern/sched/sched_main.c:121-142 | a tick moves the running head to the end of the ready queue and the ready head to the running queue, and touches no other queue |
| SchedSpec.TickContexts | kern/sched/sched_main.c:53-79 | the preempted process keeps what the processor would have gone on with, the processor gets the picked one's registers, also when both are one process, and no other context changes |
| SchedSpec.ForkMeaning | kern/syscall.c:178-204 | the child is ready, last in line, with the parent's registers but r0 = 0 and its own numbers; the parent sees the child's number; nothing else changes |
| SchedSpec.BootInv | kern/sched/sched_init.c:14-38 | process 0 runs with the kernel's page table, process 1 is new, and the invariant holds |
| SchedRuns.RunInv | kern/sched/policy_rr.c:79-146 | over any run of documented transitions, ticks, forks and computation the invariant holds and no process is lost |
| SchedRuns.BootRuns | kern/sched/policy_rr.c:20-146 | from boot on, every process is once in the queue of its status and in no other, or freed, and has its own number |
| SchedRuns.TicksRotate | kern/sched/sched_main.c:121-142 | n ticks and nothing else turn running process and ready queue as one ring by n places |
| SchedRuns.FullCircle | kern/sched/sched_main.c:121-142 | k + 1 ticks over k ready processes restore both queues exactly |
| SchedRuns.BoundedWait | kern/sched/sched_main.c:121-142 | a process at position j of the ready queue runs within j + 1 ticks, whatever else becomes ready, blocks or is killed, unless it is killed itself |
| SchedRuns.ResumedContext | kern/sched/sched_main.c:53-79 | over any run in which only ticks choose the running process, a process that did not run is resumed with exactly the registers kept for it |
| SchedRuns.PreemptedResumes | kern/sched/sched_main.c:121-142 | from the tick that takes the processor away to the one that gives it back a process's registers are the same |
| SchedRuns.QuietLive | kern/arch/armv7a-le/zynq7000/interrupt.c:180-219 | interrupts other than the timer's, however many, and transitions change no register of the interrupted program, its address included |
| SchedRuns.KeepsRegisters | kern/arch/armv7a-le/zynq7000/interrupt.c:180-219 | over any calm run in which a process neither computes nor calls itself it keeps its registers, running or not, whatever interrupts and ticks come and whatever others do |
| SchedRuns.GoesOn | kern/arch/armv7a-le/zynq7000/interrupt.c:180-219 | a process running at both ends of such a run goes on with exactly the registers it had |
| SchedRuns.RecordForLife | kern/sched/policy_rr.c:20-146 | number, parent and page table of a process never change, and one aborted or finished stays so |
| SchedRuns.KilledForGood | kern/sched/policy_rr.c:129-141 | a killed process is in the queue of aborted ones for good, and never ready or running again |
| SchedRuns.ForkedResumes | kern/syscall.c:178-204 | a child first runs with the parent's registers at the call but r0 = 0; the parent goes on at once with the child's number |
| Sched.Scheduler.PushTo | kern/sched/policy_rr.c:46-59 | the queue stored is the old one with the process at its end; all queues stay well formed |
| QueueMemory.NeverGivenBack | kern/sched/policy_rr.c:46-77 | over any run of pushes, pops and other traffic on the slab, no element queue_push got is ever given back: as many distinct objects stay taken as there were pushes |
| Sched.Scheduler.PopFrom | kern/sched/policy_rr.c:61-77 | the queue stored is the old one without the process, wherever it was; head and tail stay right |
| Sched.Scheduler.Mature | kern/sched/policy_rr.c:85-90 | queues and status are those of the transition NEW to READY |
| Sched.Scheduler.Allow | kern/sched/policy_rr.c:92-97 | queues and status are those of the transition READY to RUNNING |
| Sched.Scheduler.Block | kern/sched/policy_rr.c:99-104 | queues and status are those of the transition RUNNING to WAIT |
| Sched.Scheduler.Preempt | kern/sched/policy_rr.c:106-111 | queues and status are those of the transition RUNNING to READY |
| Sched.Scheduler.Wake | kern/sched/policy_rr.c:113-118 | queues and status are those of the transition WAIT to READY |
| Sched.Scheduler.Finish | kern/sched/policy_rr.c:120-127 | queues and status are those of the transition RUNNING to ZOMBIE |
| Sched.Scheduler.KillTask | kern/sched/policy_rr.c:129-141 | queues and status are those of sched_kill, from any state |
| Sched.Scheduler.FreeTask | kern/sched/policy_rr.c:143-146 | the process leaves the queue of zombies |
| Sched.Scheduler.HeadOf | kern/sched/policy_rr.c:175-183 | the running process, and the one to pick, are the heads of their queues |
| Sched.Scheduler.GetByPid | kern/sched/policy_rr.c:148-165 | finds the block of exactly the processes not freed, in whichever queue |
| Sched.Scheduler.NewPcb | kern/sched/sched_main.c:82-95 | a zeroed block with the next number, listed and in the queue of new processes |
| Sched.Scheduler.SwitchTo | kern/sched/sched_main.c:53-67 | the first copy is done before the second, so a process may follow itself |
| Sched.Scheduler.SchedMainTick | kern/sched/sched_main.c:121-142 | queues and contexts are those of the specified tick |
| Sched.Scheduler.IntEntIrq | kern/arch/armv7a-le/zynq7000/interrupt.c:180-219 | saves the trap with the running process, ticks on the timer only, and goes on with the right registers, as `SchedRuns.KeepsRegisters` says over runs |
| Sched.Scheduler.ForkCall | kern/syscall.c:178-204 | blocks, queues and return values are those of the specified fork |
| Sched.Scheduler.InitSched | kern/sched/sched_init.c:14-38 | leaves the specified state at boot |
| Division.Uidivmod | drivers/misc/division-arm.c:33-80 | ends for every denominator but 2^31; quotient and remainder are exact for the denominator, or for it without its top bit when that is lost; the quotient is the sum of the subtractions counted at each level times that level's weight, at most three at the first level and one at each later one |
| Division.CorrectIff | drivers/misc/division-arm.c:57-70 | the result is the true quotient and remainder if and only if the top bit is not lost |
| Division.NeverScaled | drivers/misc/division-arm.c:57-63 | for the denominator 2^31 the guard of the scaling loop holds after any number of rounds |
| Division.Idivmod | drivers/misc/division-arm.c:88-111 | truncates toward zero with the remainder taking the numerator's sign (section 6.5.5 of ISO/IEC 9899:1999); the least integer by -1 wraps to the least integer |
| Division.TruncUnique | drivers/misc/division-arm.c:90-102 | the truncated quotient is the only one whose remainder is smaller than the denominator and has the numerator's sign |
| Memcpy.Memcpy | lib/libc/string/memcpy.c:48-89 | the byte-by-byte copy, for every pair of alignments, every length and every overlap; no byte outside the destination changes; how many word accesses are made |
| Memcpy.ByteCopyCopies | lib/libc/string/memcpy.c:45-46 | without overlap, or with the destination below, the byte copy is the old source |
| Memcpy.OverlapExact | lib/libc/string/memcpy.c:45-46 | with the destination inside the source and above it, it is the old source if and only if each source byte that is overwritten before it is read equals the byte one distance below it |
| Memcpy.OutsideKept | lib/libc/string/memcpy.c:48-89 | no byte outside the destination changes, overlap or not |
| Memcpy.CopyWords | lib/libc/string/memcpy.c:83-84 | the word loop, with both addresses on word boundaries, copies the same bytes as a byte loop |
| Memcpy.Align | lib/libc/string/memcpy.c:67-79 | the prologue copies everything if the low bits differ, else up to the next word boundary |
| Memcpy.TestBits | lib/libc/string/memcpy.c:68-76 | the OR, XOR and mask tests on addresses are statements about remainders by four |
| SnprintfSpec.PaddedBack | lib/libc/stdio/snprintf.c:81-111 | a number reads back in its base if and only if there is no width or it has room for the digits |
| SnprintfSpec.PaddedShape | lib/libc/stdio/snprintf.c:81-111 | a number with a width has exactly that many characters, all digits of its base, zeros in front where there is room; without a width it has its digits |
| SnprintfSpec.UnsignedRoundTrip | lib/libc/stdio/snprintf.c:71-92 | the output of a %u, %x, %p or %o format with a decimal width reads back as the argument under exactly that condition |
| SnprintfSpec.SignedRoundTrip | lib/libc/stdio/snprintf.c:63-100 | the same for %d and every 32-bit argument, the least one included |
| SnprintfFormats.Compose | lib/libc/stdio/snprintf.c:58-154 | a format whose last directive is a known one prints the same in front of any other, and the other prints what it prints alone |
| SnprintfFormats.WidthCarries | lib/libc/stdio/snprintf.c:144-149 | an unknown conversion prints itself and its width stays for the next directive |
| SnprintfFormats.Literal | lib/libc/stdio/snprintf.c:152-153 | text without a percent sign prints as it is |
| SnprintfFormats.TextPrinted | lib/libc/stdio/snprintf.c:118-126 | %s prints the string, or (null), and then spaces up to the width |
| SnprintfFormats.CharPrinted | lib/libc/stdio/snprintf.c:114-117 | %c prints the low byte of its argument, whatever the width |
| SnprintfFormats.PercentPrinted | lib/libc/stdio/snprintf.c:128-131 | two percent signs print one and take no argument |
| SnprintfFormats.FieldsPrinted | lib/libc/stdio/snprintf.c:58-154 | a format of any number of numeric directives prints each number as its directive does alone |
| SnprintfFormats.FieldsRoundTrip | lib/libc/stdio/snprintf.c:58-154 | several unsigned numbers printed at once, each with room for it, are read back each at its place |
| Snprintf.Vsnprintf | lib/libc/stdio/snprintf.c:31-163 | writes only inside the buffer's size and always leaves a zero there: the whole output and its length, or as much as fits and the size |
| Snprintf.PutNumber | lib/libc/stdio/snprintf.c:81-111 | prints the sign and the padded digits, or as much as fits |
| Snprintf.FillDigits | lib/libc/stdio/snprintf.c:81-87 | takes the number apart into its digits, least significant first, within the local buffer |
| Snprintf.PutString | lib/libc/stdio/snprintf.c:119-126 | prints the string and spaces up to the width, or as much as fits |
| Snprintf.ReadFlags | lib/libc/stdio/snprintf.c:132-143 | finds the conversion and the width behind a percent sign |
| Snprintf.PrintedBack | lib/libc/stdio/snprintf.c:31-163 | what a buffer with room holds after printing a %d format reads back as the argument |

## Left out

- Hardware access: SD controller commands, UART, interrupt controller, timers, caches, TLB, inline assembly and exception vectors; prints and `invalidate_tlb` are no-ops, disk transfers always succeed.
- Pages.PageSpace.PagesFree: with aligned ends, an empty range and a range partly free already are not modelled; the code links a node of size 0 for the one, and a node that overlaps a free extent for the other.
- PageWorld.RunWorld: what callers give back to the allocators in a run is not a table or frame in use; nothing unmaps a page.
- SlabAllocator.Slb.SlbAllocAlign: nothing is said of the state after a request the page allocator cannot serve, because the code spins there; alignments, given or derived from a size of 0 or 3, that are no power of two or exceed the object, and pool sizes that overflow a word are not requests of the model.
- SlabAllocator.Slb.PoolAlloc: the release of a pool too small for one object (kern/mm/slb.c:124-128) is not modelled, because such a pool is never made for the requests served; the loop that retries with fewer pages never turns, because `pages_alloc` does not return 0 for aligned sizes.
- SlabAllocator.Slb.SlbFreeAlign: a caller whose address falls into a pool of the class must hold the object there; double release is not modelled.
- Kmalloc.Allocate: sizes above 2^28 - 4 are not modelled, where the pool size overflows a word.
- PageTable.Mmap: a range that holds section entries is not modelled; the stores of `memset` are made word by word.
- `unmmap` and `copy_mem_img`: they compute table addresses differently from `mmap`, so no agreement with the builder holds.
- Fs.FileSystem.SeekDatablock: positions past the end of a file are not modelled, where the code follows a null pointer.
- Fs.FileSystem.ReadDatablock: the same.
- Fs.FileSystem.CheckpointFs: a state with an empty file is not modelled, where the code follows a null pointer.
- Fs.FileSystem.CreateFile: the entry's memory is always granted, and its name bytes are a parameter, because the code leaves what was in memory.
- FsImage.DmaWrite: words of the image are stored whole at the address of their first byte, so the byte order inside a word is not modelled.
- `recycle_blocks` and `recycle_file`: only the last block of a chain is relinked and the head entry is not unlinked, so no conservation holds.
- Sched.Scheduler.PopFrom: the release of the queue element is not part of the scheduler's model; it is refused, and `QueueMemory` models what that does.
- Sched.Scheduler.NewPcb: the list overflow with more than 4096 processes is not modelled; the code prints an error and goes on.
- Sched.Scheduler.KillTask: a process already zombie or aborted ends up in two places; `SchedSpec.KillInv` says so, and runs exclude it.
- Sched.Scheduler.ForkCall: the child's page table is a parameter; the copy of the memory image, and the fields for names, accounting and return values, are left out.
- Sched.Scheduler.IntEntIrq: switching page tables, and the exception paths that end in a spin, are left out.
- `_wait`, `_exit` and `_exec`: the first two lack their context switch, the last loads programs; `sched_block`, `sched_finish` and `sched_wake` are modelled as bare transitions.
- Division.Idivmod: the least integer as denominator is not modelled; its magnitude is 2^31, for which the unsigned loop never ends (`Division.NeverScaled`).
- Division.Uidivmod: the denominator 2^31 is excluded, because the code never ends there (`Division.NeverScaled`); how quotient and remainder reach the caller's registers is not modelled; they are returned as a pair.
- Snprintf.Vsnprintf: a percent sign at the end of the format, missing or ill-typed arguments, a buffer of size 0 and a width that overflows a word are not modelled.
- Boot loaders, ELF loading, debug tables, the MIPS port and small one-step helpers would only add easy members.
