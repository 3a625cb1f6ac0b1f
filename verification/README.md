# Verified models of the CS:APP labs, the Pintos kernel and the socket project

This project models the algorithmic core of a body of course work in C and proves what that code
promises. Each file is one component; the imperative ones are classes and methods over arrays,
sequences and maps, proved against functions on values, and the lemmas about those functions say
what holds over every call and every run.

- `Arithmetic.dfy`: 64-bit division from a 64/32 divide that traps (lib/arithmetic.c). The quotient
  is exact and no divide traps.
- `HeapModel.dfy`, `MmHeap.dfy`: the boundary-tag allocator with seven segregated free lists
  (mm.c over memlib.c). One word memory carries tags and list links; the invariant ties tiling,
  tags, lists and live payloads together.
- `InodeIo.dfy`, `Directory.dfy`, `DiskLayout.dfy`, `FileSys.dfy`: the Pintos file system. Sector
  loops refine slices, directories refine maps, no two files ever share a sector, and the free map
  on disk never calls a sector free that is in use.
- `Bitmap.dfy`, `ByteTypes.dfy`, `Sequences.dfy`: bitmaps, bytes and lists, shared by the others.
- `ArenaModel.dfy`, `MallocArena.dfy`: the kernel's malloc, free and realloc over the page pool.
- `SynchModel.dfy`, `SynchRuns.dfy`, `Synch.dfy`: semaphores, locks, condition variables and the
  FIFO scheduler of proj2 as one interleaved step system, what its runs come to, and the methods of
  `Synch.Kernel`, which are its steps.
- `Donation.dfy`, `DonationSteps.dfy`: proj1's priority donation and choice of the thread to wake,
  and its walk statement by statement among other threads.
- `PageDir.dfy`: the two-level page table against a map.
- `UserMemory.dfy`, `Loader.dfy`, `ElfLayout.dfy`: which ELF files are accepted and what ends up in
  memory, read through the page tables.
- `Sorting.dfy`: heap sort and binary search.
- `Checksum.dfy`: the two Internet checksums (section 1 of RFC 1071) and the packets they protect.
- `Printf.dfy`, `PrintfMeaning.dfy`: integer formatting, directive parsing and atoi, and what the
  characters mean.
- `Rio.dfy`: the buffered reader against the raw stream.

Integers are unbounded except where the C code's width matters; there the wrap-around is written
out. C lists are sequences. Allocation failures, interrupts and reads of a descriptor are parameters,
so every outcome is covered; where one is not, "Left out" says so. A call of inode_read_at or
inode_write_at asks for its bounce buffer at most once, so one answer is enough for a call. Pointers
of the page pool are distances from its base, with -1 for null.

## Where the code does not do what it says

- mm_free breaks the heap on the only block (`MmHeap.FreeOnlyBlock`), and on a block at either end
  that has an 8-byte free neighbour unless the first list is empty (`MmHeap.FragmentRun` and
  `MmHeap.FreeBesideFragment`). `MmHeap.Allocator.Free` gives the exact condition, `Freeable`.
- malloc's page count wraps for requests above 0xFFFFFFF4 bytes, which then get too small a block
  (`ArenaModel.PagesEnough`, `MallocArena.MallocOversize`).
- sdiv64 does not give the mathematical quotient for INT64_MIN and -1 (`Arithmetic.Sdiv64`).
- When memory is low, dir_add can give two entries the same name (`FileSys.CreateTwice`) or write
  over an entry in use (`FileSys.CreateOver`). `FileSys.FileSystem.NewNames` says exactly when names
  stay distinct. Sectors stay owned by one inode each in either case: the operations run from
  every such state.
- filesys_create that fails after inode_create, as for a name that is there, releases the inode's
  sector and leaves the data's marked (`FileSys.CreateLeaks`). `FileSys.FileSystem.Create` says
  exactly when and which.
- lock_acquire walks with interrupts on, and reads the holder of a lock that may have none by then.
  A caller can fault exactly if there is a thread that does not wait, directly or not, for a lock
  that the caller holds (`DonationSteps.MayFault`); it cannot while the chain keeps its holders
  (`DonationSteps.SteadyChain`). Without any interruption it faults exactly when a donation is due
  and the chain ends in a lock that is being handed over (`Donation.Kernel.LockAcquire`,
  `DonationSteps.FaultInput`).
- A thread that becomes holder while a higher one is queued is not raised
  (`Donation.Kernel.BecomeHolder`, `DonationSteps.UnraisedHolder`).
- cmp_prr2 is not a strict order; among equals list_max therefore takes the last. That is the one
  that came first as long as the queues are ordered (`Donation.PoppedInOrder`). A donation to a
  queued thread keeps them so exactly when it still belongs before all behind it
  (`Donation.DonationOrder`); otherwise a younger thread can be woken (`Donation.RaisedOutOfOrder`).
- pagedir_destroy fails palloc's assertion exactly when a frame is mapped twice
  (`PageDir.PhysicalMemory.Destroy`, `PageDir.DestroyMappedTwice`).
- checksum reads one byte behind the buffer for even sizes that are not multiples of 8
  (`Checksum.ChecksumsAgree`, `Checksum.ExtraByteInput`).
- The alignment assertion of block_to_arena also accepts the address right behind the last block
  (`ArenaModel.AssertionAccepts`).

## Model

| member | source | states |
|---|---|---|
| Arithmetic.DivlTraps | CS330_projects/proj1/lib/arithmetic.c:25-37 | The divide instruction traps if and only if the dividend's high word is not below the divisor; otherwise it gives the floor of the quotient |
| Arithmetic.Nlz | CS330_projects/proj1/lib/arithmetic.c:41-73 | The shift count it returns is the one that brings the top bit of a nonzero word to bit 31 |
| Arithmetic.NormalisesUnique | CS330_projects/proj1/lib/arithmetic.c:41-73 | Only one count normalises a word, so nlz has no other answer |
| Arithmetic.NormalisedDivisor | CS330_projects/proj1/lib/arithmetic.c:121-123 | Shifting the divisor by nlz of its high word keeps its high word at 2^31 or above |
| Arithmetic.EstimateWithinOne | CS330_projects/proj1/lib/arithmetic.c:115-124 | Dividing by the truncated divisor gives the quotient or one more |
| Arithmetic.NormalisedEstimate | CS330_projects/proj1/lib/arithmetic.c:115-124 | The halved dividend's high word is below the divisor, so the estimate's divide never traps |
| Arithmetic.CorrectionStep | CS330_projects/proj1/lib/arithmetic.c:124 | One too many is taken back and the test for one more after it gives the exact quotient |
| Arithmetic.DivideByNarrow | CS330_projects/proj1/lib/arithmetic.c:80-112 | Two chained 64/32 divides give the exact quotient and neither traps |
| Arithmetic.DivideByWide | CS330_projects/proj1/lib/arithmetic.c:113-126 | The estimate and correction give the exact quotient and the divide never traps |
| Arithmetic.Udiv64 | CS330_projects/proj1/lib/arithmetic.c:77-127 | For all 64-bit n and d: a divide error when d is 0, else exactly the floor of n/d; no trap on the way |
| Arithmetic.TruncDivMeaning | CS330_projects/proj1/lib/arithmetic.c:139-146 | The specification of signed division: remainder smaller than the divisor, with the dividend's sign |
| Arithmetic.Sdiv64 | CS330_projects/proj1/lib/arithmetic.c:139-146 | Truncates toward zero exactly when not (INT64_MIN, -1); divide error exactly for divisor 0 |
| HeapModel.SizeClassMonotone | CS230_projects/malloclab/mm.c:323-339 | fg sends larger payloads to the same or a later list |
| HeapModel.SizeClassRanges | CS230_projects/malloclab/mm.c:323-339 | The seven ranges of payload sizes, one list each |
| HeapModel.CoveringBlock | CS230_projects/malloclab/mm.c:81-98 | Every byte of the tiled heap lies in exactly one block |
| HeapModel.LinkedInsert | CS230_projects/malloclab/mm.c:264-283 | Pushing a node in front keeps the doubly linked list of payload words intact |
| HeapModel.LinkedDelete | CS230_projects/malloclab/mm.c:288-321 | Unlinking a node keeps the doubly linked list of the others intact |
| HeapModel.InsertStep | CS230_projects/malloclab/mm.c:264-283 | Pushing a block on the list of its size class keeps tags, tiling and all other lists |
| HeapModel.DeleteStep | CS230_projects/malloclab/mm.c:288-321 | Taking a block off its list keeps tags, tiling and all other lists |
| HeapModel.SplitCore | CS230_projects/malloclab/mm.c:119-251 | Writing the four tags of a split keeps headers equal to footers and the lists intact |
| HeapModel.MergeCore | CS230_projects/malloclab/mm.c:531-535 | Writing the two outer tags of a merge keeps headers equal to footers and the lists intact |
| HeapModel.ExtendCore | CS230_projects/malloclab/mm.c:408-454 | New memory with its tags joins the tiled heap |
| HeapModel.NoneFitsAnywhere | CS230_projects/malloclab/mm.c:352-396 | When the search from the request's class upward fails, no free block is large enough |
| HeapModel.LivePayloadsDisjoint | CS230_projects/malloclab/mm.c:345-477 | Distinct live payloads do not overlap, lie inside the heap and are 8-aligned |
| HeapModel.FragmentTraps | CS230_projects/malloclab/mm.c:288-321 | Read as a list node an 8-byte free block makes delete store outside the heap |
| HeapModel.ZeroHeaderBroken | CS230_projects/malloclab/mm.c:574-582 | A zero first header fits no tiling by any blocks and lists |
| HeapModel.StoreKeeps | CS230_projects/malloclab/mm.c:345-477 | A client's store into its own live payload keeps the invariant and every other payload |
| MmHeap.FragmentRun | CS230_projects/malloclab/mm.c:583-595 | Five requests and two frees from mm_init on lead to a valid heap of one chunk whose first block mm_free does not handle: an 8-byte free neighbour, and another small block free |
| MmHeap.FreeBesideFragment | CS230_projects/malloclab/mm.c:583-595 | On that heap the free of the first block fails |
| HeapModel.GapSize | CS230_projects/malloclab/mm.c:81-98 | In a heap without adjacent free blocks a free one reaches exactly to the next live block or the break |
| MmHeap.Allocator.constructor | CS230_projects/malloclab/mm.c:81-98 | mem_init and mm_init: a valid heap of one cleared chunk with no live block |
| MmHeap.Allocator.Sbrk | CS230_projects/malloclab/memlib.c:58-69 | The break moves up and the old break is returned, while there is room |
| MmHeap.Allocator.InsertInHead | CS230_projects/malloclab/mm.c:264-283 | Is the list insertion of the model |
| MmHeap.Allocator.DeleteNode | CS230_projects/malloclab/mm.c:288-321 | Is the list deletion of the model; its stores stay in the heap exactly when both neighbours do |
| MmHeap.Allocator.FindFromFlist | CS230_projects/malloclab/mm.c:105-115 | The first block on the list that is large enough, or null |
| MmHeap.Allocator.Allocate | CS230_projects/malloclab/mm.c:119-251 | Uses up a listed block whole, with an 8-byte rest or with a listed rest, keeping the invariant |
| MmHeap.Allocator.PutList | CS230_projects/malloclab/mm.c:637-664 | A free block goes to the front of the list that fg names for its payload and nowhere else |
| MmHeap.Allocator.DelList | CS230_projects/malloclab/mm.c:666-692 | A free block leaves its list, and no other block joins one |
| MmHeap.Allocator.FindFit | CS230_projects/malloclab/mm.c:352-396 | The first free block that is large enough, in the first list from the class of the request on that has one, or null only when no free block of the heap is |
| MmHeap.Allocator.ExtendHeap | CS230_projects/malloclab/mm.c:398-470 | Grows the last free block or appends one until the request fits, keeping the invariant and the live blocks |
| MmHeap.Allocator.AlignMeaning | CS230_projects/malloclab/mm.c:25 | Rounding up to a multiple of 8, wrapping to 0 above 0xFFFFFFF8 |
| MmHeap.Allocator.Malloc | CS230_projects/malloclab/mm.c:345-477 | Keeps the invariant, adds exactly one live block of the rounded size and moves no live payload byte; the block is the front of the first one that fits while there is one, and else the heap grows by the fewest chunks that make room |
| MmHeap.Allocator.JoinLeft | CS230_projects/malloclab/mm.c:502-536 | Merging with a free left neighbour keeps the invariant and leaves no free neighbour on that side |
| MmHeap.Allocator.JoinRight | CS230_projects/malloclab/mm.c:537-571 | Merging with a free right neighbour keeps the invariant and leaves no free neighbour on that side |
| MmHeap.Allocator.FreeInterior | CS230_projects/malloclab/mm.c:501-572 | The interior branch keeps the invariant for all four neighbour patterns |
| MmHeap.Allocator.FreeFirst | CS230_projects/malloclab/mm.c:583-595 | The first-block branch keeps the invariant unless it takes an 8-byte fragment off a list |
| MmHeap.Allocator.FreeLast | CS230_projects/malloclab/mm.c:596-607 | The last-block branch keeps the invariant unless it takes an 8-byte fragment off a list |
| MmHeap.Allocator.FreeWhole | CS230_projects/malloclab/mm.c:574-582 | The whole-heap branch leaves a heap that fits no tiling |
| MmHeap.Allocator.FreeableMeaning | CS230_projects/malloclab/mm.c:482-610 | The tests mm_free could make before a call decide whether the block's neighbourhood is one it handles |
| MmHeap.Allocator.Free | CS230_projects/malloclab/mm.c:482-610 | Keeps the invariant, gives up exactly that block and moves no live byte exactly on freeable blocks; on the only block it breaks the heap, on all others a store goes outside it |
| MmHeap.Allocator.Store | CS230_projects/malloclab/mm.c:345-477 | Runs with clients that write: a store into a live payload changes that word, keeps the invariant and every other payload |
| MmHeap.FreeOnlyBlock | CS230_projects/malloclab/mm.c:574-582 | From mm_init on, one request for the whole chunk and one free of it leave a heap that no blocks and lists fit |
| InodeIo.ContentsPatched | CS330_projects/proj1/filesys/inode.c:257-318 | Writing to the sectors is slice assignment on the file's bytes |
| InodeIo.ContentsInOrder | CS330_projects/proj1/filesys/inode.c:46-54 | The bytes of a file are those of its sectors, one sector after the other |
| InodeIo.SectorsLeast | CS330_projects/proj1/filesys/inode.c:25-31 | bytes_to_sectors gives the least number of sectors that hold the bytes |
| InodeIo.MovesOnce | CS330_projects/proj1/filesys/inode.c:200-318 | How far a transfer gets, as stated for the four routines, is one number |
| InodeIo.PatchedOnlyFile | CS330_projects/proj1/filesys/inode.c:257-318 | Only sectors of the file change, and in them no byte past the end of the file |
| InodeIo.OtherFileUntouched | CS330_projects/proj1/filesys/inode.c:257-318 | A file on other sectors keeps all its bytes |
| InodeIo.Inode.ByteAtSector | CS330_projects/proj1/filesys/inode.c:46-54 | Inside the file the sector it names holds that byte, at the offset that the loops use |
| InodeIo.Inode.ReadAt | CS330_projects/proj1/filesys/inode.c:200-250 | With a bounce buffer as many bytes as are wanted and as the file has left; without one every whole sector that is wanted, and none from the middle of a sector; they are a slice of the file, and the rest of the buffer stays |
| InodeIo.Inode.WriteAt | CS330_projects/proj1/filesys/inode.c:257-318 | The same count, nothing when writes are denied; the disk is that of slice assignment and every other byte of it stays; the memset is never reached |
| ByteTypes.Le32RoundTrip | CS330_projects/proj1/filesys/inode.c:73-106 | A little-endian word is read back as it was written |
| ByteTypes.Le32Places | CS330_projects/proj1/filesys/inode.c:73-106 | The lowest byte of a word comes first |
| Directory.EntryRoundTrip | CS330_projects/proj1/filesys/directory.c:141-179 | A directory entry is read back as it was written |
| Directory.EntryLayout | CS330_projects/proj1/filesys/directory.c:18-24 | Sector in bytes 0 to 3, name in 4 to 18, in-use flag in 19 |
| Directory.CStringEnds | CS330_projects/proj1/filesys/directory.c:91-112 | A name reaches to the first NUL |
| Directory.CopiedName | CS330_projects/proj1/filesys/directory.c:141-179 | strlcpy keeps a name of at most 14 bytes whole |
| Directory.FilesDomain | CS330_projects/proj1/filesys/directory.c:91-112 | A name is in the map exactly when an entry in use carries it |
| Directory.FillSlot | CS330_projects/proj1/filesys/directory.c:141-179 | Filling a free slot with a new name adds that name and keeps names distinct |
| Directory.Overwrite | CS330_projects/proj1/filesys/directory.c:163-175 | Writing an entry over any other: names stay distinct exactly when no other entry has the new one; the map loses the old name and gains the new one |
| Directory.CalmScan | CS330_projects/proj1/filesys/directory.c:91-112 | With memory for every read the scan sees exactly the names of the map, and the search stops at a free slot if there is one |
| Directory.NamesMean | CS330_projects/proj1/filesys/directory.c:91-112 | While names are distinct the first entry with a name is the one that the map tells of |
| Directory.RemovedName | CS330_projects/proj1/filesys/directory.c:185-216 | Clearing the first entry with a name removes exactly that name while names are distinct |
| Directory.ClearSlot | CS330_projects/proj1/filesys/directory.c:185-216 | Clearing a slot removes its name only and keeps names distinct |
| Directory.Dir.Lookup | CS330_projects/proj1/filesys/directory.c:91-133 | For every pattern of failed allocations: finds the first entry with the name exactly when every read up to it got its buffer; its sector is the map's |
| Directory.Dir.FreeSlot | CS330_projects/proj1/filesys/directory.c:158-168 | Stops at the first slot not in use, at the first read without a buffer, or at the end of the directory |
| Directory.Dir.Add | CS330_projects/proj1/filesys/directory.c:141-179 | For every pattern of failed allocations: exactly when it succeeds, and which entry then carries the name; nothing changes otherwise |
| Directory.Dir.AddMeans | CS330_projects/proj1/filesys/directory.c:141-179 | Names stay distinct exactly if the name was in no entry but the one written over; then the map gains that binding and loses what the entry held |
| Directory.Dir.CalmAdd | CS330_projects/proj1/filesys/directory.c:141-179 | With memory to be had dir_add inserts exactly the good names that are absent while there is room, and no other name is lost |
| Directory.Dir.Erase | CS330_projects/proj1/filesys/directory.c:199-210 | Removes exactly that name, or nothing when the write has no buffer |
| Directory.Dir.EraseMeans | CS330_projects/proj1/filesys/directory.c:199-210 | Clearing an entry keeps names distinct and takes exactly its name out of the map |
| DiskLayout.InodeRoundTrip | CS330_projects/proj1/filesys/inode.c:73-106 | An inode sector is read back as it was written |
| DiskLayout.InodeLayout | CS330_projects/proj1/filesys/inode.c:14-22 | Start in bytes 0 to 3, length in 4 to 7, the magic number in 8 to 11, zeros behind |
| DiskLayout.LiveInodesDisjoint | CS330_projects/proj1/filesys/inode.c:72-106 | Header and data sectors of distinct live inodes are disjoint, whatever the names |
| DiskLayout.FreeIsUnowned | CS330_projects/proj1/filesys/free-map.c:26-40 | A sector that is free in the map belongs to no live inode |
| DiskLayout.Footprint | CS330_projects/proj1/filesys/inode.c:164-186 | All sectors of a live inode are marked used: what free_map_release asserts |
| DiskLayout.PublishSound | CS330_projects/proj1/filesys/filesys.c:46-60 | Pointing an entry at a new inode keeps the ownership of sectors sound, also when it is written over another |
| DiskLayout.UnlinkSound | CS330_projects/proj1/filesys/directory.c:185-216 | Clearing an entry while its inode is open keeps its sectors owned |
| DiskLayout.CloseNamed | CS330_projects/proj1/filesys/inode.c:164-186 | The last close of a file that was not removed releases nothing; the inode stays exactly if an entry leads to it |
| DiskLayout.CloseRemoved | CS330_projects/proj1/filesys/inode.c:164-186 | After the last close of a removed file its sectors belong to nobody |
| DiskLayout.ReleaseSound | CS330_projects/proj1/filesys/inode.c:164-186 | Releasing header and data, with the free map written back after each, keeps all other ownership sound and all other files as they were |
| DiskLayout.StoredWhole | CS330_projects/proj1/lib/kernel/bitmap.c:342-361 | A free map written back whole reads back as it is, bit by bit |
| DiskLayout.StoredCovers | CS330_projects/proj1/lib/kernel/bitmap.c:355-361 | A write back cut short still leaves every sector marked that was in use before and after it |
| DiskLayout.AllocateWrite | CS330_projects/proj1/filesys/free-map.c:26-40 | Marking and writing back changes no file but the free map's; what is in use stays marked on disk even when the write fails |
| DiskLayout.ReleaseWrite | CS330_projects/proj1/filesys/free-map.c:42-49 | The same for clearing and writing back |
| Bitmap.NoRun | CS330_projects/proj1/lib/kernel/bitmap.c:297-311 | When the scan fails there is no run of that length at all |
| Bitmap.FirstIsFirst | CS330_projects/proj1/lib/kernel/bitmap.c:297-311 | There is no run of that length in front of the one found |
| Bitmap.Scan | CS330_projects/proj1/lib/kernel/bitmap.c:297-311 | The first run of clear bits, or failure |
| Bitmap.ContainsUsed | CS330_projects/proj1/lib/kernel/bitmap.c:252-264 | True exactly when the run is not clear |
| Bitmap.SetMultiple | CS330_projects/proj1/lib/kernel/bitmap.c:219-229 | Exactly the run changes |
| Bitmap.PackedBit | CS330_projects/proj1/lib/kernel/bitmap.c:342-361 | Every bit is found in the bytes of its element where bitmap_read looks for it |
| Bitmap.PackedByte | CS330_projects/proj1/lib/kernel/bitmap.c:342-361 | Bit j of a byte of the file counts 2 to the j |
| FileSys.FileSystem.constructor | CS330_projects/proj1/filesys/filesys.c:96-104 | After formatting and free_map_open: sixteen free entries, no files, all later sectors free, everything sound, and the free map on disk says what the one in memory says |
| FileSys.FileSystem.WriteMap | CS330_projects/proj1/lib/kernel/bitmap.c:355-361 | Stores the elements in the free map's file, whole or whole sectors of them, and nowhere else |
| FileSys.FileSystem.FreeMapAllocate | CS330_projects/proj1/filesys/free-map.c:26-40 | The first free run is marked and written back, or nothing stays marked; the disk changes by the write back alone |
| FileSys.FileSystem.FreeMapOpen | CS330_projects/proj1/filesys/free-map.c:52-60 | Reading the free map back frees no sector in use, and changes nothing if the last write back was whole |
| FileSys.FileSystem.FreeMapRelease | CS330_projects/proj1/filesys/free-map.c:42-49 | Exactly the run is cleared and that is written back; its assertion is proved at every call |
| FileSys.FileSystem.InodeCreate | CS330_projects/proj1/filesys/inode.c:72-106 | Succeeds exactly when memory, a run and the write back are there; writes the free map, one header and zeros |
| FileSys.FileSystem.Create | CS330_projects/proj1/filesys/filesys.c:46-60 | From every state, duplicate names included: succeeds exactly under the stated conditions; then one entry and one inode of zeros are new, an entry written over is lost, no other file changes, one run for the header and one for the data are taken; on failure no file and no entry changes, and of the free map exactly the data run, if inode_create got that far |
| FileSys.FileSystem.CalmCreate | CS330_projects/proj1/filesys/filesys.c:46-60 | With memory to be had and names distinct: exactly the good absent names while there is room, and no other name or file is touched |
| FileSys.FileSystem.NewNames | CS330_projects/proj1/filesys/filesys.c:46-60 | After a creation names are distinct exactly if no other entry has the new one; then the map gains it and loses the name written over |
| FileSys.CreateTwice | CS330_projects/proj1/filesys/directory.c:150-175 | From do_format on: two creations of the same name, one scan cut short by low memory; both succeed, and after one removal the name still opens |
| FileSys.CreateOver | CS330_projects/proj1/filesys/directory.c:163-175 | From do_format on: two creations of different names, one search cut short by low memory; both succeed, and the first name opens no more |
| FileSys.CreateLeaks | CS330_projects/proj1/filesys/filesys.c:46-60 | From do_format on with three sectors to spare: creating a name again fails, and its data sector stays marked, so that of two more empty files only one can be created |
| FileSys.FileSystem.InodeOpen | CS330_projects/proj1/filesys/inode.c:111-142 | One more opener of that inode, sharing the record if it is open |
| FileSys.FileSystem.InodeClose | CS330_projects/proj1/filesys/inode.c:164-186 | One opener less; the inode goes exactly with the last opener when no entry leads to it; exactly for removed files its header and data sectors, and no others, are then free again and the free map written back |
| FileSys.FileSystem.Open | CS330_projects/proj1/filesys/filesys.c:62-78 | From every state: one more opener of the inode in the first entry with the name, exactly when the scan sees it and memory is there, or no change at all |
| FileSys.FileSystem.Remove | CS330_projects/proj1/filesys/filesys.c:84-92 | From every state: exactly when it succeeds; the first entry with the name is cleared at once; the inode, its bytes and its sectors go exactly when nobody has it open; the free map on disk keeps agreeing when it can be written |
| FileSys.FileSystem.Read | CS330_projects/proj1/filesys/file.c:82-85 | As many bytes as are wanted and as the open file has left, or the whole sectors without a bounce buffer, and they are a slice of it, also after its removal |
| FileSys.FileSystem.Write | CS330_projects/proj1/filesys/file.c:110-114 | The same count, nothing when writes are denied; slice assignment on that file; every other file and all entries unchanged |
| FileSys.FileSystem.DenyWrite | CS330_projects/proj1/filesys/inode.c:320-327 | Denies writes to that inode and to no other |
| FileSys.FileSystem.AllowWrite | CS330_projects/proj1/filesys/inode.c:329-338 | Its assertion holds; no other inode changes |
| FileSys.FileSystem.Close | CS330_projects/proj1/filesys/file.c:46-54 | One opener less; an inode that no entry leads to goes exactly with its last opener; its sectors, and no others, come back exactly for a removed file; the free map on disk keeps agreeing when it can be written |
| ArenaModel.DescsMean | CS330_projects/proj1/threads/malloc.c:71-85 | Block sizes double from 16 to 1024, and an arena holds as many blocks as fit behind its header |
| ArenaModel.BlockToArenaInverts | CS330_projects/proj1/threads/malloc.c:266-294 | block_to_arena inverts arena_to_block, and a block lies inside its page behind the header |
| ArenaModel.AssertionAccepts | CS330_projects/proj1/threads/malloc.c:266-282 | The alignment assertion accepts the arena's blocks and exactly one address more, past the last of them |
| ArenaModel.FreeBound | CS330_projects/proj1/threads/malloc.c:236-254 | free_cnt never exceeds blocks_per_arena, and equals it only when every block is listed: the assertion in free |
| ArenaModel.LiveInside | CS330_projects/proj1/threads/malloc.c:88-154 | A live block lies in used pages behind its arena's header |
| ArenaModel.LiveBlocksDisjoint | CS330_projects/proj1/threads/malloc.c:88-154 | Live blocks do not overlap |
| ArenaModel.IdleMeansUnused | CS330_projects/proj1/threads/malloc.c:236-254 | All blocks of an arena are free exactly when none of them is live |
| ArenaModel.AddSmall | CS330_projects/proj1/threads/malloc.c:119-141 | A new arena keeps counters and lists in agreement |
| ArenaModel.TakeBlock | CS330_projects/proj1/threads/malloc.c:143-149 | Handing out the first block keeps counters and lists in agreement; it was not live |
| ArenaModel.GiveBlock | CS330_projects/proj1/threads/malloc.c:233-240 | Taking a block back keeps counters and lists in agreement |
| ArenaModel.DropSmall | CS330_projects/proj1/threads/malloc.c:236-254 | Returning an idle arena's page keeps the rest in agreement |
| ArenaModel.PagesEnough | CS330_projects/proj1/threads/malloc.c:104-109 | The pages of a big block are no more than needed, and hold the request exactly up to size 0xFFFFFFF4; above, the 32-bit sum wraps |
| MallocArena.Allocator.constructor | CS330_projects/proj1/threads/malloc.c:71-85 | malloc_init: the seven descriptors, in a valid state with no live block |
| MallocArena.Allocator.GetMultiple | CS330_projects/proj1/threads/palloc.c:78-108 | The first run of free pages is marked used, or null |
| MallocArena.Allocator.FreeMultiple | CS330_projects/proj1/threads/palloc.c:125-149 | Exactly these pages become free; its assertion is proved at every call |
| MallocArena.Allocator.BlockToArena | CS330_projects/proj1/threads/malloc.c:266-282 | The page of a genuine block; none of its assertions fails |
| MallocArena.Allocator.ArenaToBlock | CS330_projects/proj1/threads/malloc.c:284-294 | The address of the block; none of its assertions fails |
| MallocArena.Allocator.BlockSize | CS330_projects/proj1/threads/malloc.c:177-186 | The bytes of a live block |
| MallocArena.Allocator.Malloc | CS330_projects/proj1/threads/malloc.c:88-154 | Null exactly when it cannot be served, changing nothing; else one new live block of its class, all others unchanged: the front of the free list, which loses it, while there is one, else from the first free pages, of which no more are taken than it needs |
| MallocArena.Allocator.GrantedEnough | CS330_projects/proj1/threads/malloc.c:88-154 | The block holds the request, except for the eleven largest sizes |
| MallocArena.MallocOversize | CS330_projects/proj1/threads/malloc.c:104-109 | With a page free, each of the eleven largest requests is served with a block of 4084 bytes |
| MallocArena.Allocator.Realloc | CS330_projects/proj1/threads/malloc.c:188-214 | Like free for size 0, like malloc for null; else the new block holds as many of the old bytes as the smaller of the two sizes, and the old one stays when there is no memory |
| MallocArena.Allocator.Free | CS330_projects/proj1/threads/malloc.c:216-264 | The block is no longer live and is in front of its free list, all other live bytes stay, and pages go back exactly with the last block on them |
| SynchModel.InvNext | CS330_projects/proj2/threads/synch.c:61-238 | Every step of every thread, the timer and the interrupts keeps the invariant |
| SynchModel.WakesNext | CS330_projects/proj2/threads/synch.c:61-122 | Every step keeps: if somebody waits, at least as many woken threads as the value |
| SynchModel.LocksNext | CS330_projects/proj2/threads/synch.c:193-238 | Every step keeps: a lock's semaphore and the threads in its section make one |
| SynchModel.PlacesNext | CS330_projects/proj2/threads/thread.c:224-324 | Every step keeps each thread in exactly the list its status names |
| SynchModel.TicketsNext | CS330_projects/proj2/threads/synch.c:289-324 | Every step keeps each waiting thread's signal in exactly one place |
| SynchModel.DispatchPlaces | CS330_projects/proj2/threads/thread.c:488-564 | schedule runs the head of the ready list, or the idle thread when it is empty |
| SynchModel.FirstWaiterBlocked | CS330_projects/proj2/threads/thread.c:242-254 | The thread that sema_up wakes is blocked: thread_unblock's assertion |
| SynchModel.RunInv | CS330_projects/proj2/threads/synch.c:61-324 | The invariant holds in every state of every run |
| SynchModel.NoLostWakeup | CS330_projects/proj2/threads/synch.c:61-122 | In every reachable state, if a semaphore has waiters then at least as many threads as its value are woken and have yet to test it |
| SynchModel.MutualExclusion | CS330_projects/proj2/threads/synch.c:193-238 | In every reachable state the value plus the threads between their decrement and increment is 1 for each lock |
| SynchModel.OnePlace | CS330_projects/proj2/threads/thread.c:224-324 | In every reachable state each living thread but the idle one is in exactly one place, once, as its status says |
| SynchModel.SignalsArrive | CS330_projects/proj2/threads/synch.c:289-324 | In every reachable state a thread asleep in cond_wait is still listed, or its signaller has yet to call sema_up: no signal is lost |
| SynchRuns.ValueCounts | CS330_projects/proj2/threads/synch.c:61-122 | In every reachable state the value of a semaphore is what sema_init gave it, plus the sema_ups so far, minus the threads that got past it |
| SynchRuns.WokenInOrder | CS330_projects/proj2/threads/synch.c:61-122 | In every run the threads that slept on a semaphore are, in order, those that its sema_ups woke and then those that still wait |
| SynchRuns.RunInOrder | CS330_projects/proj2/threads/thread.c:488-564 | In every run the threads that became ready are, in order, those that got the processor since and then those on the ready list |
| SynchRuns.IdleLast | CS330_projects/proj2/threads/thread.c:488-500 | The processor changes hands only when it is given up, and the idle thread gets it only when nobody is ready |
| SynchRuns.SignalledInOrder | CS330_projects/proj2/threads/synch.c:289-324 | In every run cond_signal takes the threads in cond_wait in the order in which they came |
| SynchRuns.ReturnsHolding | CS330_projects/proj2/threads/synch.c:193-304 | In every run lock_acquire, cond_wait, and lock_try_acquire unless it comes back at once, return with the lock held by the caller |
| SynchRuns.ReturnsReleased | CS330_projects/proj2/threads/synch.c:230-238 | In every run lock_release returns with the lock not held by the caller |
| Synch.Kernel.Schedule | CS330_projects/proj2/threads/thread.c:550-564 | Is the scheduling step; its assertions hold |
| Synch.Kernel.ThreadBlock | CS330_projects/proj2/threads/thread.c:224-232 | Is the blocking step |
| Synch.Kernel.ThreadUnblock | CS330_projects/proj2/threads/thread.c:242-254 | Is the unblocking step; its assertion holds |
| Synch.Kernel.ThreadYield | CS330_projects/proj2/threads/thread.c:310-324 | Is a step of the model from every state of the invariant |
| Synch.Kernel.ThreadExit | CS330_projects/proj2/threads/thread.c:290-306 | Is a step of the model from every state of the invariant |
| Synch.Kernel.Idle | CS330_projects/proj2/threads/thread.c:380-407 | Is a step of the model from every state of the invariant |
| Synch.Kernel.SemaDown | CS330_projects/proj2/threads/synch.c:61-77 | One pass of the loop is a step of the model: the value goes down, or the thread waits and another runs |
| Synch.Kernel.SemaTryDown | CS330_projects/proj2/threads/synch.c:85-103 | Is a step of the model, and succeeds exactly when the value was positive |
| Synch.Kernel.Raise | CS330_projects/proj2/threads/synch.c:110-122 | sema_up wakes the first waiter and raises the value; thread_unblock's assertion holds |
| Synch.Kernel.LockAcquire | CS330_projects/proj2/threads/synch.c:193-202 | Is a step of the model; its assertion holds |
| Synch.Kernel.BecomeHolder | CS330_projects/proj2/threads/synch.c:193-202 | Is a step of the model |
| Synch.Kernel.LockTryAcquire | CS330_projects/proj2/threads/synch.c:210-222 | Is a step of the model, and succeeds exactly when the value was positive |
| Synch.Kernel.LockRelease | CS330_projects/proj2/threads/synch.c:230-238 | Is a step of the model; its assertion holds |
| Synch.Kernel.DropHolder | CS330_projects/proj2/threads/synch.c:230-238 | Is a step of the model |
| Synch.Kernel.ReleaseUp | CS330_projects/proj2/threads/synch.c:230-238 | Is a step of the model |
| Synch.Kernel.CondWait | CS330_projects/proj2/threads/synch.c:289-304 | Is a step of the model; its assertion holds |
| Synch.Kernel.CondSignal | CS330_projects/proj2/threads/synch.c:313-324 | Is a step of the model; its assertion holds |
| Synch.Kernel.SignalRaise | CS330_projects/proj2/threads/synch.c:313-324 | Is a step of the model |
| Donation.MaxOverBounds | CS330_projects/proj1/threads/thread.c:166-194 | What get_max_priority computes is the highest of its own priority and all its waiters', and one of them |
| Donation.ChainLinks | CS330_projects/proj1/threads/synch.c:215-219 | The chain the walk follows: each lock leads to the one its holder waits for |
| Donation.SettledMeans | CS330_projects/proj1/threads/synch.c:213-219 | The priority that the walk gives a holder: the highest of the caller's, its own and its waiters' |
| Donation.WalkGoesOn | CS330_projects/proj1/threads/synch.c:215-220 | Raising the next holder moves the one place where a waiter may be above its holder one lock on |
| Donation.WalkResult | CS330_projects/proj1/threads/synch.c:209-222 | The walk fails exactly when the last lock of the chain has no holder; else it leaves every waiter at or below its holder |
| Donation.InsertedOrdered | CS330_projects/proj1/lib/kernel/list.c:454-467 | Queueing with cmp_prr2 keeps the queue from low to high, later arrivals first among equals |
| Donation.InsertedPlace | CS330_projects/proj1/lib/kernel/list.c:454-467 | Queueing puts the thread before the first one that is at least as high |
| Donation.OldestOfHighest | CS330_projects/proj1/threads/synch.c:114-131 | In an ordered queue sema_up picks the first to come of the highest |
| Donation.QueuedInOrder | CS330_projects/proj1/threads/synch.c:66-81 | sema_down keeps every queue ordered |
| Donation.PoppedInOrder | CS330_projects/proj1/threads/synch.c:114-131 | While the queues are ordered sema_up wakes the oldest of the highest, and keeps them ordered |
| Donation.BalancedOrder | CS330_projects/proj1/threads/synch.c:209-222 | A donation keeps the queues ordered in which it raises nobody |
| Donation.DonationOrder | CS330_projects/proj1/threads/synch.c:209-222 | A donation keeps a queue ordered exactly when every raised thread in it still belongs before those behind it |
| Donation.RaisedOutOfOrder | CS330_projects/proj1/threads/synch.c:209-222 | Two threads queued in order, and a donation to the first, after which sema_up wakes the younger of two equals |
| Donation.InsertOrdered | CS330_projects/proj1/lib/kernel/list.c:454-467 | Inserts before the first thread that is at least as high |
| Donation.ListMax | CS330_projects/proj1/lib/kernel/list.c:501-513 | The last of the highest |
| Donation.Kernel.GetMaxPriority | CS330_projects/proj1/threads/thread.c:166-194 | The thread's top: its own priority or the highest donated to it |
| Donation.Kernel.LockAcquire | CS330_projects/proj1/threads/synch.c:202-222 | Not interrupted, from every state: it faults exactly when a donation is due and the last lock of the chain has no holder; else the caller is not above its holder, no waiter is if none was before, and the holders on the chain and nobody else change |
| DonationSteps.SteadyChain | CS330_projects/proj1/threads/synch.c:209-222 | It cannot fault while the chain keeps its holders and ends in a held lock, whatever else other threads change |
| DonationSteps.MayFault | CS330_projects/proj1/threads/synch.c:209-222 | Among the steps of other threads: it faults in some run from here exactly if there is another thread that does not wait, directly or not, for a lock that the caller holds |
| DonationSteps.Unblock | CS330_projects/proj1/threads/synch.c:202-265 | Every thread that does not wait for the caller can be made to run by steps of the others alone |
| DonationSteps.NoCrash | CS330_projects/proj1/threads/synch.c:209-222 | While every other thread waits for the caller no run faults |
| DonationSteps.WalkAlone | CS330_projects/proj1/threads/synch.c:209-222 | Without interruption the statements do exactly what lock_acquire's contract says |
| DonationSteps.FaultInput | CS330_projects/proj1/threads/synch.c:215-219 | A state from which the walk ends in the fault even without interruption |
| DonationSteps.UnraisedHolder | CS330_projects/proj1/threads/synch.c:224-228 | A state in which the new holder stays below a thread queued for its lock |
| Donation.Kernel.Queue | CS330_projects/proj1/threads/synch.c:66-81 | From every state: the thread stands before the first one at least as high; no waiter is above its holder exactly if none was and the new one is not; the queues stay ordered |
| Donation.Kernel.BecomeHolder | CS330_projects/proj1/threads/synch.c:224-228 | From every state: the lock's holder, the caller's list and what it waits for change and nothing else; no waiter is above its holder exactly if none was and none of the lock's waiters is above the new one |
| Donation.Kernel.SemaUp | CS330_projects/proj1/threads/synch.c:114-131 | For locks and plain semaphores: wakes the last of the highest waiters, which is the oldest of them while the queues are ordered; the caller falls back to its own top, and no waiter is above its holder if none was |
| Donation.Kernel.LockRelease | CS330_projects/proj1/threads/synch.c:256-265 | The lock has no holder and leaves the caller's list, and then as sema_up |
| PageDir.EntryRoundTrip | CS330_projects/proj1/threads/pte.h:71-98 | An entry gives back the frame and the present, writable and user bits it was made of |
| PageDir.UserAccess | CS330_projects/proj1/threads/pte.h:60-98 | The processor lets user code read a page, by the present and user bits at both levels, exactly when the map has it, and write it, by the writable bits, exactly when the map says so |
| PageDir.ClearedEntry | CS330_projects/proj1/userprog/pagedir.c:154-156 | Clearing the present bit keeps the address bits |
| PageDir.StoreEntry | CS330_projects/proj1/userprog/pagedir.c:100-121 | Writing one entry changes the translation of one page |
| PageDir.NewTable | CS330_projects/proj1/userprog/pagedir.c:69-83 | A zeroed page table changes no translation |
| PageDir.InjectiveKept | CS330_projects/proj1/userprog/pagedir.c:100-121 | No frame is mapped twice after mapping one exactly when it was not mapped before |
| PageDir.OtherDirectory | CS330_projects/proj1/userprog/pagedir.c:58-159 | Operations on one page directory leave the map of another one on frames of its own as it is |
| PageDir.StaySeparate | CS330_projects/proj1/userprog/pagedir.c:58-121 | Two directories stay on frames of their own as long as no frame of the other's is mapped |
| PageDir.OtherSurvives | CS330_projects/proj1/userprog/pagedir.c:28-50 | Destroying one leaves the map of one that shares no frame with it as it is |
| PageDir.DestroyMappedTwice | CS330_projects/proj1/userprog/pagedir.c:28-50 | A directory with one frame mapped at any two pages of one page table: pagedir_destroy frees that frame twice and fails |
| PageDir.PhysicalMemory.Create | CS330_projects/proj1/userprog/pagedir.c:17-23 | A directory without user pages |
| PageDir.PhysicalMemory.FindTable | CS330_projects/proj1/userprog/pagedir.c:58-88 | The page table's frame, or -1 exactly when there is none; no change |
| PageDir.PhysicalMemory.LookupPage | CS330_projects/proj1/userprog/pagedir.c:58-88 | The page table's frame exactly when there is one or one can be made; the map stays |
| PageDir.PhysicalMemory.SetPage | CS330_projects/proj1/userprog/pagedir.c:100-121 | Succeeds exactly when there is or can be a page table, and then adds exactly that translation, readable and, if asked for, writable for user code |
| PageDir.PhysicalMemory.GetPage | CS330_projects/proj1/userprog/pagedir.c:127-139 | Frame address plus offset for a mapped page, null otherwise |
| PageDir.PhysicalMemory.ClearPage | CS330_projects/proj1/userprog/pagedir.c:145-159 | Removes exactly that page |
| PageDir.PhysicalMemory.Destroy | CS330_projects/proj1/userprog/pagedir.c:28-50 | Runs to its end exactly when no frame is mapped twice, and then frees each mapped frame, each user page table and the directory once, and nothing else |
| Loader.ValidateSegment | CS330_projects/proj1/userprog/process.c:327-368 | Accepts exactly the loadable segments in plain numbers, although its sums can wrap |
| ElfLayout.EhdrFound | CS330_projects/proj1/userprog/process.c:152-168 | In a file laid out as struct Elf32_Ehdr the members that load tests and uses are those it finds, and it accepts exactly the headers of an executable for this machine |
| ElfLayout.PhdrFound | CS330_projects/proj1/userprog/process.c:173-183 | A program header laid out as struct Elf32_Phdr anywhere in a file is the one that load finds there |
| Loader.PassedOver | CS330_projects/proj1/userprog/process.c:260-272 | The kinds of header that load refuses |
| Loader.RequestFits | CS330_projects/proj1/userprog/process.c:273-295 | For those no 32-bit sum wraps, load_segment's assertions hold, the stretch covers the segment and stays in user space |
| Loader.SegmentFilled | CS330_projects/proj1/userprog/process.c:273-299 | What load_segment puts there is the file's bytes followed by zeros |
| Loader.RequestPages | CS330_projects/proj1/userprog/process.c:273-299 | The pages that load_segment is asked for are exactly those that hold a byte of the segment |
| UserMemory.FrameRoundTrip | CS330_projects/proj1/userprog/process.c:397-419 | Bytes stored in a frame are read from its words |
| UserMemory.FrameLayout | CS330_projects/proj1/userprog/process.c:397-419 | Word i of a frame is its bytes 4 i to 4 i + 3, the lowest first |
| UserMemory.LooseFrame | CS330_projects/proj1/userprog/process.c:397-419 | Filling a frame that is in no table and not mapped changes no page of the process |
| UserMemory.Mapped | CS330_projects/proj1/userprog/process.c:459-467 | Mapping a frame adds its bytes as one page and leaves the bytes of all others, though page tables change |
| Loader.Process.ReadByte | CS330_projects/proj1/userprog/pagedir.c:127-139 | A user address reads through pagedir_get_page the byte that the process's pages say, exactly when the processor lets user code read it |
| Loader.Process.Access | CS330_projects/proj1/userprog/pagedir.c:127-139 | The program can read exactly the pages that are there and write exactly those that are not read-only |
| Loader.Process.LoadPage | CS330_projects/proj1/userprog/process.c:397-419 | One page in the page tables: the file's bytes and zeros behind, or no change; it fails only for want of frames, bytes or room at that address |
| Loader.Process.LoadSegment | CS330_projects/proj1/userprog/process.c:384-427 | Unless frames are refused, succeeds exactly when the bytes are there and no page is mapped; both counters end at zero; the pages, read through the page tables, hold what was asked for |
| Loader.Process.LoadOne | CS330_projects/proj1/userprog/process.c:267-299 | Unless frames are refused, succeeds exactly for loadable segments whose pages are unmapped; then every byte of the segment is in place, and its pages are read-only exactly if PF_W is clear |
| Loader.Process.LoadHeaders | CS330_projects/proj1/userprog/process.c:248-304 | Unless frames are refused, succeeds exactly when every header lies in the file and is one to pass over or of a segment that can be loaded and shares no page with those before it; then all segments are in memory at once, only their pages are new, and of these exactly those without PF_W are read-only |
| Loader.Process.SetupStack | CS330_projects/proj1/userprog/process.c:432-447 | A zeroed, writable page below PHYS_BASE, unless that is mapped or frames are refused |
| Loader.Load | CS330_projects/proj1/userprog/process.c:206-322 | With a frame for the directory, and unless frames are refused, succeeds exactly for an executable with header and segments in order, side by side and off the stack page; then all segments and the stack are in place, exactly the pages of segments without PF_W are read-only, and it starts where the header says |
| Sorting.GapMoves | CS330_projects/proj1/lib/stdlib.c:96-123 | Swapping with the highest child moves the only disorder one level down |
| Sorting.RootHighest | CS330_projects/proj1/lib/stdlib.c:96-123 | The root of a heap is the highest |
| Sorting.RootMoves | CS330_projects/proj1/lib/stdlib.c:147-151 | Swapping the root behind the heap extends the sorted end |
| Sorting.MaxOfThree | CS330_projects/proj1/lib/stdlib.c:104-112 | The highest of an element and its children |
| Sorting.Heapify | CS330_projects/proj1/lib/stdlib.c:96-123 | Makes i's subtree a heap when its two subtrees are, keeping its elements and moving no other; so the heap from i on is restored if it holds below |
| Sorting.BuildHeap | CS330_projects/proj1/lib/stdlib.c:143-145 | Makes the array a heap of the same elements |
| Sorting.Sort | CS330_projects/proj1/lib/stdlib.c:131-152 | A sorted permutation, for every array and every total-preorder comparison |
| Sorting.BinarySearch | CS330_projects/proj1/lib/stdlib.c:184-207 | A match exactly when there is one |
| Checksum.SumFits | CS341_projects/proj0/network.c:9-21 | The 32-bit sum cannot overflow up to 131074 bytes |
| Checksum.RepEqual | CS341_projects/proj0/network.c:23-27 | What it means for two sums to fold to the same 16 bits: the same residue modulo 65535, zero only for zero |
| Checksum.Sum16Last | CS341_projects/proj0/network.c:9-21 | A byte counts as it is at an even place and 256 times at an odd one |
| Checksum.SumMeans | CS341_projects/proj0/network.c:23-27 | The checksum is the one number that makes the sum of the words a multiple of 65535, and 65535 only for a sum of zero |
| Checksum.Checksum2 | CS341_projects/proj0/network.c:2-28 | The ones complement of the folded sum of 16-bit words, for every buffer up to that size |
| Checksum.AddCarryRep | CS341_projects/proj0/network.c:101-106 | Addition with end-around carry keeps the ones-complement value in 64, 32 and 16 bits |
| Checksum.NumberRep | CS341_projects/proj0/network.c:101-127 | A wide word counts as the sum of its 16-bit words |
| Checksum.FoldDown | CS341_projects/proj0/network.c:134-144 | Folding 64 bits to 32 and to 16 keeps the value |
| Checksum.Checksum8 | CS341_projects/proj0/network.c:92-145 | The checksum of the bytes it reads, which are one more than size for even sizes not divisible by 8 |
| Checksum.ChecksumsAgree | CS341_projects/proj0/network.c:92-145 | It equals checksum2 exactly when the size is odd, a multiple of 8, or the byte behind the buffer is zero |
| Checksum.ExtraByteInput | CS341_projects/proj0/network.c:127 | Two bytes for which the result depends on the byte behind them |
| Checksum.PassesWhen | CS341_projects/proj0/server.c:85-88 | The receiver accepts exactly the packets whose words add up to a positive multiple of 65535 |
| Checksum.SealedPasses | CS341_projects/proj0/client.c:122-134 | A packet filled with its own checksum is accepted, for every payload, odd lengths and zero sums included |
| Checksum.BuildPacket | CS341_projects/proj0/client.c:122-134 | Operation, shift, the length of the whole packet in network order and the payload as asked for, and the receiver accepts |
| Checksum.Accepts | CS341_projects/proj0/server.c:85-88 | Exactly the packets whose checksum is zero |
| Printf.BufferFits | CS330_projects/proj1/lib/stdio.c:505-530 | format_integer's 64-byte buffer holds every 64-bit number in every base, with commas, precision and # flag |
| Printf.WriteDigits | CS330_projects/proj1/lib/stdio.c:512-520 | The digits from the lowest up, with commas, inside the buffer |
| Printf.FillBuffer | CS330_projects/proj1/lib/stdio.c:505-530 | The whole buffer, never past its end |
| Printf.FormatInteger | CS330_projects/proj1/lib/stdio.c:469-547 | Outputs exactly the rendering: padding, sign, prefix, zeros, digits |
| PrintfMeaning.RenderedMeans | CS330_projects/proj1/lib/stdio.c:469-547 | For all four notations: the digits read by their character codes as the value, in the right case and without leading zeros, commas exactly behind each group; sign, 0x or 0X, the zeros of the precision and of octal #, and padding to the width where the flags say |
| Printf.Snprintf | CS330_projects/proj1/lib/stdio.c:26-52 | vsnprintf of an integer: the buffer holds the rendering cut off to its size, null-terminated, and the result is the whole length |
| Printf.ParseConversion | CS330_projects/proj1/lib/stdio.c:340-460 | Is the parsing function, for every format and its asterisk arguments |
| Printf.AskedIsParsed | CS330_projects/proj1/lib/stdio.c:340-460 | Parsing a directive gives back the flags, width and precision it was written for, and stops right behind it |
| PrintfMeaning.DirectiveMeans | CS330_projects/proj1/lib/stdio.c:340-460 | Flags in any order, a width, a precision, asterisks, a length modifier: what each character of the directive asks for, and parsing stops right behind it |
| Printf.Bounded.Helper | CS330_projects/proj1/lib/stdio.c:46-52 | The buffer holds the output as far as there is room |
| Printf.Bounded.Finish | CS330_projects/proj1/lib/stdio.c:26-42 | Null-terminated prefix, and the length that was wanted |
| Printf.Atoi | CS330_projects/proj1/lib/stdlib.c:10-41 | The number at the start of the string; no intermediate value overflows when the number itself is an int |
| PrintfMeaning.NumberMeans | CS330_projects/proj1/lib/stdlib.c:10-41 | Past white space and one sign the number that the digits stand for, up to the first other character |
| Printf.PrintedIsRead | CS330_projects/proj1/lib/stdio.c:469-547 | atoi reads back every 32-bit value from its rendering, for every width, precision and flags, exactly when there is no grouping or the number is below 1000 |
| Printf.PrintAndRead | CS330_projects/proj1/lib/stdlib.c:10-41 | The same for the two functions run one after the other |
| Printf.LeadGroup | CS330_projects/proj1/lib/stdio.c:512-520 | With grouping a larger number starts with at most three digits and a comma |
| Rio.Descriptor.Read | CS230_projects/proxylab/csapp.c:794-806 | A read takes at most size bytes off the stream, or meets its end, or is interrupted and takes none |
| Rio.Reader.constructor | CS230_projects/proxylab/csapp.c:826-831 | An empty buffer in front of the stream |
| Rio.Reader.Refill | CS230_projects/proxylab/csapp.c:796-807 | Bytes in the buffer, or the end of the stream, whatever the interruptions |
| Rio.Reader.Read | CS230_projects/proxylab/csapp.c:794-819 | The next bytes of the stream in order, as many as wanted or as the buffer holds, refilled only when it is empty, the unread ones kept; 0 and -1 exactly at its ends; a request for none still refills |
| Rio.Reader.ReadN | CS230_projects/proxylab/csapp.c:838-853 | Exactly n bytes of the stream, all that is left at end of file, -1 at an error, for every pattern of short reads |
| Rio.Reader.ReadLine | CS230_projects/proxylab/csapp.c:860-882 | Exactly up to the first newline, maxlen-1 bytes or the end of the stream, null-terminated |
| Rio.LineEndsAtNewline | CS230_projects/proxylab/csapp.c:860-882 | A line has its only newline at its end, and lacks one only when cut by its limit or the end |

## Left out

- MmHeap.Allocator.Malloc: asks for room in the simulated memory, because mem_sbrk reports failure as -1 and mm_malloc tests for NULL; sizes above 0xFFFFFFF8, where the rounding wraps to 0, are covered by MmHeap.Allocator.AlignMeaning only.
- MmHeap.Allocator.constructor: keeps the seven list heads in one array.
- MmHeap.Allocator.Free: does not model the reads of a missing neighbour's tags that mm_free makes and does not use.
- mm_realloc: a call of mm_malloc, a copy of bytes and a call of mm_free; payload bytes are words owned by callers here.
- FileSys.FileSystem.Create: sizes that overflow off_t are left out.
- FileSys.FileSystem.DenyWrite: the flag of struct file that makes file_deny_write and file_close call the inode's counter at most once is left to the caller.
- FileSys.FileSystem.FreeMapOpen: stands for a restart in so far as the free map is read back; inodes that were open then are not listed again.
- The file position of struct file, dir_readdir, reopening the root directory's own inode, and the disk driver: sequencing around what is modelled.
- MallocArena.Allocator.Free: keeps headers and list links apart from the bytes of the blocks; calls are modelled one after the other. malloc.c's locks are one for each descriptor, so this leaves out calls that overlap: big blocks take no lock, and giving pages back takes none on the pool.
- MallocArena.Allocator.Realloc: for the eleven sizes whose block is too small, asks that the old block not be larger than the new one, since the copy would overrun it.
- calloc: its test for overflow does not catch every product that wraps.
- SynchModel.NoLostWakeup: does not model the wrap of a semaphore's value at 2^32.
- Synch.Kernel.CondSignal: list operations that the lock protects are one step with the assignments around them; cond_broadcast is repeated signalling.
- Synch.Kernel.ThreadCreate: starts where the new thread is unblocked; its page, its stack frames and the lock around thread numbers are left out, as is freeing a dead thread's page.
- thread_start: the run begins after it, with the idle thread already blocked.
- Donation.Kernel.BecomeHolder: makes its three assignments in one step, though interrupts are on.
- Donation.Kernel.LockRelease: stops before yield_if_nonmax; the ready list, thread_set_priority, lock_try_acquire and the mlfqs formulas are left out.
- PageDir.PhysicalMemory.SetPage: does not bound frames by the amount of memory; accessed and dirty bits and the flushing of the TLB are left out.
- Loader.Load: reads of the file take their bounce buffer as available; any free frame may be the one that the user pool grants.
- Sorting.Sort: an element is one array cell, so the byte-by-byte swap of do_swap is one assignment.
- Checksum.Checksum2: for buffers of at most 131074 bytes; beyond, its 32-bit sum can overflow.
- Printf.Atoi: asks that the number be an int, outside of which C leaves the result undefined; characters after a terminating null are not part of the string.
- Printf.ParseConversion: widths and precisions written in the format are not cut to 32 bits.
- The rest of __vprintf (strings, characters, pointers, the choice of argument type), hex_dump, rio_readn and rio_writen: no harder than what is modelled.
- Sockets, forking, HTTP, the shell, the data lab, timing harnesses, device drivers, context switches and bootstrapping.
