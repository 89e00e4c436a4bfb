# Dynt-Kernel: a verified model of its core

This project models the parts of Dynt-Kernel, an x86_64 kernel written in C, whose correctness rests on
unbounded arguments, and proves what they are for:

- **the FAT32 driver** (`fs/fat32.c`): files as cluster chains threaded through the FAT, read, written,
  rewritten, extended and freed in place, and the directory entries that name them;
- **paging over the frame allocator** (`mem/mm/paging.c`, `mem/mm/pmm.c`): four-level page tables stored as
  bytes in physical frames (4-level paging in section 4.5 of the Intel SDM, volume 3A), fork, teardown;
- **the kernel heap** (`mem/mm/kheap.c`): an address-ordered first-fit list with splitting and coalescing;
- **program loading** (`exec/elf.c`, `process/process.c`): ELF segments, relocation, the initial stack
  (section 3.4.1 of the AMD64 psABI);
- **the scheduler** (`scheduler/scheduler.c`): per-CPU run queues and the timer tick.

Code that changes state in place is a class or a method with `modifies`, proved against specification
functions and predicates on values; the lemmas reason about those values, over single steps and whole runs.
`dafny verify dfyconfig.toml` checks everything.

## How the pieces fit

| modules | what they hold |
|---|---|
| `Basics`, `LittleEndian`, `Bits` | shared definitions, bytes and words, bitwise OR |
| `FrameAllocation` | the bitmap allocator |
| `HeapBlocks`, `HeapRuns`, `KernelHeapModel` | block lists on values, runs of the heap, the linked list that refines them |
| `FatDisk`, `FatChains`, `FatReach`, `FatVolume` | sectors and the FAT, chains, reachability, the device and single-entry operations |
| `FatFiles`, `FatWrite`, `FatStore`, `FatRuns` | reading, in-place writing, whole-file rewriting and directory growth, runs of all of them |
| `DirNames`, `DirListing`, `DirEdit` | 8.3 and long-name codecs, the listing of a directory cluster, adding and deleting entries |
| `PageTables`, `Paging` | page tables on values, the machine that walks and edits them |
| `Forking`, `FrameLedger`, `Teardown`, `AddressSpaces`, `ForkedSpaces`, `PagingExamples` | cloning, who owns which frame, freeing, the life of an address space, fork as a whole, a small machine on which paging falls short |
| `UserMemory`, `ElfImage`, `Loading`, `Relocation`, `StackLayout`, `ExecStack` | memory as a program sees it, the image, segments, relocations, the initial stack |
| `SchedulerSpec`, `SchedulerRuns`, `Starvation`, `SchedulerImpl` | the state machine, its invariant over runs, who runs next and who never does, the linked queues that refine it |

Device and memory failures inside the FAT driver are nondeterministic and counted in `Volume.faults`:
confinement to the file at hand holds whatever fails, exact results hold when the count did not move.
The table may have more entries than the device has clusters, as it has on a 63 MiB partition like the one
of `Makefile:105-112` with 512-byte clusters: clusters from `Volume.Lim()` on are not on the device, and a transfer to or from them is refused
without a fault. The zeros that `data` has for them stand for bytes no transfer delivers.
In the paging modules a ghost map `nodes` says which frame is which table; `Tree` ties it to the bytes.
The places in that map are also what tables cost: an operation takes one frame for each place it needs and
does not find (`Paging.TablesTaken`), so that success and loss can be told from the number of free frames
before the call.

## Where the code does not do what it is meant to

Each of these is proved, with the exact condition under which the code is right where there is one.

- A firmware range whose end wraps past 64 bits is not reserved (`FrameAllocation.ReservationComplete`).
- `kheap_free` finds the header only if the block has no alignment pad (`HeapBlocks.HeaderFoundIffNoPad`);
  a request close to 2^64 is served with 16 bytes (`KernelHeapModel.NeedCoversRequest`).
- `fat32_write` past the chain's last cluster puts the data at another offset (`FatWrite.WritePosIsOffset`).
- `fat32_alloc_cluster` hands out a cluster that is not on the device exactly when nothing on the device is
  free and the table has a free entry left (`FatVolume.Volume.AllocCluster`). On such a full device a write
  ends with a useless cluster in the chain (`FatWrite.Write`), and growing a directory always leaves it
  linked to a freed cluster (`FatStore.ExtendDirectory`); the next allocation of that cluster cross-links it
  (`FatStore.DanglingCrossLinks`). A failing device can do the same.
- A rewrite that does not fit keeps every free cluster when the table is full, and gives all back when
  the device is (`FatStore.ReplaceFile`).
- `fat32_read` and `fat32_read_at` from offset 0 differ where the last sectors come from a cluster that is
  partly on the device (`FatFiles.ReadsAgree`, `FatFiles.ReadsDiffer`).
- A name of valid 8.3 characters that is longer than 8.3 is cut silently (`DirNames.ShortNameExact`).
- Long-name parts are stored with the lowest sequence number first (`DirEdit.CreateEntries`), although the
  source's comments (`fs/fat32.c:255-260`, `fs/fat32.c:807-811`) and the FAT specification ask for the
  highest first; the driver's own reader accepts any order (`DirNames.AssembleAnyOrder`).
- Long names whose length is no multiple of 13 are read outside the name (`DirEdit.ReadsInside`), and in a
  fresh directory cluster with no more slots than parts the entry lands past the buffer
  (`DirEdit.AddToFresh`).
- A page flag at bit 12 or above corrupts the address unless that bit is set in it already
  (`PageTables.AddressKept`): the no-execute flag moves every page below 2^63 (`PageTables.NoExecuteMovesPage`).
  No caller passes such a flag.
- A new address space comes without the local APIC mapping if and only if exactly two frames were free
  (`AddressSpaces.NewAddressSpace`, `PagingExamples.SpaceWithoutLapic`).
- `paging_map_large` is refused wherever an emptied page table was left behind (`Paging.EmptiedTableStays`,
  `PagingExamples.EmptiedTableExample`).
- A failed fork loses one copied frame if and only if the frames run out between the copy of some page and
  the tables above it (`ForkedSpaces.ForkUserSpace`, `PagingExamples.LostCopyExample`). Teardown loses the
  page directory of the LAPIC gigabyte, so a whole life costs one frame if and only if a LAPIC base is set
  and three frames were free when it began (`AddressSpaces.WholeLife`).
- `elf64_vaddr_to_offset` gives offsets to the zero tail of a segment too (`ElfImage.OffsetInFile`), and two
  segments that share a page cannot both be loaded (`Loading.LoadSegments`).
- A tick that kills the only process of a CPU resumes the killed frame (`SchedulerRuns.DeadFrameResumed`, `SchedulerRuns.DeadFrameExample`);
  ticks bring only the first two of a queue to the CPU (`Starvation.ReachedIffFirstTwo`), and a process never
  runs while two that stand before it stay on its queue (`Starvation.ThirdStarves`).

## Model

| member | source | states |
|---|---|---|
| `FrameAllocation.MaskIsolates` | mem/mm/pmm.c:39-52 | setting or clearing a frame's bit changes no other frame's bit |
| `FrameAllocation.FrameAllocator.ReserveRange` | mem/mm/pmm.c:59-79 | takes out of the free set exactly the frames of the outward-rounded range, with its wrap-around; the free count stays the number of set bits |
| `FrameAllocation.RoundingCovers` | mem/mm/pmm.c:59-79 | outward rounding takes a frame if and only if it shares a byte with the range, when the end can be rounded |
| `FrameAllocation.ReservationComplete` | mem/mm/pmm.c:125-130 | a firmware entry is reserved completely if and only if it is empty, lies above the bitmap or does not wrap |
| `FrameAllocation.WrappingEntryIsMissed` | mem/mm/pmm.c:125-130 | an entry that wraps: it has every frame from 1 MiB on, and none of its frames is reserved |
| `FrameAllocation.FreeFrameIsApart` | mem/mm/pmm.c:120-139 | a frame init leaves free shares no byte with the kernel, the bitmap, a firmware entry or the framebuffer |
| `FrameAllocation.FrameAllocator.Init` | mem/mm/pmm.c:81-144 | the free set after init, frame by frame, the free count equal to its size; frame 0 is not in it once the kernel reserves a byte |
| `FrameAllocation.FrameAllocator.AllocFrame` | mem/mm/pmm.c:146-177 | the next free frame in circular order from the hint; fails only when nothing is free |
| `FrameAllocation.NextFitUnique` | mem/mm/pmm.c:146-177 | the next-fit specification names one frame |
| `FrameAllocation.FrameAllocator.AllocContig` | mem/mm/pmm.c:179-214 | takes the lowest run of free frames of the asked length; fails only when there is none |
| `FrameAllocation.FrameAllocator.FreeFrame` | mem/mm/pmm.c:216-228 | frees exactly one frame, counted once even when freed twice |
| `HeapBlocks.AlignUpFacts` | mem/mm/kheap.c:50-57 | rounding up gives the least multiple at or above; for alignments up to 16 it moves no 16-aligned address |
| `HeapBlocks.PadFacts` | mem/mm/kheap.c:181-183 | the pad makes the payload aligned, is below the alignment, and is 0 for alignments up to 16 |
| `HeapBlocks.SplitKeeps` | mem/mm/kheap.c:188-205 | splitting a block keeps the list sorted, disjoint, 16-aligned and inside its regions |
| `HeapBlocks.MergeKeeps` | mem/mm/kheap.c:130-151 | merging two touching blocks keeps the list well formed, so no block spans two regions |
| `HeapBlocks.InsertKeeps` | mem/mm/kheap.c:59-97 | a new region's block keeps the list well formed |
| `HeapBlocks.AllocatedKeeps` | mem/mm/kheap.c:188-209 | serving a request keeps the list well formed and fully coalesced, and costs one header exactly when it splits |
| `HeapBlocks.FreedKeeps` | mem/mm/kheap.c:225-248 | freeing with coalescing keeps the list well formed and the sum of sizes |
| `HeapBlocks.FreedCoalesced` | mem/mm/kheap.c:130-151 | after a free no two neighbouring free blocks touch |
| `HeapBlocks.AllocatedPayloads` | mem/mm/kheap.c:188-222 | the live payloads gain exactly the new address, which was not live before |
| `HeapBlocks.FreedPayloads` | mem/mm/kheap.c:225-248 | the live payloads lose exactly the freed address |
| `HeapBlocks.PayloadIsolated` | mem/mm/kheap.c:162-248 | no byte of a live payload lies in the header or payload of another block |
| `HeapBlocks.HeaderFoundIffNoPad` | mem/mm/kheap.c:225-236 | the address kheap_free computes is a block header if and only if the pad is 0 |
| `HeapBlocks.PaddedExample` | mem/mm/kheap.c:225-236 | a block for a page-aligned request whose header is not found |
| `HeapRuns.StepKeepsOk` | mem/mm/kheap.c:87-248 | growth, allocation and free keep the heap invariant, including: sizes plus 48 times (regions + splits) equal the bytes obtained |
| `HeapRuns.RunKeepsOk` | mem/mm/kheap.c:87-248 | the heap invariant holds in every state of every run |
| `HeapRuns.RunKeepsLive` | mem/mm/kheap.c:162-248 | a block that stays allocated keeps its address, size and pad through any run |
| `HeapRuns.ReachablePayloadsSafe` | mem/mm/kheap.c:162-248 | in every reachable state live payloads meet neither each other nor a header |
| `KernelHeapModel.NeedCoversRequest` | mem/mm/kheap.c:170-189 | the computed block size covers the request if and only if the 64-bit sums do not wrap |
| `KernelHeapModel.HugeRequestLooksSmall` | mem/mm/kheap.c:170-189 | a request of 2^64 - 32 bytes needs 16 bytes |
| `KernelHeapModel.KernelHeap.InsertFreeBlock` | mem/mm/kheap.c:59-85 | links the block at its place by address; the doubly linked list then is the old sequence with it inserted |
| `KernelHeapModel.KernelHeap.AddRegion` | mem/mm/kheap.c:87-97 | a region becomes one free block, separate from all others |
| `KernelHeapModel.KernelHeap.GrowHeap` | mem/mm/kheap.c:99-117 | adds one region of frames just taken if and only if 64 KiB of frames in a row are free, and one smaller than 4 MiB only if the double was not; otherwise changes nothing |
| `KernelHeapModel.KernelHeap.Unlink` | mem/mm/kheap.c:119-128 | rewires exactly the two neighbours |
| `KernelHeapModel.KernelHeap.Coalesce` | mem/mm/kheap.c:130-151 | the linked list becomes the maximal merge around the block |
| `KernelHeapModel.KernelHeap.FindFit` | mem/mm/kheap.c:174-186 | the first fitting block in address order, or none fits |
| `KernelHeapModel.KernelHeap.Alloc` | mem/mm/kheap.c:162-223 | a step of the heap state machine: first fit before or after one growth, aligned, fresh among the live payloads; 0 only when nothing fits, and without a growth only when no 64 KiB of frames in a row are free |
| `KernelHeapModel.KernelHeap.Free` | mem/mm/kheap.c:225-248 | a free step of the state machine that removes exactly the pointer from the live payloads |
| `FatVolume.Volume.ReadEntry` | fs/fat32.c:91-100 | the 28-bit entry of the FAT, or the failure value |
| `FatVolume.Volume.WriteEntry` | fs/fat32.c:539-556 | changes exactly one entry of the FAT and nothing else on the disk, or nothing |
| `FatVolume.Volume.BlockRead` | driver/stacks/storage/block.c:59-68 | refuses ranges past the device, otherwise returns its sectors |
| `FatVolume.Volume.BlockWrite` | driver/stacks/storage/block.c:70-79 | refuses ranges past the device, otherwise replaces exactly those sectors |
| `FatVolume.Volume.FindFree` | fs/fat32.c:558-569 | the lowest free entry of the table, on the device or not, or none is free |
| `FatVolume.Volume.AllocCluster` | fs/fat32.c:571-582 | marks the lowest free cluster as the end of a chain; it is off the device if and only if nothing on the device is free and the table has a free entry; fails without a fault only when the table has none |
| `FatVolume.Volume.FreeChain` | fs/fat32.c:584-601 | terminates on every in-range FAT, cyclic ones included, and zeroes exactly the reachable clusters when no more than 2^24 are reachable |
| `FatDisk.LimitIsEnd` | fs/fat32.c:81-84 | a cluster lies wholly on the device if and only if its number is below the limit |
| `FatDisk.TableOutrunsDevice` | fs/fat32.c:558-569 | a 63 MiB partition with 512-byte clusters has 96 more table entries than clusters |
| `FatReach.ClosedIsReach` | fs/fat32.c:584-601 | a path that cannot be extended holds exactly the clusters reachable from its start |
| `FatReach.ChainIsReach` | fs/fat32.c:584-601 | the clusters of a chain are exactly those reachable from its first one |
| `FatChains.ChainAcyclic` | fs/fat32.c:102-149 | a chain that ends visits no cluster twice |
| `FatFiles.WalkTo` | fs/fat32.c:151-180 | reaches cluster n of the chain, or reports how far the chain goes |
| `FatFiles.ReadAt` | fs/fat32.c:151-220 | returns the slice of the file's bytes at the offset, up to the first cluster that is not on the device, and a prefix of that when the device fails |
| `FatFiles.Read` | fs/fat32.c:102-149 | returns the file's first bytes, as many as ReadLength says, through the direct and the staged path; a prefix when the device fails |
| `FatFiles.SpanOnDevice` | fs/fat32.c:151-220 | for a file on the device the bytes read are all of the slice |
| `FatFiles.ReadsAgree` | fs/fat32.c:102-220 | both readers deliver equally much from offset 0, if and only if the last piece is not taken from a cluster partly on the device |
| `FatFiles.ReadsDiffer` | fs/fat32.c:102-220 | a device that ends inside a cluster: one reader delivers its first sector, the other nothing |
| `FatWrite.Extend` | fs/fat32.c:1143-1161 | appends the lowest free cluster to the chain, confined to it; which one, on or off the device, and when none, is stated exactly |
| `FatWrite.Write` | fs/fat32.c:1113-1201 | the file is its old bytes with exactly the written part replaced at the write position, all else on the disk is unchanged, and a short count has its reason: table full, or a cluster off the device |
| `FatWrite.ShortIsFull` | fs/fat32.c:1139-1196 | a file on the device is cut short only when every cluster of the device is taken |
| `FatWrite.WriteMovesBack` | fs/fat32.c:1126-1137 | an offset past the chain that is written as another one |
| `FatWrite.WriteThenRead` | fs/fat32.c:151-220 | reading back gives what was written, and around it what was there |
| `FatWrite.WritePosIsOffset` | fs/fat32.c:1126-1137 | the write lands at the asked offset if and only if the offset's cluster exists or is the next one |
| `FatWrite.OldBytesKept` | fs/fat32.c:1113-1201 | every old byte of the file outside the written part is kept |
| `FatWrite.SliceInside` | fs/fat32.c:151-220 | reading inside what was written gives it back |
| `FatStore.BuildChain` | fs/fat32.c:1028-1080 | a chain of ceil(size / cluster size) previously free clusters of the device that holds the buffer, or the reason why not |
| `FatStore.ReplaceFile` | fs/fat32.c:1028-1091 | succeeds if and only if enough clusters of the device were free; then frees exactly the old chain and leaves every other entry alone; otherwise keeps all free clusters or gives all back, as stated |
| `FatStore.RewriteThenRead` | fs/fat32.c:102-220 | after a rewrite that finds room, fat32_read gives the buffer back and fat32_read_at any range of it |
| `FatStore.ExtendDirectory` | fs/fat32.c:659-688 | adds one zeroed cluster to the directory if and only if the device has a free one; breaks it, without a fault, if and only if only entries off the device are free |
| `FatStore.DanglingHasNoChain` | fs/fat32.c:680-684 | a directory whose last link leads to a free cluster is no chain |
| `FatStore.DanglingCrossLinks` | fs/fat32.c:680-684 | once that cluster is allocated it belongs to two chains |
| `FatStore.FullDeviceExample` | fs/fat32.c:558-569 | such a table for that partition |
| `FatRuns.StepKeeps` | fs/fat32.c:539-601 | steps of the operations below keep live chains ended, disjoint and on non-zero entries |
| `FatRuns.RunKeepsNoCrossLinks` | fs/fat32.c:1028-1197 | over every run of such steps no two live chains share a cluster |
| `FatRuns.LiveIsNeverFree` | fs/fat32.c:558-582 | no cluster of a live chain is ever free, so none is handed out again |
| `FatRuns.OtherFilesKept` | fs/fat32.c:1113-1201 | an operation on one file leaves the chain and bytes of every other file alone |
| `FatRuns.WriteTo` | fs/fat32.c:1113-1201 | fat32_write is a step that changes the one file, whatever fails |
| `FatRuns.WriteFirst` | fs/fat32.c:1139-1165 | fat32_write to an empty file creates a chain or leaves all live ones alone |
| `FatRuns.Rewrite` | fs/fat32.c:1028-1091 | fat32_write_file over a file changes that chain or removes it |
| `FatRuns.StoreNew` | fs/fat32.c:1028-1080 | fat32_write_file of a new file creates a chain or leaves all live ones alone |
| `FatRuns.NewDirectory` | fs/fat32.c:571-582 | fat32_alloc_cluster creates a chain of one or changes nothing |
| `FatRuns.Remove` | fs/fat32.c:584-601 | fat32_free_chain removes exactly the one chain, also when it stops midway |
| `FatRuns.GrowDirectory` | fs/fat32.c:659-688 | growing a directory changes only it, unless it breaks it: then no chain starts there any more |
| `FatRuns.RunAll` | fs/fat32.c:539-1201 | any sequence of operations with any failures keeps live chains apart; only a directory that breaks leaves the invariant |
| `DirNames.EncodeShortName` | fs/fat32.c:702-764 | the loop computes the 11-byte field, refusing exactly the names the specification function refuses |
| `DirNames.ShortReads` | fs/fat32.c:222-253 | the decoder reads the encoded field as the upper-cased first 8 characters and 3 of the extension |
| `DirNames.ShortNameExact` | fs/fat32.c:702-764 | a name of valid characters is read back as itself if and only if it fits 8.3 |
| `DirNames.LongBaseIsCut` | fs/fat32.c:824-863 | ten capitals get no long-name part and are read back as another name |
| `DirNames.FillPart` | fs/fat32.c:865-899 | a part entry holds its 13 characters, sequence number, attribute and checksum |
| `DirNames.PartReads` | fs/fat32.c:266-294 | the decoder reads a part back as the 13 characters it was made from |
| `DirNames.AssembleAnyOrder` | fs/fat32.c:322-341 | joining the parts gives the name back, however they are arranged |
| `DirNames.AssembleReads` | fs/fat32.c:322-341 | in particular lowest first, as stored, and highest first, as the FAT specification has it |
| `DirListing.ReadDirectory` | fs/fat32.c:405-444 | the decoding loop computes the listing of the cluster |
| `DirListing.ScanSplit` | fs/fat32.c:405-444 | scanning a directory is scanning its head and then its tail from the state reached |
| `DirListing.AddExact` | fs/fat32.c:901-964 | writing parts and entry at a free run adds exactly one line to the listing |
| `DirListing.AddKeepsForm` | fs/fat32.c:901-964 | the directory stays well formed: no orphan part, nothing after the end mark |
| `DirListing.DeleteExact` | fs/fat32.c:1404-1444 | deleting an entry and its parts removes exactly one line |
| `DirListing.DeleteKeepsForm` | fs/fat32.c:1404-1444 | the directory stays well formed |
| `DirEdit.FindRun` | fs/fat32.c:603-657 | the first run of free slots of the asked length, or there is none |
| `DirEdit.RunBeforeEnd` | fs/fat32.c:603-657 | the run found never starts after an end mark |
| `DirEdit.EntryReads` | fs/fat32.c:766-805 | the 8.3 entry is decoded to the cluster, size and kind it was written with |
| `DirEdit.WriteParts` | fs/fat32.c:933-946 | all parts stand right above the entry and no other slot changes |
| `DirEdit.CreateEntries` | fs/fat32.c:901-964 | succeeds if and only if the name can be encoded and there is room above; then the parts, lowest number first, and the entry are in place |
| `DirEdit.ReadsInside` | fs/fat32.c:933-946 | every character read for the parts is in the name if and only if its length is a multiple of 13 |
| `DirEdit.ShortPartExample` | fs/fat32.c:935-935 | a ten-character name is read from index 2^32 - 3 |
| `DirEdit.FreshClusterFits` | fs/fat32.c:686-688 | the offset of the entry in a fresh cluster lies inside if and only if the cluster has more slots than the name has parts |
| `DirEdit.FreshClusterTooSmall` | fs/fat32.c:686-688 | a name of 208 characters, whose entry goes to byte 512 of a 512-byte cluster |
| `DirEdit.AddToFresh` | fs/fat32.c:1094-1107 | in a cluster just added the entry is the only line, or the name has no 8.3 form, or it is behind the buffer: if and only if there are no more slots than parts |
| `DirEdit.NameReads` | fs/fat32.c:322-341 | the listing shows the name the entry was created under |
| `DirEdit.AddEntry` | fs/fat32.c:603-964 | adds exactly the line with the name, cluster and size asked for, or changes nothing and says why |
| `DirEdit.MarkDeleted` | fs/fat32.c:1404-1444 | marks the entry and the run of parts above it, nothing else |
| `DirEdit.DeleteEntry` | fs/fat32.c:1404-1444 | removes exactly the entry's line from the listing |
| `PageTables.PutWordGet` | mem/mm/paging.c:243-297 | writing a table entry changes that entry and no other |
| `PageTables.AddressKept` | mem/mm/paging.c:294-294 | the entry keeps its physical address if and only if every flag from bit 12 up is a bit of the address |
| `PageTables.LargeAddressKept` | mem/mm/paging.c:335-336 | the same from bit 21 up for 2 MiB pages |
| `PageTables.NoExecuteMovesPage` | mem/mm/paging.c:294-294 | the no-execute flag changes every address below 2^63 |
| `PageTables.SharedBitIsKept` | mem/mm/paging.c:294-294 | a flag bit that the address has too is harmless |
| `Paging.Machine.TranslateAddr` | mem/mm/paging.c:381-407 | the walk over the bytes of the tables computes the abstract translation, 0 for unmapped |
| `Paging.Machine.Map` | mem/mm/paging.c:243-297 | maps exactly one page; succeeds if and only if the addresses pass the checks, nothing is mapped there and as many frames are free as tables are missing; a refusal changes no mapping |
| `Paging.MapTranslates` | mem/mm/paging.c:243-297 | after a map with flags that keep the address, every address of the page translates into the frame and all other addresses below 2^48 as before |
| `Paging.Machine.MapLarge` | mem/mm/paging.c:299-339 | the same for 2 MiB pages, where a page table in the place counts as mapped |
| `Paging.MapLargeTranslates` | mem/mm/paging.c:299-339 | after a large map every address of the 2 MiB translates into the range and all others as before |
| `Paging.TablesTaken` | mem/mm/paging.c:252-286 | every new table has cost one free frame, and stands on the path of the address |
| `Paging.EmptiedTableStays` | mem/mm/paging.c:341-379 | after the unmapping of a small page nothing large can be mapped in its 2 MiB |
| `PagingExamples.EmptiedTableExample` | mem/mm/paging.c:329-330 | taking out the only page of a process leaves 2 MiB with nothing mapped and paging_map_large refused |
| `Paging.Machine.Unmap` | mem/mm/paging.c:341-379 | removes exactly the page or 2 MiB page at the address and gives back exactly its frames; otherwise nothing changes |
| `Paging.UnmapTranslates` | mem/mm/paging.c:341-379 | after an unmap the page translates to nothing and all other addresses as before |
| `Paging.Machine.EnsurePt` | mem/mm/paging.c:252-286 | makes missing tables without changing any translation |
| `Forking.CopyTable` | mem/mm/paging.c:212-235 | copies the 512 pages under one table, or stops with the memory exhausted |
| `Forking.CopyHuge` | mem/mm/paging.c:193-210 | copies a 2 MiB page as 512 small pages |
| `Forking.CloneUserSpace` | mem/mm/paging.c:155-241 | every user page of the parent has its copy in the child, every frame taken is accounted for; it succeeds if and only if as many frames are free as pages and missing tables above them; a frame is lost if and only if they run out inside a paging_map |
| `Forking.FailedMeans` | mem/mm/paging.c:193-235 | a clone that stops had too few frames for all pages, and the page it stopped at says whether one is lost |
| `Forking.ChildReadsCopy` | mem/mm/paging.c:155-241 | the child reads at every user address the byte the parent had there |
| `Forking.ChildFramesApart` | mem/mm/paging.c:155-241 | the child's frames were free before, differ from all of the parent's, and two pages share one if and only if they are the same page |
| `Forking.ParentUnchanged` | mem/mm/paging.c:155-241 | the parent's mapping and memory are as before, whether the clone succeeds or not |
| `Forking.ParentWriteUnseen` | mem/mm/paging.c:155-241 | a later write to a frame of the parent changes nothing the child reads |
| `Forking.ChildWriteUnseen` | mem/mm/paging.c:155-241 | a later write to a frame of the child changes nothing the parent reads |
| `ForkedSpaces.ForkStarts` | process/process.c:640-657 | a parent in use and a new address space meet all that the clone needs |
| `ForkedSpaces.ChildOwned` | mem/mm/paging.c:155-241 | complete or not, the clone leaves every frame of the child accounted for, so that teardown gives it back |
| `ForkedSpaces.ChildSees` | mem/mm/paging.c:155-241 | the child sees the parent's bytes at its user pages and nothing elsewhere |
| `ForkedSpaces.ParentLives` | process/process.c:640-657 | the parent sees the same bytes and keeps its frames |
| `ForkedSpaces.ForkUserSpace` | process/process.c:640-657 | succeeds if and only if the frames suffice for the new space, the copies and the tables above them, with a child in use that has the parent's bytes; otherwise exactly the lost copy and the LAPIC page directory, each under its condition, are missing from the free frames; the parent is the same either way |
| `ForkedSpaces.CloneCost` | mem/mm/paging.c:155-241 | into a fresh space the clone takes one frame for each user page, page table and page directory of the parent |
| `ForkedSpaces.LosingFails` | mem/mm/paging.c:193-235 | whenever the frames run out inside a paging_map there were too few for the fork |
| `PagingExamples.LostCopyExample` | mem/mm/paging.c:226-234 | a process with one page and three free frames: fork fails and one of them is lost |
| `FrameLedger.MapKeeps` | mem/mm/paging.c:243-297 | mapping a held frame moves it to the page table in the ledger and keeps every frame accounted for once |
| `FrameLedger.UnmapKeeps` | mem/mm/paging.c:341-379 | unmapping moves the frame back to the free set in the ledger |
| `Teardown.FreeUserTree` | mem/mm/paging.c:98-145 | the nested loops free exactly the frames the tables lead to |
| `Teardown.VisitedIsOwned` | mem/mm/paging.c:98-145 | every frame visited is owned by the address space, so nothing foreign is freed |
| `Teardown.OwnedIsVisited` | mem/mm/paging.c:98-145 | every frame owned is visited, except the page directory of the LAPIC gigabyte |
| `Teardown.Returned` | mem/mm/paging.c:98-153 | the free set after teardown is everything there was, less held frames and that directory |
| `Teardown.FreeAddressSpace` | mem/mm/paging.c:147-153 | the method reaches that free set; the kernel's own root is never freed |
| `AddressSpaces.NewAddressSpace` | mem/mm/paging.c:58-96 | made if and only if two frames are free; owns just its tables, maps the kernel's gigabyte and keeps user code out of it, has the local APIC if and only if a third frame was free, writes only free frames, and fails without loss |
| `PagingExamples.SpaceWithoutLapic` | mem/mm/paging.c:89-93 | with two free frames the space is made and the local APIC is not mapped |
| `AddressSpaces.GuardedKeepsOut` | mem/mm/paging.c:82-87 | no walk below 1 GiB allows user mode |
| `AddressSpaces.StepKeepsOwned` | mem/mm/paging.c:243-379 | taking and giving frames, maps and unmaps keep the ledger |
| `AddressSpaces.RunKeepsOwned` | mem/mm/paging.c:243-379 | the ledger holds after every run of them |
| `AddressSpaces.LifeConservesFrames` | mem/mm/paging.c:58-153 | after any life the freed space has restored the free set exactly, short by the LAPIC page directory when a LAPIC base is set |
| `AddressSpaces.MapHeld` | mem/mm/paging.c:243-297 | paging_map is a step of such a life |
| `AddressSpaces.MapTakesFew` | mem/mm/paging.c:252-286 | a map, done or refused, takes at most three frames for tables |
| `AddressSpaces.MapHeldLarge` | mem/mm/paging.c:299-339 | paging_map_large is a step of such a life |
| `AddressSpaces.UnmapOwned` | mem/mm/paging.c:341-379 | paging_unmap is a step of such a life |
| `AddressSpaces.EndSpace` | mem/mm/paging.c:147-153 | freed at any moment of its life, a space leaves exactly what is held and, under that condition, one frame missing |
| `AddressSpaces.WholeLife` | mem/mm/paging.c:58-379 | creation, any sequence of calls, end: the free frames are those there were without the held ones, and without exactly one more if and only if a LAPIC base is set and three were free |
| `UserMemory.AtIsTranslated` | mem/mm/paging.c:381-407 | the byte a program sees is the one paging_translate leads to |
| `UserMemory.MapAt` | mem/mm/paging.c:243-297 | a map makes the frame's bytes appear in one page, absent before, and nowhere else |
| `UserMemory.RefusedAt` | mem/mm/paging.c:243-297 | a refused map changes no byte a program sees |
| `UserMemory.FillAt` | process/process.c:103-139 | filling an owned frame changes exactly the page it is mapped at |
| `ElfImage.ParseSegments` | exec/elf.c:94-138 | accepts if and only if the header is valid, there are PT_LOAD segments, not too many, all inside the image; returns exactly those |
| `ElfImage.VaddrToOffset` | exec/elf.c:222-248 | the offset in the first segment that holds the address, or none |
| `ElfImage.OffsetInFile` | exec/elf.c:222-248 | the offset lies in the segment's file part if and only if the address does |
| `ElfImage.ZeroTailGetsOffset` | exec/elf.c:222-248 | an address of the zero tail that gets an offset |
| `ElfImage.ParseDynamic` | exec/elf.c:140-220 | accepts if and only if there is a dynamic table with a relocation table |
| `ElfImage.LastEntryCounts` | exec/elf.c:163-210 | for each tag the last entry of the whole table counts, as the loop does not stop at DT_NULL |
| `Loading.PieBase` | process/process.c:45-51 | the base is 2 MiB aligned and inside the range for position-independent programs |
| `Loading.NewPage` | process/process.c:111-124 | adds one zeroed page, or says why not: not a user address, something there, or four frames or fewer free |
| `Loading.MapSegment` | process/process.c:103-139 | on success the segment's pages hold its file bytes and zeros and every other page is as before; on failure a page was in the way or the memory too small |
| `Loading.LoadSegments` | process/process.c:317-326 | into an empty user half with memory enough it succeeds if and only if no two segments share a page and all pages are user pages; every failure has its obstacle |
| `Loading.SharedPageExample` | process/process.c:103-139 | two segments on one page, each of which could be loaded |
| `Loading.ObstructedNotApart` | process/process.c:317-326 | with room enough the only obstacles are shared pages and pages below 1 GiB |
| `Loading.SegmentBytes` | process/process.c:103-139 | memory at base + vaddr + i is image byte offset + i below filesz and 0 up to memsz, for every segment |
| `Loading.OffsetAgrees` | exec/elf.c:222-248 | at every file-backed address the loaded byte is the image byte at the offset elf64_vaddr_to_offset gives |
| `Loading.MapUserStack` | process/process.c:142-164 | with memory enough it succeeds if and only if the stack area was free; then it is zero and all else as before |
| `Relocation.WriteWord` | process/process.c:279-285 | writes one aligned 64-bit word of user memory and nothing else; fails only where nothing is mapped |
| `Relocation.ApplyTable` | process/process.c:230-286 | every slot holds the value of its last relocation, all other bytes are as before; fails only for an unmapped slot |
| `Relocation.ApplyRelocations` | process/process.c:219-289 | the same for the table of the image; without a table nothing happens |
| `Relocation.RelativeTable` | process/process.c:240-285 | a table of RELATIVE entries fixes base + offset to base + addend |
| `Relocation.SameLastFix` | process/process.c:230-286 | at two bases the same entry decides an image-relative slot |
| `Relocation.ImageByte` | process/process.c:219-289 | each byte of the loaded and relocated image, from the image and the table alone |
| `Relocation.TwoBases` | process/process.c:219-289 | at two bases the images agree except in the relocated slots, whose words differ by the difference of the bases |
| `StackLayout.StackPointerAligned` | process/process.c:455-465 | the stack pointer is 16-byte aligned for all argument and environment lists |
| `StackLayout.OnePageFits` | process/process.c:465-490 | a block that fits the top page has no string across a page end |
| `StackLayout.SlotsApart` | process/process.c:465-490 | strings of one list are stored in disjoint slots |
| `StackLayout.SlotsAboveTables` | process/process.c:465-538 | all strings lie above the tables and the stack pointer, arguments below environment |
| `StackLayout.FrameUnique` | process/process.c:442-538 | the block decodes to one argument list and one environment only |
| `StackLayout.StringUnique` | process/process.c:465-490 | a stored string has one reading |
| `ExecStack.PlaceStrings` | process/process.c:465-490 | every string is in its slot, and nothing above is touched |
| `ExecStack.PushVector` | process/process.c:500-529 | the pointer array and its terminating zero are in place |
| `ExecStack.BuildExecStack` | process/process.c:442-538 | returns top - pad - total with argc, argv, NULL, envp, NULL and AT_NULL there and every string in its slot; 0 only if some address of the block is not mapped |
| `SchedulerRuns.EnqueueKeeps` | scheduler/scheduler.c:129-165 | enqueueing an unqueued process keeps the invariant |
| `SchedulerRuns.TickKeeps` | scheduler/scheduler.c:233-361 | a tick keeps the invariant |
| `SchedulerRuns.ExitKeeps` | scheduler/scheduler.c:363-415 | an exit keeps the invariant |
| `SchedulerRuns.StepKeeps` | scheduler/scheduler.c:104-432 | every step on any CPU keeps the invariant |
| `SchedulerRuns.RunKeepsInv` | scheduler/scheduler.c:104-432 | over every interleaving: queues without repetition, cpu fields right, the running process of a queue is its current one, ready ones hold their saved frame, busy plus idle ticks equal uptime |
| `SchedulerRuns.QueuesDisjoint` | scheduler/scheduler.c:104-181 | no process is on two queues |
| `SchedulerRuns.ZombiesOffQueue` | scheduler/scheduler.c:214-231 | a zombie is on no queue |
| `SchedulerRuns.SwitchLoadsSavedFrame` | scheduler/scheduler.c:302-361 | a switch loads the frame saved at that process's last switch-out, in kernel mode exactly when it was blocked |
| `SchedulerRuns.PreemptionIsSafe` | scheduler/scheduler.c:233-318 | kernel code of an unblocked process is never preempted, an unblocked process runs at least the quantum, and its frame is saved |
| `SchedulerRuns.DeadFrameResumed` | scheduler/scheduler.c:262-308 | the tick resumes a killed frame if and only if a terminating process in user mode is alone on its queue |
| `SchedulerRuns.DeadFrameExample` | scheduler/scheduler.c:262-308 | one process, asked to terminate, alone on its CPU |
| `Starvation.TickHands` | scheduler/scheduler.c:262-318 | a tick that switches hands the CPU to the first process of the queue, or to the second if the first was running, even after a kill |
| `Starvation.StepHands` | scheduler/scheduler.c:104-432 | no step on any CPU brings any other process in, or reorders a queue |
| `Starvation.ThirdStarves` | scheduler/scheduler.c:183-199 | over every run, a process never runs while two that stand before it stay on its queue |
| `Starvation.ReachedIffFirstTwo` | scheduler/scheduler.c:183-199 | ticks alone bring a waiting process to the CPU if and only if it is one of the first two of its queue |
| `SchedulerImpl.Scheduler.PushFront` | scheduler/scheduler.c:104-109 | the linked queue and its count stand for the sequence with the process in front |
| `SchedulerImpl.Scheduler.Unlink` | scheduler/scheduler.c:167-181 | the linked queue and its count stand for the sequence without the process |
| `SchedulerImpl.Scheduler.PickNext` | scheduler/scheduler.c:183-199 | the first ready process of the queue other than the skipped one |
| `SchedulerImpl.Scheduler.LeastLoaded` | scheduler/scheduler.c:114-127 | shortest queue, then smallest load, then smallest number |
| `SchedulerImpl.Scheduler.Enqueue` | scheduler/scheduler.c:154-165 | the enqueue step of the state machine, onto a shortest queue |
| `SchedulerImpl.Scheduler.KillCurrent` | scheduler/scheduler.c:214-231 | the kill step of the state machine; the process is on no queue after it |
| `SchedulerImpl.Scheduler.TimerTick` | scheduler/scheduler.c:233-361 | the tick step of the state machine and what it resumes |
| `SchedulerImpl.Scheduler.ExitCurrent` | scheduler/scheduler.c:363-415 | the exit step of the state machine and what it resumes |
| `SchedulerImpl.Scheduler.FindPid` | scheduler/scheduler.c:202-209 | a queued process with the pid, or none has it |
| `SchedulerImpl.Scheduler.Terminate` | scheduler/scheduler.c:417-432 | the terminate step of the state machine, refused only if no queued process has the pid |

## Left out

- Assembly stubs, descriptor tables, interrupt controllers, timers, SMP bring-up and MSR handling: hardware behaviour.
- Storage, PCI, keyboard, serial and display drivers: the disk is a sequence of sectors behind the bounds checks of `block_read` and `block_write`; a transfer that fails changes nothing on the device.
- `fat32_mount`, path walking, `fat32_mkdir`, `remove_recursive`, `fat32_update_size` and the VFS callbacks: plumbing over the operations modelled here.
- Multi-cluster directory walks: the outer loop of `read_directory` does not advance its cluster, so the decoding of one cluster is modelled.
- System calls, file descriptors, `sys_mmap`, `process_setup`, `process_execve`, child lists, user programs: thin or user interface.
- Spinlocks: each locked section is one atomic step, and unlocked races are not modelled.
- TLB invalidation and the second FAT copy: not modelled.
- The debug counters `allocated_bytes`, `total_frames` and `total_memory_bytes`: `allocated_bytes` is carried along but nothing is claimed of it, since it counts used spans up and block sizes down.
- KernelHeapModel.KernelHeap.Alloc: takes power-of-two alignments and requests whose sums stay in 64 bits; KernelHeapModel.NeedCoversRequest says what happens beyond.
- KernelHeapModel.KernelHeap.GrowHeap: frame 0 must not be free, as it is not after pmm_init, because the null pointer would then be a valid chunk.
- KernelHeapModel.KernelHeap.Free: takes the null pointer or a live pointer without pad; HeapBlocks.HeaderFoundIffNoPad shows that for others no header is found.
- FatVolume.Volume.FreeChain: takes FATs whose reachable links stay inside the FAT.
- FatVolume.Volume.ReadEntry: the table must lie on the device, and the sector numbers of its clusters must fit in 32 bits, in which the source computes them.
- FatFiles.ReadAt: offsets and sizes are unbounded numbers, so 32-bit wrap-around of their sum is not modelled.
- FatWrite.Write: the same for the offset and size written; the file's chain must be well formed.
- FatStore.ReplaceFile: takes buffers whose size rounded up to clusters stays in 32 bits.
- DirEdit.AddEntry: takes names that fit 8.3 or whose length is a multiple of 13, the ones for which the source's offset arithmetic is meaningful, and one directory cluster already read into memory; reading and writing the cluster is FatVolume.Volume.ReadCluster and FatVolume.Volume.WriteCluster.
- DirEdit.DeleteEntry: works on the slots of one cluster, like the source, so parts in a previous cluster are not reached.
- Paging.Machine.Map: takes virtual addresses below 2^48, the ones a processor accepts in the lower half.
- Paging.Machine.Unmap: the frames to be given back must not be page tables, as nothing in the source guards against freeing one.
- Forking.CloneUserSpace: the parent's user pages must be backed by frames that are not free, and the child must map none of them yet; ForkedSpaces.ForkStarts shows that this holds at a fork.
- ForkedSpaces.ForkUserSpace: the process structures, file table and register frame of process_fork are not modelled.
- FatRuns.RunAll: ends when a directory's new cluster is freed again; the directory entries that hold the heads of chains are taken to follow the operations, so a failed update of one is not modelled.
- AddressSpaces.NewAddressSpace: the kernel's root must already map the first gigabyte, as it does after boot.
- AddressSpaces.WholeLife: the owner maps and gives away only frames it has taken; calls that do not are not made.
- AddressSpaces.LifeConservesFrames: maps and unmaps lie between 1 GiB and 512 GiB outside the LAPIC gigabyte, the range free_user_tree visits.
- Loading.MapSegment: the segment must lie in that range, which the source does not check.
- Relocation.ApplyRelocations: the relocation table must lie in the image and its slots be aligned addresses of that range, which the source does not check; a symbol offset within 24 bytes of 2^64 counts as undefined.
- ExecStack.BuildExecStack: no string may cross a page end, because the source copies each through one translation; at most 128 strings a list, the size of the source's arrays.
- SchedulerImpl.Scheduler.Enqueue: the process must not be queued yet and must start in user mode, as at all callers; pids and the process list outside the queues are not modelled.
