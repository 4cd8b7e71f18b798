# Verification of the ASNU kernel's memory, storage and text layers

This project models the parts of the kernel that change memory step by step and have a simple meaning
behind them, and proves that the code keeps to that meaning. Every loop of the C sources that updates
state is a method here, proved against a specification function or predicate; the lemmas beside it say
what the specification means for a caller.

| file | component | the meaning it is proved against |
|---|---|---|
| `words.dfy`, `bytes.dfy` | machine words, division, `memcpy` | integers with explicit ranges |
| `slots.dfy`, `pmm.dfy` | frame allocator | the sequence of frame owners |
| `vmm.dfy` | four-level page tables | a finite map from page number to leaf entry |
| `fat_chains.dfy`, `fat32.dfy` | FAT32 chains and file data | chains in a table of 28-bit entries, bytes of a chain |
| `heap.dfy` | first-fit heap | the list of blocks that tile the heap |
| `elf.dfy` | program loader on the page tables | the image of the segments and the pages mapped |
| `printk_text.dfy`, `printk_hash.dfy`, `printk.dfy`, `printk_standard.dfy`, `printk_departures.dfy` | the printf family | the text a format and its arguments stand for, and what the standard asks for, written down on its own |
| `keyboard.dfy` | PS/2 keyboard ring and line editor | a machine of interleaved steps |
| `e1000.dfy`, `wire.dfy` | packets and the transmit ring | frames byte by byte, the message inside a frame, the queue of frames |
| `kisimple.dfy` | `strchr`, `strtok` | the maximal delimiter-free runs of a text |

`dafny verify dfyconfig.toml` checks the whole project.

## Main results

- **Page tables.** Over every run of maps and unmaps, of any length, the tables stay a tree and stand for the
  finite map that the same inserts and removes give; a run takes exactly one frame for each table its maps need
  and that was absent, and the flag that is never reset between levels never rewrites an entry. Only the frames
  taken must be cleared; at every level the exact condition is proved: with uncleared frames the map comes out
  right if and only if no present entry of the first fresh table but the one written leads to a present leaf. The walk of
  the processor, defined on its own with its rights over all four levels and with large pages, is determined after
  every run: it finds a page if and only if the map has it and no link that was there before is a large page, and grants
  writing and executing as leaf and old links do, and user mode only where all tables were there, open, before.
- **Frames.** Bitmap, counter and owner trace agree in every state; freeing an n-frame allocation through
  the pointer it returned restores the pool exactly if the n lowest free frames were consecutive; a frame
  changes hands only after it has been returned.
- **FAT32.** What is written is read back whatever the old chain length was, and every byte read or written is
  located on the disk by sector and offset; extension keeps chains live, acyclic and disjoint and takes the lowest free
  cluster, and other files keep chain and contents; releasing terminates on cyclic tables too and frees exactly what
  is reachable.
- **Heap.** Two heaps over the same memory that hand out the same blocks are identical, so freeing
  undoes allocating exactly, and every run that frees everything ends in the initial block.
- **Loader.** The entry is reached exactly if the file is an executable, or a shared object with an entry point, and all
  its pages lie in the window; then the file bytes of every segment are in place, zeros behind them, each page is found
  by the processor at its own address, and nothing else changed; unloading removes exactly the pages of a load. A load
  takes exactly the frames for the tables its pages lack, at most four. All of it holds for every load whose pages
  meet no table and none of the frames the load takes; no other free frame matters. Tables and the whole pool survive
  every load if and only if none of them is one of the 258 frames a load may write to, and for each of these
  frames there is a program that spoils it.
- **printf.** The buffer holds the first count - 1 characters of the whole output and the result does not
  depend on the count. A specification is read as what the standard means by it if and only if no precision
  argument is negative and every decimal count is below 2^32. From the spelling on, for every integer conversion of the
  standard, with and without `#`, the printed text is the standard's if and only if a condition on flags, counts and
  argument holds; one input for each kind of failure. A format of any number of pieces prints the texts of its pieces,
  each conversion from the arguments that those before it and their `*` have left.
- **Keyboard.** In every interleaving without an overflow inside a read, the characters come out in order,
  none lost and none twice; which overflows inside a read break this is stated exactly, reader step by reader step.
  The line editor stores in front of its buffer if and only if a backspace finds the line empty, and a run of the
  machine from its start delivers such a backspace.
- **Network.** Receiving undoes sending for UDP and TCP; a frame sent is the frame of the standards byte by byte, and its
  header adds up; what a receiver accepts is stated in the fields of the standards, and neither takes the other's
  frames; unfinished
  descriptors are the slots just before the tail and hold the frames in send order.
- **strtok.** Successive calls return exactly the maximal delimiter-free runs, in order, then NULL.

## Modelling conventions

- Machine words are integers with their range in the type (`Words.u64` and so on). Masks, shifts and the OR
  of disjoint fields are written as division, remainder and addition; wrap-around is an explicit remainder.
  Only the bitmap bytes of the frame allocator are bit-vectors.
- `CurrentPid` is a parameter. `cr3` is the field `root` of an address space. Sector input and output act on
  a sequence of sectors. Table frames are a map of their own beside the byte memory of the loader; the condition
  under which the two can be parts of one memory is what a load asks of its caller (`Loader.CanLoad`).
- `spare`, `later` and `path` are ghost parameters: the clean frames a caller wants to have left, the pages a load maps
  after this one, and the place of a table in the tree.
- Where the code departs from what its comments suggest, the model follows the code: reads and writes of a
  file start at its first cluster whatever the position is, a zero-frame allocation takes one frame, frame 0
  of a pool at address 0 is taken and then reported as failure.

## Model

| member | source | states |
|---|---|---|
| FreeSlots.AllocManyTakesTheLowest | kernel/src/PMM/pmm.c:53-75 | n allocations give the caller exactly the free frames with fewer than n free frames below them; every other frame keeps its owner |
| FreeSlots.AllocManyCount | kernel/src/PMM/pmm.c:53-75 | the number of free frames falls by n, or to zero when fewer were free |
| FreeSlots.CountFreePrefix | kernel/src/PMM/pmm.c:18-29 | the free counter is the number of free frames: a stretch adds its length exactly if it is all free, nothing exactly if none of it is |
| Frames.FreeUndoesAllocIffConsecutive | kernel/src/PMM/pmm.c:65-95 | freeing n frames from the first one of an n-frame allocation restores the pool if and only if the n lowest free frames are consecutive |
| Frames.ReclaimCount | kernel/src/PMM/pmm.c:115-121 | reclaiming a pid frees exactly the frames it held, leaves it none, and changes no other pid's holdings |
| Frames.OwnedFrameStays | kernel/src/PMM/pmm.c:53-121 | a frame stays with its owner over every run of calls that do not return it |
| Frames.FrameChangesHandsOnlyWhenReturned | kernel/src/PMM/pmm.c:53-121 | a frame that one pid held and later another holds has been returned in between |
| FrameAllocator.BitsOfWithBit | kernel/src/PMM/pmm.c:41-51 | setting a bit of a byte changes what the bit test sees at that bit only |
| FrameAllocator.BitsOfWithoutBit | kernel/src/PMM/pmm.c:45-51 | clearing a bit of a byte changes what the bit test sees at that bit only |
| FrameAllocator.BitValues | kernel/src/PMM/pmm.c:41-51 | frame k of a byte is the bit of value 2^k |
| FrameAllocator.HitIsInside | kernel/src/PMM/pmm.c:77-95 | a frame is hit exactly if one of the pointers lies in its 4096 bytes |
| FrameAllocator.Pmm.constructor | kernel/src/PMM/pmm.c:13-13 | the zero-initialised manager is consistent and holds no frame |
| FrameAllocator.Pmm.KiPmmInit | kernel/src/PMM/pmm.c:18-39 | -1 exactly when the bitmap memory is too small; otherwise every frame is free and bitmap, counter and trace agree |
| FrameAllocator.Pmm.PmmSetBit | kernel/src/PMM/pmm.c:41-43 | the bit is set, every other bit of the bitmap is as before |
| FrameAllocator.Pmm.PmmClearBit | kernel/src/PMM/pmm.c:45-47 | the bit is clear, every other bit of the bitmap is as before |
| FrameAllocator.Pmm.KiPmmAlloc | kernel/src/PMM/pmm.c:53-63 | the lowest free frame goes to the pid and its address is returned; a full pool returns NULL; bitmap, counter and trace still agree |
| FrameAllocator.Pmm.KiPmmNAlloc | kernel/src/PMM/pmm.c:65-75 | takes max(n, 1) frames and returns the first address, or NULL when the pool runs out, keeping what was taken; frame 0 at base 0 counts as failure |
| FrameAllocator.Pmm.KiPmmFree | kernel/src/PMM/pmm.c:77-89 | the frame the pointer points into becomes free, pointers outside the pool change nothing |
| FrameAllocator.HitsAreARange | kernel/src/PMM/pmm.c:91-95 | pointers a page apart that do not wrap around hit one range of frames |
| FrameAllocator.Pmm.KiPmmNFree | kernel/src/PMM/pmm.c:91-95 | exactly the frames of the pool that one of the pointers hits become free, pointers that wrap around included; without wrapping these are the frames of one range |
| FrameAllocator.Pmm.NAllocThenNFree | kernel/src/PMM/pmm.c:65-95 | after a successful allocation, freeing the same count from the returned pointer restores all owners if and only if the lowest free frames were consecutive |
| FrameAllocator.Pmm.KiPmmFreeFrame | kernel/src/PMM/pmm.c:105-113 | the frame becomes free; an index past the pool or below 0 changes nothing |
| FrameAllocator.Pmm.KiPmmClearPidTracedResources | kernel/src/PMM/pmm.c:115-121 | exactly the frames owned by the pid become free |
| PageTree.LeafEntry | kernel/src/VMM/vmm.c:36-36 | the leaf entry is present and writable, names the frame of the physical address and carries attribute bits 2-11 and 52-63 |
| PageTree.LinkBits | kernel/src/VMM/vmm.c:28-34 | a link is present and writable, no large page, closed to user mode, open to execution, and has no other bit set |
| PageTree.LeafBits | kernel/src/VMM/vmm.c:36-36 | a leaf is exactly the 36-bit frame of the address, attribute bits 2-11 and 52-63, and the present and writable bits |
| PageTree.IndexSlices | kernel/src/VMM/vmm.c:20-23 | the four shifted indices are the path and the slot of the 36-bit page number |
| PageTree.PathAndSlotDetermineThePage | kernel/src/VMM/vmm.c:20-23 | pages that differ in bits 12-47 differ in one of the four indices |
| PageTree.NodeAfterLink | kernel/src/VMM/vmm.c:27-34 | linking an unused cleared frame adds one path to the tree and changes no other |
| PageTree.TreeAfterLink | kernel/src/VMM/vmm.c:27-34 | after linking, every table is still reached by one path only |
| PageTree.ViewAfterLink | kernel/src/VMM/vmm.c:27-34 | linking a cleared table maps no page and unmaps none |
| PageTree.LinkKeepsLinks | kernel/src/VMM/vmm.c:27-34 | linking rewrites no entry that already linked a table, and the new table is reached and still zeroed |
| PageTree.TreeAfterLeaf | kernel/src/VMM/vmm.c:36-36 | storing a leaf keeps the tree and inserts, or with a clear present bit removes, exactly this page |
| PageTree.FreshTableMustHoldNothingElse | kernel/src/VMM/vmm.c:31-36 | when only the page table is missing and its frame is not cleared, the whole map operation changes exactly this page if and only if no entry of the frame but the one written is present |
| PageTree.FreshTableMustHoldNothing | kernel/src/VMM/vmm.c:33-34 | between the link of an uncleared page table and the leaf store, the map is unchanged if and only if the frame holds no present entry |
| PageTree.FreshTableMustLeadNowhere | kernel/src/VMM/vmm.c:27-34 | the link of an uncleared table at any level, taken by itself, leaves the map alone if and only if no present entry of its frame reaches a present leaf |
| PageTree.FreshTablesMustLeadNowhereElse | kernel/src/VMM/vmm.c:27-36 | with a missing table at any level and uncleared frames, once links and leaf are stored the map has changed in exactly this page if and only if the first fresh frame leads to no present leaf but the one written |
| PageTree.LeafUserBit | kernel/src/VMM/vmm.c:36-36 | the leaf is a user page exactly if the attributes say so |
| PageTree.LinkIsPlain | kernel/src/VMM/vmm.c:27-34 | a new table is linked by its frame and the present and writable bits alone, whatever page it is made for |
| PageTree.UserAccessNeedsOpenPath | kernel/src/VMM/vmm.c:12-39 | the walk grants a page to user mode if and only if it is mapped as a user page and all its tables were there before, with open links |
| PageTree.EmptyRootIsClosed | kernel/src/VMM/vmm.c:27-34 | in tables grown from an empty root no page is ever open to user mode |
| PageTree.HardwareByLinks | kernel/src/VMM/vmm.c:12-39 | the walk of the processor, which stops at a large page and grants what all four entries grant, in terms of the tables of a path |
| PageTree.HardwareAgrees | kernel/src/VMM/vmm.c:12-39 | after new tables have been linked the processor finds a page if and only if it is in the map and no link that was there before is a large page, and grants writing, executing and user access exactly as the leaf and those links do |
| PageTables.HardwareAtNewPage | kernel/src/VMM/vmm.c:12-39 | a page just mapped is found at the frame of its physical address, writable if and only if every link of its path that was there before is writable |
| PageTables.LevelCost | kernel/src/VMM/vmm.c:25-34 | one level of the walk costs one frame exactly if its table was missing; below a new table the next entry is absent, so the sticky flag rewrites nothing |
| PageTables.ProgressStep | kernel/src/VMM/vmm.c:25-34 | the invariant of the walk: no page changed, no link rewritten, frames taken so far are those of the missing tables, the flag is set only above an empty table |
| PageTables.CleanAfterLink | kernel/src/VMM/vmm.c:3-10 | after taking and linking the lowest free frame, the next n free frames are still cleared, and no free frame is a table |
| PageTables.LeafStored | kernel/src/VMM/vmm.c:36-36 | the leaf store keeps tree, links, tables and the clean frames and changes one page of the map |
| PageTables.AddressSpace.KiGetOrCreateTable | kernel/src/VMM/vmm.c:3-10 | follows a present entry and leaves the flag as it was; otherwise takes the lowest free frame and sets the flag |
| PageTables.AddressSpace.NextTable | kernel/src/VMM/vmm.c:27-34 | one level: the next table is linked if it was missing, followed if not, and nothing else changes |
| PageTables.AddressSpace.KiMMap | kernel/src/VMM/vmm.c:12-39 | the map gains exactly this page with the leaf entry; the processor finds it at its physical address, writable exactly if the links that were there are, unless one of them is a large page; exactly the lowest free frames for the missing tables are taken, and only they must be clean; no link is rewritten |
| PageTables.AddressSpace.KiUMap | kernel/src/VMM/vmm.c:41-65 | the map loses exactly this page: its present bit is cleared and no other bit of memory changes |
| PageTables.AddressSpace.UnmapThenRemap | kernel/src/VMM/vmm.c:12-65 | remapping a mapped page takes no frame and changes only its entry |
| PageTables.AbsentCount | kernel/src/VMM/vmm.c:25-34 | the tables absent on the way to a page are as many as the walk finds missing |
| PageTables.NeededAfterMap | kernel/src/VMM/vmm.c:12-39 | a map takes its missing tables off the set a run needs, and no others |
| PageTables.TookThenTook | kernel/src/VMM/vmm.c:3-39 | frames taken in two stages are the lowest free frames of the first, and all new tables are among them |
| PageTables.AddressSpace.Run | kernel/src/VMM/vmm.c:12-65 | over every sequence of maps and unmaps for whose absent tables there are clean free frames, the tables stay a tree and stand for the map with the same inserts and removes, exactly that many frames are taken, and what the processor finds and grants at every address follows from this map and the links that were there before |
| ClusterChains.ChainHasNoRepeat | kernel/src/FS/FAT32/fat32.c:394-411 | a chain that ends visits no cluster twice |
| ClusterChains.ExtendKeepsChain | kernel/src/FS/FAT32/fat32.c:429-437 | n extensions keep the chain live, add n clusters that were free, and change no entry outside the chain |
| ClusterChains.ExtendOnceTakesTheLowest | kernel/src/FS/FAT32/fat32.c:106-115 | an extension takes the lowest free cluster, marks it 0x0FFFFFF8, names it in the last entry of the chain and changes no other entry |
| ClusterChains.OtherChainSurvives | kernel/src/FS/FAT32/fat32.c:429-437 | a live chain disjoint from the extended one is unchanged and still disjoint |
| ClusterChains.ReachedIsTheChain | kernel/src/FS/FAT32/fat32.c:117-124 | what the release walk reaches from the start of a chain is exactly the chain |
| ClusterChains.ReleaseKeepsOtherChains | kernel/src/FS/FAT32/fat32.c:117-124 | releasing a chain frees all of it and a disjoint live chain keeps its own |
| FatDisk.PutThenGet | kernel/src/FS/FAT32/fat32.c:84-104 | a stored entry reads back as its low 28 bits |
| FatDisk.TableAfterPut | kernel/src/FS/FAT32/fat32.c:93-104 | a store changes its own entry of the table and no other |
| FatDisk.ClustersApart | kernel/src/FS/FAT32/fat32.c:79-82 | different clusters share no sector |
| FatDisk.EntryOnDisk | kernel/src/FS/FAT32/fat32.c:84-91 | entry c of the table is the low 28 bits of the little-endian word at byte 4c of the sectors of the table |
| FatDisk.ChainOnDisk | kernel/src/FS/FAT32/fat32.c:394-411 | a chain of the table is the chain of these stored words, from 2 on, up to one below 2 or from 0x0FFFFFF8 on |
| FatDisk.ChainByteOnDisk | kernel/src/FS/FAT32/fat32.c:79-82 | byte i of a chain lies at offset i mod 512 of the sector that the layout gives it: cluster c begins at dataStart + (c - 2) * sectorsPerCluster |
| FatDisk.ChainLength | kernel/src/FS/FAT32/fat32.c:394-411 | a chain holds clusters times sectors times 512 bytes |
| Fat32.Volume.ReadFATEntry | kernel/src/FS/FAT32/fat32.c:84-91 | returns the 28-bit entry of the cluster |
| Fat32.Volume.WriteFATEntry | kernel/src/FS/FAT32/fat32.c:93-104 | the table changes in this entry only, to the low 28 bits; on the disk exactly the four bytes of the entry change, with the top four bits 0 |
| Fat32.Volume.FATAllocCluster | kernel/src/FS/FAT32/fat32.c:106-115 | marks and returns the lowest free cluster; 0 and no change when none of the largest table is free |
| Fat32.Volume.FATFreeChain | kernel/src/FS/FAT32/fat32.c:117-124 | terminates on every closed table, cyclic chains included, and frees exactly the clusters reachable from the start |
| Fat32.Volume.ReadCluster | kernel/src/FS/FAT32/fat32.c:401-408 | copies the cluster, or what is still asked for, behind the bytes already read |
| Fat32.Volume.FatRead | kernel/src/FS/FAT32/fat32.c:394-412 | reads min(size, chain length) bytes of the chain from its beginning, on a cyclic chain size bytes of the visit, each byte from its place on the disk, and leaves the rest of the buffer alone; a closed or NULL file reads nothing |
| Fat32.Volume.WriteCluster | kernel/src/FS/FAT32/fat32.c:421-428 | the cluster holds the next bytes of the data and no other sector changes |
| Fat32.Volume.NextForWrite | kernel/src/FS/FAT32/fat32.c:429-438 | follows the chain, or at its end extends it by the lowest free cluster; 0 when none is free |
| Fat32.Volume.FatWrite | kernel/src/FS/FAT32/fat32.c:414-445 | the chain grows by exactly the clusters the data needs, or by all free ones, and holds min(size, room) bytes of the data, each at its place on the disk; no sector outside the table and the clusters written changes; size and position move on by the bytes written |
| Fat32.FatFile.Advance | kernel/src/FS/FAT32/fat32.c:440-443 | the position moves on by the bytes written, around at 2^32, and the size is at least the position |
| Fat32.Volume.WriteThenRead | kernel/src/FS/FAT32/fat32.c:394-445 | both calls report min(size, room) bytes, and the data written is the data read back, whatever the old length of the chain |
| Fat32.OtherFileUntouched | kernel/src/FS/FAT32/fat32.c:414-445 | a file on a chain disjoint from the written one keeps its chain and its contents |
| ByteCopy.Memcpy | kernel/src/KiSimple.c:46-55 | the destination range holds the source bytes and the rest of the destination is as before |
| HeapBlocks.HeapIsDeterminedByItsLiveBlocks | kernel/src/Heap/Heap.c:9-47 | two heaps over the same memory that hand out the same blocks are the same block list |
| HeapBlocks.EmptyHeapIsFresh | kernel/src/Heap/Heap.c:32-58 | a heap that hands out nothing is the single block InitHeap made |
| HeapBlocks.PayloadsAreApart | kernel/src/Heap/Heap.c:9-58 | no payload overlaps another payload or any header |
| HeapBlocks.TakeKeepsHeap | kernel/src/Heap/Heap.c:9-30 | an allocation hands out one more block, large enough and at most a header larger, and keeps tiling, no-two-free-neighbours and all other live blocks |
| HeapBlocks.TakeCutsExactly | kernel/src/Heap/Heap.c:14-25 | a block with at least 25 bytes to spare is cut to the size asked for, and the rest behind a header of 24 bytes becomes a free block; any other is handed out whole |
| HeapBlocks.FirstFitIs | kernel/src/Heap/Heap.c:12-13 | the block taken is the first free one that is large enough |
| HeapBlocks.CoalesceMakesHeap | kernel/src/Heap/Heap.c:38-46 | the merging pass keeps the tiling and the live blocks and leaves no two free neighbours |
| HeapBlocks.ReleaseKeepsHeap | kernel/src/Heap/Heap.c:32-47 | a release takes exactly this block off the live blocks and keeps the heap invariant |
| HeapBlocks.FreeUndoesAlloc | kernel/src/Heap/Heap.c:9-47 | freeing what was just allocated restores the identical block list, split or not |
| HeapBlocks.RunKeepsHeap | kernel/src/Heap/Heap.c:9-58 | over every run on live pointers the blocks tile the heap, headers and sizes sum to its size, and no two neighbours are free |
| HeapBlocks.RunsAreConfluent | kernel/src/Heap/Heap.c:9-58 | runs that end with the same live blocks end in the same heap; one that freed everything ends in the initial block |
| HeapBlocks.LiveBlockStays | kernel/src/Heap/Heap.c:9-47 | a live block keeps its place and size over every run that does not free it |
| KernelHeap.NullIffNothingFits | kernel/src/Heap/Heap.c:12-29 | the search fails exactly when no free block can hold the request |
| KernelHeap.StoreTaken | kernel/src/Heap/Heap.c:14-24 | the header stores of an allocation leave the header chain of the new block list |
| KernelHeap.StoreMerged | kernel/src/Heap/Heap.c:40-42 | the header stores of a merge leave the header chain of the merged block list |
| KernelHeap.Heap.InitHeap | kernel/src/Heap/Heap.c:49-58 | the header chain is the single free block over the whole heap |
| KernelHeap.Heap.kalloc | kernel/src/Heap/Heap.c:9-30 | the payload of the first block that fits, now live and large enough; NULL exactly when no free block fits |
| KernelHeap.Heap.kfree | kernel/src/Heap/Heap.c:32-47 | the block list after the release and the merging pass; NULL changes nothing |
| PrintkText.DigitsValue | kernel/src/printk/printk.c:291-312 | the digits in the buffer have the value of the argument, up to the 32 digits that fit |
| PrintkText.TopDigitIsNotZero | kernel/src/printk/printk.c:302-309 | no leading zero is printed before padding |
| PrintkText.BufferHoldsU64 | kernel/src/printk/printk.c:291-336 | a 64-bit value needs at most 32 digits in bases 8, 10 and 16 |
| Formats.ReadAsMeant | kernel/src/printk/printk.c:611-690 | a specification is read as what the standard means by its spelling if and only if no precision argument is negative, which counts as omitted there and as 0 here, and every decimal count is below 2^32 |
| Standard.IsoIsStandard | kernel/src/printk/printk.c:693-765 | the text the other results ask for is the standard's, defined from the characters of the spelling: digits, sign, prefix, padding, and the argument in the size of its length modifier |
| Standard.PrintedIsStandard | kernel/src/printk/printk.c:587-765 | an integer conversion spelled out in a format prints this text if and only if the condition of SpelledConversionIsIso holds |
| Standard.CharIsStandard | kernel/src/printk/printk.c:786-805 | `c` prints the argument as an unsigned char, padded to the width |
| Standard.StringIsStandard | kernel/src/printk/printk.c:807-831 | `s` prints the string, cut to a precision that is not negative and padded to the width |
| Standard.PointerText | kernel/src/printk/printk.c:833-848 | `%p` prints 16 upper-case hexadecimal digits |
| Standard.BinaryText | kernel/src/printk/printk.c:693-765 | `%b` prints the binary digits of an int |
| Standard.OtherText | kernel/src/printk/printk.c:850-858 | every other character prints itself |
| WholeFormats.ArgumentsTaken | kernel/src/printk/printk.c:587-859 | a conversion takes one argument for each `*` and one for itself, unless it only prints its character |
| WholeFormats.FormatPrintsItsPieces | kernel/src/printk/printk.c:587-859 | a format of literal text and any number of conversions prints the texts of its pieces in order, each conversion from the arguments left by those before it |
| WholeFormats.FormatMeetsStandard | kernel/src/printk/printk.c:587-859 | a whole format prints what the standard asks for when each of its conversions does on the arguments it finds |
| Formats.SpelledConversionIsIso | kernel/src/printk/printk.c:587-765 | wherever an integer conversion of the standard is spelled out in a format, `#` included, it prints what the standard asks of spelling and arguments if and only if its counts are below 2^32 and, with a negative precision, the number is not 0 and needs no zero filling, else the stated condition on flags, counts and digits holds |
| Formats.ConversionIsIso | kernel/src/printk/printk.c:693-765 | the same from the parsed specification on |
| Formats.OmittedPrecisionIsIso | kernel/src/printk/printk.c:641-765 | a precision of 0 in the place of an omitted one gives the standard's text if and only if the number is not 0 and no zeros fill its width |
| Formats.HugeCountDiffers | kernel/src/printk/printk.c:198-205 | a width or precision from 2^32 on is never met |
| Formats.SpelledStringIsIso | kernel/src/printk/printk.c:804-830 | an `s` conversion prints what the standard asks for if and only if its precision argument is not negative, or its text is blank and no longer than the width |
| AlternativeForm.NumberTextIsIso | kernel/src/printk/printk.c:209-336 | the same for the number printer: with and without `#`, for every value, width and precision |
| AlternativeForm.ZeroForNoPrecision | kernel/src/printk/printk.c:209-336 | for the number printer: precision 0 for none shows exactly at the number 0 and where zeros fill the width |
| AlternativeForm.AlternativeIsIso | kernel/src/printk/printk.c:252-272 | a non-zero octal or hexadecimal number with `#` is the standard's text if and only if no digit is taken back, the prefix finds room and no octal zero too many is added |
| AlternativeForm.ZeroIsIso | kernel/src/printk/printk.c:297-300 | `#` is dropped for 0, which is the standard's text if and only if the plain text is, except for octal with precision 0 |
| PrintkText.NumberTextIsPlain | kernel/src/printk/printk.c:209-287 | without `#`, the text is the plain layout of the standard if and only if `-` has no zeros to add and digits, zeros and sign find room in the 32-character buffer (a blank sign may also be lost among blanks) |
| PrintkText.RightSignIsLost | kernel/src/printk/printk.c:274-284 | when zeros or digits take the whole buffer the sign is dropped, which shows unless it is a blank behind padding |
| PrintkText.ZeroFilledIsCut | kernel/src/printk/printk.c:246-249 | a zero-filled width beyond the buffer comes out shorter than the standard asks |
| PrintkText.LeftJustifiedIsPlain | kernel/src/printk/printk.c:240-250 | with `-`, the text is the layout of the standard if and only if the precision asks for no zeros |
| PrintkText.PlainLength | kernel/src/printk/printk.c:209-287 | the standard's plain text is max(width, sign + max(digits, precision)) long |
| PrintkText.NumberReadsBack | kernel/src/printk/printk.c:209-336 | for every width and precision the text without `#` reads back as the low 32 digits of the value, with its sign exactly if the zeros left it a place |
| PrintkText.HashKeepsDigits | kernel/src/printk/printk.c:252-272 | the digits survive `#`, in binary too, if and only if there is a precision, or the filled number does not end on the width, or its zeros make up for the places taken back; what then is printed is the subject of AlternativeIsIso |
| Departures.MinusDropsTheZeros | kernel/src/printk/printk.c:240-250 | `%-.3d` of 5 prints "5" and not "005" |
| Departures.ZerosPushTheSignOut | kernel/src/printk/printk.c:243-284 | `%.32d` of -1 prints 31 zeros and a 1 without the sign |
| Departures.PrecisionIsCut | kernel/src/printk/printk.c:243-245 | `%.33d` of 5 prints 31 zeros and a 5 where the standard asks for 32 zeros |
| Departures.WidthIsCut | kernel/src/printk/printk.c:246-249 | `%033d` of 5 prints 31 zeros and a 5 where the standard asks for 32 zeros |
| Departures.PrefixFindsNoRoom | kernel/src/printk/printk.c:260-271 | `%#.31x` of 1 prints the `x` of the prefix without its `0` |
| Departures.PrefixOverwritesDigits | kernel/src/printk/printk.c:253-266 | `%#4x` of 0x1234 prints "0x34" |
| Departures.OctalGetsAZeroTooMany | kernel/src/printk/printk.c:269-271 | `%#.3o` of 8 prints "0010" and not "010" |
| Departures.OctalZeroIsLost | kernel/src/printk/printk.c:297-312 | `%#.0o` of 0 prints nothing and not "0" |
| Departures.NegativePrecisionLosesZero | kernel/src/printk/printk.c:641-652 | `%.*d` of -1 and 0 prints nothing and not "0" |
| Departures.NegativePrecisionLosesZeros | kernel/src/printk/printk.c:641-652 | `%0*.*d` of 3, -1 and 5 prints two blanks and a 5 and not "005" |
| Departures.CountWraps | kernel/src/printk/printk.c:198-205 | `%4294967296d` of 5 prints "5" without its width |
| Formats.SignedConversionReadsBack | kernel/src/printk/printk.c:732-748 | `d` and `i` print text that reads back as the argument if and only if it is not negative or the zeros leave the sign a place |
| Formats.UnsignedConversionReadsBack | kernel/src/printk/printk.c:749-763 | `u`, `o`, `x` and `X` without `#` always print text that reads back as the argument |
| PrintkText.DigitCount | kernel/src/printk/printk.c:302-309 | a value below base^k prints at most k digits |
| Printk.Out | kernel/src/printk/printk.c:133-145 | stores the character below the bound only, and always advances the index |
| Printk.OutRev | kernel/src/printk/printk.c:209-233 | the buffer comes out backwards, padded to the width on the side the flags ask for |
| Printk.PadZeros | kernel/src/printk/printk.c:239-250 | zeros up to the precision, then up to the width less a sign, within the 32 characters |
| Printk.HashPrefix | kernel/src/printk/printk.c:252-272 | the prefix of the alternative form, on places taken back when the digits end on the width or the precision |
| Printk.PushSign | kernel/src/printk/printk.c:274-284 | one sign character if there is a place for it |
| Printk.NtoaFormat | kernel/src/printk/printk.c:237-287 | the formatted number goes out at the index, truncated at the bound |
| Printk.PutDigits | kernel/src/printk/printk.c:302-309 | the digits of the value, least significant first, never past the buffer |
| Printk.NtoaLong | kernel/src/printk/printk.c:291-336 | the whole number text goes out, truncated at the bound |
| Printk.Atoi | kernel/src/printk/printk.c:198-205 | stops at the first character that is no digit and returns the decimal value of the digits before it, modulo 2^32 |
| Formats.SpellingReadsBack | kernel/src/printk/printk.c:611-690 | wherever a specification is spelled out before a conversion character the parser finds its flags in any order, its length modifier, `*` as the argument, a negative width as `-`, decimal counts modulo 2^32 and 0 for a negative precision; ReadAsMeant says when that is what the standard means |
| Printk.OutField | kernel/src/printk/printk.c:786-830 | padding and text of `c` and `s` go out, truncated at the bound |
| Printk.Convert | kernel/src/printk/printk.c:693-859 | one conversion goes out whole as far as the bound allows, and the index advances by its full length |
| Printk.TerminatedIsPut | kernel/src/printk/printk.c:862-863 | storing the terminator at min(length, count - 1) leaves the first count - 1 characters and a NUL, and nothing beyond |
| Printk.Vsnprintf | kernel/src/printk/printk.c:587-867 | returns the length of the whole output and leaves its first count - 1 characters and a terminator, the rest of the buffer as it was; for every way to read the format as pieces the output is the texts of the pieces, each conversion from the arguments left to it |
| Printk.Snprintf | kernel/src/printk/printk.c:893-900 | the result is the full output length as an int, whatever the count is |
| SegmentImage.WindowPath | kernel/src/ELF/elf.c:211-214 | all pages of the window share one page table |
| SegmentImage.UnmapUndoesMap | kernel/src/ELF/elf.c:216-217 | unmapping the pages of a load leaves what was mapped elsewhere before |
| SegmentImage.WindowHolds257 | kernel/src/ELF/elf.c:211-221 | a load that maps no page twice maps at most 257 pages, so the record of 4096 never overflows |
| ElfLoader.AcceptedIsProgram | kernel/src/ELF/elf.c:134-196 | a header is accepted if and only if it has the four magic bytes and its type is 2, or 3 with a non-zero entry |
| ElfLoader.AllFitPageByPage | kernel/src/ELF/elf.c:208-214 | the header loops get through if and only if every page of every loadable segment lies from 0x400000 up to 0x500000 |
| ElfLoader.AllInPlaceIsLoaded | kernel/src/ELF/elf.c:223-231 | a loaded segment is its file bytes at its address, then zeros up to the end of its last page |
| ElfLoader.EveryPageIsMapped | kernel/src/ELF/elf.c:208-217 | a load that gets through maps every page of every loadable segment |
| ElfLoader.NoOtherPageIsMapped | kernel/src/ELF/elf.c:198-217 | and no load maps any other page of the window |
| ElfLoader.LoadedPagesAreFound | kernel/src/ELF/elf.c:216-217 | the processor finds each loaded page at its own address, unless a link that was there before is a large page |
| ElfLoader.LoadNeedsFour | kernel/src/ELF/elf.c:198-241 | however long the program, a load lacks at most four tables, three without the signal page, and none of those that are there |
| ElfLoader.LoadMissesTables | kernel/src/ELF/elf.c:223-242 | a load whose pages meet no table and none of the n lowest free frames changes no byte of these |
| ElfLoader.LoadsMissPoolIffKeptApart | kernel/src/ELF/elf.c:208-242 | every load that reaches its entry leaves all tables and all free frames of the pool alone if and only if none of them is the signal page or lies in the window |
| ElfLoader.ProgramIsLoaded | kernel/src/ELF/elf.c:198-244 | for each of these frames and every memory: the program that writes there, and the memory after its load |
| ElfLoader.LoadIntoATableOrFreeFrame | kernel/src/ELF/elf.c:208-231 | what a program of one byte does to a frame of the window: a fresh table made of it has a present entry, and as the last table of the window it loses the mapping of the very page |
| ElfLoader.FinishedLoadStays | kernel/src/ELF/elf.c:208-242 | a load that reaches its entry writes to the window and the signal page only |
| ElfLoader.KeptApartMeansClear | kernel/src/ELF/elf.c:208-242 | when no table and no free frame is a reserved frame, every load is clear of them |
| ElfLoader.KeptApartStays | kernel/src/ELF/elf.c:216-217 | and making tables for a load keeps it so |
| ElfLoader.RecordHoldsAll | kernel/src/ELF/elf.c:219-221 | a record with room for 257 pages takes every page of a load |
| ElfLoader.SegmentCollected | kernel/src/ELF/elf.c:198-233 | one more segment, finished or not, changes bytes of its pages only and leaves earlier segments in place |
| ElfLoader.SignalWritten | kernel/src/ELF/elf.c:239-244 | the signal word leaves every segment in place |
| ElfLoader.Loader.constructor | kernel/src/ELF/elf.c:9-13 | an empty record and no signal page yet |
| ElfLoader.Loader.MapIdentity | kernel/src/ELF/elf.c:216-217 | the page is mapped to the frame of its own address and no other page changes; the frames taken are those of the tables the rest of the load no longer lacks |
| ElfLoader.Loader.RecordPage | kernel/src/ELF/elf.c:219-221 | the page is recorded last while there is room, otherwise the record stays |
| ElfLoader.Loader.FillPage | kernel/src/ELF/elf.c:223-231 | the page holds its file bytes followed by zeros, the rest of memory is unchanged |
| ElfLoader.Loader.LoadPage | kernel/src/ELF/elf.c:208-231 | one page is mapped, recorded while there is room, and filled |
| ElfLoader.Loader.LoadSegment | kernel/src/ELF/elf.c:199-232 | succeeds exactly if the segment lies in the window; its pages, up to the first one outside, are mapped, recorded and filled, and nothing else changed; exactly the frames their tables lacked are taken |
| ElfLoader.Loader.LoadSegments | kernel/src/ELF/elf.c:198-233 | succeeds exactly if all loadable segments lie in the window; then all of them are in place; exactly the frames that the tables of the pages lacked are taken |
| ElfLoader.Loader.WriteSignal | kernel/src/ELF/elf.c:239-244 | the signal page is mapped and holds 0xDEADBEEF, every other byte and page is unchanged |
| ElfLoader.Loader.LoadKernelElf | kernel/src/ELF/elf.c:134-247 | reaches the entry if and only if the file is an executable, or a shared object with an entry, and every page fits; any other file leaves memory, tables, pool and record as they were; after the entry file bytes, zeros and signal word are in place; only their bytes changed, none of a table or of a frame taken; exactly the frames that the tables of its pages lacked are taken; mapped pages are found at their own address and recorded either way |
| ElfLoader.Loader.LoadUserElf | kernel/src/ELF/elf.c:269-324 | the same with user pages, for every header with the magic bytes, and without the signal page; a loaded page can be reached from user mode if and only if its tables were there and open before the load |
| ElfLoader.Loader.UnloadKernelElf | kernel/src/ELF/elf.c:326-333 | unmaps exactly the recorded pages, clears their entries and empties the record |
| ElfLoader.Loader.LoadThenUnload | kernel/src/ELF/elf.c:134-333 | after any load into a record with room for it, finished or given up, no page of it and none recorded before stays mapped, and every other mapping but the signal page is as before |
| KeyboardSteps.OverflowIffFull | kernel/src/Drivers/PS2Keyboard/driver.c:70-76 | the ring overflows exactly on the 65535th unread character |
| KeyboardSteps.PushAppends | kernel/src/Drivers/PS2Keyboard/driver.c:66-77 | a push that is neither ignored nor an overflow appends its character to the unread ones |
| KeyboardSteps.AdvanceDropsFirst | kernel/src/Drivers/PS2Keyboard/driver.c:17-17 | storing the advanced index drops the oldest unread character |
| KeyboardSteps.StepKeepsConsistent | kernel/src/Drivers/PS2Keyboard/driver.c:13-77 | a single step of reader or interrupt keeps read plus unread equal to accepted, and the reader's loads valid, if and only if it is not an overflow inside a read that has loaded more than a head index of 0 |
| KeyboardSteps.RunKeepsConsistent | kernel/src/Drivers/PS2Keyboard/driver.c:13-77 | the invariant holds over every interleaving without such an overflow |
| KeyboardSteps.DeliveredInOrder | kernel/src/Drivers/PS2Keyboard/driver.c:13-77 | from the start, characters read followed by the ring's contents are the accepted characters in order |
| KeyboardSteps.OverflowInsideReadBreaksRing | kernel/src/Drivers/PS2Keyboard/driver.c:15-76 | every other overflow inside a read makes the read hand out a character with nothing accepted, and leaves a ring that looks non-empty unless the old index was the last one |
| Keyboard.Driver.InitKeyboardDriver | kernel/src/Drivers/PS2Keyboard/driver.c:7-64 | the ring is empty and the machine in its start state |
| Keyboard.Driver.OverflowKbdBfr | kernel/src/Drivers/PS2Keyboard/driver.c:53-59 | both indices are 0 and the buffer is all NUL |
| Keyboard.Driver.KbdPushback | kernel/src/Drivers/PS2Keyboard/driver.c:66-77 | the interrupt's push is one step of the machine: a backspace before the first read is ignored, a character goes to the head, and a full ring is cleared |
| Keyboard.Driver.ReadStep | kernel/src/Drivers/PS2Keyboard/driver.c:13-22 | each access of the reader, the count of reads included, is one step of the machine; the character is returned when the read has been counted |
| Keyboard.KiReadHidSN | kernel/src/Drivers/PS2Keyboard/driver.c:24-47 | reads up to the first newline or NUL or a full line, or goes on waiting; stores in front of the buffer if and only if a backspace finds the line empty; the buffer holds the line and NULs behind it, nothing beyond maxlen changes, and the result is its length |
| Keyboard.ShownIsEdited | kernel/src/Drivers/PS2Keyboard/driver.c:31-43 | as long as no backspace finds the line empty, the buffer holds the edited line and the index is its length |
| Keyboard.EditedByOne | kernel/src/Drivers/PS2Keyboard/driver.c:35-41 | the key of code 8 takes back the last character, every other key adds itself |
| Keyboard.OneMoreKey | kernel/src/Drivers/PS2Keyboard/driver.c:35-41 | a key first stores in front of the buffer as a backspace at index 0 |
| Keyboard.BackspaceFirstLosesAKey | kernel/src/Drivers/PS2Keyboard/driver.c:30-41 | after a backspace on an empty line the character typed next does not get into the buffer |
| Keyboard.ShownHasNoLineEnd | kernel/src/Drivers/PS2Keyboard/driver.c:32-43 | editing never puts a line end into the buffer |
| KeyboardSteps.BackspaceCanStartALine | kernel/src/Drivers/PS2Keyboard/driver.c:13-77 | a run from the start, Enter typed and read and then Backspace typed, leaves a ring whose only character is the backspace |
| Checksum.FoldIsRemainder | kernel/src/Drivers/E1000/driver.c:195-196 | the fold loop computes the sum modulo 65535, with 65535 for its non-zero multiples |
| Checksum.ComplementFoldsToOnes | kernel/src/Drivers/E1000/driver.c:192-199 | a sum with the complement of its fold added folds to all ones |
| Checksum.WordSumUpdate | kernel/src/Drivers/E1000/driver.c:197-199 | filling the empty checksum word adds its value to the header sum |
| Packets.UdpRoundTrip | kernel/src/Drivers/E1000/driver.c:319-419 | a frame built for a message is accepted and parses back to its addresses, ports and payload, as far as there is room |
| Packets.TcpRoundTrip | kernel/src/Drivers/E1000/driver.c:157-246 | the same for TCP segments |
| Wire.UdpFrameBytes | kernel/src/Drivers/E1000/driver.c:355-419 | a UDP frame is, byte by byte, the broadcast frame, IPv4 header and UDP header of the standards around the payload, and the ten words of its IP header add up to zero in one's complement |
| Wire.TcpFrameBytes | kernel/src/Drivers/E1000/driver.c:157-216 | the same for a TCP segment with PSH and ACK |
| Wire.UdpAcceptedFields | kernel/src/Drivers/E1000/driver.c:325-340 | accepted are exactly the IPv4 frames of at least 42 bytes with protocol 17, a total length with room for the UDP header, and a UDP length within the frame |
| Wire.UdpAcceptedIffDatagram | kernel/src/Drivers/E1000/driver.c:325-340 | a complete UDP datagram of the standards is the same as an accepted frame that passes the checks the source leaves out: version, least lengths, datagram within packet within frame |
| Wire.TcpAcceptedFields | kernel/src/Drivers/E1000/driver.c:223-229 | accepted are exactly the IPv4 frames of at least 54 bytes with protocol 6 |
| Wire.ReceiversAreApart | kernel/src/Drivers/E1000/driver.c:223-332 | no TCP frame is accepted as UDP and no UDP frame as TCP |
| Wire.UdpContent | kernel/src/Drivers/E1000/driver.c:342-352 | addresses, ports and payload are the bytes of their fields |
| Wire.TcpContent | kernel/src/Drivers/E1000/driver.c:231-245 | the same for TCP |
| E1000.HeaderSum | kernel/src/Drivers/E1000/driver.c:192-196 | the loops terminate with the folded sum of the ten header words |
| E1000.ComplementStored | kernel/src/Drivers/E1000/driver.c:197-199 | the header with the stored complement folds to all ones |
| E1000.PutHeaders | kernel/src/Drivers/E1000/driver.c:366-402 | Ethernet and IP headers have all their fields and the IP header folds to all ones |
| E1000.SlotsAfterSend | kernel/src/Drivers/E1000/driver.c:128-141 | queueing a frame keeps every descriptor's frame and order |
| E1000.SlotsAfterComplete | kernel/src/Drivers/E1000/driver.c:128-141 | finishing the oldest descriptor keeps the others' frames and order |
| E1000.StatusSaysFull | kernel/src/Drivers/E1000/driver.c:129-131 | the status at the tail is unfinished exactly when all eight descriptors are pending |
| E1000.TxRing.constructor | kernel/src/Drivers/E1000/driver.c:112-119 | all descriptors are done and no frame has been accepted |
| E1000.TxRing.Send | kernel/src/Drivers/E1000/driver.c:128-141 | refuses exactly when eight frames are pending, otherwise queues the frame last, unmodified, in the 2048 bytes of the descriptor at the tail |
| E1000.TxRing.Complete | kernel/src/Drivers/E1000/driver.c:128-141 | the device finishes the oldest frame, the others stay queued in order; finished and pending frames are always the accepted ones, in send order |
| E1000.UDPSend | kernel/src/Drivers/E1000/driver.c:355-419 | queues the UDP frame of the standards for this message, byte by byte, or refuses when the ring is full |
| E1000.TcpIpSend | kernel/src/Drivers/E1000/driver.c:157-216 | queues the TCP frame of the standards for this message, byte by byte, or refuses when the ring is full |
| E1000.UDPReceive | kernel/src/Drivers/E1000/driver.c:319-353 | accepts exactly the frames with the stated fields and copies out their addresses, ports and payload; a refused frame leaves the buffer alone |
| E1000.TcpIpRecv | kernel/src/Drivers/E1000/driver.c:218-246 | accepts exactly the frames with the stated fields and copies out their addresses, ports and payload; a refused frame leaves the buffer alone |
| Runs.TokensAreTheMaximalRuns | kernel/src/KiSimple.c:180-205 | the tokens are exactly the maximal delimiter-free runs of the text, in order |
| Runs.TokensAreRuns | kernel/src/KiSimple.c:185-203 | every token from a boundary on is a maximal run at or behind it |
| Runs.RunsAreTokens | kernel/src/KiSimple.c:185-203 | every maximal run behind a boundary is found |
| Runs.TokensInOrder | kernel/src/KiSimple.c:185-203 | tokens come in the order of the text and do not touch |
| Strings.Strchr | kernel/src/KiSimple.c:157-163 | the first occurrence, or none exactly if the character does not occur; the terminator is never found |
| Strings.Tokenizer.constructor | kernel/src/KiSimple.c:181-181 | nothing to go on with |
| Strings.Tokenizer.Strtok | kernel/src/KiSimple.c:180-205 | one call returns the start of the next run, ends it in place by one NUL and remembers the position behind it; without a run it returns NULL, and NULL forever after |
| Strings.Tokenizer.TokenizeAll | kernel/src/KiSimple.c:180-205 | calls until NULL return the starts of all maximal runs in order, each a C string of its own in the buffer, whatever was tokenized before; a buffer held before is left alone |

## Left out

- PageTables.AddressSpace.KiMMap: assumes cleared frames, and enough of them, for the missing tables; with an empty pool the source would use address 0 as a table.
- FrameAllocator.Pmm.KiPmmInit: at most 0x1000 frames, because the owner trace has no more slots and the source indexes it without a check; a pid of 0 is not an owner.
- Fat32.Volume.FATAllocCluster: needs a free cluster inside the table unless the table is the largest possible, because the search is not bounded by the table size.
- Fat32.Volume.FatWrite: needs room for the data on a table smaller than the largest possible, for the same reason; on the largest table a full volume ends the write early, as in the source.
- Keyboard.KiReadHidSN: the store in front of the buffer is reported and not carried out; its keys are a sequence; the echo to the screen and KiReadHidS are not modelled.
- Printk.Vsnprintf: formats must end every specification they begin; a missing argument reads as 0 or as the empty string, where C leaves it undefined; the negation of the most negative integer wraps around.
- ElfLoader.Loader.LoadSegments: page-aligned segments that share no page, file bytes inside the image, and an image outside the target window.
- ElfLoader.Loader.LoadKernelElf: loads whose own pages meet a table or a frame the load takes, which the source does not exclude; LoadIntoATableOrFreeFrame shows what becomes of them; likewise ElfLoader.Loader.LoadUserElf.
- PageTree.FreshTablesMustLeadNowhereElse: walks that follow a stale entry of a fresh frame into a table in use and store their leaf there.
- Formats.SpelledConversionIsIso: the `b` conversion, which the standard of 2011 does not have; likewise Formats.ConversionIsIso.
- Formats.SpelledStringIsIso: decimal counts from 2^32 on.
- E1000.TxRing.Send: frames of more than the 2048 bytes of a slot, which the source copies into the next slots.
- E1000.UDPSend: payloads that do not fit the 1500-byte packet, which the source does not check; likewise E1000.TcpIpSend.
- E1000.UDPReceive: frames whose length field asks for bytes behind the 1600-byte packet, which the source does not check; likewise E1000.TcpIpRecv.
- E1000.TxRing.Complete: the device finishes descriptors one by one, oldest first; its head and tail registers are not modelled.
- Page tables: TLB flushes and the register access that finds the root.
- FAT32: mounting (the layout is given), directories, long names, opening, creating and deleting files, seeking and closing, sector sizes other than 512, the further copies of the table (the source never writes them).
- Heap: the padding inside a header and what users write into their payloads.
- printf: floating point, which is compiled out, and the variants printk_, sprintf_ and fctprintf, which call the same core.
- Loader: parsing of the raw header, the section scan and log output, relocatable files, the call of the entry itself.
- Keyboard: scancode tables; each access to a shared index is taken to be atomic.
- Network: device set-up and registers, the receive ring, DHCP and DNS, the DMA page pool.
- strtok: calls that change the delimiters between tokens are covered by the contract of one call only.
- Userland, system calls, RamFS, CPIO, ACPI, PCI, AHCI, xHCI, timers, interrupts and the splash screen.
