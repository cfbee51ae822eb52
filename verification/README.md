# Griffin: a verified model of its memory and storage stacks

Griffin is a small x86_64 kernel. This project models two of its stacks in Dafny and proves
what they keep, over every input, every run and every reachable state.

**Memory.** The page allocator is a first-fit search over a byte-packed bitmap. The page
tables are a four-level radix tree in frames that allocator hands out. The kernel heap is a
list of size classes, each a list of slabs with a bitmap and a counter. The main results are
that the trees of any number of address spaces refine one flat map per space over any run,
also while other clients of the page allocator allocate, free and store; that page runs are
conserved; and that live heap objects never overlap and lie in pages nobody else holds.

**Storage.** Byte-granular disk access is a read-modify-write of sectors through a bounce
buffer. Above it are the ext2 group bitmaps and counters, the direct, singly and doubly
indirect block pointers, the chunk loops of file reads and writes, and directories as chains
of variable-length entries. The main results are that a disk access is a splice or a slice of
one byte array, that no block or inode number is ever issued twice, that growing files moves
none of their blocks, that over any run of creating, resizing and writing files no block
belongs to two of them and every block holds exactly what was written to it, that `write`
does its job exactly under a condition a caller can check, that creating a file takes a free
inode, writes it and enters it, all on the disk, and that over any run of making, resizing and
writing files in a directory each name made leads to its own file and every other name leads
where it did. Where the code panics for want of space, the exact number of free blocks or
frames it needs is proved, and that of the free blocks it takes the lowest. For each operation
on the tables, the slabs, the bitmaps and the inodes it is also proved what it leaves alone:
every other word of memory, field of a record and byte of the volume.

## How it is laid out

Each stack has a functional model on values, whose laws are lemmas, and an imperative model
(classes, arrays, loops) whose methods are proved equal to the functional one.

| file | contents |
|---|---|
| Arith.dfy, Bits.dfy, Bitmap.dfy | `div_ceil` and `round_up`, bitwise operators on integers, the byte-packed bitmap |
| Pmm.dfy, PmmInit.dfy | page allocator, its runs, and its construction from the boot memory map |
| PageTables.dfy, AddressSpaces.dfy, Vmm.dfy | the tree and its invariant, the flat reference machine and the refinement, the code in place |
| SharedMemory.dfy, KernelMemory.dfy | page tables interleaved with other clients of the page allocator, and when memory runs out; the heap as one of the clients |
| SlabSpec.dfy, SlabHeap.dfy, Slab.dfy | one slab and one cache, the whole heap under its clients, the code in place |
| Ahci.dfy | command registers, bounce-buffer arithmetic, byte reads and writes |
| Ext2Layout.dfy, Ext2Alloc.dfy, Ext2Groups.dfy | a volume as blocks, bitmaps and counters, the mounted file system and its groups on the device |
| Ext2File.dfy, Ext2Space.dfy, Ext2Gap.dfy | inodes, their records and pointer trees; the free blocks growth needs; growth past the limit |
| Ext2Frames.dfy | what the operations on inodes leave alone, word by word and byte by byte, and which blocks they take |
| Ext2Create.dfy, Ext2Files.dfy, Ext2Runs.dfy | a new inode on a volume, many files under every run, when its operations panic, and `write` as such a run |
| Ext2Chunks.dfy, Ext2Contents.dfy, Ext2Write.dfy, Ext2Inode.dfy | the chunk loops, the bytes of a file, all of `write`, the inode code on the device |
| Ext2Dir.dfy, Ext2Directory.dfy, Ext2Names.dfy | directory entries in a buffer, directories and file creation on the device, names under every run |
| Ext2Example.dfy | a formatted volume that meets what the storage theorems ask for, and the inputs on which the code fails |

Conventions. Machine words are integers with explicit bounds and explicit truncation. Physical
memory is a sequence of 64-bit words, and an address and its higher-half alias name the same
word. Packed on-disk records are byte sequences with little-endian accessors. `None`, or
`false`, stands for `Err`, for `None`, or for a panic, as the comment on the member says.
Each operation is atomic: the spin locks around the bitmaps are taken as given.

## What the proofs found

* The bitmap of the page allocator is safe from the allocator exactly when it fills whole
  pages or leaves less than a page of its entry (`BitmapSafeIff`); otherwise the page holding
  its tail is offered (`BitmapUnsafeExample`) and some run hands it out (`BitmapHandedOut`).
* `alloc(0)` never succeeds, so a `PmmBox` of no bytes, and a disk access of no bytes, panics.
* The growth branch of `Cache::alloc_obj` is never reached: the loop before it stops only at a
  slab with space. A full class is a walk off the list.
* A user address space shares the kernel's slot 256 or 511 exactly when the kernel already had
  a table there (`NewLinkedIff`); otherwise the two part (`UnlinkedDiverges`).
* The bounce buffer of a disk access is sized from the byte count alone. It is large enough
  exactly when `FitsBounce` holds (`FitsBounceIff`, `BounceOverrun`).
* `resize` records the new size exactly when the block count changes (`ResizeOk`). It is sound
  up to 12 + 2·(block size / 4) blocks. Growth up to there leaves what the doubly indirect
  block held while it was free (`GrowToStale`), and the next turn follows it without looking at
  it. The turn neither panics nor changes a byte of the disk outside free blocks exactly when
  the place it stores to is on the disk, and either the number found there names a free block of
  the volume or the word is already in place (`PastLimitIff`, `OnePastIff`). On a fresh volume
  the number is 0, and block 0 is overwritten (`PastLimitOverwrites`). Where the free blocks
  hold the number of the block after the last one, the store lands behind the partition, or is
  off the disk and panics (`PastEndStores`).
* `Inode::read` and the loop of `Inode::write` add the whole offset to the block's address and
  never advance the buffer. A read stays inside its bounce buffers and returns the file's bytes,
  for all contents, exactly when the transfer fits the bounce buffer and stays in the file's
  first block or spills from it into an adjacent second (`ReadFileIff`, `TwoBlockRead`). That is
  not enough for `write`, which resizes first: the file ends up with the larger of its old size
  and the end of the write, and with the data spliced in, exactly when also the recorded size
  comes out right (`WriteIff`). A write that ends in an earlier block cuts the file
  (`TruncatingWrite`, `ThreeBlocksCut`), one that ends later in the last block leaves the new
  bytes behind the end (`ShortSize`), and one of a block of whole pages at offset 1 of two
  adjacent blocks leaves the bounce buffer (`SpillOverruns`, `SpillExample`).
* A new file keeps the size and the pointers its inode's record held. It starts empty, and grows
  only into blocks that were free, exactly when that record was blank (`CreatedEmptyIff`). On a
  formatted volume whose first free record has a size left in it, the created file has reserved
  block 0 as its first block (`StaleCreation`).
* A directory entry's name length is one byte. An added name is found exactly when it has at
  most 255 bytes and its inode is not 0 (`AddThenSearch`); a longer one is entered under a
  shorter name (`LongNameAliases`).
* The comment at the end of `Slab::alloc` is right: that return is unreachable (`SlabAllocOk`).

## Model

| member | source | states |
|---|---|---|
| Arith.DivCeilLeast | src/utils/math.rs:1-3 | `div_ceil(x, y)` is the least number of `y`-sized units that hold `x` |
| Arith.RoundUpLeast | src/utils/math.rs:5-7 | `round_up(x, y)` is the least multiple of `y` that is at least `x` |
| Bitmaps.BitIs | src/utils/bitmap.rs:50-52 | bit `i` of the set is the one that byte `i / 8` masked with `1 << i % 8` tests |
| Bitmaps.Bitmap.constructor | src/utils/bitmap.rs:8-19 | a new bitmap has every bit clear |
| Bitmaps.Bitmap.IsSet | src/utils/bitmap.rs:50-52 | the masked byte test reads exactly bit `i` of the set |
| Bitmaps.Bitmap.Set | src/utils/bitmap.rs:38-40 | sets one bit and leaves every other as it was |
| Bitmaps.Bitmap.Clear | src/utils/bitmap.rs:46-48 | clears one bit and leaves every other as it was |
| Bitmaps.Bitmap.Toggle | src/utils/bitmap.rs:42-44 | flips one bit and leaves every other as it was |
| PhysAddr.AliasRoundTrip | src/arch/x86_64/mm/pmm.rs:23-29 | below 2^47 the alias is the address plus 0xffff800000000000, and the lower half of the alias, and of the address itself, is the address |
| PhysAddr.RemoveFlagsIsFrame | src/arch/x86_64/mm/pmm.rs:43-46 | the mask keeps exactly bits 12 to 51 |
| PhysAddr.FlagsRoundTrip | src/arch/x86_64/mm/pmm.rs:43-46 | a frame or-ed with twelve bits of flags comes back from `remove_flags`, and the present bit is readable |
| PmmSpec.FirstFit | src/arch/x86_64/mm/pmm.rs:107-132 | reference search: the lowest start of `n` free pages, or none exactly when no such run exists |
| PmmSpec.Find | src/arch/x86_64/mm/pmm.rs:107-132 | nothing exactly for 0 pages or when no run of that many free pages exists, else the lowest one |
| Pmms.Pmm.Alloc | src/arch/x86_64/mm/pmm.rs:107-132 | the one-pass counting scan finds the first fit for n > 0, nothing for 0, and clears exactly those bits, as the allocator's step does whatever runs are live |
| Pmms.Pmm.Calloc | src/arch/x86_64/mm/pmm.rs:134-144 | as `alloc`, and exactly the words of those pages become 0 |
| Pmms.Pmm.Release | src/arch/x86_64/mm/pmm.rs:146-153 | marks exactly the pages from the pointer's page on as free, for either alias of the pointer, as the step does for the live run there |
| PmmSpec.AllocDoes | src/arch/x86_64/mm/pmm.rs:107-132 | a step that allocates adds the lowest run of so many free pages to the live ones and takes exactly its pages; without such a run nothing changes |
| PmmSpec.FreeDoes | src/arch/x86_64/mm/pmm.rs:146-153 | a step that frees a live run makes exactly its pages free, and the run is live no more |
| PmmSpec.StepConserves | src/arch/x86_64/mm/pmm.rs:107-154 | one allocation or free keeps every initially free page free or held by exactly one live run |
| PmmSpec.Conservation | src/arch/x86_64/mm/pmm.rs:107-154 | after any run live runs are disjoint, hold no free page, and with the free pages make up the initial free set |
| PmmInit.EntryInBitmap | src/arch/x86_64/mm/pmm.rs:206-219 | no bit of an entry below the highest end falls outside the bitmap |
| PmmInit.Init | src/arch/x86_64/mm/pmm.rs:156-222 | fails if and only if no usable entry holds the bitmap; else a bit is set exactly when the carved map offers its page |
| PmmInit.RoomAt | src/arch/x86_64/mm/pmm.rs:181-200 | the entry the bitmap is cut from is the first usable one with room, and there is none exactly when no usable entry has room |
| PmmInit.Biggest | src/arch/x86_64/mm/pmm.rs:161-177 | the highest end of a usable, reclaimable or kernel entry, attained by one, or 0 |
| PmmInit.BitmapCovers | src/arch/x86_64/mm/pmm.rs:161-179 | the bitmap has a bit for each whole page below the end of every usable, reclaimable or kernel entry, and no byte it could do without |
| PmmInit.UsablePages | src/arch/x86_64/mm/pmm.rs:206-219 | the pages offered of a page-aligned entry are those that lie in it |
| PmmInit.FreeSetExact | src/arch/x86_64/mm/pmm.rs:181-219 | with a whole-page bitmap, or one that leaves less than a page, the offered pages are the usable ones less the bitmap's own |
| PmmInit.BitmapSafeIff | src/arch/x86_64/mm/pmm.rs:181-219 | the bitmap's pages stay off the free set if and only if it fills whole pages or leaves less than one page |
| PmmInit.BitmapUnsafeExample | src/arch/x86_64/mm/pmm.rs:181-219 | a two-page map on which page 0 holds the bitmap and is offered |
| PmmInit.OnlyUsableHandedOut | src/arch/x86_64/mm/pmm.rs:107-222 | after boot with a safe bitmap and any run, every held page is usable and not the bitmap's |
| PmmInit.BitmapHandedOut | src/arch/x86_64/mm/pmm.rs:107-222 | after boot with any other bitmap, some run hands out a page of it |
| PageTables.IndicesOfPage | src/mm/vmm.rs:77-91 | the four masked shifts of an address are the digits of bits 12 to 47 |
| PageTables.DirInjective | src/mm/vmm.rs:77-91 | two pages with the same four indices are the same page |
| PageTables.NextLevelKeeps | src/mm/vmm.rs:284-302 | a step of the walk keeps the tree invariant, every table, every mapping and every link, and reaches the table it returns; an absent entry becomes the new frame's address plus 7 |
| PageTables.NextLevelWords | src/mm/vmm.rs:284-302 | word by word: a present entry leads to the frame in its bits 12 to 51 and nothing changes; an absent one becomes the lowest free frame, zeroed and taken, plus 7, and no other word changes |
| PageTables.WalkKeeps | src/mm/vmm.rs:315-322 | so does the whole walk, which may create a top-level table only under its own slot |
| AddressSpaces.StepRefines | src/mm/vmm.rs:195-340 | one `map_page`, `get_mapping` or `new` on the trees answers as the flat machine does and refines it again |
| AddressSpaces.RunRefines | src/mm/vmm.rs:195-340 | over any run on any number of spaces the trees hold what the flat machine holds, and every answer agrees |
| AddressSpaces.FirstSpace | src/mm/vmm.rs:203-216 | a zeroed root frame that is not free meets the tree invariant and maps nothing, so every run can start from it |
| AddressSpaces.MapThenGet | src/mm/vmm.rs:304-340 | after `map_page` the page reads as address-or-flags in every space with the same owner, and every other page of every space is unchanged |
| AddressSpaces.GetChangesNothing | src/mm/vmm.rs:329-340 | `get_mapping` answers the flat view and, though it allocates tables, alters it nowhere |
| AddressSpaces.StepWords | src/mm/vmm.rs:195-340 | every word of memory after each operation: the leaf entry stored, absent entries that became table entries, frames taken and zeroed, a new root with the kernel's entries 256 and 511 and zeroes, and all else as it was |
| AddressSpaces.TablesOwned | src/mm/vmm.rs:284-302 | over any run a table's frame is never free, lies below 2^47, and has one path and one owner |
| AddressSpaces.KernelHalfAgrees | src/mm/vmm.rs:206-210 | once linked, a user space and the kernel agree on every page under the slot after any later run |
| AddressSpaces.OtherSpacesApart | src/mm/vmm.rs:195-340 | a page not under a linked slot (in the kernel's own space, not under 256 or 511) is as it was after any run that does not name its space |
| AddressSpaces.NewLinkedIff | src/mm/vmm.rs:203-210 | a new space is linked under a slot if and only if it is 256 or 511 and the kernel had a table there |
| AddressSpaces.UnlinkedDiverges | src/mm/vmm.rs:203-210 | where it had none, the kernel's first mapping under the slot is absent from the user space |
| SharedMemory.PanicIff | src/mm/vmm.rs:195-340 | `map_page`, `get_mapping` and `new` panic if and only if fewer frames are free than tables are missing on the way, and otherwise take exactly that many |
| SharedMemory.StepSpares | src/mm/vmm.rs:284-340 | no page-table operation touches a frame that is neither free nor a table, or makes one of it |
| SharedMemory.ClientDoes | src/arch/x86_64/mm/pmm.rs:107-154 | a client's allocation takes the lowest run, giving a run back frees exactly its pages, and a store changes one word; nothing else changes, and none of them panics |
| SharedMemory.HistoryRefines | src/mm/vmm.rs:195-340 | with clients' allocations, frees and stores in between, trees and answers are still those of the flat machine on the page-table operations alone, and no client holds a table, a free page or another's page |
| SharedMemory.ClientUndisturbed | src/arch/x86_64/mm/pmm.rs:107-154 | a run of pages that a history neither writes nor frees is still its client's, with every word as it was |
| KernelMemory.InitGrabs | src/mm/slab.rs:27-50 | building any classes is a history of page allocations, after which the heap is a client that holds every slab's pages |
| KernelMemory.BootedHeapHeld | src/mm/slab.rs:208-219 | so is building the kernel's ten classes, and every client run of that heap starts there |
| KernelMemory.HeapExclusive | src/mm/slab.rs:52-239 | over any history that does not give back the heap's pages and any heap requests, each live object lies inside pages that are no table, not free and no other client's |
| Vmm.Machine.CallocFrame | src/mm/vmm.rs:289-292 | one page from the allocator in place, zeroed, as the functional model says |
| Vmm.VirtualMemManager.GetNextLevel | src/mm/vmm.rs:284-302 | the in-place step through the alias refines the functional step; where the entry was absent it now holds the returned address plus 7 |
| Vmm.VirtualMemManager.MapPage | src/mm/vmm.rs:304-327 | the in-place operation is the functional step, and the invariant holds again |
| Vmm.VirtualMemManager.GetMapping | src/mm/vmm.rs:329-340 | the same for the lookup, with its answer |
| Vmm.NewUser | src/mm/vmm.rs:195-216 | the in-place creation of a user space is the functional step, and both spaces hold |
| SlabSpec.SlabAllocOk | src/mm/slab.rs:133-153 | with a positive counter the search succeeds, the pointer is not null, and the counter again equals 256 less the set bits |
| SlabSpec.SlabDeallocOk | src/mm/slab.rs:155-161 | the bit computed from an object's pointer is the one `alloc` set, and the counter stays exact |
| SlabSpec.ObjectInPages | src/mm/slab.rs:37-40 | object `i` < 256 lies past the header and inside the pages of its slab, and one page less would not hold all 256 |
| SlabSpec.WindowsApart | src/mm/slab.rs:77-80 | lookup windows of page-disjoint slabs never overlap, though each runs past its slab |
| SlabSpec.FindWindowUnique | src/mm/slab.rs:71-90 | the search returns the one slab whose window holds the pointer, for any list of slabs |
| SlabSpec.FreeObjFinds | src/mm/slab.rs:71-93 | `free_obj` of any pointer into an issued object clears its bit in the slab that issued it, and nothing else |
| SlabSpec.FreeObjIff | src/mm/slab.rs:71-93 | it panics exactly when the pointer is in no slab's window, or past what the slab's bitmap covers |
| SlabHeap.TightestClass | src/mm/slab.rs:180-192 | on an ascending list `cache_for` returns the smallest sufficient class, and nothing exactly above the largest |
| SlabHeap.PlacesApart | src/mm/slab.rs:133-153 | distinct objects anywhere in the heap occupy disjoint bytes |
| SlabHeap.HeapAllocPlace | src/mm/slab.rs:222-230 | an allocation marks the first unused object of the class for its size; it fails only when the class is full or absent |
| SlabHeap.HeapFreePlace | src/mm/slab.rs:232-238 | freeing with the size asked for reaches the same class and unmarks exactly that object |
| SlabHeap.StepOk | src/mm/slab.rs:221-239 | every request keeps bits, counters and live pointers in agreement; an allocation adds one live pointer, a free removes exactly its own and never panics |
| SlabHeap.LiveObjectsSafe | src/mm/slab.rs:52-239 | after any run live objects are pairwise disjoint, each inside its slab's pages past the header |
| SlabHeap.AllocFresh | src/mm/slab.rs:222-230 | an allocation never returns a live pointer, and succeeds exactly when the class has an unused object |
| SlabHeap.AddCacheBuilt | src/mm/slab.rs:27-50 | a new class takes pages disjoint from every slab before it |
| SlabHeap.AddCacheIff | src/mm/slab.rs:27-50 | a class is built if and only if each of its three requests finds a run of that many free pages; the lowest runs are taken, and the class has one slab with 256 unused objects |
| SlabHeap.AddAllFits | src/mm/slab.rs:169-178 | so many consecutive free pages as the classes take, wherever they are, are enough to build them |
| SlabHeap.KernelHeapFits | src/mm/slab.rs:208-219 | with a slab header of at most 2048 bytes 541 consecutive free pages are enough for the kernel's ten classes |
| SlabHeap.AddAllBuilt | src/mm/slab.rs:169-178 | prepending strictly smaller classes keeps the list ascending and the heap well formed and unused |
| SlabHeap.InitReady | src/mm/slab.rs:169-178 | a heap built from any descending sizes is one every client run starts safely from |
| SlabHeap.KernelHeap | src/mm/slab.rs:208-219 | so is the heap of the kernel's ten classes; it serves a request if and only if it is at most 4096 bytes, and past 8 bytes with less than twice the size |
| Slabs.SlabNode.constructor | src/mm/slab.rs:106-131 | a new slab is empty, with its data right behind its header |
| Slabs.SlabNode.Alloc | src/mm/slab.rs:133-153 | in place: the lowest clear bit of 256 is set and its address returned |
| Slabs.SlabNode.Dealloc | src/mm/slab.rs:155-161 | in place: the pointer's bit is cleared and the counter raised |
| Slabs.CacheNode.AllocObj | src/mm/slab.rs:52-69 | in place: the first slab with space serves the request; none is the walk off the list |
| Slabs.CacheNode.FreeObj | src/mm/slab.rs:71-93 | in place: the first slab whose window holds the pointer is updated; none is the panic |
| Slabs.SlabAllocator.AddCache | src/mm/slab.rs:169-178 | in place: the new class is prepended and the others are untouched |
| Slabs.SlabAllocator.CacheForSize | src/mm/slab.rs:180-192 | in place: the first sufficient class of the list |
| Slabs.SlabAllocator.Alloc | src/mm/slab.rs:222-230 | in place: the heap-wide allocation of the functional model |
| Slabs.SlabAllocator.Dealloc | src/mm/slab.rs:232-238 | in place: the heap-wide free of the functional model |
| Ahci.FisRegH2D.SetLba | src/drivers/ahci.rs:41-50 | the six registers decode to the sector number modulo 2^48, in LBA mode |
| Ahci.FisRegH2D.SetCount | src/drivers/ahci.rs:52-55 | the two registers decode to the count |
| Ahci.Prdt.SetBuffer | src/drivers/ahci.rs:98-103 | the descriptor decodes to the address, to the byte count less one modulo 4 MiB, so to the length if and only if there are at most 8192 sectors, and asks for the interrupt |
| Ahci.FitsBounceIff | src/drivers/ahci.rs:308-320 | the sectors stay inside the bounce buffer if and only if `FitsBounce` |
| Ahci.SpanCovers | src/drivers/ahci.rs:313-320 | the sectors of a transfer are the least number that hold it |
| Ahci.BounceOverrun | src/drivers/ahci.rs:308-320 | a page read one byte into a sector does not fit |
| Ahci.AhciDevice.SendCommand | src/drivers/ahci.rs:171-223 | a completed command moves exactly its sectors; one that fails, of either kind or for sectors past the disk, moves nothing |
| Ahci.AhciDevice.Read | src/drivers/ahci.rs:308-335 | the buffer receives exactly the bytes at `offset`, and nothing on an error; past the disk is an error |
| Ahci.AhciDevice.Write | src/drivers/ahci.rs:337-368 | the disk becomes the splice of the buffer at `offset`, every other byte kept; it is unchanged when the read fails, when the write fails after the read succeeded, and past its end |
| Ahci.ReadModifyWrite | src/drivers/ahci.rs:349-364 | reading a span, patching it and writing it back is a splice of the whole disk |
| Ext2Layout.LittleEndian | src/fs/ext2.rs:62-72 | fields of records have their lowest byte first |
| Ext2Layout.WriteInBlock | src/fs/ext2.rs:188-194 | a write inside a block of the disk changes that block of the volume and no other |
| Ext2Alloc.GroupTakeIff | src/fs/ext2.rs:201-237 | on a counted bitmap a group yields its lowest clear bit, and fails exactly when it has none |
| Ext2Alloc.AfterOk | src/fs/ext2.rs:151-237 | taking a bit keeps bitmaps, counters, descriptors and roles of blocks in agreement on the whole volume |
| Ext2Alloc.AfterDescBytes | src/fs/ext2.rs:151-237 | of all descriptors it changes bytes 12 and 13 of the group's own for a block, 14 and 15 for an inode, and no other |
| Ext2Alloc.AfterBytes | src/fs/ext2.rs:151-237 | of the whole volume it changes those two bytes and the bit's byte of the bitmap, and no other |
| Ext2Alloc.PutDescBytes | src/fs/ext2.rs:107-123 | `flush` of a descriptor changes its own 32 bytes and no other |
| Ext2Alloc.FsTakeIff | src/fs/ext2.rs:778-814 | the scan over groups takes one free bit, and fails exactly when no group has one |
| Ext2Alloc.NumberInjective | src/fs/ext2.rs:173-173 | within a group's capacity a number names one group and one bit |
| Ext2Alloc.InodeHomeIff | src/fs/ext2.rs:268-276 | `get_block_group` and `get_table_index` recover group and bit of an inode number if and only if the bit is not padding |
| Ext2Alloc.NumbersIssuedOnce | src/fs/ext2.rs:778-814 | over any run of block and inode allocations no number is issued twice, and issued inode numbers lead home |
| Ext2Alloc.RunAccounted | src/fs/ext2.rs:778-814 | over any run each free bit is still free or was issued, and an allocation that issued nothing found none of its kind left |
| Ext2Alloc.AllocBlockIff | src/fs/ext2.rs:778-795 | an allocation hands out one free data block, takes only that one, and changes no block but bitmaps and descriptors; it fails only when none is free |
| Ext2Alloc.AllocLowest | src/fs/ext2.rs:778-795 | the block handed out is the lowest free one of the volume |
| Ext2Many.TakeManyLowest | src/fs/ext2.rs:168-182 | `n` allocations take the lowest clear bits in ascending order and set no other bit |
| Ext2Many.TakeManyCount | src/fs/ext2.rs:151-186 | they yield `n` bits if and only if the counter is at least `n`, and the counter falls by what was taken, never below 0 |
| Ext2Many.TakeManyBytes | src/fs/ext2.rs:151-196 | outside the bitmap they change bytes 12 and 13 of the descriptor, for inodes 14 and 15, and no other byte of the volume |
| Ext2Many.WrittenOutTake | src/fs/ext2.rs:168-196 | setting a bit and lowering the counter in memory, written out later, is one more allocation on the disk |
| Ext2Many.TakeOne | src/fs/ext2.rs:786-786 | `alloc_block(1)` is the single allocation |
| Ext2Example.FormattedOk | src/fs/ext2.rs:62-72 | for every block size above 1024 and every number of data blocks that fits, a freshly formatted volume is well formed, and exactly its data blocks are free |
| Ext2Example.NewWorldOk | src/fs/ext2.rs:62-72 | with no files on it, it is where the runs of many files begin, and inode 1 is free |
| Ext2Example.EmptyFileGrows | src/fs/ext2.rs:326-333 | on it an empty file grows to `m` blocks if and only if `m` and its pointer blocks are at most the data blocks |
| Ext2Example.PastLimitOverwrites | src/fs/ext2.rs:549-590 | the input on which growth fails: one block past the limit, a file on a fresh volume overwrites reserved block 0 |
| Ext2Example.WornGrows | src/fs/ext2.rs:326-333 | on a volume whose free blocks hold the number of the block after the last one, a file grows to the limit with blocks to spare |
| Ext2Example.PastEndStores | src/fs/ext2.rs:582-590 | another input: there the next turn stores to the block after the volume, so it panics where the disk ends with the partition and changes what lies behind it otherwise |
| Ext2Example.ThreeBlocksCut | src/fs/ext2.rs:374-382 | the input on which `write` fails: ten bytes at the start of a file of three blocks leave it ten bytes long |
| Ext2Example.TwoBlocksAdjacent | src/fs/ext2.rs:326-333 | the first two blocks of a file on a fresh volume are adjacent |
| Ext2Example.SpillExample | src/fs/ext2.rs:374-402 | another input: with blocks of whole pages, a block-sized write at offset 1 of such a file is `OneBlock` and `SizeKept` and leaves its bounce buffer |
| Ext2Example.StaleCreation | src/fs/ext2.rs:861-869 | the input on which creation fails: a size left in the record of inode 1 of a formatted volume gives a file whose first block is reserved block 0 |
| Ext2Groups.Ext2Filesystem.constructor | src/fs/ext2.rs:765-775 | the mounted state: the geometry of the superblock, its counters, and what the partition holds |
| Ext2Groups.GeometryIs | src/fs/ext2.rs:765-775 | blocks are 1024 bytes shifted left by the superblock's field, and the groups are the least number that hold all blocks |
| Ext2Groups.Ext2Filesystem.ReadAt | src/fs/ext2.rs:160-166 | a device read inside a block returns that part of the volume |
| Ext2Groups.Ext2Filesystem.WriteAt | src/fs/ext2.rs:188-194 | a device write inside a block splices that block of the volume and no other |
| Ext2Groups.BlockGroup.Get | src/fs/ext2.rs:81-104 | the descriptor of the group, for either place of the table |
| Ext2Groups.BlockGroup.Flush | src/fs/ext2.rs:107-123 | exactly the group's descriptor is replaced on the disk |
| Ext2Groups.BlockGroup.AllocBlock | src/fs/ext2.rs:151-199 | for n > 0 succeeds if and only if the counter is at least `n`; the volume is that of `n` single allocations and the numbers are theirs; on failure the disk is unchanged |
| Ext2Groups.BlockGroup.AllocInode | src/fs/ext2.rs:201-237 | the single allocation of the functional model; on failure the disk is unchanged |
| Ext2Groups.Ext2Filesystem.AllocBlock | src/fs/ext2.rs:778-795 | the loop over groups on the device is the functional scan, and the file system stays well formed |
| Ext2Groups.Ext2Filesystem.AllocInode | src/fs/ext2.rs:797-814 | the same for inodes |
| Ext2File.InodeRoundTrip | src/fs/ext2.rs:125-149 | what `flush` stores, `get` reads back |
| Ext2File.PutInodeOk | src/fs/ext2.rs:290-309 | `flush` changes no block but those of inode tables, so no data block, bitmap or descriptor, and keeps the file system well formed |
| Ext2File.OtherRecord | src/fs/ext2.rs:290-309 | `flush` of one inode leaves what `get` reads for every other number |
| Ext2File.FlushRecords | src/fs/ext2.rs:290-309 | it leaves its own record on the disk and no inode bitmap changed |
| Ext2File.DecodeEncode | src/fs/ext2.rs:407-461 | no two block indices below the triply indirect range share a slot |
| Ext2File.SetThenGet | src/fs/ext2.rs:501-593 | after `set_block_address(i, a)` index `i` resolves to `a` and every other index whose pointers exist as before |
| Ext2File.PrepareOk | src/fs/ext2.rs:515-580 | pointer blocks allocated on the way are new, and move nothing the file had |
| Ext2File.GrowOk | src/fs/ext2.rs:327-333 | one turn of growth adds one block that was free, apart from all the file had, and moves none of it |
| Ext2File.GrownTransitive | src/fs/ext2.rs:326-333 | so do any number of turns |
| Ext2File.ResizeOk | src/fs/ext2.rs:312-341 | within the limit old indices keep their addresses, new ones are distinct blocks that were free, none a pointer block, and new pointer blocks were free too; the inode keeps its number, its record stays in step, no other record changes; the size is recorded if and only if it was equal or the block count changes |
| Ext2Frames.ResizeFields | src/fs/ext2.rs:312-341 | `resize` changes no field of the inode but size, sectors and pointers, and nothing at all where the block count stays; otherwise the size is the new one modulo 2^32 and the sectors are those of the new blocks |
| Ext2Frames.ResizeFramed | src/fs/ext2.rs:312-341 | on the volume it changes no byte but those of block bitmaps and their counters, the inode's record and the file's pointer blocks |
| Ext2Frames.SetAddrFields | src/fs/ext2.rs:501-593 | `set_block_address` changes one word of the inode: the direct pointer, or an indirect one that was 0 |
| Ext2Frames.SetAddrFramed | src/fs/ext2.rs:501-593 | on the volume it changes no byte but those of block bitmaps and their counters, the inode's record, the word of the slot, and the entry of a new doubly indirect block |
| Ext2Frames.GrowRanks | src/fs/ext2.rs:326-333 | a turn of growth takes the lowest free block for the data, the next for a missing indirect block, and the one after for the block under a new doubly indirect one |
| Ext2Frames.GetInodeBytes | src/fs/ext2.rs:125-149 | `get` reads the 128 bytes of the record at its place in the group's table, with the number at byte 36 |
| Ext2Frames.RecordAlone | src/fs/ext2.rs:290-309 | `flush` changes the 128 bytes of the record and no other |
| Ext2Space.GrowToCost | src/fs/ext2.rs:326-333 | growth succeeds if and only if the new blocks and the pointer blocks the file lacks are free, and takes exactly that many, the lowest ones |
| Ext2Space.ResizeIff | src/fs/ext2.rs:312-341 | `resize` panics if and only if fewer blocks are free than that |
| Ext2Space.SetAddrCost | src/fs/ext2.rs:501-593 | with well-formed pointer blocks `set_block_address` panics if and only if fewer blocks are free than pointer blocks are missing for the index, and takes the lowest |
| Ext2Space.StillFreeIff | src/fs/ext2.rs:778-795 | after taking the `k` lowest blocks a block is free if and only if it was and at least `k` free ones came before it |
| Ext2Space.NextIs | src/fs/ext2.rs:778-795 | and the next one handed out is the one with exactly `k` before it |
| Ext2Space.DirectLowest | src/fs/ext2.rs:327-333 | a turn of growth into a direct slot appends the lowest free block and frees or takes no other |
| Ext2File.SizesRecorded | src/fs/ext2.rs:338-340 | the size is kept modulo 2^32, the sector count is that of the file's blocks while it fits 32 bits, and every other word of the inode is as before |
| Ext2File.GrownSpares | src/fs/ext2.rs:312-341 | growth changes no used data block but pointer blocks the file already had |
| Ext2File.OtherFileUntouched | src/fs/ext2.rs:312-341 | growing one file leaves another, none of whose blocks is a pointer block of the first, with its tree and every byte of its blocks |
| Ext2Gap.GrowToStale | src/fs/ext2.rs:549-590 | growth within the limit leaves the doubly indirect block, behind its first entry, as it was; where growth allocated it, as it was while free |
| Ext2Gap.PastLimitIff | src/fs/ext2.rs:549-590 | where the doubly indirect block exists, a turn of growth under it neither panics nor changes a byte of the disk outside free blocks if and only if its target is on the disk and the second-level number found there names a free block of the volume, or the word is already at the target |
| Ext2Gap.TurnOnVolume | src/fs/ext2.rs:582-590 | on the volume that turn is the functional one; a number past the volume stores behind the partition |
| Ext2Gap.UndamagedKeeps | src/fs/ext2.rs:549-590 | whatever leaves every byte of the disk outside free blocks as it was keeps the file system, every record and every file with its bytes |
| Ext2Gap.OnePastIff | src/fs/ext2.rs:326-333 | growth from any size to one block past the limit: the same condition, on the second word the block held before the growth, and with that number free before it and as many free blocks below as the growth takes |
| Ext2Gap.PastWords | src/fs/ext2.rs:326-333 | the number stored is that of the free block with as many below it before the growth, and a block in use that is no pointer block of the file still starts with the word it started with |
| Ext2Gap.FirstGapIndex | src/fs/ext2.rs:549-580 | the first index past the limit goes through entry 1 of the doubly indirect block |
| Ext2Create.TakeInode | src/fs/ext2.rs:797-814 | `alloc_inode` takes one free inode and fails only when none is free; no record, used data block or free block changes, and no other inode bit |
| Ext2Create.CreateIff | src/fs/ext2.rs:861-869 | a new inode is made if and only if one is free; its record is on the disk, and every other record, used data block and free block is as before |
| Ext2Create.NewFileFields | src/fs/ext2.rs:866-867 | the new inode has type 0x81ed and one link, and every other byte as found |
| Ext2Create.CreateLowest | src/fs/ext2.rs:861-864 | its number is the lowest free one |
| Ext2Frames.CreateBytes | src/fs/ext2.rs:861-869 | on the volume creation changes the inode's bit, its group's counter of free inodes and its record, and no other byte |
| Ext2Files.CreatedEmptyIff | src/fs/ext2.rs:861-869 | the new inode is a well-formed file of no bytes that, grown to any size, owns only blocks that were free, if and only if the record it was made from had size and indirect pointers 0 |
| Ext2Files.StepOk | src/fs/ext2.rs:290-405 | one `resize`, creation or in-block write among any number of files keeps all of them well formed, on the disk, under distinct numbers, no block owned by two, and the records of free inodes blank |
| Ext2Panics.StepIff | src/fs/ext2.rs:290-405 | `resize` panics if and only if too few blocks are free, creation if and only if no inode is, and an in-block write never |
| Ext2Files.FilesStayApart | src/fs/ext2.rs:290-405 | over any run no block, of data or of pointers, belongs to two files, no two have the same number, and `get` reads each file's own inode from the disk |
| Ext2Files.BlockHistory | src/fs/ext2.rs:290-405 | over any run a block that is not cut off holds what it held with exactly the writes to that block of that file laid over it, in order |
| Ext2Files.BystanderUnchanged | src/fs/ext2.rs:290-405 | a file a run does not name keeps its inode, its record on the disk and every byte of its blocks |
| Ext2Runs.WriteIsRun | src/fs/ext2.rs:374-405 | what `write` leaves on the device, where every chunk stays in its block, is what a run of one resize and one in-block write per block leaves, so all of the above holds of it |
| Ext2Chunks.NextCountIs | src/fs/ext2.rs:354-358 | the count computed each turn is that block's chunk, and never 0 |
| Ext2Chunks.VisitedIff | src/fs/ext2.rs:351-369 | the loop visits block `k` if and only if `k` is below ceil(bytes / block size) |
| Ext2Chunks.ChunksSum | src/fs/ext2.rs:351-371 | the chunks add up to the bytes asked for |
| Ext2Chunks.ReadRightIff | src/fs/ext2.rs:343-372 | a read of blocks at given addresses stays in its bounce buffers and returns their bytes, for all contents and buffers, if and only if it is `OneBlock` and its first access fits the bounce buffer |
| Ext2Write.ReadFileIff | src/fs/ext2.rs:343-372 | a read of a well-formed file stays in its bounce buffers and returns its bytes, for all contents it can have on its volume and all buffers, if and only if it is `OneBlock` and `FitsBounce` |
| Ext2Write.OtherContents | src/fs/ext2.rs:343-372 | every such content is one of a well-formed file system in which the file has the same blocks |
| Ext2Write.WriteIff | src/fs/ext2.rs:374-405 | all of `write`: no access leaves its bounce buffer, the size is the larger of the two ends and the contents are the splice, for all data, if and only if the transfer is `OneBlock` and `FitsBounce` and `SizeKept` holds |
| Ext2Write.SizeKeptIff | src/fs/ext2.rs:312-341 | the size `resize` records is the larger of the two ends if and only if `SizeKept`: equal ends, or a shorter one in the same number of blocks, or a longer one in more, below 2^32 |
| Ext2Write.TruncatingWrite | src/fs/ext2.rs:374-382 | ten bytes at the start of any file of more than one block leave it ten bytes long |
| Ext2Write.ShortSize | src/fs/ext2.rs:374-382 | a write past the end within the first block leaves the size as it was |
| Ext2Write.SpillOverruns | src/fs/ext2.rs:384-402 | a block-sized write at offset 1 of two adjacent blocks of whole pages leaves its bounce buffer, though `OneBlock` and `SizeKept` hold |
| Ext2Write.TurnsInBlocks | src/fs/ext2.rs:384-402 | where every chunk stays inside its block, the loop on the disk is the file's blocks overlaid one by one |
| Ext2Write.InBlocksWrite | src/fs/ext2.rs:374-405 | where every chunk stays in its block and the volume is on the disk, the device reaches all that `write` touches |
| Ext2Write.FirstBlockWrite | src/fs/ext2.rs:374-405 | so it does where the write ends in the first block and fits the bounce buffer, for any well-formed file |
| Ext2Write.ReadBack | src/fs/ext2.rs:343-405 | after a one-block write the file system is well formed, and a read of the range returns the data |
| Ext2Chunks.TwoBlockRead | src/fs/ext2.rs:360-365 | for every block size and any two blocks, reading both leaves the second at the start of the buffer and the old tail behind it |
| Ext2Chunks.ReadLeaves | src/fs/ext2.rs:351-369 | every byte a read leaves, however many blocks it visits: the last chunk at the start of the buffer, behind it the rest of the last but one, and the buffer as it was from the block size on |
| Ext2Inodes.InodeBox.Get | src/fs/ext2.rs:632-637 | the inode's record, with its number filled in |
| Ext2Inodes.InodeBox.Flush | src/fs/ext2.rs:290-309 | exactly the inode's record is replaced on the disk |
| Ext2Inodes.InodeBox.GetBlockAddress | src/fs/ext2.rs:407-461 | on the device: the address the functional lookup gives |
| Ext2Inodes.InodeBox.SetBlockAddress | src/fs/ext2.rs:501-593 | on the device: the functional store, with the pointer blocks it allocates; it panics if and only if a pointer block is missing and fewer blocks are free than needed |
| Ext2Inodes.InodeBox.Grow | src/fs/ext2.rs:327-333 | on the device: one turn of growth |
| Ext2Inodes.InodeBox.StoreSecond | src/fs/ext2.rs:582-590 | on the device: the word is stored where the entry found in the doubly indirect block leads, inside the volume or not; off the disk it panics and nothing changes |
| Ext2Inodes.InodeBox.GrowPast | src/fs/ext2.rs:327-333 | on the device: a turn of growth under the doubly indirect block is the turn `PastLimitIff` speaks of, also past the limit |
| Ext2Inodes.InodeBox.Resize | src/fs/ext2.rs:312-341 | on the device: the functional resize; it panics if and only if it needs blocks and fewer are free; no other field of the inode and no other byte of the volume changes |
| Ext2Inodes.InodeBox.Read | src/fs/ext2.rs:343-372 | terminates, returns `bytes`, and leaves in the buffer exactly what the chunks give, for any offset and length in reach |
| Ext2Inodes.InodeBox.Write | src/fs/ext2.rs:374-405 | resizes, then leaves the disk exactly as the turns of the loop do, each looking its block up on the disk as it then is; panics if and only if the resize does |
| Ext2Inodes.WriteThenRead | src/fs/ext2.rs:343-405 | on the device: a write to any well-formed file that ends in its first block and fits the bounce buffer, read back, returns the data; it panics if and only if the blocks it needs are not free |
| Ext2Contents.ReadsSlice | src/fs/ext2.rs:343-372 | a read within the first block returns that slice of the block |
| Ext2Contents.WritesSlice | src/fs/ext2.rs:374-405 | a write within the first block overlays that slice and touches no other block |
| Ext2Contents.DataWrite | src/fs/ext2.rs:393-398 | writing one of a file's blocks leaves its tree and the file system as they were |
| Ext2Dir.TrueSizeRoundsUp | src/fs/ext2.rs:705-711 | the size an entry needs is its header and name rounded up to 4 |
| Ext2Dir.Search | src/fs/ext2.rs:664-687 | on a well-formed buffer the loop terminates with the inode of the first live entry of that name |
| Ext2Dir.FindRoom | src/fs/ext2.rs:700-724 | the loop stops at the first entry with enough slack, or finds that there is none |
| Ext2Dir.InsertDirectory | src/fs/ext2.rs:726-742 | the stores keep the buffer well formed and replace one entry by two |
| Ext2Dir.InsertBytes | src/fs/ext2.rs:726-742 | every byte after the stores: the old entry's size, the new entry's inode, size, length, type 1 and name, and all else as it was |
| Ext2Dir.RoomyIff | src/fs/ext2.rs:705-724 | an entry has room when both names, with their headers and each rounded up to 4, fit its size |
| Ext2Dir.FindFirst | src/fs/ext2.rs:664-687 | a lookup answers the inode of the first entry in use with the name, and nothing exactly when there is none |
| Ext2Dir.AddEntry | src/fs/ext2.rs:700-754 | the whole operation on a buffer, byte for byte; without room the buffer is unchanged |
| Ext2Dir.AddThenSearch | src/fs/ext2.rs:651-754 | after adding an absent name a search returns the new inode if and only if the name has at most 255 bytes and the inode is not 0 |
| Ext2Dir.OthersUnchanged | src/fs/ext2.rs:651-754 | every other name resolves as before |
| Ext2Dir.LongNameAliases | src/fs/ext2.rs:732-741 | a longer name is entered under its first length-mod-256 bytes |
| Ext2Dir.NoNewBoundary | src/fs/ext2.rs:726-734 | every entry after the insertion lies inside an entry from before, so no block boundary is newly crossed |
| Ext2Directories.SearchDirectory | src/fs/ext2.rs:651-688 | on the device: the search over the directory's contents; nothing for an inode that is not a directory |
| Ext2Directories.DirectoryBit | src/fs/ext2.rs:278-280 | an inode is a directory when bit 14 of its type is set; a new file is not one |
| Ext2Directories.AddToDirectory | src/fs/ext2.rs:690-754 | on the device: the directory's contents gain the entry, no other block changes, and nothing changes on failure |
| Ext2Directories.NewInode | src/fs/ext2.rs:861-869 | on the device: the functional creation; it panics if and only if no inode is free |
| Ext2Directories.Create | src/fs/ext2.rs:861-875 | a free inode is taken, its record, of a regular file with one link, is on the disk, the directory's entries gain it, a search for an absent name of at most 255 bytes then returns it, and nothing else changes but the directory's block; it panics if and only if there is no free inode or no room |
| Ext2Names.MakeIff | src/fs/ext2.rs:861-875 | making an absent name among any number of files succeeds if and only if an inode is free and the directory has room, and adds one file and one entry |
| Ext2Names.TakeOk | src/fs/ext2.rs:290-405 | making a file, or resizing or writing any other file, keeps the directory well formed, every made name leading to its own file, and all files apart |
| Ext2Names.MadeIff | src/fs/ext2.rs:861-875 | over any run the names made are exactly the absent ones of at most 255 bytes it asks for |
| Ext2Names.NamesOverRun | src/fs/ext2.rs:651-875 | over any run each made name is found with the number of its own file, whose record is on the disk, no two made names lead to one number, and every other name is found as before |
| Ext2Names.CreateIsMake | src/fs/ext2.rs:861-875 | what creation leaves on the device is what that step leaves |

## Left out

- Hardware: port I/O, MMIO polling, `invlpg`, cr3, interrupts, serial output; a command is one atomic transfer of its sectors.
- Locks and concurrency: every operation is atomic, as the spin locks make it.
- Large pages and the boot loader's own tables: every present entry above the last level is taken to name a table.
- `VirtualMemManager::mmap` and free ranges: the free-range search is not written in the source.
- Slab growth and alignment: the growth branch is unreachable, and the layout's alignment is ignored by the source.
- `Drop` of `Bitmap` and `PmmBox`: their pages go back to the page allocator, which would only add frees to its runs.
- Triply indirect blocks: the setter is unfinished in the source and the getter fixes 1024 addresses per block.
- Shrinking a file's block list and freeing blocks or inodes: not implemented in the source.
- The superblock's counters: read at mount and never lowered by the source, so they are constants here.
- vfs mounts, path walking, the open-file table, GPT, and the scheduler: short scans that would only add easy members.
- Block numbers omit the first data block, so well-formedness of a volume is stated in the kernel's own numbering; real volumes with 1024-byte blocks do not meet it.
- Pmms.Pmm.Alloc: physical memory below 2^47 bytes, the part the higher-half alias reaches.
- Slabs.SlabAllocator.AddCache: the first page of the slab is a parameter in place; `AddCacheBuilt` proves what the page allocator's answers give, in the order the source asks for them.
- Ahci.AhciDevice.Read: requires that the sectors fit the bounce buffer, number at most 8192 and have 48-bit numbers, because the source checks none of these and would overrun or reach another sector; a count of 0 panics.
- Ahci.AhciDevice.Write: the same; a command that fails is taken to move nothing, so a partial transfer is not modelled.
- Ext2Groups.Ext2Filesystem.ReadAt: requires a working device, because the source unwraps the result and panics on a device error.
- Ext2Groups.Ext2Filesystem.WriteAt: the same.
- Ext2Inodes.InodeBox.GetBlockAddress: indices below the triply indirect range whose pointer blocks exist on the volume.
- Ext2Inodes.InodeBox.SetBlockAddress: the pointer path is owned by the file or allocated by the call; `StoreSecond` and `GrowPast` are the code where it is not.
- Ext2Inodes.InodeBox.StoreSecond: every 32-bit block number has a 48-bit sector number, which volumes that start low on the disk meet.
- Ext2Inodes.InodeBox.GrowPast: the same, and the doubly indirect block exists.
- Ext2Inodes.InodeBox.Resize: up to the growth limit, past which the source's stores are not sound; `GrowPast` and `OnePastIff` cover the next turn.
- Ext2Inodes.InodeBox.Read: requires a working device and blocks whose sectors the device can reach; on a device error the source returns `Err`.
- Ext2Inodes.InodeBox.Write: the same, and up to the growth limit.
- Ext2Directories.SearchDirectory: directories of one byte to one block, because the source's read is wrong beyond; the buffer has exactly the directory's size instead of whole pages.
- Ext2Directories.AddToDirectory: the same.
- Ext2Directories.Create: the last step of `open` only; the new inode's other fields are whatever its record held, which `CreatedEmptyIff` is about.
- Ext2Files.StepOk: the runs hold writes inside one block, which `WriteIsRun` puts together to `write` where every chunk stays in its block; elsewhere the source's loop writes to the wrong place, as `WriteIff` says.
- Ext2Names.TakeOk: one directory of one byte to one block, which only creation writes to; asking for a name of more than 255 bytes does nothing here, and `LongNameAliases` is about it.
- Ext2Inodes.WriteThenRead: writes that end in the first block, because elsewhere the source's loop is wrong or needs an adjacent second block.
