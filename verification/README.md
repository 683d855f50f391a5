# Verified model of the AviKernel memory managers, file I/O and libc formatting

AviKernel is a 32-bit (i686) hobby kernel. This project models the parts of it whose correctness is hardest to see
from the code, and proves what they keep.

* **Heap** (`HeapLayout`, `Memory`, `HoleList`, `HeapTiles`, `HeapRuns`, `HeapRep`, `Heap`, `HeapExact`, `HeapClient`,
  `HeapLosses`). The first-fit allocator is a class over byte-addressed memory: hole headers are words stored in that
  memory, and the methods follow pointers through it. What the heap means is an address-ordered sequence of tiles (hole,
  live block, or lost), and every method is proved equal to a function on tiles. The lemmas of `HeapRuns` then hold for
  whole runs of malloc, free and realloc, and those of `HeapExact` say in numbers and addresses what one call does.
  `HeapClient` performs runs with stores into the blocks between the calls, and `HeapLosses` has short runs from the
  initial heap that lose memory.
* **Physical frames** (`Bits`, `Bitmap`, `PhysicalMgr`, `FrameRuns`). The word-wise bitmap allocator, with the signed
  test that reads bit 31 as clear.
* **Paging** (`PagingEntry`, `Paging`, `VirtualMgr`). Two-level tables in physical memory, walked as sections 4.3,
  "32-Bit Paging", and 4.6, "Access Rights", of the Intel SDM Volume 3A describe, edited through the `page_etable`.
  `map` refines the update of one page in a map from pages to entries, starting from the 4 MB pages of the boot code's
  directory.
* **Device files** (`Disk`, `DevFs`, `Vfs`, `VfsClient`). Byte reads and writes over a drive that moves at most 255
  sectors at a time refine a flat byte array; descriptors advance over it, and read what others wrote.
* **Paths** (`Path`). The parser and printer of absolute paths.
* **Vector** (`Vector`). The singly linked list, and its insertion sort by relinking nodes.
* **Numerals and printf** (`Words`, `Numerals`, `Stdlib`, `Ntoa`, `NtoaProps`, `NtoaReads`, `Printf`, `Directives`,
  `Standard`, `Conformance`, `StandardFields`, `Formats`). `itoa`, the numeric conversions, the format parser with the
  directives it reads back, and `snprintf`. `Standard` states from the directive alone what the C standard asks for, and
  `Formats` under which exact conditions a conversion, and a whole format, print that. `Words` holds what all modules
  count with.

32-bit words are naturals below 2^32; where the source wraps or truncates, the model does so explicitly. The methods
are written as the source is (loops over pointers, arrays and fields); pure functions say what they compute, and lemmas
say what that is worth.

## Where the code and its words differ

The model follows the code in each of these.

* `split` keeps room for the rest's header only if the rest is longer than a header, but the cut is moved up to 12
  bytes for small requests. `HeapRuns.TakeTiling` gives the exact window of sizes in which a cut is safe (`CutSafe`);
  every request of at least 8 bytes is in it, and malloc's callers must be in it. `HeapLosses.UnsafeCutRun` reaches a
  heap from the initial one where a request of 4 bytes leaves a hole of 9, too short for its header.
* `merge` reads through `header->prev` even when that is null, so the word at address 0 passes for the size of a
  previous hole. The model puts no condition on that word. When no hole precedes the freed block and the word is the
  block's address, the block is joined to the null pointer and lost, and a hole touching its end with it; in every other
  case the word has no effect (`HeapRuns.ReleaseExactly`). `HeapLosses.NullMergeRun` loses the whole heap in one malloc
  and one free; a word that is no address of the heap never does harm in any run (`HeapRuns.RunKeepsForeign`).
* When a freed block touches holes on both sides, `merge_next` runs on a header that `merge_previous` has already taken
  out of the list, and the next hole drops out of it. Such a hole becomes a lost tile; `LostByRelease` is its size.
  `HeapLosses.DoubleMergeRun` gets there in six calls: three blocks of 8 bytes, freed in the order first, third, second.
* If `extend_heap` gets no frame at all, it writes a header at the null pointer and makes it the head of the list. The
  list of holes survives exactly when it was empty (`LosesHoles`). `HeapLosses.ExtensionLoses` gets there with the first
  call. The next hole inserted is then the head of a list of its own, while the tail still names the old list's last
  hole (`Heap.InsertToHolesList`).
* An extension starts one page after the end of the last, since `last_page` is the heap's last page only before the
  first extension. Blocks tile the mapped pages, not one contiguous range.
* `map` does not check the result of `allocate_block`. Without a free frame it makes frame 0 a page table, which keeps
  the tables coherent exactly when frame 0 is none yet (`Paging.EnsureExactly`).
* The comments place the page_etable at the last 4 KB of the address space; entry 1023 of the directory covers the
  last 4 MB.
* `fill_bitmap` says that it fills the bitmap with ones; it clears it, so the memory map's entries have no effect and
  only the three final marks do.
* `free_block` ignores an unaligned address, but no address is out of range for it.
* In `storage_drive_write` the loop over full chunks sends the first chunk again and again, and the rest is read into
  the user's buffer instead of written. `DevFs.WrittenByte` and `DevFs.BufferByte` say what ends up where, and
  `DevFs.WriteExactly` when that is what was asked for.
* `Path` takes a blank string for the root; that is so exactly when it is empty, and " " is a folder of that name
  (`Path.BlankPath`).
* A negative precision argument (`%.*d`) should count as none; the code takes it for a precision of 0
  (`Directives.HeadIsAsked`). So "%.*d" of -1 and 0 prints nothing instead of 0, and "%05.*d" of -1 and 7 spaces instead
  of zeros. `Formats.IntegerPrinted` and `Formats.StringPrinted` say exactly when it shows.
* `printf` drops the precision of a left-justified number, and the sign of a number whose padded digits fill the
  32-byte buffer. `NtoaProps.NumberTextIsStandard` and `NtoaReads.NumberReads` say exactly when.
* `itoa` shows the sign in base 10 only; `Stdlib.IntTextInjective` says which ints share a text.

## Model

| member | source | states |
|---|---|---|
| `Heap.Heap.constructor` | src/kernel/mm/heap/heap.cpp:24-42 | initialize leaves a valid heap of one page-sized hole at the heap's start, whatever memory holds, and changes no byte outside that page |
| `Heap.Heap.RemoveFromHolesList` | src/kernel/mm/heap/heap.cpp:142-166 | memory holds a well-formed doubly linked list of the same holes less the k-th, with head and tail right, and no byte outside link words changed |
| `Heap.Heap.InsertToHolesList` | src/kernel/mm/heap/heap.cpp:168-219 | memory holds the list with the hole at its place in address order, only link words changed; a null hole loses the list; a hole inserted after that is a list of its own, with the old tail left in place |
| `Heap.Heap.Split` | src/kernel/mm/heap/heap.cpp:122-140 | a remainder of at most a header's size is not cut off and nothing changes; otherwise the list holds the carved rest in place of the hole, and only the hole's bytes and link words changed |
| `Heap.Heap.MapPages` | src/kernel/mm/heap/heap.cpp:54-68 | the loop maps as many pages as wanted and available, one after the other from last_page, and succeeds exactly when there were enough frames |
| `Heap.Heap.ExtendHeap` | src/kernel/mm/heap/heap.cpp:44-75 | the new pages become one hole behind all tiles, a page past the heap's end; how many, MallocInExtension says; true exactly when all were mapped; every block keeps its bytes |
| `Heap.Heap.FindHole` | src/kernel/mm/heap/heap.cpp:84-97 | following next links finds the lowest-addressed tile that can serve the request, or null when none can |
| `Heap.Heap.TakeHole` | src/kernel/mm/heap/heap.cpp:109-119 | the hole becomes a live block (and a smaller hole), the heap stays valid, and no other block changes a byte |
| `Heap.Heap.Malloc` | src/kernel/mm/heap/heap.cpp:77-120 | the code on pointers refines the function on tiles that MallocInHole, MallocInExtension and MallocSucceeds describe in numbers, returns its address, leaves every live block's bytes alone, and keeps the heap valid exactly when no hole list is lost; the recursion ends |
| `Heap.Heap.MergeNext` | src/kernel/mm/heap/heap.cpp:221-225 | the header's size grows by its next's, which leaves the list; the list stays well formed |
| `Heap.Heap.MergePrevious` | src/kernel/mm/heap/heap.cpp:227-231 | the previous hole, or the word at the null pointer if there is none, grows by the header's size and the header leaves the list |
| `Heap.Heap.JoinNull` | src/kernel/mm/heap/heap.cpp:227-236 | with the null pointer taken for the previous hole, the tile drops out of the list, its size is added to the word at address 0, and no block changes a byte |
| `Heap.Heap.Merge` | src/kernel/mm/heap/heap.cpp:233-239 | all cases of touching neighbours, for every word at the null pointer: the double merge that drops the next hole and the join with the null pointer included |
| `Heap.Heap.Free` | src/kernel/mm/heap/heap.cpp:241-253 | free on pointers refines releasing the block's tile for every word at the null pointer, keeps the heap valid and every other block's bytes |
| `Heap.Heap.Memcpy` | src/kernel/mm/heap/heap.cpp:274 | copying into a live block keeps the heap valid and every other block's bytes |
| `Heap.Heap.MoveBlock` | src/kernel/mm/heap/heap.cpp:273-277 | the copied bytes are in the new block even though the old block was freed and merged after the copy |
| `Heap.Heap.Realloc` | src/kernel/mm/heap/heap.cpp:255-278 | a non-null result holds the first min(old, new) bytes of the old block; no other live block changes; a failed call leaves the old block alone |
| `HeapRep.OwnerStore` | src/kernel/mm/heap/heap.cpp:116-119 | stores by a block's owner after its size word disturb neither the hole list nor any other block |
| `HeapRuns.TakeTiling` | src/kernel/mm/heap/heap.cpp:124-131 | cutting a hole leaves tiles of at least a header each, disjoint and in order, if and only if the request is in the safe window |
| `HeapRuns.TakeBytes` | src/kernel/mm/heap/heap.cpp:109-116 | cutting a hole conserves hole bytes plus live bytes |
| `HeapRuns.ReleaseTiling` | src/kernel/mm/heap/heap.cpp:233-253 | freeing keeps tiles disjoint and in order, whatever the word at the null pointer is |
| `HeapRuns.ReleaseBytes` | src/kernel/mm/heap/heap.cpp:227-253 | freeing moves the block's bytes to the holes, less those of LostByRelease, which leave the holes |
| `HeapRuns.ReleaseExactly` | src/kernel/mm/heap/heap.cpp:233-239 | the freed block becomes part of a hole, as if null were no header, if and only if a hole precedes it or the word at address 0 is not its address |
| `HeapRuns.NothingLostByRelease` | src/kernel/mm/heap/heap.cpp:233-239 | freeing loses no byte if and only if the null pointer is not joined and at most one neighbour is a touching hole |
| `HeapRuns.MallocAfterExtension` | src/kernel/mm/heap/heap.cpp:99-107 | after a successful extension the recursive call needs no further extension and is a plain cut |
| `HeapRuns.MallocSound` | src/kernel/mm/heap/heap.cpp:77-120 | malloc keeps the tiling and all blocks and accounts for every byte; MallocSucceeds states when a block comes back |
| `HeapRuns.FreeSound` | src/kernel/mm/heap/heap.cpp:241-253 | free ends exactly one block, keeps all others and accounts for every byte |
| `HeapRuns.ReallocSound` | src/kernel/mm/heap/heap.cpp:255-278 | realloc keeps soundness and accounts, and succeeds exactly when malloc does |
| `HeapRuns.ReallocTiles` | src/kernel/mm/heap/heap.cpp:269-275 | while realloc holds both blocks they are distinct and disjoint, and the new one is big enough |
| `HeapRuns.StepKeepsLive` | src/kernel/mm/heap/heap.cpp:77-278 | one call moves or resizes no block other than the one it frees |
| `HeapRuns.RunSound` | src/kernel/mm/heap/heap.cpp:24-278 | every run keeps the heap sound, and hole plus live bytes change by exactly the pages mapped less the bytes lost |
| `HeapRuns.RunKeepsLive` | src/kernel/mm/heap/heap.cpp:77-278 | a block that no call of a run frees is where it was, as long as it was, at the end of the run |
| `HeapRuns.RunKeepsForeign` | src/kernel/mm/heap/heap.cpp:24-278 | over every run, a word at address 0 outside the heap's addresses stays outside them, so no free is ever joined to the null pointer |
| `HeapExact.MallocInHole` | src/kernel/mm/heap/heap.cpp:84-119 | if a hole has size + 4 bytes, the lowest-addressed such hole is taken at its start, whole or cut at max(size + 4, 12) when more than 12 bytes would be left, and nothing else changes |
| `HeapExact.MallocInExtension` | src/kernel/mm/heap/heap.cpp:44-107 | otherwise the least number of pages with more than size + 16 bytes is mapped one page after the last ones, and the block is at their start; with fewer frames all of them are mapped and null comes back |
| `HeapExact.MallocSucceeds` | src/kernel/mm/heap/heap.cpp:77-120 | malloc gives a block if and only if size > 0 and a hole has size + 4 bytes or the free frames have more than size + 16 |
| `HeapExact.CarveExactly` | src/kernel/mm/heap/heap.cpp:122-140 | a cut block has exactly max(size + 4, 12) bytes at the start of the hole, and the rest stays a hole |
| `HeapExact.FreeExactly` | src/kernel/mm/heap/heap.cpp:221-253 | by the addresses where holes end and start: the block and the holes that touch it become one hole, with the next one lost if both touch, or the block is lost to the null pointer exactly when no hole lies before it and the word at 0 is its address; all other tiles stay |
| `HeapExact.ReallocExactly` | src/kernel/mm/heap/heap.cpp:255-278 | realloc gives a block exactly when malloc would, big enough and at an address where none was live; then, or for size 0, the old block is gone, else it is where it was; all other blocks stay |
| `HeapExact.FirstCalls` | src/kernel/mm/heap/heap.cpp:24-120 | from the initial heap 8 bytes are at 0xC0C00004, and 5000 bytes with two frames at 0xC0C01004 |
| `HeapLosses.DoubleMergeRun` | src/kernel/mm/heap/heap.cpp:221-253 | six calls from the initial heap, for any word at address 0 but the heap's start, leave one hole of 24 bytes and lose the other 4072 |
| `HeapLosses.NullMergeRun` | src/kernel/mm/heap/heap.cpp:227-253 | if the word at address 0 is the heap's start, one malloc of 8 to 4000 bytes and its free lose the whole heap |
| `HeapLosses.UnsafeCutRun` | src/kernel/mm/heap/heap.cpp:122-140 | an allowed run ends where a request of 4 bytes cuts off a hole of 9 bytes, and the tiling is gone |
| `HeapLosses.ExtensionLoses` | src/kernel/mm/heap/heap.cpp:44-75 | a first request of 4093 bytes to 256 MB, without a frame, is null, loses the heap's only hole and leaves a 0 at the null pointer |
| `HeapClient.Perform` | src/kernel/mm/heap/heap.cpp:77-278 | over any run of malloc, free, realloc and stores into live blocks, a block that no call frees and no store is aimed at keeps its place and every byte |
| `Bits.SignedTest` | src/utils/bitmap.cpp:26-30 | the signed comparison sees every set bit but bit 31 |
| `Bits.AllOnesWord` | src/kernel/mm/physical_mgr/physical_mgr.cpp:137-138 | a word is 0xffffffff exactly when all its 32 bits are set |
| `Bitmap.UsedOfPut` | src/utils/bitmap.cpp:18-24 | putting one bit changes that bit and no other, across words |
| `Bitmap.Set` | src/utils/bitmap.cpp:8-11 | the bit of that block is set in place |
| `Bitmap.Clear` | src/utils/bitmap.cpp:13-16 | the bit of that block is cleared in place |
| `Bitmap.Test` | src/utils/bitmap.cpp:26-30 | true exactly for a used block that is not the last of its word |
| `PhysicalMgr.FirstFree` | src/kernel/mm/physical_mgr/physical_mgr.cpp:138-142 | in a word that is not full, the first block that tests free is free and is the lowest free block, even if it is the untestable last one |
| `PhysicalMgr.PhysicalMgr.AllocateBlock` | src/kernel/mm/physical_mgr/physical_mgr.cpp:133-152 | the block handed out was clear, every block below it was used, and exactly its bit has changed; if every block was used the address is null and nothing has changed, and with block 0 used only then |
| `PhysicalMgr.PhysicalMgr.FreeBlock` | src/kernel/mm/physical_mgr/physical_mgr.cpp:154-161 | exactly the block's bit is cleared; an unaligned address changes nothing |
| `PhysicalMgr.PhysicalMgr.MarkMemoryAs` | src/kernel/mm/physical_mgr/physical_mgr.cpp:120-131 | exactly the blocks the range touches, the one holding its end included, get the mark |
| `PhysicalMgr.PhysicalMgr.FillBitmap` | src/kernel/mm/physical_mgr/physical_mgr.cpp:92-118 | whatever the memory map says, the used blocks are those of the first megabyte, the bitmap and the kernel; VirtualMgr.FilledIsBooted takes it from there |
| `FrameRuns.ClearCountOfPut` | src/kernel/mm/physical_mgr/physical_mgr.cpp:126-129 | marking a block changes the number of clear blocks by one |
| `FrameRuns.AllocateCount` | src/kernel/mm/physical_mgr/physical_mgr.cpp:133-152 | allocation succeeds exactly when some block is clear, and takes one |
| `FrameRuns.StepSound` | src/kernel/mm/physical_mgr/physical_mgr.cpp:133-161 | a step hands out a block that nobody holds and nobody reserved; clear plus outstanding blocks stay the same |
| `FrameRuns.RunSound` | src/kernel/mm/physical_mgr/physical_mgr.cpp:133-161 | over every run outstanding blocks are distinct, reserved ones are never handed out, and clear plus outstanding is constant |
| `FrameRuns.BootRun` | src/kernel/mm/physical_mgr/physical_mgr.cpp:108-152 | from the boot bitmap no run hands out a block that shares a byte with the first megabyte, the bitmap or the kernel image |
| `FrameRuns.NullWhenFull` | src/kernel/mm/physical_mgr/physical_mgr.cpp:151 | null comes back exactly when every block is used |
| `PagingEntry.EntryFields` | src/kernel/mm/virtual_mgr/paging_entry.cpp:19-26 | the word built by the setters reads back as the flags and the page-aligned frame given |
| `PagingEntry.EntryWord` | src/kernel/mm/virtual_mgr/paging_entry.cpp:19-26 | the word is the frame address plus 1 for present, 2 for writable and 4 for the third flag |
| `PagingEntry.DirectoryEntry` | src/kernel/mm/virtual_mgr/page_directory_entry.cpp:14-23 | clearing the 4 MB bit of a directory entry changes nothing, so both entry kinds are the same word |
| `PagingEntry.PagingEntry.constructor` | src/kernel/mm/virtual_mgr/paging_entry.cpp:19-26 | the setters run one after the other build the entry word that EntryFields reads back |
| `Paging.SelfMap` | src/kernel/mm/virtual_mgr/virtual_mgr.cpp:32-38 | the virtual address of page table i walks, through the active directory and with all rights, to exactly the frame that directory entry i names |
| `Paging.EnsureCoherent` | src/kernel/mm/virtual_mgr/virtual_mgr.cpp:61-76 | creating a page table keeps directory and page_etable entries the same words, granting all rights, and all page tables in frames of their own |
| `Paging.EnsureKeepsCoherence` | src/kernel/mm/virtual_mgr/virtual_mgr.cpp:61-76 | creating a page table keeps coherence if and only if the directory index is not 1023 |
| `Paging.EnsureExactly` | src/kernel/mm/virtual_mgr/virtual_mgr.cpp:61-76 | creating a page table below index 1023 keeps coherence if and only if its frame is no table already |
| `Paging.EnsureWalk` | src/kernel/mm/virtual_mgr/virtual_mgr.cpp:61-76 | creating a zeroed page table changes no translation outside the last 4 MB |
| `Paging.SetWalk` | src/kernel/mm/virtual_mgr/virtual_mgr.cpp:78-81 | storing one page table entry changes the translation of exactly one page |
| `Paging.MapWalks` | src/kernel/mm/virtual_mgr/virtual_mgr.cpp:46-82 | after map, page v walks to frame p with the flags given, none of which its directory entry takes away, and every other page outside the last 4 MB translates as before with the same rights |
| `Paging.MapMissing` | src/kernel/mm/virtual_mgr/virtual_mgr.cpp:61-64 | map takes a frame exactly when the page's table was missing |
| `Paging.RangeStep` | src/kernel/mm/virtual_mgr/virtual_mgr.cpp:94-101 | one more map extends a mapped range by its next page and nothing else |
| `Paging.BothRanges` | src/kernel/mm/virtual_mgr/virtual_mgr.cpp:109-110 | mapping both ranges from an empty directory gives the kernel's translation of every address |
| `Paging.SwitchCoherent` | src/kernel/mm/virtual_mgr/virtual_mgr.cpp:111-112 | switching cr3 and entering the page_etable keeps coherence and every translation |
| `Paging.BootWalk` | src/boot/boot.asm:53-57 | under the boot directory, with anything in the frames, page k of the first 4 MB and of the kernel's 4 MB is frame k, and nothing else is mapped |
| `VirtualMgr.VirtualMgr.StoreVirtual` | src/kernel/mm/virtual_mgr/virtual_mgr.cpp:78-80 | a store through a virtual address changes one word of the frame that the address walks to |
| `VirtualMgr.VirtualMgr.CreatePageTable` | src/kernel/mm/virtual_mgr/virtual_mgr.cpp:61-76 | the store of the same word, with all rights, into both tables and the erasure through the new table's virtual address enter a zeroed page table in the frame allocate_block gives, frame 0 if none is free; the tables stay coherent exactly when that frame is no table yet, which is always so for a free one |
| `VirtualMgr.VirtualMgr.Map` | src/kernel/mm/virtual_mgr/virtual_mgr.cpp:46-82 | the code, writing through the page_etable's addresses, performs the Map step that MapWalks is about, and allocates only when a table is missing |
| `VirtualMgr.VirtualMgr.MapRange` | src/kernel/mm/virtual_mgr/virtual_mgr.cpp:94-101 | page k of the range maps to frame k for all k below count and nothing else changes, given frames for the missing tables |
| `VirtualMgr.VirtualMgr.PutPageEtable` | src/kernel/mm/virtual_mgr/virtual_mgr.cpp:84-92 | entry 1023 of the active directory, reached at its own physical address, names the page_etable and nothing else changes |
| `VirtualMgr.VirtualMgr.BootedIsMapped` | src/boot/boot.asm:53-57 | the boot directory maps itself at its own physical address and the page_etable at its kernel address, which is how initialize reaches both |
| `VirtualMgr.VirtualMgr.FilledIsBooted` | src/kernel/mm/physical_mgr/physical_mgr.cpp:108-118 | the bitmap fill_bitmap leaves satisfies what initialize needs, if the tables lie in the kernel's image and two blocks are not reserved |
| `VirtualMgr.VirtualMgr.Initialize` | src/kernel/mm/virtual_mgr/virtual_mgr.cpp:103-113 | from the directory of 4 MB pages that the boot code leaves and two free frames, both [0, 4 MB) and [0xC0000000, 0xC0400000) translate to the first 4 MB with all rights (frame address plus 7), nothing else below the last 4 MB is mapped, and the tables are coherent under the kernel's own directory |
| `Disk.SpliceReads` | src/fs/devfs/devfs.cpp:151 | what was put into a byte array reads back, and ranges beside it read as before |
| `Disk.Drive.ReadSectors` | src/fs/devfs/devfs.cpp:133 | a driver's read is a slice copy of at most 255 whole sectors |
| `Disk.Drive.WriteSectors` | src/fs/devfs/devfs.cpp:200 | a driver's write is a slice copy of at most 255 whole sectors |
| `DevFs.DevFs.ReadInChunks` | src/fs/devfs/devfs.cpp:131-148 | the chunks of 255 sectors and the remainder fetch each sector once, in order |
| `DevFs.DevFs.StorageDriveRead` | src/fs/devfs/devfs.cpp:99-155 | a read delivers exactly the bytes [offset, offset + count) for any alignment and span, and touches no other byte of the buffer |
| `DevFs.DevFs.WriteShort` | src/fs/devfs/devfs.cpp:185-203 | a write within one or two sectors replaces exactly [offset, offset + count) |
| `DevFs.DevFs.WriteEnds` | src/fs/devfs/devfs.cpp:207-231 | the read-modify-write of the first and the last sector changes only the bytes written |
| `DevFs.DevFs.WriteMiddle` | src/fs/devfs/devfs.cpp:233-255 | up to 255 middle sectors are copied; beyond that each full chunk repeats the first one and the rest is read into the buffer |
| `DevFs.DevFs.StorageDriveWrite` | src/fs/devfs/devfs.cpp:157-262 | the exact effect of a write on drive and buffer for every offset, count and alignment, and the two error cases |
| `DevFs.LongParts` | src/fs/devfs/devfs.cpp:204-259 | first, last and middle parts together have the byte-wise effect stated for the whole write |
| `DevFs.WrittenIsSplice` | src/fs/devfs/devfs.cpp:157-262 | a write that is not long has happened exactly when the flat bytes [offset, offset + count) are the buffer's and the buffer is unchanged |
| `DevFs.LongWriteFails` | src/fs/devfs/devfs.cpp:241-255 | at every offset and count of the long branch some buffer is stored wrongly |
| `DevFs.LongWriteChunks` | src/fs/devfs/devfs.cpp:204-259 | a write of more than 257 sectors, piece by piece: which slices of the drive get which slices of the buffer, and which slice of the buffer is read from the drive |
| `DevFs.WriteExactly` | src/fs/devfs/devfs.cpp:234-255 | the write stores whatever it is given if and only if at most 255 sectors lie between the first and the last |
| `DevFs.ReadAfterWrite` | src/fs/devfs/devfs.cpp:99-262 | reading after a write that is not long returns the buffer written, and ranges disjoint from any write read as before |
| `Vfs.ReadsAreConsecutive` | src/fs/vfs/vfs.cpp:173-248 | any sequence of read steps delivers the device's bytes from the start position without gaps, and ends where they end, never past the size; Read is such a step unless it ends exactly at the device's end (AtTheEnd) |
| `Vfs.ReadsDeliver` | src/fs/vfs/vfs.cpp:173-248 | any positive reads on an open, readable descriptor whose sum the device still has deliver all their bytes |
| `Vfs.UnderIsPrefix` | src/fs/vfs/vfs.cpp:61-88 | a well-formed path is under the mount if and only if its text begins with the mount's text |
| `Vfs.Vfs.GetMountedFs` | src/fs/vfs/vfs.cpp:61-88 | with one mount of depth 1 the lookup finds it exactly for paths under it |
| `Vfs.Vfs.Trim` | src/fs/vfs/vfs.cpp:216-219 | removing part 0 as often as the mount is deep leaves a path whose text, appended to the mount's text less its last slash, is the original |
| `Vfs.Vfs.Io` | src/fs/vfs/vfs.cpp:193-248 | succeeds exactly for an open descriptor with the right mode and a range within the device; then bytes move and the position is the end of the range; otherwise nothing changes |
| `Vfs.Vfs.Read` | src/fs/vfs/vfs.cpp:173-176 | delivers the bytes at the position and advances it exactly for an open, readable descriptor and a range within the device, else nothing changes; it is the ReadStep that ReadsAreConsecutive is about |
| `Vfs.Vfs.Write` | src/fs/vfs/vfs.cpp:183-186 | returns nbyte, stores as storage_drive_write does and advances the position exactly for an open, writable descriptor and a range within the device; otherwise 0, and nothing changes |
| `VfsClient.WriteThenRead` | src/fs/vfs/vfs.cpp:173-248 | bytes written through one descriptor are read back through another at the same position, for up to 257 sectors |
| `Path.PiecesJoin` | src/fs/path.cpp:32-55 | joining the pieces between slashes gives the string back |
| `Path.JoinPieces` | src/fs/path.cpp:32-72 | splitting joined pieces gives the pieces back |
| `Path.ParseText` | src/fs/path.cpp:5-15 | printing a parsed path gives the string made absolute, and the parts hold no slash |
| `Path.RoundTrip` | src/fs/path.cpp:5-72 | parsing and printing gives a string that starts with a slash back, any other one with a slash in front, and white space also with one behind |
| `Path.BlankPath` | src/fs/path.cpp:5-15 | a blank string parses to the root if and only if it is empty; otherwise it is a folder whose name is the string |
| `Path.TextInjective` | src/fs/path.cpp:27-30 | on parsed paths, comparing texts is comparing parts and folder flag |
| `Path.MountText` | src/fs/path.cpp:89-92 | a path's text is its mount's text without the last slash, followed by the text of the path with the mount's parts removed |
| `Path.CutOut` | src/fs/path.cpp:62-92 | a path's text without part i is its text with that part and the slash behind it cut out; without a file's name the slash before it goes too |
| `Path.Path.constructor` | src/fs/path.cpp:5-15 | the constructed fields are the parsed value, blank and relative strings included |
| `Path.Path.FillVector` | src/fs/path.cpp:32-55 | the character loop collects exactly the pieces between slashes, less an empty last one |
| `Path.Path.ToString` | src/fs/path.cpp:62-72 | the accumulating loop prints the text that ParseText is about |
| `Path.Path.RemovePart` | src/fs/path.cpp:89-92 | in the printed text, exactly the part and the slash behind it are gone, or for a file's name the slash before it; the other parts keep their order |
| `Path.Path.GoUp` | src/fs/path.cpp:79-87 | the printed text loses the last part and its slash at the end; done exactly for a folder that is not the root, where the code does not panic, and nothing changes otherwise |
| `Path.Path.Equals` | src/fs/path.cpp:27-30 | equality of texts, which on well-formed paths is equality of parts and kind |
| `Vector.SortedIsPermutation` | include/utils/vector.h:242-288 | whatever the comparison is, sorting only rearranges the nodes |
| `Vector.SortedIsOrdered` | include/utils/vector.h:242-288 | for the strict part of a total preorder no element is bigger than a later one |
| `Vector.SortedIsStable` | include/utils/vector.h:242-288 | for the strict part of a total preorder, elements that compare equal keep their order |
| `Vector.SortedIsTheStableSort` | include/utils/vector.h:242-288 | a list is the sort's result if and only if it is ordered and keeps every class of equal elements in order: the stable sort is unique and this is it |
| `Vector.Vector.Sort` | include/utils/vector.h:242-288 | the relinking loops end with an acyclic list through the same nodes, in the order of the insertion sort the lemmas are about |
| `Vector.Vector.Place` | include/utils/vector.h:254-286 | one round moves node k in front of the first bigger one among the first k, moves no other, and keeps all data |
| `Vector.Vector.InsertBefore` | include/utils/vector.h:269-275 | two link stores put a detached node into the list at that place |
| `Vector.Vector.DropNext` | include/utils/vector.h:111-116 | one link store takes the next node out of the list |
| `Vector.Vector.GetNode` | include/utils/vector.h:230-240 | following index links reaches the node at index |
| `Vector.Vector.Append` | include/utils/vector.h:196-222 | a fresh node is linked behind all others, which stay in order with their data |
| `Vector.Vector.Remove` | include/utils/vector.h:97-120 | exactly the element at index is gone and the links lead through the others in order |
| `Vector.Vector.PopBack` | include/utils/vector.h:146-172 | exactly the last element is gone |
| `Numerals.DigitsDenote` | src/libc/cstdio.cpp:290-294 | the digits of a number denote it, in every base from 2 to 36 |
| `Numerals.Word32Digits` | src/libc/cstdio.cpp:280-294 | a 32-bit number has at most 32 digits in any base |
| `Stdlib.TableAt` | src/libc/cstdlib.cpp:25 | the character for a remainder of either sign is the digit of its magnitude |
| `Stdlib.Division` | src/libc/cstdlib.cpp:23-27 | truncated division of a negative number gives the magnitudes of the natural one, the smallest int included |
| `Stdlib.PutDigits` | src/libc/cstdlib.cpp:23-27 | the loop writes the digits of the magnitude, last first, and nothing else |
| `Stdlib.Invert` | src/libc/cstdlib.cpp:30-35 | the swaps reverse exactly the characters between the two pointers |
| `Stdlib.Itoa` | src/libc/cstdlib.cpp:5-37 | the buffer holds the text and its terminator and is unchanged after it; an unsupported base gives the empty string |
| `Stdlib.IntTextIs` | src/libc/cstdlib.cpp:5-37 | the text is the number in the base's digits, lower-case, with a minus sign in base 10 only |
| `Stdlib.IntTextDenotes` | src/libc/cstdlib.cpp:16-27 | in base 10 the text denotes the int, for every int |
| `Stdlib.IntTextInjective` | src/libc/cstdlib.cpp:16-27 | two ints share a text if and only if they are equal or the base is not 10 and they differ in sign only |
| `Stdlib.IntTextFits` | src/libc/cstdlib.cpp:5-37 | no int in no base needs more than 32 characters before the terminator |
| `Printf.Output.Put` | src/libc/cstdio.cpp:136-141 | after each character the buffer shows the text so far, cut at maxlen, and is unchanged behind it |
| `Printf.Output.OutRev` | src/libc/cstdio.cpp:202-226 | the reversed digits come out in order in their field |
| `Printf.Output.Pad` | src/libc/cstdio.cpp:230-242 | the padding loops stay within the 32-byte buffer for every precision and width |
| `Printf.Output.Prefix` | src/libc/cstdio.cpp:245-262 | the '#' flag's characters stay within the buffer |
| `Printf.Output.NtoaFormat` | src/libc/cstdio.cpp:229-275 | the function formats any digits within its 32-byte buffer, as FormatText says |
| `Printf.Output.PutDigits` | src/libc/cstdio.cpp:290-294 | the conversion loop yields the low digits, as many as fit |
| `Printf.Output.NtoaLong` | src/libc/cstdio.cpp:278-298 | outputs the NumberText that the lemmas compare with the standard |
| `Ntoa.LowDigitsReversed` | src/libc/cstdio.cpp:290-294 | when they fit the buffer, the digits written are those of the number, reversed |
| `NtoaProps.NumberLayout` | src/libc/cstdio.cpp:229-298 | the text is spaces, the sign that was kept, zeros, digits and spaces, with these counts |
| `NtoaProps.NumberTextIsStandard` | src/libc/cstdio.cpp:229-298 | for the fields given, the text is the one that section 7.21.6.1 of ISO/IEC 9899:2011 asks for if and only if Conforms holds of the length, sign, precision, width and flags |
| `NtoaReads.Atoi` | src/libc/cstdio.cpp:192-199 | reads the whole run of digits, whose value it returns modulo 2^32 |
| `NtoaReads.AtoiOfNumber` | src/libc/cstdio.cpp:192-298 | reading what the plain conversion prints gives every 32-bit number back |
| `NtoaReads.NumberReads` | src/libc/cstdio.cpp:229-298 | a decimal conversion of up to 64 bits reads back as the signed number if and only if it is not negative, or its zeros leave room for the sign (precision below 32 and, when zero-padding, width up to 32) |
| `Printf.ReadHead` | src/libc/cstdio.cpp:585-683 | the parsing loops, stars taking stack words in order, compute the HeadAt that DirectiveRoundTrip is about |
| `Directives.DirectiveRoundTrip` | src/libc/cstdio.cpp:585-683 | any flags, width, precision and length written as a directive before a specifier, anywhere in a format, stars and a period alone included, are read back as exactly those fields and words, and parsing stops on the specifier |
| `Directives.HeadIsAsked` | src/libc/cstdio.cpp:635-647 | what the parser reads is what paragraph 5 of section 7.21.6.1 of ISO/IEC 9899:2011 asks for if and only if no star takes a negative precision |
| `Printf.Output.Convert` | src/libc/cstdio.cpp:686-848 | sends the text of the conversion, which the lemmas of Formats compare with the standard's, and takes its stack words |
| `Printf.Output.Vsnprintf` | src/libc/cstdio.cpp:563-856 | the loop sends the untruncated output of the whole format and returns its length; the buffer ends with a terminator within maxlen |
| `Printf.Snprintf` | src/libc/cstdio.cpp:879-886 | the result does not depend on count; the buffer holds the first min(n, count - 1) characters, a terminator, and its old bytes after that; a count of 0 writes nothing |
| `Standard.ArgumentUnique` | src/libc/cstdio.cpp:721-750 | the argument of an integer conversion is the one value congruent to its stack words modulo 2^8, 2^16, 2^32 or 2^64 in the range of its signed or unsigned type |
| `Formats.IntegerPrinted` | src/libc/cstdio.cpp:585-751 | d, i, u, o, x, X and b without '#', with any flags, stars and length, print the sign, zeros, digits and spaces that section 7.21.6.1 of ISO/IEC 9899:2011 asks for if and only if PrintsInteger holds, and take one word or two |
| `Formats.CharPrinted` | src/libc/cstdio.cpp:771-790 | c prints one character, with the spaces of its field behind it or before it, and takes one word |
| `Formats.StringPrinted` | src/libc/cstdio.cpp:792-820 | s prints the string, or as much of it as the precision allows, in its field if and only if the precision argument is not negative or the string is only spaces that the field has room for; it takes one word |
| `Formats.PointerPrinted` | src/libc/cstdio.cpp:822-837 | p without flags and precision prints eight capital hexadecimal digits, whatever the width |
| `Formats.OtherPrinted` | src/libc/cstdio.cpp:839-848 | % and any character that is no specifier print themselves and take no word |
| `Formats.HashPrinted` | src/libc/cstdio.cpp:245-262 | the '#' flag alone puts 0x, 0X, 0b or 0 in front of up to 30 digits, and nothing in front of 0 |
| `Formats.DecimalReadsBack` | src/libc/cstdio.cpp:686-751 | %d, %i and %u with any length, flags, width and precision read back as the argument if and only if it is not negative, the field is left-justified, or the zeros leave room for the sign |
| `Formats.FormatIsStandard` | src/libc/cstdio.cpp:563-856 | a format of text and conversions prints the text and the standard's text of every conversion, in order, taking the arguments one after the other, whenever each conversion meets its condition |
| `Formats.NegativePrecisionOfZero` | src/libc/cstdio.cpp:637-646 | "%.*d" with -1 and 0 prints nothing, where the standard asks for 0 |
| `Formats.NegativePrecisionOfSeven` | src/libc/cstdio.cpp:637-719 | "%05.*d" with -1 and 7 prints four spaces and 7, where the standard asks for 00007 |

## Left out

- Port I/O, the IDE, PCI, PIC and PIT drivers, descriptor tables, assembly and boot code: hardware effects. Sector
  reads and writes are slice copies, and set_cr3 and invlpg have no effect on tables other than which is active.
- VGA text output, keyboard tables, multiboot parsing and the search for the bitmap's place: the bitmap's address, the
  kernel's range and the number of blocks are parameters, as are the frames that an extension of the heap gets.
- Panics are preconditions: unaligned addresses in map, an index out of range in Vector. A panicking go_up is a false
  result.
- The heap must end below 0xFFC00000, where the page tables are, and its word-sized sums must not wrap. These are
  conditions in `MallocAllowed`.
- Heap.Heap.Malloc: does not model a cut outside `CutSafe`, after which the heap has no valid tiles any more
  (`HeapRuns.TakeTiling` is the if-and-only-if, `HeapLosses.UnsafeCutRun` a run that gets there).
- Heap.Heap.Split: has the same condition, as have TakeHole and Realloc.
- Heap.Heap.TakeHole: as Split.
- Heap.Heap.Realloc: as Malloc, which it calls.
- Heap.Heap.MapPages: does not model an extension that passes 0xFFC00000.
- Heap.Heap.ExtendHeap: as MapPages.
- HeapRuns.RunSound: an operation that loses the hole list (an extension without any frame while holes exist) ends a
  run; `Heap.Malloc` and `Heap.Realloc` state its effect, `Heap.InsertToHolesList` that of the next insertion.
- PhysicalMgr.PhysicalMgr.FreeBlock: does not model a block number beyond the bitmap, where the code, which does not
  check, would write outside it.
- PhysicalMgr.PhysicalMgr.MarkMemoryAs: the same for a range that reaches beyond the bitmap.
- PhysicalMgr.PhysicalMgr.FillBitmap: the same for an entry of the memory map.
- VirtualMgr.VirtualMgr.Map: does not model directory index 1023, where a new page table would displace the
  page_etable (`Paging.EnsureKeepsCoherence`), nor what follows when the missing page table is put into a frame that is
  a table already, which happens only to frame 0 when no frame is free (`Paging.EnsureExactly`).
- VirtualMgr.VirtualMgr.MapRange: has the conditions of Map for each page: it ends below the last 4 MB, and there are
  frames for the missing tables.
- VirtualMgr.VirtualMgr.Initialize: does not model an allocation that fails while initializing; two frames must be free.
- DevFs.DevFs.StorageDriveRead: does not model a span whose end is the end of the drive, because the code then asks the
  device for one sector past it, and the answer is the device's; the sector after an aligned end must exist.
- DevFs.DevFs.StorageDriveWrite: the same; the code reads and writes back the sector after an aligned end.
- DevFs.DevFs.WriteShort: the same.
- DevFs.DevFs.WriteEnds: the same.
- Vfs.Vfs.Read: does not model a read that ends at the drive's end, for the reason given for StorageDriveRead.
- Vfs.Vfs.Write: the same for writes.
- Sums of 64-bit file offsets and counts do not wrap; the constructor and copies of drives and file systems are taken
  as given.
- Vfs.Vfs.GetMountedFs: does not model several mounts, whose parts the code compares at the wrong index; the kernel
  makes one mount of depth 1.
- Vfs.Vfs.Io: does not model a transfer that ends at the drive's end, nor pread and pwrite at offset 0 as the absolute
  offset they name, because the code takes 0 to mean the position; opening, closing and running out of descriptors are
  not part of the model.
- Vector.Vector.Remove: does not model the freeing of nodes, because memory is managed by the language here.
- The String class, Queue, errno, Time and the driver registry: easy members; strings are sequences of characters.
- FAT32 and the generic file system class: not part of a working file system.
- Printf.Snprintf: does not model floating-point conversions, a format that ends inside a conversion (the code then
  reads past the terminator), nor outputs of 2^31 characters and more.
- Printf.Output.Convert: does not model floating-point conversions.
- Printf.Output.Vsnprintf: has the conditions of Snprintf on the format.
- Formats.IntegerPrinted: does not compare with the standard under the '#' flag, nor for 64-bit binary numbers,
  whose digits beyond 32 the buffer drops; the model covers what is printed then.
- Formats.HashPrinted: does not state the '#' flag with a width, precision or other flags, where characters make way for
  the prefix; `Ntoa.Prefixed` has the code's rules.
- printf, sprintf and fctprintf differ from snprintf in the output function only.
