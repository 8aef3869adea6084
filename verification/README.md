# Proofs about cOSiris

cOSiris is a small Unix-like x86 kernel with its own C library. This project
models the parts whose correctness is decided by code rather than by hardware,
and proves what they are for:

- **cofs**, the file system. A file is a flat sequence of bytes, kept in six direct
  blocks, one single- and one double-indirect block, over a free bitmap (`Block`,
  `CofsLayout`, `Cofs`). File sizes alone say how many blocks are in use
  (`CofsCensus`). Any run of reads, writes and truncates agrees with the same run on
  plain byte sequences, failures included (`CofsRun`). Directories are finite maps
  (`CofsDir`), and runs may mix them with files (`CofsTree`). `CofsFormat` says where
  all of it stands on the disk, in numbers. `mkcofs` builds a disk
  from which such runs start (`Mkcofs`, `MakeImage`), and the buffer cache is a plain
  array of blocks to its clients (`HdQueue`).
- **malloc** over sbrk: blocks tile the heap through every call (`Malloc`).
- **Frames and page directories**: the intrusive free list, fork's copy-or-link
  clone, and the release of exactly what the clone took (`Paging`, `Spaces`); mapping
  and unmapping (`Mapping`). Over any run of forks, releases, mappings, unmappings and
  stores each process sees its own table of pages and all see the kernel's, and the
  sizes of the tables alone decide which operation lacks frames (`Processes`); such
  runs start from what `mem_init` sets up (`Boot`).
- **Tasks**: the life cycle and the round-robin scheduler as a step machine
  (`Tasks`), what becomes of parents, children and statuses over its runs
  (`Families`), and the calls that carry it out on the task list (`Kernel`).
- **Routing**: longest prefix match from a sort order (`Bits`, `LinkedList`, `Route`).
- **Pipes**: a bounded queue whose 32-bit counters wrap (`Pipe`).
- **Printing and scanning**: vsnprintf's state machine against the meaning of its
  directives, truncation, and the round trip with vsscanf (`Numerals`,
  `Conversions`, `Vsnprintf`, `Directives`, `Vsscanf`), and what all of it means in the
  terms of a manual (`Printed`).
- **The Internet checksum** of sections 1 and 2 of RFC 1071 (`Checksum`).

Operations that update state in place are methods of a class with its invariant in
`Valid()`; each is tied to a function on values, and the laws are lemmas about
those functions. `dafny verify dfyconfig.toml` checks the whole project.

Where the code does something other than its comments or callers expect, the model
follows the code and the contracts say exactly when:

- `cofs_truncate` visits one block past the end, so on a file of six or more whole
  blocks it reads a missing pointer and frees block 0 (`Cofs.FileSystem.Truncate`,
  `CofsRun.SixFullBlocks`).
- `block_alloc` scans whole bitmap blocks and hands out a block past the size of the
  device when all on it are in use (`Cofs.FileSystem.BlockAlloc`); the runs end where
  the files no longer fit the device (`CofsRun.DoWrite`).
- `MAX_FILE_SIZE` is an unparenthesised sum, so `cofs_write` tests a smaller limit
  than the capacity; the range proof goes through with the limit as it is.
- `get_hd_buf` never meets its test for exhaustion; with all 200 buffers held it
  takes the last one from its holder (`HdQueue.Queue.GetHdBuf`).
- `cofs_unlink` searches for the node's own name, which for the root is "/"
  (`CofsDir.Unlink`).
- `mkcofs` tests the file size against the capacity with `>` where `>=` is needed, and
  rounds the root's size up even when it is a whole number of blocks, which leaves the
  root without its last block (`Mkcofs.Image.RoundRoot`, `MakeImage.MakeAndMount`).
- `_sbrk` fails with the break already moved past the limit (`Malloc.Heap.Sbrk`), and
  `malloc` looks at its result for the first page only, so it goes on past the limit
  (`Malloc.Heap.Malloc`).
- `free` of a pointer that is no payload runs off the list exactly when the last block
  is empty, which happens (`Malloc.EmptyTail`), and aborts otherwise
  (`Malloc.Heap.Free`).
- An exit of init returns with task switching still locked (`Tasks.ExitLocks`).
- A format that ends within a directive loses its last character
  (`Directives.EveryFormat`); `%hd` reads a 64-bit argument, and `%.*d` takes one
  argument and puts `%*d`.
- `+` breaks the print and scan round trip for positive and for unsigned numbers
  (`Vsscanf.PrintScan`).
- The checksum is wrong exactly when its 32-bit sum overflows (`Checksum.OverflowIff`),
  which takes at least 65538 words (`Checksum.OverflowBeyond`); the receiver's check of
  it is zero even then (`Checksum.SendAndCheck`).

## Model

| member | source | states |
|---|---|---|
| Block.WordOfWithWord | cofs.c:335-336 | Writing word i of an indirect block changes word i and no other |
| Block.BitOfWithBit | cofs.c:86-89 | Setting or clearing bit i of a bitmap block changes bit i and no other |
| Block.FullWord | cofs.c:79-83 | A bitmap word is all ones exactly when its 32 bits are all set, so skipping it skips no free block |
| CofsLayout.Ownership | cofs.c:318-368 | Under the invariant all non-zero pointers of all files, indirect blocks and their entries included, are pairwise distinct data blocks with their bit set, and every set data bit is named by some pointer |
| CofsLayout.HeldApart | cofs.c:318-368 | The bitmap block or free block asked for while an indirect block is held is never that block, so cofs never asks the cache for a block it holds |
| CofsLayout.ServedBy | cofs.c:323-344 | Which pointers a file block hangs on: its own, plus the single-indirect one, or the double-indirect one and its middle block |
| CofsLayout.TakeInv | cofs.c:72-101 | Putting a free block into an empty pointer keeps the ownership invariant and changes that pointer only |
| CofsLayout.TakeBytes | cofs.c:61-101 | Taking a block changes the bytes of no file, because the block is zeroed |
| CofsLayout.GiveInv | cofs.c:104-119 | Clearing a pointer together with its bit keeps the ownership invariant |
| CofsLayout.GrownDense | cofs.c:318-368 | Filling the pointers of the block after the last one leaves a file without holes or idle indirect blocks |
| Cofs.FirstClear | cofs.c:79-95 | The lowest clear bit of a bitmap block, or none when all are set |
| Cofs.FileSystem.BlockAlloc | cofs.c:72-101 | Takes the lowest free block, marks and zeroes it; fails only when every bit is set; the block lies past the device size exactly when all below are used |
| Cofs.LowestTaken | cofs.c:72-101 | An allocation goes past the device only when every block on it is in use |
| Cofs.FileSystem.BlockFree | cofs.c:104-119 | Clears the bit of a used block, and panics exactly when the block is free already |
| Cofs.FileSystem.ScanBlock | cofs.c:370-383 | Zero exactly when all 128 words of the block are zero |
| Cofs.FileSystem.BlockMap | cofs.c:318-368 | Returns the disk block of a file block in all three ranges, allocating what is missing; a block that is mapped comes back with nothing changed; no pointer moves, no file's bytes change, ownership holds; fails only out of range or on a full disk, and then leaves the block unmapped |
| Cofs.FileSystem.ReadBlock | cofs.c:474-483 | One turn of the loop gives the bytes of the file that lie in that block |
| Cofs.FileSystem.Read | cofs.c:467-486 | Returns exactly the slice of the file at the offset and changes no file's bytes; of a dense file it changes no block at all and never fails, unless offset + size wraps 32 bits |
| Cofs.FileSystem.Write | cofs.c:491-518 | The file becomes the old bytes with the buffer spliced in; all other files keep bytes and blocks; refused writes change nothing; a dense file stays dense, and a write within it never fails; a write that fails for space leaves the disk full and the file short of a block it needs |
| Cofs.DenseMapped | cofs.c:467-486 | A file without holes has a block for each of its bytes, so reading it allocates nothing |
| Cofs.FileSystem.TruncateBlock | cofs.c:402-453 | One turn of the loop frees that file block and each indirect block it empties, unless the block is missing past the direct range, when block 0 is freed instead |
| Cofs.FileSystem.Truncate | cofs.c:388-458 | Frees exactly the blocks from length on and the emptied indirect blocks and keeps the first length bytes, if and only if the old size is not a whole number of blocks, six or more and below capacity |
| Cofs.FileSystem.FreeIfEmpty | cofs.c:417-421 | Frees an indirect block exactly when it has no entry left, with no change to any file's bytes |
| Cofs.FileSystem.FreeData | cofs.c:410-416 | Clears an entry of an indirect block and frees its data block; a missing entry clears bit 0 of the bitmap |
| Cofs.SpliceOverlaid | cofs.c:491-518 | Laying the chunks over the file block by block gives the flat splice of the whole buffer |
| Cofs.TrimmedEnd | cofs.c:402-457 | After the last turn the file is dense for the new length, its kept pointers are the old ones, and its bytes are the prefix |
| CofsCensus.SlotsBelowCount | cofs.c:318-368 | How many blocks a file takes by its size: its data blocks, and the indirect blocks it needs for them |
| CofsCensus.OwnedCount | cofs.c:318-368 | A file owns at most one block for each pointer, and one for each exactly when none is empty |
| CofsCensus.OwnerBound | cofs.c:72-101 | The data blocks in use fit the disk, and are all of it when the disk is full |
| CofsCensus.DeviceBound | cofs.c:72-101 | Files on the device take no more blocks than it has |
| CofsCensus.DeviceIff | cofs.c:72-101 | After any allocations all blocks in use lie on the device exactly when there are no more of them than it has data blocks |
| CofsCensus.Census | cofs.c:72-119 | Conservation: as many data blocks are in use as the sizes of all files call for |
| CofsCensus.ShortDemand | cofs.c:97-98 | A write that finds the disk full was asked for files the disk cannot hold |
| CofsCensus.ShortCount | cofs.c:318-368 | A file that lacks a block it needs means that the files call for more blocks than are in use |
| CofsRun.DoRead | cofs.c:467-486 | A read of a dense file runs exactly when it does not wrap 32 bits, leaves the disk as it is, and answers as the flat file does |
| CofsRun.DoWrite | cofs.c:491-518 | A write runs exactly when it is refused, or does not wrap and the resulting files fit the device; it then does what it does on flat files; files that fit only the blocks past the device stray, larger ones find the disk full |
| CofsRun.DoTruncate | cofs.c:388-458 | A truncate runs exactly when its assertions hold and the size is not a bad one; it then does what it does on flat files |
| CofsRun.Run | cofs.c:388-518 | Any run of reads, writes and truncates on any files agrees with the same run on a map of byte sequences, answer by answer, keeps ownership, and keeps every block on the device; it ends with the first operation that those byte sequences forbid, with the status they call for |
| CofsRun.Step | cofs.c:388-518 | One operation refines the operation on flat files; whether it runs, and how it fails, is decided by the flat files and the sizes of the device and its bitmap |
| CofsRun.MarksPast | cofs.c:72-101 | A block past the device is marked in the bitmap exactly when some file has one |
| CofsRun.ReadBack | cofs.c:467-518 | What was written is read back, whatever is done to other files in between |
| CofsRun.ReadLaw | cofs.c:467-486 | A read within 32 bits always runs and gives the bytes from the offset on, as many as there are and were asked for |
| CofsRun.WriteLaw | cofs.c:491-518 | A write that starts within the file and ends by byte 8388742 runs exactly when the device has blocks enough; byte by byte it leaves the data at its place and all else as it was |
| CofsRun.TruncateLaw | cofs.c:388-458 | A truncate runs exactly to a whole number of 512-byte blocks within the size, of a file not of six or more whole blocks, and keeps that many bytes |
| CofsRun.SixFullBlocks | cofs.c:397-421 | A concrete run on a disk that goes wrong: six full blocks written to an empty file and truncated panic or break the ownership invariant |
| CofsDir.EntryRoundTrip | cofs.c:620-621 | An entry's inode number and name are read back from its 32 bytes when the name is shorter than DIRSIZE |
| CofsDir.SpliceEntries | cofs.c:622-624 | Writing one entry's bytes replaces or appends that entry and leaves the others |
| CofsDir.LinkRepresents | cofs.c:603-626 | Filling a free slot, or a new one, adds one binding to the map and keeps live names distinct |
| CofsDir.UnlinkRepresents | cofs.c:749-753 | Clearing a live slot removes its binding and no other |
| CofsDir.LinkedIs | cofs.c:603-626 | On the bytes of a directory, writing the new entry into the first free slot adds its binding |
| CofsDir.ClearedIs | cofs.c:741-753 | On the bytes of a directory, clearing the entry of a name removes its binding |
| CofsDir.FindDir | cofs.c:545-572 | Agrees with lookup in the finite map that the directory represents; on a dense directory it never fails and changes nothing |
| CofsDir.DirLink | cofs.c:603-626 | Binds a new name in the first free slot and refuses exactly an existing one; the other files keep bytes and blocks; a dense directory stays dense, and fails only when full |
| CofsDir.Unlink | cofs.c:729-764 | Removes the binding and no other; the other files keep bytes and blocks; of a dense directory it never lacks space, and returns 0 with exactly that name gone for every name bound to an inode other than 1; an entry that names the root meets the assertion instead, unless "/" is an entry |
| CofsTree.TreeDoOk | cofs.c:603-764 | An operation that runs leaves every directory a directory, with the names the operation calls for |
| CofsTree.DoLink | cofs.c:603-626 | Runs exactly when the name is there already, or the entry lies below the write limit and the device can hold the longer directory |
| CofsTree.DoUnlink | cofs.c:729-764 | Never lacks space; meets the assertion exactly when the second search finds nothing or the entry lies past the write limit |
| CofsTree.TreeRun | cofs.c:388-764 | Any run of file operations, reads of directories included, and of finds, links and unlinks on one disk agrees, reply by reply, with flat files and maps from names to inode numbers, with every block on the device, and ends with the first operation they forbid |
| CofsTree.LinkLaw | cofs.c:603-626 | Linking a new name runs exactly when the device has blocks enough, replies 0, and adds that binding and nothing else |
| CofsTree.UnlinkLaw | cofs.c:729-764 | Unlinking a name bound to an inode other than the root runs, replies 0, and takes that binding and nothing else |
| CofsTree.UnlinkRoot | cofs.c:741-747 | Unlinking a name bound to the root meets the assertion, unless "/" is an entry |
| CofsTree.LinkUnlink | cofs.c:603-764 | A name that was linked can be unlinked at once, which restores every directory |
| CofsTree.RunLinkUnlink | cofs.c:603-764 | In every run a link that replied 0, not to the root, is undone by the unlink after it, which replies 0 |
| CofsTree.FindAfterLink | cofs.c:545-626 | In every run a find replies the inode number last linked under that name, whatever is done to files, other directories and other names in between |
| CofsTree.FindAfterUnlink | cofs.c:545-764 | In every run a find of an unlinked name replies 0 until it is linked again |
| CofsFormat.ByteOnDisk | cofs.c:318-368 | Byte i of a file is byte i % 512 of the block that its address array leads to: six addresses, 128 little-endian ones in the block of address 6, 128 times 128 under address 7 |
| CofsFormat.BitOnDisk | cofs.c:72-119 | Block 4096 * q + r is in use exactly when bit r % 8 of byte r / 8 of bitmap block q is set |
| CofsFormat.RecordsOnDisk | cofs.h:57-61 | A name is bound to an inode number exactly when the directory has a 32-byte record of the two |
| CofsFormat.LinkSlot | cofs.c:611-624 | A link writes its record over the first one with inode number 0, or behind the last, and no other byte |
| CofsFormat.WriteLimit | cofs.c:496-501 | A write is refused exactly when it starts past the end or ends past byte 8388742 |
| CofsFormat.LayoutNumbers | util/mkcofs.c:193-217 | The bitmap starts at block 2 with a bit for each block, then inodes of 64 bytes, one for each 4096 bytes, then the data |
| Mkcofs.Layout | util/mkcofs.c:193-228 | The block layout for a device size, with its 32-bit product, is a valid one whenever the size has room for the metadata |
| Mkcofs.Image.constructor | util/mkcofs.c:193-246 | The empty image satisfies the ownership invariant once its bitmap is written |
| Mkcofs.Image.InodeAlloc | util/mkcofs.c:75-85 | A new inode number, an empty dense file, and nothing else changed |
| Mkcofs.Image.BlockFor | util/mkcofs.c:116-156 | Fills every pointer the file block hangs on, in all three ranges, from the block counter |
| Mkcofs.Image.Append | util/mkcofs.c:105-170 | Appends the data to the file; the other files keep bytes and blocks; dense files stay dense and zero past their end; ownership kept; exits only at the last sector, with the file short of a block, or past the capacity |
| Mkcofs.Image.RoundRoot | util/mkcofs.c:293-299 | Zeros are added to the root up to past its last block; it keeps a block for each of its blocks exactly when its size was not a whole number of blocks |
| Mkcofs.Image.WriteBitmap | util/mkcofs.c:87-100 | Exactly the blocks handed out are marked, so the finished image satisfies the file system's invariant with all pointers and contents as they were; fails exactly for more than one bitmap block |
| Mkcofs.FirstBits | util/mkcofs.c:87-100 | The bitmap block has its first `used` bits set and no other |
| Mkcofs.AgreeInv | util/mkcofs.c:87-170 | Writing the bitmap last gives the same files and the invariant that marking every block when taken would give |
| MakeImage.AppendIs | util/mkcofs.c:257-265 | An entry appended to a directory file adds its binding |
| MakeImage.PadIs | util/mkcofs.c:296-298 | The zeros that rounding adds are free entries and bind nothing |
| MakeImage.AddInput | util/mkcofs.c:277-290 | Each input gets the next inode, an entry in the root and its contents, and no other file changes; exits only when root and inputs call for more blocks than the image has room for |
| MakeImage.PlanGrows | util/mkcofs.c:277-290 | Root and inputs call for at least as many blocks as root and the first of them, so an exit on the way means that the whole does not fit |
| MakeImage.Finish | util/mkcofs.c:293-300 | Fails exactly when more blocks were used than one bitmap block marks, which is when root and inputs do not fit; otherwise the image has the invariant, and the root lacks its last block exactly when its entries fill whole blocks |
| MakeImage.MakeAndMount | util/mkcofs.c:250-300 | An image is made exactly when root and inputs call for no more blocks than the device has and one bitmap block marks; it holds every input, and, names permitting, inode 1 binds each input's name to a file with its contents and "." and ".." to itself; the proved runs of file and directory operations start from it exactly when the number of entries is no multiple of 16: otherwise the first read that reaches the root's missing block allocates it |
| HdQueue.HeldCount | hd_queue.c:85-95 | Every buffer is in use exactly when as many blocks are held as there are buffers |
| HdQueue.HeldUpdate | hd_queue.c:59-130 | Changing one buffer changes what clients see at its block only |
| HdQueue.Queue.GetHdBuf | hd_queue.c:59-105 | Below 200 held blocks the buffer shows the block's last contents and no holder is disturbed; with 200 held the last buffer is taken from its holder, and the exhaustion test never fires |
| HdQueue.Queue.PutHdBuf | hd_queue.c:113-130 | Makes the buffer's contents those of the block, on the disk and for the next get |
| HdQueue.Queue.Write | hd_queue.c:113-130 | A holder's change to a buffer shows in its own block only |
| HdQueue.Queue.HdRw | hd_queue.c:102-102 | A dirty buffer is written to its block, a clean one is filled from it |
| HdQueue.Queue.Run | hd_queue.c:59-130 | Every sequence of get, modify and put with nested holds behaves as on a plain array of blocks |
| HdQueue.WrittenStays | hd_queue.c:59-130 | In every run a block that was modified and put holds what was written until somebody else touches it, and the next get sees that |
| HdQueue.OthersStay | hd_queue.c:59-130 | Operations on other blocks leave a block and its buffer as they are |
| HdQueue.OnlyPutsWrite | hd_queue.c:113-130 | A modification that has not been put changes no block |
| HdQueue.GetSees | hd_queue.c:59-105 | A get sees the block as it stands, for as long as that buffer is not modified |
| HdQueue.GetThenPut | hd_queue.c:59-130 | A block got and put unmodified keeps its contents |
| HdQueue.RoomForMore | hd_queue.c:85-95 | Any block that is not held may be got while fewer than 200 are |
| Malloc.LiveDisjoint | lib/malloc.c:46-96 | No two live payloads overlap and none leaves the heap |
| Malloc.HeadersApart | lib/malloc.c:46-96 | No live payload overlaps the header of any block, free or in use |
| Malloc.SplitInv | lib/malloc.c:68-91 | Growing the last block page by page and splitting keeps the tiling, with no two free neighbours and a free last block |
| Malloc.SplitLive | lib/malloc.c:46-96 | Allocation adds exactly one payload, of the rounded size, to the live ones |
| Malloc.EmptyTail | lib/malloc.c:74-90 | A heap whose last block is empty is reached by one allocation |
| Malloc.ReleaseInv | lib/malloc.c:127-164 | Releasing with two-sided merging keeps the tiling and leaves no two free neighbours |
| Malloc.ReleaseLive | lib/malloc.c:127-164 | Releasing removes exactly one payload from the live ones |
| Malloc.ContractedEndRange | lib/malloc.c:98-115 | Contraction never moves the break up, moves it by whole pages, and leaves a tail of more than one page and at most two |
| Malloc.ContractInv | lib/malloc.c:98-115 | Contraction keeps the tiling and every live payload |
| Malloc.PagesExact | mem.c:616-661 | A whole number of pages asked of sbrk is exactly what it walks |
| Malloc.Heap.Sbrk | mem.c:616-661 | Moves the break by whole pages either way; it fails with the break already moved, to the first page end at or past the limit, or below the start |
| Malloc.Heap.InitFirstBlock | lib/malloc.c:29-44 | One page holding one free block; fails exactly when that page reaches the limit, with the break moved |
| Malloc.Heap.Search | lib/malloc.c:60-75 | Ends with the first free block that fits, or the last block grown until it does; sbrk is asked only for that growth |
| Malloc.Heap.Malloc | lib/malloc.c:46-96 | First fit, exactly: the block list and the break after it, and when a free block is large enough the first such block is taken and the break stays; the payload is aligned, was not live, and joins the live ones; the heap below the old break keeps its contents; sbrk may report failure, and the block is good all the same; reads through NULL exactly when the first page of the heap reaches the limit |
| Malloc.Heap.HeapContract | lib/malloc.c:98-115 | Keeps every live payload; the break moves down by whole pages; the last block is at most two pages |
| Malloc.Heap.Free | lib/malloc.c:127-164 | Removes exactly that payload from the live ones and leaves a last block of at most two pages; a pointer that is no payload runs off the list exactly when the last block is empty or there is none, and aborts otherwise; NULL is ignored |
| Malloc.Heap.Realloc | lib/malloc.c:174-192 | The new payload starts with the common prefix of the old; every other live payload keeps size and contents |
| Paging.PopChain | mem.c:90-107 | Unlinking the head leaves an acyclic free list of the remaining frames |
| Paging.PushChain | mem.c:183-195 | Linking a frame that is not free in front leaves an acyclic free list |
| Paging.Memory.FrameAlloc | mem.c:90-107 | Takes the head of the free list; fails exactly when it is empty |
| Paging.Memory.FrameCalloc | mem.c:113-126 | As frame_alloc, with the frame zeroed |
| Paging.Memory.FrameFree | mem.c:183-195 | Puts the frame in front of the free list; the count follows the list's length |
| Paging.Memory.LinkPde | mem.c:455-461 | The new directory gets the same entry as the old one |
| Paging.Memory.ClonePde | mem.c:468-500 | A private entry gets a new table and, for every present page, a fresh frame with equal contents and flags; it succeeds exactly when there are that many free frames |
| Paging.Memory.CloneDirectory | mem.c:539-560 | Every linked entry is the old one, every private page is a fresh copy with the same flags, and exactly the new directory's frames have left the free list; it succeeds exactly when there is a frame for the directory and for each private table and page |
| Paging.Memory.FreePde | mem.c:505-525 | Frees every page of a private entry, then its table, each once |
| Paging.Memory.FreeDirectory | mem.c:565-584 | Exactly the private frames, their tables and the directory return to the free list; all other frames keep their contents |
| Paging.Memory.CloneAndFree | mem.c:539-584 | Succeeds exactly when there are frames enough for a clone; then the same frames are free as before, and every frame in use is unchanged |
| Paging.ClonedSolid | mem.c:539-560 | No present entry of the cloned directory names frame 0, so that it can be freed |
| Paging.TakenCount | mem.c:90-126 | Free frames and taken frames together are the old free frames, in number and as a set |
| Paging.AddressRanges | mem.c:546-556 | A fork copies the addresses from 0x0FC00000 to 0xD0000000 and from 0xE0000000 to 0xFFC00000, and shares those below and between |
| Paging.EntryBits | mem.h:11-20 | An entry is a present bit, twelve bits of flags and the number of a 4096-byte frame |
| Spaces.SpaceReadable | mem.c:539-560 | A space whose frames are in use can be cloned |
| Spaces.StoreKeeps | mem.c:468-560 | A store keeps every space and its mapping, and changes what is seen in that one page of its own space only |
| Spaces.RunIsolated | mem.c:468-560 | Over every run of stores by all processes each private page shows its old contents with the stores of its own process replayed, and nothing else |
| Spaces.ForkIsolation | mem.c:455-560 | After a fork and any run of stores parent and child each see the pages of the fork with their own stores replayed, and nothing of each other's |
| Spaces.Fork | mem.c:539-560 | The child shows the parent's private pages and shares its linked ones; it is apart from every space there was, and none of them sees a change; it takes as many free frames as the parent has for its own and fails exactly when there are fewer; the frames free or owned stay the same |
| Spaces.Release | mem.c:565-584 | Gives back exactly the frames of the space; no other space sees a change; the frames free or owned stay the same |
| Spaces.OwnerCost | mem.c:539-560 | What a clone costs, a frame for the directory and for each private table and page, is the number of frames the space has for its own |
| Mapping.EnsureTable | mem.c:418-422 | The table a page needs is there, or takes one frame, zeroed; nobody sees a page more or less |
| Mapping.MapPage | sysproc.c:121-123 | A frame mapped at a private page: takes one frame, or two with the table, and fails exactly when there are fewer; the process sees that page with what the frame held, and nobody sees any other change |
| Mapping.FreePage | mem.c:393-403 | The page is wiped and unmapped and its frame is the next to be allocated; nobody sees any other change |
| Mapping.TableAdded | mem.c:418-422 | A new empty table changes what no process sees |
| Mapping.PageAdded | mem.c:423-423 | An entry for a frame of nobody's adds that page to one space and changes no other page of any |
| Mapping.PageDropped | mem.c:393-403 | A cleared entry takes that page from one space and changes no other page of any |
| Spaces.StoreWord | mem.c:368-380 | A store walks the two levels of its space and keeps all spaces apart |
| Processes.DoFork | mem.c:539-560 | The child's table of pages is the parent's at the fork, every other process keeps its own; succeeds exactly when as many frames are free as the parent has tables and pages, and its directory |
| Processes.DoRelease | mem.c:565-584 | The process is gone, every other process keeps its table of pages, and a frame for each of its tables and pages, and its directory, is free again |
| Processes.DoMap | sysproc.c:121-123 | The process gets that page, in a table it has or gets, at the price of one or two frames; every other process keeps its table of pages |
| Processes.DoFree | mem.c:393-403 | The process loses that page and keeps the table; every other process keeps its table of pages |
| Processes.DoStore | mem.c:468-560 | A store to a private page changes that page of that process and nothing else that anyone sees |
| Processes.DoShared | mem.c:455-461 | A store to a page of the kernel through any directory is seen by all processes, and changes no private page |
| Processes.SharedShown | mem.c:455-461 | Every process sees the kernel's pages at the same entries with the same contents |
| Processes.DoOp | mem.c:393-584 | One operation fails exactly when it asks for more frames than are free; otherwise what the processes have more is what the free list has less |
| Processes.IsMapped | mem.c:345-362 | Says whether the process has that page |
| Processes.ProcRun | mem.c:393-584 | Over every run of forks, releases, mappings, unmappings and stores the processes see independent tables of pages, one each, that a fork copies, and all see the same pages of the kernel; the run ends early exactly at an operation that may not be asked for, or that asks for more frames than the processes leave of a fixed room; the frames free or owned are the same throughout |
| Processes.RunReplays | mem.c:455-584 | Over every run a page that a process keeps holds what it held with the stores of that process alone replayed, and a page of the kernel with the stores of all |
| Processes.FoundAt | mem.c:539-560 | At a copied address a process finds its own page, in a frame no other process finds at any copied address; at a shared address all find the same frame |
| Processes.ForkIsolates | mem.c:539-560 | After a fork and any run, at every copied address parent and child each find what the parent had at the fork with their own stores replayed, and nothing of the other's |
| Processes.SharedByAll | mem.c:455-461 | At a shared address everyone finds the stores of all processes |
| Processes.HitAt | mem.c:546-556 | Which stores change the page at an address: those of its process, or of all |
| Boot.ReserveRegion | mem.c:203-236 | Exactly the frames that begin in the region, other than 0 and those from the video memory to the kernel's end, join the free list |
| Boot.ReserveMemory | mem.c:241-251 | The free list has exactly the usable frames other than 0 and the kernel's |
| Boot.IdentityMapPage | mem.c:271-282 | The page is mapped to the frame of its own number, in a new table exactly when there was none |
| Boot.IdentityMapKernel | mem.c:290-297 | Every page from the video memory to the kernel's end is mapped to itself and keeps its contents; fails exactly when there are fewer frames than tables |
| Boot.MemInit | mem.c:682-697 | From any memory contents and usable regions: one process that sees the kernel's pages and has no private page, and all other usable frames free, exactly when the usable frames are enough for the directory, the tables of the kernel's pages and that of the reserved page |
| Boot.BootRun | mem.c:393-697 | From boot every run of the first process and its descendants goes exactly as far as the usable frames, less the kernel's tables, have room for it, and the memory shows the tables of pages it leads to |
| Boot.FreeAfterBoot | mem.c:203-251 | Free after boot are the frames of usable memory other than frame 0 and those from 0xB8000 to the end of the kernel |
| Boot.IdentityAt | mem.c:271-297 | The kernel's addresses from 0xB8000 to its end translate to themselves |
| Tasks.InitialInv | task.c:54-88 | The initial task list satisfies the invariant |
| Tasks.ForkInv | task.c:209-266 | Fork keeps the process invariant |
| Tasks.SwitchInv | task.c:179-203 | Switching keeps the process invariant |
| Tasks.WakeupInv | task.c:341-355 | Waking keeps the process invariant |
| Tasks.SleepOnInv | task.c:313-321 | Sleeping keeps the process invariant, no wakeup being lost |
| Tasks.ReapInv | task.c:279-311 | The child reaped has exited, its wait queue is empty and it is freed for the first time, so the assertion holds |
| Tasks.DieInv | task.c:405-449 | Exit keeps the invariant: the parent is live, the children go to init, the task waits in one wait queue with an empty one of its own |
| Tasks.ExitInv | task.c:405-449 | Exit and the switch after it keep the process invariant |
| Tasks.ExitLocks | task.c:410-415 | An exit leaves switching locked exactly when it is init's, and then no switch and no tick changes the running task |
| Tasks.RunInv | task.c:209-449 | The invariant holds in every state of every run of the calls |
| Tasks.ProcessConservation | task.c:209-449 | Each pid issued is live in the queue, or exited in exactly one live task's wait queue, or freed exactly once; parents of live tasks are live |
| Tasks.PickNearest | task.c:179-203 | The task chosen is no farther along the cyclic scan than any ready one |
| Tasks.RoundRobin | task.c:179-203 | A task that stays ready is chosen within as many switches as there are tasks |
| Tasks.SleepStarts | task.c:329-336 | A timed sleep starts with a deadline of ceil(ms / 10) ticks, unless that passes 2^32 |
| Tasks.TimedSleep | task.c:167-177 | A sleeper not woken by address is not chosen until more ticks than that have passed, over every run |
| Tasks.ReadyIff | task.c:167-203 | A task can be chosen exactly when it runs, has been woken, or sleeps with a deadline that has passed |
| Tasks.Overdue | task.c:167-177 | A sleeper past its deadline can be chosen, and then runs with no deadline left |
| Tasks.WakeupWakes | task.c:341-355 | A wakeup makes runnable every task that sleeps on the address and changes no other |
| Tasks.SleepStarted | task.c:313-321 | The caller sleeps on the address with the deadline it has |
| Tasks.TickCounts | task.c:268-274 | A tick counts in 32 bits |
| Tasks.TicksRounded | task.c:329-333 | Milliseconds in ticks of ten, rounded up |
| Families.ForkChild | task.c:209-266 | A fork makes the next pid a child of the caller, ready to run and with nothing to wait for, and changes nobody else |
| Families.ExitFamily | task.c:405-449 | An exit makes the caller's live children init's, leaves it waiting for its parent with its status, and frees the children it never waited for |
| Families.ReapFamily | task.c:382-392 | A reap frees the first of the caller's exited children and changes no other family |
| Families.ChildStep | task.c:209-449 | A child stays one until it exits, when it waits for its parent with its status, or its parent does, when it is init's |
| Families.ZombieStep | task.c:357-449 | An exited child keeps its status until its parent's wait returns it, or the parent exits |
| Families.ForkFate | task.c:209-449 | Over every run a forked child whose parent lives is its child, or has exited and waits with that status, or was waited for by that parent, which got its pid and that status |
| Families.WaitReturns | task.c:357-394 | Over every run a wait returns a forked child only with the status it exited with, and reports no children only when every child forked has been waited for |
| Families.ReapedExited | task.c:357-449 | Over every run from boot, whoever a wait returns has exited with the status returned |
| Kernel.Scheduler.constructor | task.c:54-88 | The scheduler starts in the initial state of the step machine |
| Kernel.Scheduler.ForkInt | task.c:209-266 | Does the machine's fork: a new pid at the tail of the queue |
| Kernel.Scheduler.WakeCheck | task.c:167-177 | Wakes exactly a sleeper with a deadline that has passed |
| Kernel.Scheduler.Scan | task.c:186-197 | Each loop stops at the first ready task and wakes no one before it |
| Kernel.Scheduler.SwitchInner | task.c:179-203 | The two loops together choose what the machine's switch chooses; panics exactly when no task is ready |
| Kernel.Scheduler.TaskSwitch | task.c:268-274 | Does the machine's switch and keeps the invariant |
| Kernel.Scheduler.WakeupAt | task.c:341-355 | Wakes exactly the tasks that sleep on the address, and returns how many they are |
| Kernel.Scheduler.SleepOnAddr | task.c:313-321 | Does the machine's sleep and keeps the invariant |
| Kernel.Scheduler.SleepOnAddrMs | task.c:329-336 | Does the machine's timed sleep, with the deadline rounded up to ticks |
| Kernel.Scheduler.TimerTick | task.c:268-274 | A tick counts, then does the machine's switch and keeps the invariant |
| Kernel.Scheduler.TaskFree | task.c:279-311 | Removes the task's structure; its assertions are met at every call |
| Kernel.Scheduler.TaskWait | task.c:357-374 | Returns without children, sleeps, or reaps, as the machine does, and keeps the invariant |
| Kernel.Scheduler.TaskWaitResume | task.c:376-394 | After the sleep: reaps the first exited child, or reports that it woke too early |
| Kernel.Scheduler.FindChild | task.c:363-372 | Finds a child in the queue exactly when there is one |
| Kernel.Scheduler.ReapHead | task.c:376-394 | Takes the first exited child off the wait queue, gives its pid and status, and frees it |
| Kernel.Scheduler.LeaveQueue | task.c:416-424 | One pass finds the live parent, hands every child to init and unlinks the task |
| Kernel.Scheduler.FreeWaitQueue | task.c:425-432 | Frees each exited child the task has not waited for, once |
| Kernel.Scheduler.Leave | task.c:405-446 | Does all of the machine's exit but the switch |
| Kernel.Scheduler.TaskExit | task.c:405-449 | Does the machine's exit and keeps the invariant |
| LinkedList.List.AddNode | list.c:31-41 | Appends at the tail and keeps both link directions and the count |
| LinkedList.List.Add | list.c:44-50 | The items become the old ones followed by the new one |
| LinkedList.List.InsertBefore | list.c:52-72 | Inserts in front of the given node, or at the tail for none; the other items keep their order |
| LinkedList.List.LinkBefore | list.c:62-69 | Relinks both neighbours so that the chain is the old one with the node inserted |
| LinkedList.List.Del | list.c:74-94 | The items are the old ones without the one deleted; both link directions stay right |
| Bits.SubmaskLess | route.c:95-97 | A submask of a mask never gives a larger base for the same address |
| Bits.PrefixCovered | route.c:95-97 | Of two contiguous masks one covers the other |
| Route.AddSorted | route.c:26-61 | Adding keeps the table strictly descending by base and mask, with bases inside their masks |
| Route.FirstMaximal | route.c:89-102 | Whatever the masks, no matching route has a mask with all the bits of the found one and more |
| Route.FindsLongestIff | route.c:89-102 | The found route's mask covers that of every match exactly when the table has such a route, and then it is the only one |
| Route.LongestPrefixMatch | route.c:89-102 | With contiguous masks the found route has the longest mask of those that match, strictly; none is found only if none matches |
| Route.ScatteredMasks | route.c:89-102 | A table with scattered masks whose first match is not the longest |
| Route.AddRecords | route.c:26-61 | The table holds one route per target asked for, the first request for it, and nothing else |
| Route.LookupAfterRun | route.c:26-102 | After any run of adds with contiguous masks lookup gives the first request for the longest matching target |
| Bits.AndPrefix | route.c:95-97 | A prefix mask clears exactly the bits below the prefix |
| Route.AsksIff | route.c:95-97 | Masking and comparing is comparing the leading bits |
| Route.BestRoute | route.c:26-102 | After any run of adds lookup gives gateway and interface of the first request with the longest prefix of the address, and nothing exactly when no request has one |
| Route.Table.RouteExists | route.c:8-21 | 0 exactly when a route has that base and mask, -1 otherwise |
| Route.Table.FindPlace | route.c:50-55 | Stops at the first route the new one goes in front of |
| Route.Table.RouteAdd | route.c:26-61 | Inserts the masked route in order, or refuses exactly an existing target |
| Route.Table.RouteFind | route.c:89-102 | Gives the first match in table order, or none when nothing matches |
| Pipe.SlotAcrossWrap | pipe.c:86-86 | The ring slot of a 32-bit counter is that of the true count, since 1024 divides 2^32 |
| Pipe.CountersTell | pipe.c:77-105 | Wrapped counters are equal exactly when nothing is pending, and 1024 apart exactly when the ring is full |
| Pipe.PutHolds | pipe.c:115-115 | Storing a byte overwrites no pending one |
| Pipe.ReadOutcome | pipe.c:67-92 | A read of size > 0 sleeps exactly when drained with writers, returns nothing exactly when drained without, and else the oldest bytes, as many as asked for or pending |
| Pipe.WriteOutcome | pipe.c:94-121 | A write section that does not finish leaves the pipe full; it gives up exactly when there are no readers |
| Pipe.StepInv | pipe.c:9-121 | Every locked section keeps the pipe's invariant and every writer's progress |
| Pipe.RunSafe | pipe.c:9-121 | Over every interleaving bytes read are a prefix of bytes written, at most 1024 are pending, and each call's bytes went in once and in order |
| Pipe.SingleWriter | pipe.c:67-121 | With one writer the reader gets a prefix of that writer's data |
| Pipe.Openers | pipe.c:9-65 | Over every run the counts are the openings of each side less the closings, and the pipe is freed exactly at the close after which both are zero |
| Pipe.EndOfFile | pipe.c:67-92 | Over every run a read returns nothing exactly when the pipe is drained and every writer that opened it has closed it, and sleeps exactly when one has not |
| Pipe.BrokenPipe | pipe.c:94-121 | Over every run a write gives up exactly when 1024 bytes are pending, data is left and every reader has closed |
| Pipe.VfsPipe.PipeOpen | pipe.c:9-31 | Counts a reader or writer, and panics exactly on the wrong side |
| Pipe.VfsPipe.PipeClose | pipe.c:33-65 | Uncounts the side and frees the pipe exactly when both counts are zero |
| Pipe.VfsPipe.TakeByte | pipe.c:86-86 | The byte taken is the oldest pending one |
| Pipe.VfsPipe.PutByte | pipe.c:115-115 | The byte becomes the newest pending one, the others are kept |
| Pipe.VfsPipe.PipeRead | pipe.c:67-92 | Does the read section of the queue, and leaves the rest of the caller's buffer alone |
| Pipe.VfsPipe.PipeWrite | pipe.c:94-121 | Does the write section of the queue from where the call had got to |
| Numerals.DigitsValue | lib/vsnprintf.c:92-96 | The digits printed for a number, read back in that base, are the number |
| Numerals.DigitsBound | lib/vsnprintf.c:66-96 | A 32-bit number has at most 32 digits in any base, so 64 places are enough |
| Conversions.Sink.Putc | lib/vsnprintf.c:38-43 | Counts every character and stores it only below the limit |
| Conversions.Sink.Collect | lib/vsnprintf.c:92-96 | The loop leaves the digits, least significant first, within its buffer |
| Conversions.IntTextLayout | lib/vsnprintf.c:98-131 | The field has the width asked or what the number needs; sign, prefix and digits stay whole at one end, spaces outside them, zeros only between sign and digits |
| Conversions.Sink.FmtInt | lib/vsnprintf.c:63-132 | Puts sign, prefix, padding and digits in the order of the flags |
| Conversions.Sink.FmtStr | lib/vsnprintf.c:134-180 | Puts the character or string padded to the width on the right side |
| Vsnprintf.GetAtoi | lib/vsnprintf.c:30-36 | The value and the end of the digits |
| Vsnprintf.Convert | lib/vsnprintf.c:266-309 | Puts the text of one conversion and consumes its argument |
| Vsnprintf.Turn | lib/vsnprintf.c:212-313 | One turn of the loop is one step of the machine |
| Vsnprintf.Vsnprintf | lib/vsnprintf.c:201-321 | Writes only below size; leaves the truncated output; returns the length of the unbounded output whatever the size |
| Directives.FixedWidth | lib/vsnprintf.c:239-241 | A width written in digits is read back as that number |
| Directives.OutputMeaning | lib/vsnprintf.c:201-313 | The state machine puts what the directives stand for, flags, widths, precisions and length modifiers included, in order, whatever follows them |
| Directives.FormatOutput | lib/vsnprintf.c:201-313 | A terminator is put exactly when no directive is cut short, after its flags, widths, precision or length modifiers |
| Directives.Decompose | lib/vsnprintf.c:212-313 | Every format is a row of complete directives and at most one that is cut short |
| Directives.EveryFormat | lib/vsnprintf.c:201-321 | For every format and arguments (no %c of NUL) the characters put are the meaning of its directives, and the terminator exactly when the last one is complete, so that the result is the text's length or one less |
| Directives.Truncated | lib/vsnprintf.c:314-320 | The buffer is the first size - 1 characters of the unbounded text and a terminator |
| Vsscanf.GetInt | lib/vsscanf.c:117-161 | Reads the number as the reader's specification does, in 64 bits, and stops where it stops |
| Vsscanf.ScanInt | lib/vsscanf.c:265-301 | Skips spaces, tests the first character and stores as much of the number within the field width as the object of that length modifier holds, or skips it, or stops |
| Vsscanf.BodyRead | lib/vsscanf.c:128-156 | Prefix, zeros and digits are read as the number, whatever the prefix |
| Vsscanf.PlusRead | lib/vsscanf.c:92-161 | After a plus sign a signed number reads as 0 and an unsigned one is rejected |
| Vsscanf.PrintScan | lib/vsscanf.c:92-161 | For every 32-bit value, width and flags and every length modifier of the scan, scanning the printed text stores the value back if and only if the plus flag is off, or the number is signed and not positive, or 0 in the object stored to |
| Vsscanf.FormatScan | lib/vsscanf.c:265-301 | The same from a format directive with any flags, widths, precision and length modifiers |
| Printed.CharacterClasses | lib/vsnprintf.c:212-262 | Which characters are flags, start a width, are length modifiers and are integer conversions |
| Printed.FlagLaw | lib/vsnprintf.c:222-233 | Each flag character asks for one thing, whatever else is there |
| Printed.SizingLaw | lib/vsnprintf.c:232-246 | The width is the number written or the argument of a star, whose sign asks for the left side |
| Printed.DigitWorth | lib/vsnprintf.c:74-96 | What each digit is worth, letters included |
| Printed.IntegerPrinted | lib/vsnprintf.c:63-132 | An integer directive prints spaces, sign, prefix, zeros, the numeral of its argument in the base and case of its conversion, and spaces; the one filling that the flags ask for is as long as the width lacks |
| Printed.PointerPrinted | lib/vsnprintf.c:290-294 | %p prints the 32 bits of the pointer in hexadecimal behind 0x |
| Printed.StringPrinted | lib/vsnprintf.c:160-180 | A string directive prints the string, or (null), filled up with spaces on the side the flags ask for |
| Printed.OthersPrinted | lib/vsnprintf.c:134-152 | %c prints one character filled up likewise, %% a percent sign, anything else itself behind one |
| Printed.ObjectSizes | lib/vsscanf.c:293-300 | As much of a scanned number is stored as the object of the length modifier has bits |
| Printed.SpaceCodes | lib/vsscanf.c:282-283 | The characters skipped before a number |
| Printed.FieldWidth | lib/vsscanf.c:117-161 | Of a longer row of digits exactly as many are read as the field width says |
| Checksum.FoldOnce | ip.c:24-25 | Folding lowers the sum and keeps its ones'-complement residue |
| Checksum.Fold | ip.c:24-25 | The loop ends with the residue |
| Checksum.SumFits | ip.c:18-23 | Up to 65537 words the 32-bit sum does not overflow |
| Checksum.WrapIff | ip.c:18-25 | A 32-bit sum that overflowed fewer than 65535 times has lost a carry for each, and the residue always shows it |
| Checksum.OverflowIff | ip.c:18-25 | For every length a C int can hold the folded sum is the ones'-complement sum of the words exactly when the 32-bit sum does not overflow |
| Checksum.OverflowBeyond | ip.c:18-23 | For n words of ones the checksum is right exactly up to n = 65537 |
| Checksum.IpCsum | ip.c:13-28 | The complement of the ones'-complement sum of the words, exactly when the 32-bit sum does not overflow |
| Checksum.StoredIff | udp.c:257-272 | Storing w in a zeroed aligned field makes the checksum zero exactly when sum and w add up to a positive multiple of 65535; the computed checksum does |
| Checksum.StoredChecks | udp.c:257-272 | The computed checksum stored in its zeroed field makes the 32-bit sum fold to all ones, overflow or not |
| Checksum.ChecksumFits | udp.c:257-272 | Adding the checksum to the 32-bit sum never carries out of it |
| Checksum.SendAndCheck | udp.c:257-272 | A header of any length and contents sent with its checksum checks to zero at the receiver, even where the sum overflows |
| Checksum.SumByte | ip.c:18-23 | Every byte counts, one at an even place once and one at an odd place 256 times |
| Checksum.ByteDetected | ip.c:13-28 | Any one byte changed changes the checksum of up to 65537 words |

## Left out

- Device and port code, interrupts, assembly, the console and tty, user programs, DHCP, DNS, ARP and TCP/IP sockets: hardware or user interface.
- The inode table on disk, the inode cache with its locks and reference counts, `cofs_update_node`, and the bytes of the superblock: inodes are a map from number to pointers and size.
- `cofs_readdir`, `cofs_mkdir`, `cofs_mknod` and `cofs_creat`: they only combine the modelled calls.
- Directory names of DIRSIZE bytes or more, which lose their terminator.
- `main` of mkcofs: argument handling and host files; the inode table's size is not checked there either.
- CofsDir.Unlink: does not model the link count, the inode cache and the release of a node that lost its last link.
- LinkedList.List.Del: does not model the list's free function and the release of the node's memory.
- Locks and preemption inside one call: each call of the cache, the task list and the file system is one step; only the pipe is split at its sleeps.
- `phys_block_alloc`, the move of the kernel stack at boot, mapping in the ranges that all processes share after boot, and the temporary mapping through the reserved page: stores go to the frame directly.
- Boot.MemInit: the usable regions are page aligned, apart from each other and within memory, and the kernel ends below the user stack, as the boot loader and the linker see to.
- Malloc.Heap.Sbrk: does not model the frames that are mapped and unmapped as the break moves.
- Malloc.Heap.Malloc: the heap is to end within the 32-bit address space (`Addressable`), so a size that wraps when the header is added is not modelled; block headers are kept apart from the bytes of the heap, so a client that overwrites a header, and the magic word that detects it, are not modelled.
- Malloc.Heap.Realloc: size 0 is not modelled: the source frees the payload and then goes on to read its header, which contraction may have unmapped.
- Threads, signals, and sleeps interrupted by a signal; pids are unbounded.
- `route_del`, `route_dump`, `list_close`, `list_for_each` and `list_find`; failure of malloc in the list and the routing table.
- Pipe liveness, duplicated descriptors, and the reference counts of the pipe's nodes.
- Conversions.Sink.FmtStr: strings are sequences without their terminator, so `slen` is the sequence's length.
- Vsnprintf.Vsnprintf: a missing or mistyped argument, undefined in C, reads as 0 or "(null)"; widths and lengths past 2^31 are not wrapped.
- Directives.EveryFormat: a NUL argument of `%c`, which ends the output, is left out.
- Vsscanf.GetInt: signed overflow of the 64-bit accumulator, undefined in C, wraps.
- Sets, strings and characters in vsscanf, and its loop over the format.
- `udp_csum`, which folds the carry only once, and the header converters of ip.c.
- `canonize.c` and `lib/file.c`: path normal forms and stream buffering.
