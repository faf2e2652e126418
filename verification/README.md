# A verified model of the xv6 filesystem module

The repository is a Linux kernel module for the xv6 file system, with the image builder
`mkxv6` and the superblock checker. This project models the file system engine from the
disk up and proves what it is for: blocks are never shared, a write is a splice, allocation
is invisible to readers, a directory is a finite map, link counts agree with the directory
entries, no block or record is lost unless a creation fails, and an image made by the builder
is a state from which all of this holds.

## How the model is laid out

The disk is a sequence of 1024-byte blocks. `Volumes.Vol` is the mounted volume: its
geometry, the disk, the allocation hint, and `trace`, the list of disk images left by each
synchronous block write (what a crash could leave behind). On top of it:

| file | source | content |
|---|---|---|
| `Layout`, `Bytes` | `fs.h` | constants, integer widths, little-endian words, bits |
| `Volume` | `fs.h`, `fsinfo.h` | the volume, and the bitmap as the kernel module reads it |
| `Allocator` | `balloc.c` | circular first fit, zeroing, free, and when the scan ends |
| `BlockMap`, `Space`, `Balance` | `fs.cpp` | `xv6_inode_addr`, the invariant over all files, when there is room for a block, and that none is lost |
| `Durability`, `Crash`, `NsCrash`, `CrashRuns` | `balloc.c`, `inode.c`, `file.c` | the order in which writes reach the disk: of one lookup, of a write, of every operation, and over runs |
| `Inodes`, `Formats` | `inode.c`, `fs.h` | the inode table, write-back, release, and the formats byte by byte |
| `FileData`, `WriteRoom` | `file.c` | the read and write loops, and how far a write gets |
| `DirIter`, `DirCalls` | `fs.cpp` | `xv6_dir_iterate`, and what list of calls it makes |
| `Directory`, `DirInsert`, `DirMap`, `Listing`, `ListNames` | `dir.c` | the callbacks and what they do to a directory |
| `DirDrivers` | `dir.c` | the directory operations on inode objects |
| `Namespace`, `NsProof`, `NsSteps`, `NsCreate`, `NsRuns`, `NsRename`, `Runs` | `inode.c`, `file.c`, `dir.c` | create, link, unlink, rmdir, rename, write and inode sync; what they keep, and runs of them |
| `NsEffect`, `NsData`, `Refinement` | `inode.c`, `file.c`, `dir.c` | what those operations do, on a simple tree of names and the stored bytes of files; every run refines a run of such steps |
| `OnDisk`, `Losses`, `WriteOrder` | `inode.c`, `file.c`, `dir.c` | what those operations leave in the inode table and the free map, what runs lose, and in what order an operation writes |
| `Kernel` | `inode.c`, `file.c`, `dir.c` | the same operations on a heap of inode objects |
| `Builder`, `Stamping`, `Image`, `MkFs`, `ImageWriter` | `mkxv6.c` | the image builder |
| `Capacity`, `ImageFits`, `Packed` | `mkxv6.c` | when the builder gives up, and that it wastes nothing |
| `Superblock`, `Mount`, `Unmount`, `Boot`, `NewTree` | `check.cpp`, `super.c`, `mkxv6.c` | the check that mounting makes and what it refuses, unmounting and mounting again, runs from a made image, and the tree of one |

Each operation appears twice where the source changes state: as a method over objects and
arrays with the source's loops, and as a function on values that the method is proved equal
to. The properties are proved of the functions, for all inputs. A file is a map from the
269 slots of an inode (12 direct, the indirect root, 256 children) to block numbers;
`BlockMap.Sound` says that every block referred to is a data block marked in use and is
referred to once. `NsProof.Inv` adds good directories and link counts. `Refinement.State` is
the simple picture the operations are held against: for each directory a finite map from
names to inode numbers, for each inode a link count, and for each file its size and every
byte stored for it, those past its end included (`NsData.File`). What a write does to a file
is a function of that picture and of a `Room`: the error, how many bytes are stored, and
whether the size is cut to 32 bits on the way. A `Room` is not left open, it is a function
of the state before the operation (`Refinement.StepRoom`), built from the number of clear
blocks and the blocks missing (`Space.Supply`, `WriteRoom.WriteSupply`, `WriteRoom.Stored`).
A file is tidy if its size fits 32 bits and only zeros are stored past its end; all files
are, as long as writes start below 4 GiB, and then every write is a splice of the contents
(`Refinement.SmallRunsTidy`).

Beside that picture stands what is on disk: `OnDisk.Conserves` says which records of the inode
table an operation may have changed, and that the blocks in use that no inode refers to
(`Balance.Orphans`) are the same as before.

A run is any sequence of operations, failing ones included, each called as the VFS may call
it in the state it meets (`Runs.Legal`): a new name is not there yet, an old one resolves,
only files are linked and written. An inode may be synced at any point. A run is clean if no
rename in it has lost its entry. Runs are runs of the functions on values, in which every
search for a block comes back. On a volume of at most 8192 blocks the code's searches do
too; above that a search may spin forever (`Allocator.SearchTermination`), and where one does,
the functions, and with them the conditions for ENOSPC, say what was meant.

Where the code does not do what it seems to promise, the code is kept and the exact
condition proved:

- A read is a slice of the contents if and only if it asks for nothing, or starts at or
  before the end of the file, within the reach of the block map, and below 4 TiB unless
  there are only zeros to read (`FileData.ReadIsSlice`): past the end, an unsigned
  comparison leaves the length unclamped.
- A write is a splice of the contents if and only if the size is kept and the bytes show in
  place (`WriteRoom.WriteIsSplice`, on the state before the call). Below 4 TiB they do unless
  something other than zeros is stored between the old end and the position. From 4 TiB on
  they are stored elsewhere (`FileData.WriteWraps`), which shows unless they are zeros and
  what is stored below 4 TiB and not zero is inside the file, or past its end and overwritten.
- The size after a write is the larger of the old size and the final position if and only
  if the old size fits 32 bits, or is not past that position, or no block stored hangs on an
  empty address of the inode (`FileData.SizeKept`, `FileData.WriteRefinesSplice`). A write at
  8 GiB stores nothing and makes the size 8 GiB; the next byte that needs a block cuts it
  (`FileData.SizeCollapses`), and a third write past the bytes left behind the new end brings
  them back into the file (`FileData.StaleBytesShow`).
- The bitmap scan comes back if and only if `Allocator.ScanEnds` holds: a range that starts
  on a bitmap block boundary makes no progress. The whole search does if and only if
  `Allocator.BallocEnds` holds, as it does on every volume of at most 8192 blocks.
- A rename keeps link counts exact if and only if it refuses its arguments, or the new name
  is not taken and there is room for it, the slot of the old entry counting as free
  (`NsRename.RenameExact`); otherwise the old entry is gone by the time it fails. On an image
  with files `a` and `b`, renaming `a` to `b` loses `a` (`Boot.TwoFilesRename`).
- A creation that fails after it has taken a block leaves the block in use, and with it the
  first free record if there was one. Nothing else is ever lost: after any run on a new image
  the data blocks in use that no inode refers to are exactly as many as such creations
  (`Boot.RunsConserve`).
- A run goes through consistent images if and only if every inode it releases has a record
  on disk that refers to no block, because the record is emptied last
  (`CrashRuns.RunSurvives`). On a new image, removing an item is safe if and only if the item
  has no byte (`Boot.BootedReleaseUnsafe`); a directory always has some.
- Unmounting and mounting again cuts the sizes of files to 32 bits, and leaves everything as
  it was if and only if none has reached 4 GiB (`Unmount.UnmountMount`).
- Listing reports an error in exactly one case, when the position, taken in 32 bits, is the
  very end of a directory of maximal size (`Listing.ReaddirResumes`).
- `.` is reported missing by lookup, because its position is 0 (`DirMap.FindIsLookup`).
- An image mounts in order if and only if the names given to the builder are nonempty,
  distinct and neither `.` nor `..`, and the root has fewer than 17152 entries, because its
  size is rounded up past its end (`MkFs.BuilderEstablishes`).
- The builder finishes an image if and only if no name is too long, no file outgrows the
  block map, and everything fits the image and one bitmap block (`ImageFits.BuilderFinishes`).
  It never writes past the image, because it reads every block before it uses it.
- The hint computed at mounting is the first data block if and only if the image has at most
  65535 inodes (`Superblock.HintIsDataStart`).
- Mounting a built image succeeds if and only if its root has fewer than 17152 entries,
  because the check walks the root to its rounded-up end (`Mount.BuiltImageMounts`).
- The number `xv6_ialloc` hands out is below the inode count, as `xv6_iget` asserts of every
  number, if and only if a record below the count was free (`Boot.IallocBelowCount`): it
  scans the inode region, not the count. When the items have used up the count of a new
  image but not its inode region, the first inode created is out of range
  (`Boot.FirstNewInode`), and if there are more than the count less two, so are some of the
  items, which then cannot be looked up (`Boot.ItemsInReach`).

## Model

| member | source | states |
|---|---|---|
| Bytes.WordPut | fs.cpp:62-69 | storing one entry of an indirect block or bitmap changes that word and no other |
| Volumes.MarkedUsed | balloc.c:121-131 | setting or clearing a block's bit changes the free map at that block and nowhere else |
| Allocator.PickFirstFit | balloc.c:62-94 | the block chosen is a clear data block, every data block met earlier in circular order from the hint is in use, and 0 is returned exactly when all data blocks are in use |
| Allocator.TakeEffect | balloc.c:125-135 | an allocation adds exactly one block to the free map's used set, zeroes it, changes no other data block and nothing before the bitmap, and the zeroes reach the disk before the bit |
| Allocator.HintRotates | balloc.c:74-90 | after an allocation the next search comes to the block just handed out last of all |
| Allocator.ScanTermination | balloc.c:106-147 | the goto loop over a nonempty range ends if and only if the start is not on a bitmap block boundary, rounding up does not overflow, and a clear bit or the end comes before the next boundary |
| Allocator.SearchTermination | balloc.c:62-94 | the search over both ranges ends, the second looked at only if the first has nothing, if and only if `BallocEnds` says so: the condition on the volume that the methods which allocate require |
| Allocator.SmallVolumeEnds | balloc.c:62-94 | with at most one bitmap block's worth of blocks the whole search ends |
| Allocator.BfreeEffect | balloc.c:27-60 | freeing removes exactly that block from the used set and costs one write exactly when it was in use |
| Allocator.BallocRange | balloc.c:96-150 | the loop returns the first clear block of its range, or 0 if there is none, with the volume and hint its function on values gives |
| Allocator.BallocBlock | balloc.c:62-94 | the two-range search with its hint updates does what its function on values does |
| Allocator.BfreeBlock | balloc.c:27-60 | freeing in place does what its function on values does, the double-free branch included |
| BlockMap.Frame | fs.cpp:15-76 | changing blocks that no file refers to keeps the invariant and what every file reads as |
| BlockMap.Attach | fs.cpp:31-59 | a fresh block stored in an empty direct or root slot keeps the invariant, and every file reads as before: a zeroed block reads like a hole, a zeroed indirect block like 256 of them |
| BlockMap.AttachChild | fs.cpp:60-72 | the same for an entry of the indirect block |
| BlockMap.InodeAddrKeeps | fs.cpp:15-76 | every call, error exits included, keeps the invariant over all files and what every file reads as, sets no bit back, and on success returns the block the map now holds there; without allocation nothing changes |
| BlockMap.GetAddr | fs.cpp:15-76 | wherever the searches for a block come back, the in-place update of addresses, indirect block and dirty flag does what the function on values does |
| Space.InodeAddrExact | fs.cpp:15-76 | an allocating lookup succeeds exactly when the block map reaches the block and as many blocks are clear as are missing (two, one or none); it takes exactly those and moves no other block of the file |
| Balance.InodeAddrBalanced | fs.cpp:15-76 | no lookup loses a block: the blocks in use that no file refers to are the same afterwards, the indirect block of a lookup that fails half way included |
| Durability.InodeAddrDurable | balloc.c:126-133 | after every prefix of the disk writes of a lookup with allocation, every block an inode referred to before is a data block marked in use and referred to once |
| Durability.FreshRootZeroed | fs.cpp:40-59 | a fresh indirect block is zeroed first of all, and from the write that marks it in use on, an inode that has its address is in order |
| Crash.WriteCrashConsistent | file.c:132-188 | if the on-disk table lags behind the in-core inodes, every disk image during a write, and the one after the inode sync, has all referenced blocks marked in use and referred to once |
| Crash.SyncConsistent | inode.c:261-293 | syncing one inode leaves a consistent on-disk image |
| Inodes.DecodeEncode | fs.h:46-53 | an inode record read back from its 64 bytes is the one stored |
| Formats.RecordLayout | fs.h:46-53 | a record is 64 bytes: type, major, minor and link count in two little-endian bytes each, size in four, thirteen addresses in four each |
| Formats.RecordPlace | fs.h:55-62 | record i is stored sixteen to a block, from the first block of the inode region on |
| Formats.EntryLayout | fs.h:74-81 | a directory entry is a little-endian number of two bytes and a name of fourteen |
| Formats.SuperLayout | fs.h:28-37 | block 0 is eight little-endian numbers of four bytes, in this order, and zeros |
| Inodes.PutInodeEffect | inode.c:272-290 | storing a record changes that record, no other record, no bitmap bit and no data block |
| Inodes.IallocFirstFit | inode.c:15-63 | allocation fails exactly when all records from 2 on are in use; otherwise it takes the first free one and changes no other |
| Inodes.AllocInode | inode.c:15-63 | the nested loops over blocks and records do what the first-fit function does |
| Inodes.ReleaseExact | inode.c:441-496 | release frees exactly the blocks the inode refers to, one bitmap write each, so never a double free, raises the free count by their number, and leaves all other files intact |
| Inodes.Clear | inode.c:441-496 | the loops over direct blocks and indirect entries free in the order of the function on values and leave an empty inode written back |
| FileData.WriteRefinesSplice | file.c:132-188 | a write that reports n bytes lays exactly those bytes over the file at its effective position, changes no other file, keeps the invariant, the inode table and all bits already set, early stops on ENOSPC and EFBIG included; the size is the larger of the old one and the final position exactly under a condition on the old size and the empty addresses of the inode |
| FileData.WriteRefinesContent | file.c:132-188 | at every position, with any old size and whatever is stored past the end: the new contents are the old ones zero-extended with the written bytes spliced in if and only if the size is kept and the bytes show in place (below 4 TiB: only zeros are stored between the old end and the position; from there on: the bytes are zeros, and what is stored and not zero is inside the file, or past its end and overwritten); a tail of zeros stays one |
| FileData.SmallWriteRefines | file.c:132-188 | below 4 GiB sizes stay within 32 bits, and a write is a splice if and only if only zeros are stored between the old end and the position, as is the case if only zeros are stored past the end, which then stays so |
| FileData.SizeCollapses | file.c:172-182 | a write at 8 GiB stores nothing and makes the size 8 GiB; a byte in an empty direct block then cuts the size to its own end, leaving stale bytes past it |
| FileData.StaleBytesShow | file.c:172-182 | a third write, below 4 TiB and with the size kept, past those stale bytes is no splice: they show again |
| WriteRoom.WriteExact | file.c:132-188 | the result of a write and the number of bytes it stores are functions of the state before: all of them exactly when the block map reaches them and the missing blocks are there; otherwise as far as the map reaches, or up to the first block that cannot be had |
| WriteRoom.WriteIsSplice | file.c:132-188 | whether a write is a splice of the contents, and leaves the size a splice has, is decided by conditions on the state before the call alone |
| FileData.WriteWraps | file.c:145-146 | from 4 TiB on every byte stored is at the effective position, and the position written to reads as 0 |
| FileData.EffectivePosExact | file.c:145-146 | a position is its own block address exactly below 4 TiB |
| FileData.ReadIsSlice | file.c:70-130 | for every size: a read is the slice of the contents if and only if it asks for nothing, or starts at or before the end and what it wants is within the reach of the block map and below 4 TiB, or zeros |
| FileData.ReadBack | file.c:70-188 | reading back what a write reported returns the bytes written, at every position and with every old size of 64 bits |
| FileData.Write | file.c:132-188 | wherever its searches for a block come back, the write loop, with append, does what the function on values does |
| FileData.Read | file.c:70-130 | the read loop does what the function on values does, and changes nothing |
| DirIter.DirentRoundTrip | fs.h:78-81 | directory entries and their 16 bytes are in one-to-one correspondence |
| DirIter.Iterate | fs.cpp:78-164 | wherever its searches for a block come back, as they do without allocation, the while loop with its callbacks, buffers and extension does what the function on values does |
| DirCalls.CallListCovers | fs.cpp:97-140 | the calls made over a range are in strictly increasing order, one for every slot of an allocated block and one for every hole, each on the entry stored there, and no others |
| DirCalls.IterIsFold | fs.cpp:103-140 | without allocation, iterating is folding the callback over that list until it stops; only the entry it stopped at can have changed |
| Directory.StrncmpIsEquality | dir.c:39 | strncmp over the name field is equality with the zero-padded name |
| Directory.FindSound | dir.c:70-97 | lookup returns a live entry with the name, at a position other than 0, or none exactly when there is none |
| Directory.EraseSound | dir.c:235-262 | erase overwrites exactly the entry with the name, in any slot but the first two, or changes nothing and reports ENOENT |
| Formats.ErasedBytes | dir.c:49-68 | erasing leaves three zero bytes and thirteen of 0xfd in the slot of the name, and every other byte of the directory as it was |
| Directory.RmtestSound | dir.c:282-304 | the empty test succeeds exactly when no slot but the first two is live; its assertion never fails |
| DirInsert.InsertIter | dir.c:99-113 | the insert callback takes the first free slot, or finds every slot taken and changes nothing, or changes nothing that is read, exactly when the block of that slot cannot be had; every disk image on the way is safe |
| DirInsert.InsertGrows | dir.c:115-149 | with the extension step: the entry lands in the first free slot or in one new slot, its assertion holds, and any change of address or size leaves the context dirty |
| DirInsert.InsertSound | dir.c:115-149 | inserting a fresh name keeps the directory good, changes one slot and no other, and on an error nothing that is read; it fails exactly when the block of the first free slot is neither there nor to be had, or is out of reach |
| DirMap.FindIsLookup | dir.c:70-97 | lookup is lookup in the directory as a finite map, except that `.` is reported missing |
| DirMap.InsertIsUpdate | dir.c:115-149 | inserting a fresh name adds one binding and keeps all others |
| DirMap.EraseIsRemove | dir.c:235-262 | erase succeeds exactly on names of the map other than `.` and `..`, and removes that one binding |
| Listing.ReaddirResumes | dir.c:151-201 | from any position, one call lists the next live entries as far as the consumer takes them and saves a position from which exactly the rest remains |
| Listing.ResumedListing | dir.c:151-201 | from any position, any sequence of interrupted calls emits exactly the first entries of the one-shot listing, in slot order, none twice and none left out |
| ListNames.EmitsName | dir.c:151-172 | on a live entry of a name of at most 14 characters the callback hands the consumer that name, without its padding, and its number |
| ListNames.ListingIsMap | dir.c:174-201 | listing a good directory from its start, in however many calls, shows every name the map binds, once and with its number, and nothing else |
| ListNames.InsertedIsListed | dir.c:115-201 | after a fresh name is inserted a listing shows what it showed before, and that name as it was given |
| DirDrivers.Find | dir.c:70-97 | the driver on an inode object does what the function on values does, and changes nothing |
| DirDrivers.Erase | dir.c:235-262 | likewise for erase; the inode is left as it was |
| DirDrivers.Insert | dir.c:115-149 | likewise for insert, wherever its searches for a block come back, the addresses changing in place and the size only if dirty |
| DirDrivers.TestEmpty | dir.c:282-304 | likewise for the empty test |
| DirDrivers.ListDir | dir.c:174-201 | likewise for listing |
| NsCreate.NewDirGood | dir.c:203-233 | a new directory is good and names nothing but itself and its parent |
| NsCreate.PrepareKeeps | inode.c:388-410 | the inode prepared by a creation joins the others with everything in order, and nothing else reads differently |
| NsRuns.CreateSteady | inode.c:361-427 | a creation keeps the invariant, and the agreement of every link count with its entries, whether it succeeds or fails halfway |
| NsRuns.LinkSteady | file.c:223-248 | the same for a hard link |
| NsRuns.UnlinkSteady | file.c:190-221 | the same for an unlink, and it succeeds on every entry the VFS resolves |
| NsRuns.RmdirSteady | dir.c:306-321 | the same for rmdir, which succeeds exactly on an empty directory |
| NsRuns.WriteSteady | file.c:132-188 | the same for a write |
| NsRuns.SyncSteady | xv6.h:121-130 | the same for the sync of an inode, which changes nothing that is read |
| NsEffect.CreateEffect | inode.c:361-427 | a creation binds the name to one new inode, an empty file or a directory with `.` and `..` alone, with link count 1, and every other inode reads as before; it fails exactly for a name too long, no clear block, no free record, or no room for the entry with one block less, and then the whole tree is as it was |
| NsEffect.LinkEffect | file.c:223-248 | a link binds the name and raises that one count; it fails exactly for too many links, a name too long, or no room for the entry, in that order, and then changes nothing in the tree |
| NsEffect.UnlinkEffect | file.c:190-221 | an unlink takes away that binding and one from the count, or at the last name the inode itself; every other inode reads as before |
| NsEffect.RmdirEffect | dir.c:306-321 | rmdir does what unlink does exactly on an empty directory, and otherwise leaves the state untouched, with ENOTDIR or ENOTEMPTY |
| NsEffect.RenameEffect | file.c:250-298 | a rename moves the binding on success, changes nothing when it refuses its arguments, and otherwise has lost the old binding; flags, length, the new name being bound once the old one is gone, and room for the entry decide which, in that order |
| NsEffect.WriteEffect | file.c:132-188 | a write changes no directory, no count, and no other file |
| OnDisk.CreateOnDisk | inode.c:361-427 | a creation that succeeds takes the first free record, and the record then says all that the new inode does: type, link count 1, size 32 or 0, and the addresses; no other record changes and no block is lost; the directory grows by one entry if no slot was free. One that fails changes nothing if the name is too long or no block is clear, and otherwise leaves one block, and the first free record if there is one, in use |
| OnDisk.LinkOnDisk | file.c:223-248 | a link that succeeds leaves the record of the file with its addresses, its size and one link more than it had in core; no other record changes, none at all if it fails, and no block is lost |
| OnDisk.UnlinkOnDisk | file.c:190-221 | an unlink of a name that is not the last changes no record and frees no block; at the last name the record is zeroed, the blocks in use become fewer by exactly those of the inode, and no other record changes |
| OnDisk.RmdirOnDisk | dir.c:306-321 | the same for rmdir on an empty directory; otherwise nothing changes |
| OnDisk.RenameOnDisk | file.c:250-298 | a rename changes no record and loses no block, its failures included; of the in-core inodes only the new directory changes, and grows by one entry exactly if no slot was free, the erased one counting |
| OnDisk.WriteOnDisk | file.c:132-188 | a write changes no record and loses no block |
| OnDisk.SyncOnDisk | inode.c:261-293 | a sync leaves the record with addresses, size and link count of the in-core inode, type and device numbers as they were, and changes no other record |
| Losses.StepLoses | file.c:132-298 | no operation but a creation that fails after taking a block loses or finds a block or a record, and that one loses one block and one record at most; none writes the superblock or the null inode's record |
| Losses.RunLoses | file.c:132-298 | over every run the blocks in use that no inode refers to become more by exactly one for each such creation, and stray records by no more than that |
| WriteOrder.UnlinkOrder | file.c:190-221 | at the last name, after one write for each block freed, the last three writes are: the record emptied with the name still there, the name gone with the record still in use, the record freed |
| WriteOrder.LinkOrder | file.c:223-248 | a link enters the name before the record is written |
| WriteOrder.CreateOrder | inode.c:361-427 | the entry of a creation is its last write: just before it the new record is there, and the directory reads as it did before the call |
| NsData.WriteData | file.c:132-188 | at every position: a write lays what there is room for over the stored bytes of its file at the effective position, sets its size, and touches no other file; result, length and size are functions of the state before |
| NsData.ReadIsOf | file.c:70-130 | every read, at any position, is a reading of that picture of the file |
| NsData.TidyWrite | file.c:132-188 | below 4 GiB, in that picture, a write to a file with a 32-bit size and zeros past its end is a splice of its contents, and leaves it so |
| Refinement.StepRefines | file.c:132-298 | every operation is one step on names, counts, sizes and stored bytes, and comes back with the result of the step, given the room the state before has |
| Refinement.RunRefines | file.c:132-298 | every run, writes at any position included, is a run of such steps, each meeting the room there was |
| Refinement.SmallRunsTidy | file.c:132-188 | over every run of steps whose writes start below 4 GiB all files keep 32-bit sizes and zeros past their ends |
| Refinement.RunCounts | file.c:190-248 | over every run link counts fit the 16 bits of a record |
| Refinement.TidyFiles | file.c:132-188 | what this says of sizes, addresses and counts of the in-core inodes |
| NsRename.RenameExact | file.c:250-298 | a rename keeps link counts exact if and only if it refuses its arguments, or no other live entry has the new name and there was room for it, the erased slot counting as free; each error exactly under its condition on the state before |
| Runs.StepKeeps | file.c:190-298 | every operation keeps the invariant, and exact link counts unless it is a rename that lost its entry |
| Runs.RunKeepsInv | file.c:190-298 | over every run: blocks of all inodes pairwise distinct, in the data region and marked in use, directories good, no entry naming a free inode |
| Runs.RunKeepsExact | file.c:190-298 | over every run without a lost rename the link count of every inode but the root is the number of entries naming it |
| NsCrash.CreateSurvives | inode.c:361-427 | every disk image during a creation, also one that fails halfway, has all blocks its inodes refer to marked in use and referred to once |
| NsCrash.LinkSurvives | file.c:223-248 | the same for a link |
| CrashRuns.UnlinkCrash | file.c:190-221 | an unlink goes through consistent images if and only if it is not the last name, or the record on disk refers to no block; the table backs the in-core inodes afterwards either way |
| CrashRuns.RenameSurvives | file.c:250-298 | every disk image during a rename is consistent, also during one that loses its entry |
| CrashRuns.RunSurvives | file.c:132-298 | after every run of all operations, syncs and failures included, the table backs the in-core inodes; and every disk image on the way has all blocks its inodes refer to marked in use and referred to once if and only if no inode is released while its record refers to blocks |
| NsCrash.ReleaseSurvives | inode.c:441-496 | the release of an inode goes through consistent images if and only if its record on disk refers to no block |
| Kernel.FileSys.CreateFile | inode.c:361-427 | on the heap of inode objects, creation does what the function on values does, wherever its searches for a block come back |
| Kernel.FileSys.LinkFile | file.c:223-248 | likewise for link |
| Kernel.FileSys.UnlinkFile | file.c:190-221 | likewise for unlink, on every volume |
| Kernel.FileSys.RemoveDir | dir.c:306-321 | likewise for rmdir, on every volume |
| Kernel.FileSys.RenameFile | file.c:250-298 | likewise for rename |
| Kernel.FileSys.WriteData | file.c:132-188 | likewise for write |
| Kernel.FileSys.WriteAll | super.c:213-225 | on the heap of inode objects, the loop over the inodes of the mount does what the function on values does |
| Kernel.SmallVolumesEnd | balloc.c:24-108 | on a volume of at most 8192 blocks the searches of every operation come back |
| Builder.GrowKeeps | mkxv6.c:328-345 | handing out a block keeps files sound, all blocks not yet handed out zero, and what every file reads as |
| Builder.AppendIsConcat | mkxv6.c:314-356 | an append concatenates its bytes to the file it names and leaves every other file as it was |
| Capacity.AppendExact | mkxv6.c:314-356 | an append gives up exactly when the file would outgrow the block map or the blocks it then needs, one per 1024 bytes and one more past twelve, are not there; otherwise it takes exactly those |
| Stamping.WordBits | mkxv6.c:305-307 | a bit written byte by byte is the bit read through little-endian 32-bit words |
| Stamping.StampUsed | mkxv6.c:296-310 | in the kernel's view the bitmap written marks exactly the blocks below the counter |
| Stamping.FillBits | mkxv6.c:304-307 | the loop over the byte array sets exactly the first bits |
| Image.IAppendHolds | mkxv6.c:314-356 | with its record, an append changes the file it names to its concatenation and no other inode |
| Image.AddItemsHolds | mkxv6.c:158-223 | unless it gives up, the image holds the root and one file for each item, in order, with their bytes, and no other inode |
| MkFs.MakeImageFinishes | mkxv6.c:225-232 | the finished image holds those files with the root zero-padded, sound for the kernel, its bitmap marking exactly the blocks below the counter |
| MkFs.BuilderEstablishes | mkxv6.c:110-235 | unless the builder gives up, its image mounts with all invariants if and only if the names are good and the rounded root is within reach, and then link counts are exact; inode k + 2 holds the bytes of item k |
| ImageFits.BuilderFinishes | mkxv6.c:110-235 | the builder finishes if and only if names, file sizes and the blocks all files need fit the image and one bitmap block, and the counter then stands right behind those blocks |
| Packed.NothingWasted | mkxv6.c:110-235 | in a finished image the files refer to every block that was handed out, only the metadata are in use without a file, and the records in use are those of the root and the items |
| NewTree.BootedTree | mkxv6.c:158-232 | a new image holds the items it was made from and nothing else: the root binds their names and the dots, each directory has its two dots alone, each file its bytes, every link count is 1, and the root's size goes past its last entry to the next end of a block |
| MkFs.MountedLookup | mkxv6.c:217-220 | looking item k up in the mounted root finds inode number k + 2 |
| Mount.RootWalkExact | check.cpp:151-178 | the walk of the check over the root of a finished image succeeds exactly when its rounded size is within reach of the block map |
| Mount.BuiltImageMounts | check.cpp:94-178 | with the layout computed, the image passes superblock, null inode and root type checks, and the whole check, walk included, if and only if the root has fewer than 17152 entries; the hint is the first data block |
| Mount.CheckedInOrder | check.cpp:94-178 | the check looks at no names: the image mounts with all invariants exactly when it passes and the names are good |
| Mount.OtherSuperRefused | check.cpp:33-125 | of an image that mounts, another magic number, log start, log size, inode start or bitmap start in block 0 is refused, and another count of inodes or data blocks if it needs other blocks, or more than there are |
| Mount.OtherRecordRefused | check.cpp:133-150 | of an image that mounts, any type but 0 in record 0 is refused, and any but a directory's in the root's record |
| Mount.BuiltRecords | check.cpp:133-150 | a built image that mounts still does with another type in one of these records exactly if that is 0, or a directory's |
| ImageWriter.Writer.Append | mkxv6.c:314-356 | the loop over buffers, counter and indirect block does what the function on values does |
| ImageWriter.Make | mkxv6.c:110-235 | the program from zeroed sectors to the bitmap does what the function on values does |
| Superblock.CheckSb | check.cpp:33-92 | the accumulating checks accept exactly the superblocks whose regions follow one another from block 1 and end inside the image, and report those regions |
| Superblock.AcceptedGeometry | check.cpp:33-92 | in an accepted image every counted inode lies in the inode region, every block's bit in the bitmap region, and the data blocks promised past all metadata and inside the image |
| Superblock.HintIsDataStart | super.c:80-94 | the mount hint is the first data block exactly when there are at most 65535 inodes, and otherwise points into the metadata |
| Superblock.MkSuperAccepted | mkxv6.c:133-144 | the builder's layout has the sizes asked for, is accepted exactly when its metadata fit the image, and then leaves no block over |
| Superblock.ReadSuperBlock | mkxv6.c:154-156 | the superblock read back from block 0 is the one written |
| Boot.RunsFromImage | mkxv6.c:110-235 | if the files fit and are well named the builder finishes, and every run on its image keeps the invariant, refines a run of steps, keeps link counts exact if clean, and files tidy if its writes start below 4 GiB |
| Boot.RunsConserve | mkxv6.c:110-235 | after any run on a new image the data blocks in use that no inode refers to are as many as creations have failed after taking a block; if none has, a data block is in use exactly if an inode refers to it, and a record exactly if there is an inode |
| Boot.BootedSurvives | mkxv6.c:110-235 | every image that a run on a new image goes through is consistent if and only if no inode is released while its record refers to blocks |
| Boot.BootedReleaseUnsafe | inode.c:441-496 | removing an item from a new image succeeds, and goes through consistent images if and only if the item has no byte |
| Unmount.UnmountMount | super.c:213-225 | writing all inodes back and reading the image afresh keeps the invariant, every excess of link counts, the tree of names and all stored bytes, and cuts sizes to 32 bits: the state is the same if and only if no file has reached 4 GiB |
| Unmount.WriteOutdates | file.c:132-188 | a write leaves the record on disk as it was, so it stays up to date exactly if neither the addresses nor the low 32 bits of the size change |
| Losses.RunHead | super.c:60-105 | over every run the superblock and the record of the null inode, which mounting checks, stay as they are |
| Boot.MountsAgain | super.c:213-225 | after any run on a new image, writing all inodes back goes through consistent images and leaves one that passes the whole check of mounting, with the invariant, the same names and stored bytes, and the same sizes if and only if none has reached 4 GiB, as is the case if all writes start below |
| Boot.BootedRenameLoses | file.c:250-298 | on a new image, renaming any item to the name of another fails with EEXIST, and leaves an inode with link count 1 that nothing names |
| Boot.TwoFilesRename | file.c:250-298 | so on an image of 2000 blocks with two empty files |
| Boot.IallocBelowCount | inode.c:15-63 | the number handed out is below the inode count, as the assertion on every number demands, if and only if a record below the count was free |
| Boot.FirstNewInode | inode.c:148-153 | on a new image the first number handed out is the one after the last item's, or none if the items fill the table; it is not below the count exactly when the items have used up the count and not the table |
| Boot.ItemsInReach | inode.c:123-153 | on a mounted image each item is found under its own number, and all numbers are below the inode count, as the assertion on every number demands, if and only if there are at most two items less than the count |

## Left out

- Input and output errors other than EIO for a block number beyond the device; after a failed block read or flush the code's cleanup paths are not modelled.
- Read-only mounts, timestamps, owners and modes, device inodes, and the log region, which the module never writes.
- The VFS around the module: dentries, the in-core inode tree and its reference counts, eviction, locks. Each locked operation is one atomic step.
- Faults while copying to or from user memory, and big-endian hosts.
- Inodes whose addresses are not cached (`i_private` NULL).
- An indirect block whose flush fails: the error is not modelled, so an in-memory address never differs from the one on disk.
- Edits a callback makes to an entry that are never flushed: a callback is a function from an entry to a result, and its edit counts only where it asks for a flush. No callback of the module edits without asking.
- Command-line handling in `mkxv6`: names arrive stripped of `user/` and a leading `_`, without `/`; host files arrive as the pieces `read` returned.
- The printing of the checker's callback, and its driver for image files.
- `xv6_file_block`, which nothing calls.
- Rename and `..`: as in the code, the `..` entry of a moved directory is not updated, so it may name a directory it is no longer in. `NsEffect.RenameEffect` keeps it as it is; no invariant speaks of where `..` leads.
- Allocator.BallocBlock: requires that the search comes back (`BallocEnds`), because Dafny methods must terminate; `SearchTermination` says when it does, and the functions on values have no such condition.
- Image.AddItemsHolds: requires that the items fit the inode table. The builder does not check this, and writes the records that do not fit into the bitmap block and then into the first file's blocks; what its later reads of those records give is not modelled.
- ImageFits.BuilderFinishes: the same, so its condition says nothing of more items than records.
- MkFs.MakeImageFinishes: the same.
- MkFs.BuilderEstablishes: the same.
- MkFs.MountedLookup: the same.
- ImageWriter.Make: the same.
- Mount.BuiltImageMounts: the same.
- Mount.CheckedInOrder: the same.
- Mount.BuiltRecords: the same.
- Packed.NothingWasted: the same.
- Boot.RunsFromImage: the same, as part of `Good`.
- Boot.RunsConserve: the same.
- NewTree.BootedTree: the same.
- Boot.BootedSurvives: the same, as part of `Good`.
- Boot.BootedReleaseUnsafe: the same.
- Boot.MountsAgain: the same.
- Boot.FirstNewInode: the same.
- Boot.ItemsInReach: the same.
- BlockMap.GetAddr: like the other methods that allocate (`FileData.Write`, `DirIter.Iterate`, `DirDrivers.Insert`, `Kernel`), it requires that its searches for a block come back, and nothing else of the volume.
- Which in-core inodes the VFS holds to be dirty. The module marks an inode dirty where its addresses change or it is released (`inode.c:484`, `inode.c:502`), not where only its size does (closing a file syncs it); `Unmount.UnmountMount` takes the list of inodes that are written back as given, and requires of all others that their records are up to date, which `Unmount.WriteOutdates` says of a write.
