# Silex kernel model

Silex is a small x86-64 kernel. This project models its stateful cores in Dafny and proves what they promise:

- **ext2** (`Bits`, `Dirent`, `Ext2*`): the driver as a machine over disk blocks. Each block write is one atomic
  step, and the disk keeps the history of all contents it has had. `Ext2Writes` says byte for byte what each operation
  writes. Between operations the volume is sound and its
  free counts are exact; after every single write it is crash-safe and has all the contents that were live but those
  that the operation rewrites; paths keep their meaning over whole runs and through crashes in the middle of them.
- **Physical and virtual memory** (`Pmm`, `PmmTrace`, `PageTables`, `TableRights`, `Vmm`, `VmmSpaces`): the frame bitmap,
  and the four-level tables (Intel SDM volume 3A, section 4.5) stored in the frames that it hands out, with the rights of
  every level (section 4.6). One physical memory
  holds tables and data, so every contract says what it leaves untouched.
- **Program loading** (`ElfLoader`, `ArgvStack`, `ElfExec`): segment images and the argument stack, read back
  through the page tables (System V gABI chapter 5, Program Header).
- **kmalloc** (`HeapBlocks`, `Kmalloc`): 24-byte headers in one flat region refine a list of blocks.
- **The terminal** (`Terminal`, `Raster`, `Framebuffer`): bytes refine pixels, pixels refine a grid of cells, and
  the grid is the window on an unbounded roll of paper.
- **VFS, tmpfs, descriptors** (`Paths`, `Tree`, `Vfs`, `Descriptors`, `DescriptorTrace`): paths split from the front
  and from the back, the tree under creation and removal, cursors over files.
- **getopt** (`Getopt`): a run of calls refines a parser by recursion on the tokens, with the documented law of
  option clusters.

`Arith` and `Bytes` hold the arithmetic and the little-endian encodings that the rest needs. Classes have the fields
that the kernel updates in place; their methods are proved against functions on the old state, and the lemmas are
about those functions.

Findings, stated as contracts and exact conditions, the second name in brackets being a lemma at a failing input: a
read of an ext2 file whose offset and size add up to 2^64 or more inside the file yields nothing
(`Ext2Contents.ReadBack`; `Ext2Contents.ReadWrapsAround`); a vnode through which an ext2 file got its first block reads
nothing (`Ext2Theorems.StaleVnode`; `Ext2Theorems.StaleAfterCreate`); ext2 mkdir returns the new directory even when its
parent has no room for the entry (`Ext2Run.PerformMakeDirectory`; `Ext2Example.NoRoomForTheName`); the 32-bit offsets
in an inode table of more than 4 GiB coincide (`Arith.OffsetsExact`; `Ext2Layout.SlotsCoincide`); a kmalloc request near
2^64 rounds to a small one (`Kmalloc.LargeEnough`; `Kmalloc.TooSmall`), and a tmpfs write whose end is there runs past its
buffer (`Vfs.Vfs.Write`); a tmpfs node made under a name that is taken, or whose name is cut, cannot be found
(`Tree.MadeResolves`; `Tree.TakenName`, `Tree.CutName`); unlinking a name that occurs twice leaves the path leading to the
second node (`Tree.UnlinkedResolves`); a directory index from 2^31 on passes the bound test (`Vfs.Vfs.ReadDir`); mounting
on a path that leads nowhere succeeds (`Vfs.Vfs.MountAt`); a letter that takes an argument breaks its cluster unless it is
the last (`Getopt.ClusterEquivalence`; `Getopt.ArgumentInsideCluster`); upper tables get the flags of the first page that
needs them, so that a page mapped for writing behind a read-only one cannot be written, and a program whose first segment
is read-only cannot write below 512 GiB (`VmmSpaces.RightsOverRun`, `ElfExec.ProgramMay`; `VmmSpaces.ReadOnlyFirst`,
`ElfExec.ReadOnlySegmentFirst`); of a usable range that does not start at a page, the frame in which it starts is freed
although part of it lies before the range (`Pmm.CoversInside`).

## Model

| member | source | states |
|---|---|---|
| Bits.ClaimFirstClear | src/fs/ext2.c:126-139 | the scan skips full bytes without missing a bit: it claims the lowest clear bit of the range, or reports that every bit is set |
| Bits.SetBitChangesOne | src/mm/pmm.c:19 | setting a bit by or-ing a shifted 1 changes that bit and no other |
| Bits.ClearBitChangesOne | src/mm/pmm.c:20 | clearing a bit by and-ing changes that bit and no other |
| Bits.ZeroBitsWithBit | src/fs/ext2.c:133 | claiming a clear bit lowers the number of clear bits by exactly one, so the decremented count stays true |
| Bits.BitShift | src/mm/pmm.c:21 | testing a bit by shifting down tests the bit of that place value |
| Dirent.FirstSlackReaches | src/fs/ext2.c:256-265 | the scan stops at a record of the chain exactly when some record of it, deleted or not, has enough unused space, and no earlier record has |
| Dirent.EveryRecordReached | src/fs/ext2.c:256-285 | the steps by rec_len go through every entry of the block, so no record is left out of the search for space |
| Dirent.EmptyDirectoryRoom | src/fs/ext2.c:256-265 | a block that mkdir has just made has space for a record exactly up to the block size less 24: the space behind ".." can be split |
| Dirent.RecordBytes | include/fs/ext2.h:73-79 | a record is stored as inode, rec_len, name_len, file_type and name, numbers lowest byte first |
| Dirent.ListingMeans | src/fs/ext2.c:434-456 | an entry is listed exactly when it is in the block, is not deleted and has a name |
| Dirent.SplitIsSplit | src/fs/ext2.c:265-275 | the stores of a split leave the shrunk record with its name and the new record in the rest of its space, and no other byte changed |
| Dirent.SplitInserts | src/fs/ext2.c:242-287 | splitting any record of a well-formed block keeps it well formed and inserts exactly one entry, right behind the split one |
| Dirent.InsertedMeaning | src/fs/ext2.c:213-240 | one more entry with an unused name is found under it, changes no other lookup and is one more item of the listing |
| Dirent.FindMeans | src/fs/ext2.c:223-239 | a name stands for its first live entry, and for none if it has none |
| Dirent.Concat | src/fs/ext2.c:220-236 | scanning several directory blocks as one buffer sees the entries of all of them |
| Dirent.EmptyDirectoryEntries | src/fs/ext2.c:382-397 | the block of a new directory decodes to "." for itself and ".." for its parent and nothing else |
| Ext2Directory.FindRecord | src/fs/ext2.c:223-239 | the record scan returns the inode of the first live entry of that name, or 0 if there is none |
| Ext2Directory.NthRecord | src/fs/ext2.c:434-456 | the record scan yields the index-th live, named entry, if the listing is that long |
| Ext2Directory.AddRecord | src/fs/ext2.c:254-286 | some record has the slack exactly when the block changes; then the first such record is split and the block is that split, byte for byte |
| Ext2Directory.SplitRecord | src/fs/ext2.c:266-275 | the in-place stores are a split of that record, byte for byte |
| Ext2Layout.SlotsDisjoint | src/fs/ext2.c:66-73 | two inodes that share a block of the inode table do not overlap in it |
| Ext2Layout.FirstGroup | src/fs/ext2.c:55-56 | bit n of group 0's bitmaps stands for inode n + 1 and block first_data_block + n |
| Ext2Layout.PlaceOf | src/fs/ext2.c:55-68 | the driver's divisions, remainders and 32-bit product give the group, index, table block and offset of an inode, the product not wrapping in a table of the supported size |
| Ext2Layout.PlaceMeans | src/fs/ext2.c:55-68 | inodes are numbered from 1 through the groups and stored one after the other in the tables |
| Arith.OffsetsExact | src/fs/ext2.c:66 | the 32-bit products of all indices with the inode size are exact exactly when that of the last index is below 2^32 |
| Ext2Layout.SlotsCoincide | src/fs/ext2.c:66 | beyond that size they are not: with 16 KiB inodes, indices 262144 and 0 have one offset |
| Ext2Image.InodeTableIsMap | src/fs/ext2.c:53-110 | writing inode i and then reading inode j yields the new value exactly when i = j |
| Ext2Image.NewInodeFields | src/fs/ext2.c:294-298 | a zeroed inode with some fields set has these fields and no other block pointer |
| Ext2Image.InodeFields | include/fs/ext2.h:53-71 | mode, size, link count and each block pointer are read from their fields of the inode structure |
| Ext2Image.NewInodeBytes | include/fs/ext2.h:53-71 | in the order of the structure a new inode is mode, size, link count and first pointer with zeros between and behind |
| Ext2Image.IsDirByte | src/fs/ext2.c:495 | an inode is a directory exactly when the upper half of its second byte is 4 |
| Ext2Invariant.NoSharedBlock | src/fs/ext2.c:317-333 | on a sound volume no two pointers of live inodes name the same block |
| Ext2Invariant.PointerOwned | src/fs/ext2.c:147-177 | on a sound volume every block pointer names a data block, never metadata, that is marked used |
| Ext2Invariant.EntryNamesUsedInode | src/fs/ext2.c:289-309 | on a sound volume every live directory entry names an inode that is marked used and initialised |
| Ext2Invariant.InodeStep | src/fs/ext2.c:106 | one inode write keeps a volume sound if the new inode's blocks are used and nobody else's |
| Ext2Invariant.DirectoryStep | src/fs/ext2.c:277 | one directory-block write keeps a volume sound if its entries name live inodes |
| Ext2Invariant.DataStep | src/fs/ext2.c:329 | a write to a data block that belongs to no directory keeps a volume sound |
| Ext2Invariant.MetadataStep | src/fs/ext2.c:131-134 | a bitmap or count write that frees nothing keeps a volume sound |
| Ext2Steps.AllocInodeSteps | src/fs/ext2.c:131-135 | claiming an inode is crash-safe after the bitmap write and after the count write, and ends with an exact count |
| Ext2Steps.AllocBlockSteps | src/fs/ext2.c:163-168 | claiming a block is crash-safe after the bitmap write and after the count write, and ends with an exact count |
| Ext2Steps.NewFileStep | src/fs/ext2.c:294-300 | writing a fresh inode before any entry names it keeps the volume sound and makes the inode live |
| Ext2Steps.NewInodes | src/fs/ext2.c:294-372 | a new file is regular, rw-r--r--, with one link; a new directory rwxr-xr-x, with two links and one block; all other bytes are 0 |
| Ext2Steps.AddEntryStep | src/fs/ext2.c:277 | entering a live inode in a live directory keeps the volume sound and the counts exact |
| Ext2Steps.FileDataStep | src/fs/ext2.c:329 | writing the data before the inode that points to it keeps the volume sound |
| Ext2Steps.FileInodeStep | src/fs/ext2.c:332-333 | writing the inode with a new first block and size keeps the volume sound, the block now being the file's |
| Ext2Steps.MakeDirectorySteps | src/fs/ext2.c:399-402 | writing the block of a new directory and then its inode keeps the volume sound after each write |
| Ext2Steps.RoomKept | src/fs/ext2.c:404-406 | making the directory does not change whether its parent has room for the entry |
| Ext2Steps.NewDirectoryHasRoom | src/fs/ext2.c:382-402 | a directory that has just been made has room for an entry of any name |
| Ext2.Ext2.constructor | src/fs/ext2.c:510-519 | a driver mounted on a sound volume with exact counts is in its invariant |
| Ext2.Ext2.ReadInode | src/fs/ext2.c:53-76 | reads the inode of that number from the table block and offset on disk |
| Ext2.Ext2.WriteInode | src/fs/ext2.c:82-110 | one block write that changes that inode of the table and nothing else |
| Ext2.Ext2.AllocInode | src/fs/ext2.c:113-144 | returns the lowest free inode of group 0 or 0 if all are used; the image is the old one with that bit set and the count one lower, and is crash-safe after each of the two writes, none of which touches a live inode or its blocks |
| Ext2.Ext2.AllocBlock | src/fs/ext2.c:147-177 | returns the lowest free block of group 0 or 0 if all are used, always a data block nobody has; the image is the old one with that bit set and the count one lower, and is crash-safe after each write, none of which touches a live inode or its blocks |
| Ext2.Ext2.ReadInodeData | src/fs/ext2.c:179-211 | returns the longest run of present bytes from the offset, up to the size asked for and the end of the file, or nothing when the 64-bit sum of offset and size wraps around |
| Ext2.Ext2.DirLookup | src/fs/ext2.c:213-240 | a lookup over all blocks of a directory finds the first live entry of that name |
| Ext2.Ext2.ReadDir | src/fs/ext2.c:423-460 | the index-th item of the directory's listing over all its blocks |
| Ext2.Ext2.DirAddEntry | src/fs/ext2.c:242-287 | writes nothing if no record of the first block has the slack; else one block, the first such record split, with one more entry |
| Ext2.Ext2.CreateFile | src/fs/ext2.c:289-309 | succeeds exactly when an inode is free and the directory has room; then one entry is added for a fresh, empty file; the whole image afterwards is given, also for the failure that leaves the inode claimed; no live inode or data is lost either way, nor by a crash on the way |
| Ext2.Ext2.FirstBlock | src/fs/ext2.c:317-322 | a file without a block gets the lowest free one, unless the disk is full, and an inode that differs in that pointer alone |
| Ext2.Ext2.WriteFile | src/fs/ext2.c:311-336 | succeeds unless a first block is needed and none is free; then the file holds the data and zeros, every other byte of the inode and of the volume is given by the old image, and all else reads as before, also on every volume on the way |
| Ext2.Ext2.Link | src/fs/ext2.c:302-306 | enters a live inode exactly when the directory has room, in the first record with the space, and is crash-safe |
| Ext2.Ext2.PutEmptyDirectory | src/fs/ext2.c:377-400 | one block write, of the two records of an empty directory |
| Ext2.Ext2.NewDirectory | src/fs/ext2.c:363-402 | needs a free inode and a free block; makes a live directory that is entered nowhere yet; the whole image afterwards is given, also when the inode stays claimed for lack of a block |
| Ext2.Ext2.MakeDirectory | src/fs/ext2.c:359-409 | a directory is returned exactly when an inode and a block are free, but is entered only if its parent has room; every write but the last leaves all live contents, and the last all but the parent |
| Ext2Contents.ReadIsUnique | src/fs/ext2.c:185-210 | what a read yields is determined by the volume, the inode, the offset and the size |
| Ext2Contents.ReadBack | src/fs/ext2.c:179-211 | reading a file of at most one block, at any 64-bit offset and size, yields that slice of its contents exactly when the sum of the two does not wrap around or the offset is behind the end; when it wraps, nothing is read |
| Ext2Contents.ReadWrapsAround | src/fs/ext2.c:186-187 | the failing input: at offset 1, asking for 2^64 - 1 bytes of a file of at least two yields none |
| Ext2Contents.ReadBlocks | src/fs/ext2.c:179-211 | reading a file of up to twelve blocks, all there, yields that slice of its blocks one after the other up to its size, exactly when offset and size do not wrap around or the offset is behind the end |
| Ext2Contents.DirectoryRead | src/fs/ext2.c:216-221 | reading a whole directory yields a well-formed buffer with the entries of its blocks in order |
| Ext2Contents.AddedEntries | src/fs/ext2.c:249-277 | one more entry in the first block is one more entry of the directory |
| Ext2Theorems.CrashSafety | src/fs/ext2.c:289-336 | on any volume that a crash can leave, whatever a path leads to is marked used and initialised, and so is every block it points to |
| Ext2Theorems.CrashSafeEntries | src/fs/ext2.c:213-240 | so is whatever any entry of any directory that a path leads to names, even one that another entry of the same name hides from lookups |
| Ext2Theorems.CrashSafeUnshared | src/fs/ext2.c:317-333 | on any such volume two paths to different inodes never lead to a common block |
| Ext2Theorems.LookupIsLive | src/fs/ext2.c:412-420 | a name found in a live directory stands for a live inode |
| Ext2Theorems.EntryFound | src/fs/ext2.c:213-287 | after an absent name is added it is found, other lookups are unchanged and the listing has exactly one more item |
| Ext2Theorems.OthersKeepContents | src/fs/ext2.c:242-287 | adding an entry changes the contents of no other live file or directory |
| Ext2Theorems.OtherFilesKeepContents | src/fs/ext2.c:311-336 | writing a file changes the contents of no other live file or directory |
| Ext2Theorems.SameReads | src/fs/ext2.c:179-211 | unchanged contents mean the same result of every read |
| Ext2Theorems.WriteThenRead | src/fs/ext2.c:311-336 | write, then read through a fresh vnode, at any 64-bit offset and size: that slice of what was written exactly when their sum does not wrap around or the offset is behind the end |
| Ext2Theorems.StaleVnode | src/fs/ext2.c:347-357 | through the old vnode all reads whose end does not wrap around find what was written exactly when the file had a block before or nothing was written |
| Ext2Theorems.StaleAfterCreate | src/fs/ext2.c:347-357 | the failing input: a file just created and then written reads as empty through the vnode it was written through |
| Ext2Paths.EntryAddedKept | src/fs/ext2.c:289-309 | adding an absent name moves no path that led somewhere, and every path to the directory goes on to the new entry |
| Ext2Paths.DirectoryMadeKept | src/fs/ext2.c:363-402 | making a directory, before it is entered, moves no path and touches no live contents |
| Ext2Paths.FileWrittenKept | src/fs/ext2.c:311-336 | writing a file moves no path |
| Ext2History.BlockSpares | src/fs/ext2.c:106 | a block write leaves the contents of every live inode but one if it changes no other inode and no block that another points to |
| Ext2History.InodeSpares | src/fs/ext2.c:82-110 | writing one inode leaves the contents of all the others, although they share its block |
| Ext2History.DataSpares | src/fs/ext2.c:329 | writing a block that nobody has, or one of a single inode, leaves the contents of all the other live inodes |
| Ext2History.AllocInodeSpares | src/fs/ext2.c:131-135 | both writes of claiming an inode leave the contents of every live inode |
| Ext2History.AllocBlockSpares | src/fs/ext2.c:163-168 | both writes of claiming a block leave the contents of every live inode |
| Ext2History.SparesLinked | src/fs/ext2.c:404-406 | when something new is made and entered, every write but the last leaves all live contents, and the last all but the directory |
| Ext2History.SparingKeepsPaths | src/fs/ext2.c:412-420 | a volume on which all live inodes, or all but one file, have their old contents gives every path its old meaning |
| Ext2History.PathsKeptUntil | src/fs/ext2.c:289-409 | so a crash in the middle of an operation loses no path: each volume on the way keeps all that the one before the operation had |
| Ext2Run.Vnode.constructor | src/fs/ext2.c:482-499 | a fresh vnode caches the inode that is on disk now |
| Ext2Run.Vnode.Read | src/fs/ext2.c:340-345 | a read goes by the cached inode |
| Ext2Run.Vnode.Write | src/fs/ext2.c:347-357 | the offset is ignored, the file is rewritten, and of the cached inode only the size is renewed |
| Ext2Run.ResolvePath | src/fs/ext2.c:412-421 | looking up one name after the other yields what the path means on the volume, always a live inode |
| Ext2Run.PerformCreate | src/fs/ext2.c:462-468 | creating a free name by path succeeds exactly when it can, leads to an empty file that was not live, and moves no path, neither at the end nor on any volume on the way; the image afterwards is that of creating the file in the directory that the path leads to, and the old one if it leads to none |
| Ext2Run.PerformMakeDirectory | src/fs/ext2.c:359-409 | the same for directories; afterwards a free path leads to the new directory exactly when the parent had room for the entry, and else still nowhere, although the call succeeds |
| Ext2Run.PerformWrite | src/fs/ext2.c:347-357 | writing by path succeeds exactly when it can, fills the file the path leads to, changes no other byte and moves no path, neither at the end nor on any volume on the way |
| Ext2Run.RunKeepsPaths | src/fs/ext2.c:289-409 | if no operation of a run creates a name that is taken, every path that led somewhere leads there still |
| Ext2Run.Run | src/fs/ext2.c:289-409 | any sequence of create, mkdir and write does each of them, with exact results and images, and keeps the invariant between operations and crash safety after every single block write; if no operation creates a name that is taken, every old path keeps its meaning at the end and on every volume that a crash on the way can leave |
| Ext2Example.EmptyVolumeSound | src/fs/ext2.c:501-520 | a nine-block volume with an empty root directory meets all that is assumed of volumes |
| Ext2Example.NoRoomForTheName | src/fs/ext2.c:256-286 | a sound volume with free inodes and blocks on which mkdir can succeed, for a free name for which the root directory has no room |
| Pmm.Pmm.constructor | src/mm/pmm.c:23-57 | after start-up exactly the frames of the union of usable ranges are free, however ranges overlap, and the count is exact |
| Pmm.CoversInside | src/mm/pmm.c:47-51 | the frames freed for a range lie inside it exactly when it starts at a page or is shorter than one; if it starts at a page they are all the frames inside |
| Pmm.FreeShifted | src/mm/pmm.c:19-21 | frame f is free when bit f % 8 of byte f / 8 is clear |
| Pmm.Pmm.Release | src/mm/pmm.c:47-56 | the whole pages of one range become free, those that were free already not being counted twice |
| Pmm.Pmm.Alloc | src/mm/pmm.c:66-75 | the lowest free frame and only it becomes used; 0 and no change if there is none |
| Pmm.Pmm.FreeFrame | src/mm/pmm.c:77-86 | exactly that frame becomes free; a double free or an address past the end changes no count |
| Pmm.Pmm.AllocN | src/mm/pmm.c:88-104 | for any number n, the lowest base of n consecutive free frames, exactly which become used; 0 and no change if there is none |
| Pmm.Pmm.RunFree | src/mm/pmm.c:91-95 | the inner loop decides whether the n frames are all free |
| Pmm.RunsJoin | src/mm/pmm.c:91-95 | a run of one frame is a free frame, and a longer run is two runs one behind the other |
| Pmm.Pmm.Test | src/mm/pmm.c:21 | the bit is clear exactly for a free frame |
| Pmm.WithRunSetsRun | src/mm/pmm.c:96-99 | setting a run of bits takes exactly those frames out of the free ones |
| PmmTrace.NoDoubleGrant | src/mm/pmm.c:66-104 | in an exclusive trace a frame is handed out twice only if it was given back in between |
| PmmTrace.GrantRun | src/mm/pmm.c:88-104 | handing out a run of free frames one by one is exclusive |
| PmmTrace.Run | src/mm/pmm.c:66-104 | over any run each call does what it is specified to, the count equals the number of set bits, what the callers saw is exclusive, and held frames are in use |
| PageTables.SamePage | src/mm/vmm.c:57-60 | two addresses have the same four indices exactly when they agree in bits 12 to 47 |
| PageTables.PageOfIsNumber | src/mm/vmm.c:57-60 | the four indices are the digits of the page number in base 512 |
| PageTables.WalkTranslates | src/mm/vmm.c:69-88 | the walk by four indices is the translation that at each level takes the next digit of the address in base 512 and stops at an absent entry |
| PageTables.TablesDistinct | src/mm/vmm.c:41-48 | no two slots of reachable tables name the same table, but the same upper-half slot of two spaces |
| PageTables.SameLastTable | src/mm/vmm.c:62-64 | walks that end in the same table are for the same region of one space or of a shared slot |
| PageTables.AddTableForest | src/mm/vmm.c:43-46 | hanging a fresh table into an absent slot keeps the tables a forest of distinct frames |
| PageTables.AddTableWalks | src/mm/vmm.c:43-46 | creating an intermediate table changes no walk of any space |
| PageTables.SetLeafWalks | src/mm/vmm.c:66 | writing a leaf entry changes the walks of that page in the spaces that share its table, and no other walk |
| PageTables.SetLeafRemaps | src/mm/vmm.c:66 | a leaf write remaps exactly one page and keeps the forest and all sharing |
| PageTables.SharedWalk | src/mm/vmm.c:109-110 | spaces that share the table of a slot walk alike through it |
| PageTables.ForestWalks | src/mm/vmm.c:23-26 | walks depend on the frames of the tables only, so data written elsewhere disturbs none |
| Vmm.Vmm.AllocFrame | src/mm/vmm.c:29-39 | a frame that was free and is no table; 0 only when none is left |
| Vmm.Vmm.CreateTable | src/mm/vmm.c:43-46 | the slot leads to a zeroed frame that was no table, with the flags asked for; the kernel halts only when no frame is left |
| Vmm.Vmm.GetOrCreate | src/mm/vmm.c:41-48 | the table in the slot, an existing one with its flags unchanged; no walk changes |
| Vmm.Vmm.TablesFor | src/mm/vmm.c:62-64 | afterwards the walk reaches a last-level table; no walk changes; every slot on the way that was absent has the flags asked for, and every table that was there keeps its own |
| TableRights.AddTableRights | src/mm/vmm.c:41-48 | hanging a fresh table gives its slot the flags asked for, for every page behind it, and changes the rights of no other table |
| Vmm.LeafMeans | src/mm/vmm.c:66 | a leaf entry names the frame of the address and has exactly the flags |
| Vmm.Vmm.Map | src/mm/vmm.c:55-67 | the page walks to (phys & ~0xFFF) with the flags; every other walk of every space, and all data frames, are unchanged; of the tables only those that were absent on the way to the page get rights, the flags of this mapping; halts only when no frame is left |
| Vmm.Vmm.Unmap | src/mm/vmm.c:69-91 | the page is absent whatever was there; every other walk, the rights of all tables and all data frames are unchanged |
| Vmm.Vmm.EmptySpace | src/mm/vmm.c:127 | a fresh zeroed root maps nothing and disturbs no other space |
| Vmm.Vmm.NewSpace | src/mm/vmm.c:100-113 | the new space walks like the current one in the upper half, table for table, and has no tables in the lower |
| Vmm.Vmm.FillFrame | src/exec/elf.c:50-59 | a store into a data frame, through the direct mapping, changes no table |
| VmmSpaces.Run | src/mm/vmm.c:55-91 | over any sequence of map and unmap the four-level table refines a flat map of pages, in this space and in those that share with it, and each table has the flags of the first mapping that needed it |
| VmmSpaces.RightsOverRun | src/mm/vmm.c:55-91 | what a program may do with a page after any sequence of operations, where no table was at first: exactly what its last mapping allows and the first mapping near it at each of the three upper levels did |
| VmmSpaces.ReadOnlyFirst | src/mm/vmm.c:41-48 | the failing input: behind a page mapped read-only, a page mapped for writing cannot be written |
| TableRights.FirstDecides | src/mm/vmm.c:41-48 | the rights of a table are those of the first mapping in its region; later ones do not matter |
| VmmSpaces.Separation | src/mm/vmm.c:100-113 | any sequence of lower-half operations in one space leaves every walk of every other space as it was |
| VmmSpaces.SharedStaysShared | src/mm/vmm.c:109-110 | an upper-half slot shared at first stays shared, and what is mapped through it is seen alike in both spaces |
| VmmSpaces.LowerHalfPrivate | src/mm/vmm.c:109-110 | two spaces never share a lower-half table |
| VmmSpaces.FlatElsewhere | src/mm/vmm.c:55-91 | a page that no operation names keeps its mapping |
| VmmSpaces.WindowInjective | src/mm/vmm.c:129-130 | different pages of a window of at most 4 GiB have different indices |
| VmmSpaces.WindowStep | src/mm/vmm.c:129-133 | each iteration of the two loops extends its window and keeps the other |
| VmmSpaces.MapDirect | src/mm/vmm.c:129-130 | the first loop maps its whole window, and nothing else in the space |
| VmmSpaces.MapKernel | src/mm/vmm.c:132-133 | the second loop maps its whole window and leaves the first as it is |
| VmmSpaces.Init | src/mm/vmm.c:127-133 | after both loops every page of the first 4 GiB is at hhdm + p, every page of the first 64 MiB of the kernel at its base, and nothing else is mapped |
| VmmSpaces.WindowsMean | src/mm/vmm.c:127-133 | after start-up every address below 4 GiB is itself behind hhdm, with flags 3, and every address of the first 64 MiB of the kernel at its place behind the physical base, with flags 7 |
| ElfLoader.MapFresh | src/exec/elf.c:46-48 | a frame that was free is mapped at the page, nothing else changes, and failure means that no frame is left |
| ElfLoader.FillPage | src/exec/elf.c:50-59 | the frame holds the file's bytes below p_filesz and zeros before, behind and beyond them |
| ElfLoader.HeaderBytes | src/exec/elf.c:17-26 | an image is accepted exactly when it has 64 bytes, begins with 7F 45 4C 46, is of class 2 and has type 2 and machine 3E |
| ElfLoader.HeaderFields | include/exec/elf.h:15-30 | the entry point and the place, size and number of program headers are read from their fields of the header |
| ElfLoader.SegmentFields | include/exec/elf.h:32-41 | a segment is read from the fields of the program header at e_phoff + i * e_phentsize |
| ElfLoader.SegmentRange | src/exec/elf.c:36-39 | the pages of the loop are exactly those that share a byte with [p_vaddr, p_vaddr + p_memsz) |
| ElfLoader.PageFilled | src/exec/elf.c:45-60 | a filled page is held, and every page held before is still held |
| ElfLoader.LoadPage | src/exec/elf.c:45-60 | one page of a segment in memory, writable exactly if the segment is (see LoadedByte); every other walk of that space, mapped or not and in either half, every walk and all sharing of the other spaces, and all data frames in use are as they were |
| ElfLoader.LoadSegment | src/exec/elf.c:36-60 | all pages of the segment in memory, those of earlier segments undisturbed |
| ElfLoader.ImageKept | src/exec/elf.c:30-61 | loading a page of a later segment disturbs no earlier one |
| ElfLoader.HeldPageKept | src/mm/vmm.c:55-67 | mapping another page and writing a frame that was free disturb no held page |
| ElfLoader.Load | src/exec/elf.c:14-65 | an image with a bad header changes nothing; otherwise, unless frames run out, every loadable segment is in memory, every walk to a page outside the image, every walk of every other space and all sharing between those are as before, and each table has the flags of the first page that needed it |
| ElfLoader.LoadedByte | src/exec/elf.c:34-59 | any byte of any page that a PT_LOAD segment touches, read through the tables, is the file's byte below p_filesz and 0 elsewhere; the entry of the page is present, open to the program, and writable exactly if PF_W is set |
| ArgvStack.StringInTopPage | src/exec/elf.c:120-125 | with at most one page of argument bytes each string lies in the top page, right below the next, so a copy never crosses a page |
| ArgvStack.MainSeesArguments | userspace/src/crt0.asm:7-10 | after the entry code has popped argc, rdi is the number of arguments and rsi the vector of pointers to them, in order and ended by NULL, at or above the 16-aligned rsp |
| ElfExec.Poke | src/exec/elf.c:112-114 | a store through the direct mapping of a stack page changes exactly those bytes of the stack |
| ElfExec.PutStrings | src/exec/elf.c:120-125 | every argument is NUL-terminated in its place and its address is recorded |
| ElfExec.PutPointers | src/exec/elf.c:134-137 | the pointers, in order, below the NULL, the strings intact |
| ElfExec.BuildStack | src/exec/elf.c:116-141 | at an 8-aligned sp: argc, the pointers, NULL, each pointer leading to its argument, strings disjoint from each other and less than 8 bytes above the pointers |
| ElfExec.MapStack | src/exec/elf.c:99-106 | sixteen different zeroed frames at the stack pages, all three flags in the tables that were absent, no other space disturbed, failing only when no frame is left |
| ElfExec.ImageSurvivesStack | src/exec/elf.c:108-141 | building the stack touches no page of the image |
| ElfExec.StackReadable | src/exec/elf.c:102-114 | the program reads through its tables what the kernel stored through the direct mapping, at pages that are present, writable and open to it |
| ElfExec.Exec | src/exec/elf.c:72-148 | with a good header and enough frames: a root that was none, sharing every table of the kernel's half with the current space; the image and a proper stack, with the path as only argument if there are none; every page outside of both walks as in the current space in the upper half and nowhere in the lower; every table of the lower half has the flags of the first page that needed it, the stack's coming first; every walk of every space that there was is unchanged |
| ElfExec.ProgramMay | src/exec/elf.c:91-107 | the program may use or write a page exactly when its entry allows it and so did the first page mapped near it at each level |
| ElfExec.UserMay | src/exec/elf.c:41-48 | every page of image and stack can be used by the program, and every page of the stack written |
| ElfExec.ReadOnlySegmentFirst | src/exec/elf.c:41-48 | the failing inputs: if the first loadable segment is read-only and starts below 512 GiB, no page below 512 GiB can be written, whatever the other segments say |
| ElfExec.RestKept | src/exec/elf.c:91-141 | outside image and stack the new space walks as when it was made, through loading and all stores |
| ElfExec.SharingKept | src/exec/elf.c:91-141 | loading and building the stack break none of the sharing of the kernel's half |
| HeapBlocks.Conservation | src/lib/kmalloc.c:49-56 | free bytes, live bytes and headers always add up to the region |
| HeapBlocks.TiledAt | src/lib/kmalloc.c:17-26 | blocks lie back to back and never overlap |
| HeapBlocks.AllocatedMeaning | src/lib/kmalloc.c:45-59 | an allocation adds one live block of at least the size and less than 32 bytes more, exactly the size when the rest stays a free block of its own, keeps the others, and leaves no free neighbours |
| HeapBlocks.CoalescedMeaning | src/lib/kmalloc.c:80-88 | one pass over the list keeps the live blocks and leaves no two free neighbours |
| HeapBlocks.NormalForm | src/lib/kmalloc.c:80-88 | a list without free neighbours is determined by its region and its live blocks |
| HeapBlocks.AllocateThenFree | src/lib/kmalloc.c:39-89 | freeing what was just allocated restores the very same block list |
| HeapBlocks.AllFree | src/lib/kmalloc.c:22-25 | a heap in which nothing is live is the single block of the start |
| Kmalloc.Align8Enough | src/lib/kmalloc.c:3 | rounding up to 8 adds at most 7, and yields at least the size exactly when the addition does not wrap |
| Kmalloc.LargeEnough | src/lib/kmalloc.c:39-59 | the payload is at least as large as asked for exactly when size + 7 does not wrap, and always less than 39 bytes larger, the rest of a large block staying free |
| Kmalloc.HeaderFields | src/lib/kmalloc.c:6-10 | size, free and next are read from their fields of the header structure |
| Kmalloc.TooSmall | src/lib/kmalloc.c:39-59 | the failing input: a fresh heap serves a request for 2^64 - 1 bytes with a payload of none |
| Kmalloc.LivePayloads | src/lib/kmalloc.c:49-59 | payloads are 8-aligned, inside the region and pairwise disjoint |
| Kmalloc.ReplaceRepresents | src/lib/kmalloc.c:49-58 | rewriting the headers inside one block keeps memory and block list in step |
| Kmalloc.MergedRepresents | src/lib/kmalloc.c:83-84 | absorbing the next block by rewriting one header keeps memory and block list in step |
| Kmalloc.MergedMeaning | src/lib/kmalloc.c:82-84 | one merge keeps the live blocks and what the rest of the pass will make of the list |
| Kmalloc.Heap.constructor | src/lib/kmalloc.c:17-26 | one free block over the whole region |
| Kmalloc.Heap.FindFree | src/lib/kmalloc.c:28-37 | following the links finds the first free block that is large enough |
| Kmalloc.Heap.Carve | src/lib/kmalloc.c:49-58 | a block is split exactly when 32 bytes or more are left over, and only its inside is written |
| Kmalloc.Heap.Kmalloc | src/lib/kmalloc.c:39-60 | first fit, or 0 and no change; no byte of a live payload changes |
| Kmalloc.Heap.Kfree | src/lib/kmalloc.c:73-89 | the block is free, all free neighbours are merged, no byte of another live payload changes; NULL is ignored |
| Kmalloc.Heap.CoalescePass | src/lib/kmalloc.c:80-88 | the loop ends, on the number of blocks left behind the current one, with the coalesced list |
| Kmalloc.Heap.FreeSize | src/lib/kmalloc.c:91-100 | the free bytes, which with live bytes and headers make up the region |
| Kmalloc.Heap.Store | src/lib/kmalloc.c:59 | a client's store into its payload harms neither the heap nor another payload |
| Kmalloc.Run | src/lib/kmalloc.c:39-89 | any sequence of allocations and frees of held pointers, in any order, does each of them first-fit, keeps the heap valid, and with nothing held it is the single block of the start |
| Terminal.ScreenIsWindow | src/drivers/framebuffer.c:95-129 | whatever is typed, the screen shows the last lines of the roll on which the same characters are printed without scrolling |
| Terminal.PrintWindow | src/drivers/framebuffer.c:107-129 | every single character keeps that relation |
| Terminal.FeedWindow | src/drivers/framebuffer.c:95-105 | a new line at the bottom drops the first line and adds a blank one, and nothing else |
| Terminal.Wraps | src/drivers/framebuffer.c:56-57 | character k of plain text ends on line k / columns, column k % columns: the character itself below 128, a question mark from there on, in its colour |
| Terminal.LinesJoin | src/drivers/framebuffer.c:114 | a line feed ends the lines before it: what follows is printed as on a roll of its own, below them |
| Terminal.BackspaceUndoes | src/drivers/framebuffer.c:116-122 | backspace takes back a character that did not fill its line, leaving a space |
| Terminal.BackspaceAtStart | src/drivers/framebuffer.c:116-118 | at the start of a line backspace does nothing |
| Raster.OffsetsApart | src/drivers/framebuffer.c:39 | different pixels never share a byte, whatever the pitch |
| Raster.PixelPlace | src/drivers/framebuffer.c:39 | the first pixel is at the start, the next one to the right the bytes of a pixel on, the next one below a pitch on |
| Raster.EncodeMeans | src/drivers/framebuffer.c:40-44 | blue, green and red make up the colour in this order of bytes; a fourth byte is 255 |
| Raster.CellDot | src/drivers/framebuffer.c:57-65 | pixel (dx, dy) of a cell shows bit 7 - dx / scale of the glyph's byte dy / scale, by the shift of the source |
| Raster.PixelWritten | src/drivers/framebuffer.c:36-45 | the stores of one pixel change that pixel of the picture and no other |
| Raster.LineCopied | src/drivers/framebuffer.c:77-80 | copying the bytes of a line copies its pixels and disturbs no other line |
| Raster.PaintJoin | src/drivers/framebuffer.c:62-65 | rectangles painted side by side or above each other make one rectangle |
| Raster.StampDot | src/drivers/framebuffer.c:60-65 | a square of pixels shows the glyph's bit at every one of them |
| Raster.StampShows | src/drivers/framebuffer.c:54-67 | drawing a glyph over a cell changes that cell of the grid and no other, margins included |
| Raster.ScrollShows | src/drivers/framebuffer.c:69-93 | moving the lines up by one cell height shows the grid without its first row and with a blank last one; margins stay background |
| Raster.SpaceIsBlank | src/console/font.c:39 | a space shows nothing but background |
| Raster.ClearShows | src/drivers/framebuffer.c:47-52 | a filled screen shows a blank grid |
| Raster.LastLine | src/drivers/framebuffer.c:101 | the driver's test in pixels holds exactly on the last line of whole cells |
| Raster.LastColumn | src/drivers/framebuffer.c:117-127 | the driver's tests in pixels hold exactly in the last and not in the first column of whole cells |
| Framebuffer.Framebuffer.constructor | src/drivers/framebuffer.c:26-52 | after set-up and fill the picture is that of a blank grid with the cursor in its first cell and white as text colour |
| Framebuffer.Framebuffer.PutPixel | src/drivers/framebuffer.c:36-45 | one pixel is painted, or none if it is off the screen |
| Framebuffer.Framebuffer.Fill | src/drivers/framebuffer.c:47-52 | every pixel has the colour |
| Framebuffer.Framebuffer.PutDot | src/drivers/framebuffer.c:62-65 | a square of the scale is painted, clipped to the screen |
| Framebuffer.Framebuffer.PutGlyphRow | src/drivers/framebuffer.c:59-66 | one row of dots of the glyph, most significant bit leftmost |
| Framebuffer.Framebuffer.PutChar | src/drivers/framebuffer.c:54-67 | the whole glyph at its place, that of the character below 128 and of the question mark from there on, every other pixel unchanged |
| Framebuffer.Framebuffer.CopyDown | src/drivers/framebuffer.c:79-80 | an ascending copy to a lower address is right even when the ranges overlap |
| Framebuffer.Framebuffer.MoveLinesUp | src/drivers/framebuffer.c:76-81 | line by line, each line gets what was one cell height below it |
| Framebuffer.Framebuffer.Scroll | src/drivers/framebuffer.c:69-93 | the picture without its upper lines and with cleared ones below |
| Framebuffer.Framebuffer.Newline | src/drivers/framebuffer.c:95-105 | the grid takes one line feed and the picture goes on showing it |
| Framebuffer.Framebuffer.PutCharCursor | src/drivers/framebuffer.c:107-129 | the grid takes one step of the terminal, the picture goes on showing it, and the cursor is on a cell wholly inside the screen |
| Framebuffer.ColourHolds | src/drivers/framebuffer.c:124 | a colour holds for the characters behind it until the next one |
| Framebuffer.Display | src/drivers/framebuffer.c:107-154 | any stream of characters and colour changes ends with the picture of the window on the roll |
| Paths.SkipSlashes | src/fs/vfs.c:53-54 | skipping slashes loses no component |
| Paths.CopyComponent | src/fs/vfs.c:57-62 | what is copied is the next component |
| Paths.SplitPath | src/fs/vfs.c:49-66 | the forward splitter yields the first components, up to the number asked for |
| Paths.SplitParent | src/fs/vfs.c:139-155 | the backward splitter yields what is before and behind the last slash, the name cut to its buffer |
| Paths.SlashSeparates | src/fs/vfs.c:52-63 | the components of two paths joined by a slash come one after the other |
| Paths.SplittersAgree | src/fs/vfs.c:49-66 | splitting from the back cuts the forward components in two, at the last if the name is neither empty nor too long |
| Paths.ComponentsAreNames | src/fs/vfs.c:57-62 | components are non-empty, shorter than 256 and without slashes |
| Paths.LongName | src/fs/vfs.c:154 | a longer name is cut by one splitter and counts as several by the other |
| Tree.WalkJoin | src/fs/vfs.c:79-90 | walking two lists of names is walking the second from where the first leads |
| Tree.AddedWalks | src/fs/tmpfs.c:77-107 | exactly the paths that end at the new name of the directory and led nowhere lead to the new node; every other path is unchanged |
| Tree.AddedResolves | src/fs/vfs.c:157-175 | a path that resolved resolves to the same node; one that did not resolves to nothing or to the new node |
| Tree.MadeResolves | src/fs/vfs.c:139-175 | a new node is found under its path exactly when the path led nowhere before and its name survives the cutting |
| Tree.TakenName | src/fs/tmpfs.c:93-107 | a failing input: a file made under the name of an older one is not found, the older one is |
| Tree.CutName | src/fs/vfs.c:154 | another: a file whose name has 256 characters is not found under its path |
| Tree.AddedWellFormed | src/fs/tmpfs.c:87-88 | the tree stays well formed |
| Tree.AddedNode | src/fs/tmpfs.c:77-107 | the new node is empty, of the kind asked for and the last child of its directory; nothing else changes |
| Tree.RemovedNode | src/fs/tmpfs.c:109-122 | of the directory's children exactly the first of that name is missing; nothing else changes |
| Tree.AddedDistinct | src/fs/tmpfs.c:77-107 | names in a directory stay distinct exactly when the new one was free |
| Tree.RemovedWalks | src/fs/tmpfs.c:109-122 | unlinking leaves every walk that does not go through the entry; one that does goes on from the second child of that name, or leads nowhere if there is none |
| Tree.FindWithout | src/fs/tmpfs.c:109-122 | once the first child of a name is out, the name leads to the second, and every other name where it led |
| Tree.FindMeans | src/fs/tmpfs.c:56-65 | a name stands for the first child of that name, and for none if there is none |
| Tree.UnlinkedResolves | src/fs/vfs.c:177-185 | an unlinked path leads nowhere afterwards exactly when its name occurred once in the directory |
| Tree.MakeThenUnlink | src/fs/tmpfs.c:93-122 | making an entry and unlinking it leaves every node as it was, and one that nothing names |
| Tree.WrittenWalks | src/fs/tmpfs.c:32-54 | writing to a file moves no path |
| Tree.MountedWalks | src/fs/vfs.c:79-90 | a mount leaves every walk that does not come to the node, and sends the others on from the mounted root |
| Tree.MountThenUnmount | src/fs/vfs.c:26-47 | unmounting what was mounted on a free node restores the tree |
| Vfs.Vfs.constructor | src/fs/tmpfs.c:160-163 | a tree of one empty directory |
| Vfs.Vfs.FindDir | src/fs/tmpfs.c:56-65 | the first child of that name |
| Vfs.Vfs.ReadDir | src/fs/tmpfs.c:67-75 | the index-th child in the order of creation, NULL behind the last one; outside the array exactly when the index is negative as a signed 32-bit integer |
| Vfs.Vfs.ResolvePath | src/fs/vfs.c:68-93 | the node to which the first 32 components lead, entering mounted file systems |
| Vfs.Vfs.MountAt | src/fs/vfs.c:19-37 | fails exactly when sixteen places are taken, which are never given back; a path that leads nowhere takes one too |
| Vfs.Vfs.Unmount | src/fs/vfs.c:39-47 | fails exactly when nothing is mounted on the node |
| Vfs.Vfs.AddChild | src/fs/tmpfs.c:77-107 | appends a node unless 64 are there or memory is out |
| Vfs.Vfs.Make | src/fs/vfs.c:157-175 | succeeds exactly when the parent is a directory with room and memory is left; then the path resolves to the new node exactly if it led nowhere and its name survives, and all that resolved still does |
| Vfs.Vfs.Search | src/fs/tmpfs.c:113-114 | the position of the first child of that name |
| Vfs.Vfs.ShiftDown | src/fs/tmpfs.c:115-117 | shifting in place takes out exactly that child |
| Vfs.Vfs.RemoveChild | src/fs/tmpfs.c:109-122 | takes out the first child of that name, or reports that there is none |
| Vfs.Vfs.Unlink | src/fs/vfs.c:177-185 | succeeds exactly when the parent has the entry, and removes it |
| Vfs.Vfs.Read | src/fs/tmpfs.c:21-30 | the bytes from the offset, as many as asked for and there are; a directory cannot be read |
| Vfs.Vfs.Grow | src/fs/tmpfs.c:38-46 | a larger buffer keeps the old bytes and has zeros behind them |
| Vfs.Vfs.Write | src/fs/tmpfs.c:32-54 | for any 64-bit offset and size the data is at the offset, other bytes are kept, a gap reads as zeros, the size is that of the buffer; fails only for lack of memory or on a directory; runs past its buffer exactly when there is memory and offset + size + 7 reaches 2^64 |
| Descriptors.Files.constructor | src/kernel/fd.c:8-15 | every descriptor is free |
| Descriptors.Files.AllocFd | src/kernel/fd.c:17-28 | the lowest free descriptor, at offset 0, or -1 if all are open |
| Descriptors.Files.GetFd | src/kernel/fd.c:30-37 | a number is accepted exactly when that descriptor is open |
| Descriptors.Files.FreeFd | src/kernel/fd.c:39-46 | that descriptor is free and no other changes |
| Descriptors.Files.Open | src/kernel/syscall.c:211-218 | opens what the path resolves to unless it is a directory, at the lowest free descriptor |
| Descriptors.Files.Close | src/kernel/syscall.c:219-226 | closes an open descriptor, and only it |
| Descriptors.Files.Read | src/kernel/syscall.c:227-238 | returns the file's bytes at the cursor and advances this cursor by what it returns |
| Descriptors.Files.Write | src/kernel/syscall.c:239-250 | rewrites the file at the cursor and advances this cursor; fails only on a closed descriptor or when the file must grow without memory, and runs past its buffer under the same exact condition |
| DescriptorTrace.ReadStep | src/kernel/syscall.c:227-238 | reads append to what went through the descriptor and stay the beginning of the file |
| DescriptorTrace.WriteStep | src/kernel/syscall.c:239-250 | so do writes, while cursors of other descriptors stay within the file |
| DescriptorTrace.TreeStep | src/fs/tmpfs.c:77-122 | creating and unlinking are noticed by no descriptor |
| DescriptorTrace.EndOfFile | src/kernel/syscall.c:227-238 | a read that yields nothing means exactly that the whole file has gone through the descriptor |
| DescriptorTrace.Run | src/kernel/syscall.c:211-250 | over any run each call does exactly what it is specified to, every cursor counts the bytes that went through it and is within its file, and unless another descriptor wrote to the file they are its beginning; a run ends early only at a write past its buffer, for which files and writes must add up to almost 2^64 bytes |
| Getopt.Getopt.Next | userspace/include/ulib/args.h:14-97 | each call yields the first of what the run still has to yield and brings it nearer to its end; -1 exactly when nothing is left, with optind at the operands |
| Getopt.Getopt.NextLetter | userspace/include/ulib/args.h:41-96 | one letter of a cluster: its result, optarg, optopt and message |
| Getopt.Getopt.Advance | userspace/include/ulib/args.h:88-93 | the next letter, or the token behind the cluster |
| Getopt.ParseAll | userspace/include/ulib/args.h:14-97 | repeated calls end, on the tokens and letters left, with the options and operands of the recursive parser |
| Getopt.ClusterLaw | docs/ulib.typ:23 | -xyz yields the same results, arguments, messages and operands as -x -y -z if only the last letter may take an argument and none is a dash |
| Getopt.ClusterDiffers | userspace/include/ulib/args.h:61-71 | any cluster that breaks the rule, whatever its letters, yields something else |
| Getopt.ClusterEquivalence | docs/ulib.typ:23 | for two or more letters the law holds exactly under that rule |
| Getopt.ArgumentInsideCluster | userspace/include/ulib/args.h:63-71 | with x taking an argument, -xy is an error while -x -y gives x the argument -y |
| Getopt.TakesArgumentMeans | userspace/include/ulib/args.h:49-62 | a letter takes an argument exactly when a colon follows its first occurrence in the option string, wherever that is |
| Getopt.Declared | userspace/include/ulib/args.h:49-62 | in an option string made from a list of letters, each letter takes an argument exactly when it is declared to |
| Getopt.TokenMeans | userspace/include/ulib/args.h:26-39 | a token without a dash or a dash alone ends the options, -- does and is skipped, and any other is a cluster of the letters behind the dash |
| Getopt.UnknownLetter | userspace/include/ulib/args.h:50-59 | an undeclared letter yields ? with the letter in optopt and a message, and parsing goes on behind it |
| Getopt.WrongArgument | userspace/include/ulib/args.h:62-85 | a letter with an argument yields ? and its own message when it is the last token and when its token goes on |
| Getopt.RoundTrip | docs/ulib.typ:23-28 | options that an option string declares, in any order, written down, are parsed back one for one, and everything behind -- or from the first token that is no option on is an operand |

## Left out

Assumptions of the whole model:

- I/O: ATA sectors are not modelled; a block write is one atomic step, so tearing inside a block is not seen, and reads succeed.
- ext2 memory: the driver's own kmalloc failures are not part of this model; its buffers are always available.
- ext2 volumes: allocation is in group 0, metadata bits are set, directory blocks are well formed, one block is at most 64 KiB; `Ext2Example.EmptyVolumeSound` shows that such volumes exist. Names have 1 to 255 bytes and a write is at most one block, as the driver requires of its callers.
- Superblock parsing in ext2_mount, and blocks behind the twelve direct ones, which the driver does not support, are left out.
- Memory map: frame 0 is in use when the page tables are set up, because address 0 stands for "none".
- The direct mapping is identified with physical memory; cr3, invlpg, hlt and the jump to user mode are hardware effects. A halt is an outcome, proved to happen only when no frame is left.
- Page flags are present, write and user, always including present; bit 63 would survive the driver's mask.
- The rights along a walk are those of the present, write and user bits at its four levels; CR0.WP, NX and the translation caches are left out.
- Program images: file ranges lie inside the image, segments share no page with each other or with the stack and lie in the lower half, and arguments are at most 16 with at most one page of bytes.
- kmalloc before its initialisation, and frees of pointers that are not live, are left out.
- Strings are sequences without NUL characters.

Members stated weaker than, or in another form than, the source:

- Bits.ClaimFirstClear: bits are tested, set and cleared by halving and doubling numbers, not on machine words.
- Ext2Layout.PlaceOf: the inode table of a group is assumed to end below 4 GiB, as part of the geometry; `Arith.OffsetsExact` shows that this is exactly when the driver's 32-bit offsets are right, and what a driver does on a larger table is not described further.
- Ext2.Ext2.DirLookup: kstrncmp is equality of byte sequences, and the cached inode is an argument.
- Vfs.Vfs.Write: a buffer is a value of its node, so the in-place update is that of a copy which then replaces it. The model stops at a write that runs past its buffer, with the nodes as before the call, and no buffer of 2^63 bytes is ever had.
- Descriptors.Files.Write: stops at such a write too.
- Vfs.Vfs.ReadDir: stops at a lookup outside the array; what is read there is not described.
- Vfs.Vfs.Make: mkdir and mkfile are one method with the kind as an argument, and the address of the new node is an argument, 0 for lack of memory.
- Framebuffer.Framebuffer.PutPixel: 32-bit coordinates do not wrap, because a mode has fewer than 0x30000000 pixels a side; the bytes between the pixels of two lines are not described.
- Framebuffer.Display: colour changes are events; how escape sequences and UTF-8 bytes are decoded into them is left out.
- Raster.SpaceIsBlank: the font is any 128 glyphs whose space is empty; the other glyphs are not written out.
- Getopt.Getopt.Next: opterr is on, and a message is a value instead of output; the branches for an exhausted cluster pointer cannot be reached and are not there.
- ElfExec.Exec: the file is given as its bytes; reading it from the file system and freeing the buffer are left out.

Parts of the kernel that the model does not cover:

- Mounting over a mount point: a walk follows one level of mounts, as the kernel does.
- procfs, initramfs, the device nodes, chdir and the other system calls.
- The GDT, IDT, TSS, PIC, keyboard, CPUID and the kernel API table: encodings and thin wrappers.
- printf, itoa and the string helpers on their own: they would only add easy members.
- The shell and the other user programs.
