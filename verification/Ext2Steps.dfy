/** The writes that each operation of the driver makes, in order, and that the volume is sound after each. */
module Ext2Steps {
  import opened Arith
  import opened Bytes
  import opened Bits
  import opened Dirent
  import opened Ext2Layout
  import opened Ext2Image
  import opened Ext2Invariant
  import opened Ext2Contents

  const FILE_MODE: nat := 0x81A4
  const DIR_MODE: nat := 0x41ED

  // Allocation: two writes, first the bitmap, then the count.

  /** A new file is regular, rw-r--r--, with one link; a new directory is rwxr-xr-x, with two links and one block. */
  lemma NewInodes(bs: nat, b: nat)
    requires bs < 0x1_0000_0000 && b < 0x1_0000_0000
    ensures NewInode(FILE_MODE, 1, 0, 0) == [0xA4, 0x81] + Zeros(24) + [1, 0] + Zeros(88)
    ensures NewInode(DIR_MODE, 2, bs, b)
         == [0xED, 0x41, 0, 0] + Put32(bs) + Zeros(18) + [2, 0] + Zeros(12) + Put32(b) + Zeros(72)
  {
    hide NewInode, Put32;
    NewInodeBytes(FILE_MODE, 1, 0, 0);
    NewInodeBytes(DIR_MODE, 2, bs, b);
    assert Put16(FILE_MODE) == [0xA4, 0x81] && Put16(DIR_MODE) == [0xED, 0x41] && Put16(1) == [1, 0] && Put16(2) == [2, 0];
    assert Put32(0) == Zeros(4) by {
      LittleEndian32(0);
    }
  }

  /** The only change is that `ino`, which was free, is used now. */
  ghost predicate InodeClaimed(lay: Layout, im: Image, im': Image, ino: nat) {
    && Formatted(lay, im) && Formatted(lay, im')
    && SameInodes(lay, im, im') && SameData(lay, im, im') && SameBlockBits(lay, im, im')
    && lay.IsInode(ino) && !InodeUsed(lay, im, ino)
    && forall i :: lay.IsInode(i) ==> (InodeUsed(lay, im', i) <==> (i == ino || InodeUsed(lay, im, i)))
  }

  /** The only change is that `b`, which was free, is used now. */
  ghost predicate BlockClaimed(lay: Layout, im: Image, im': Image, b: nat) {
    && Formatted(lay, im) && Formatted(lay, im')
    && SameInodes(lay, im, im') && SameData(lay, im, im') && SameInodeBits(lay, im, im')
    && lay.IsBlock(b) && lay.HasRole(b, Data) && !BlockUsed(lay, im, b)
    && forall c :: lay.IsBlock(c) ==> (BlockUsed(lay, im', c) <==> (c == b || BlockUsed(lay, im, c)))
  }

  /** The first `n` inodes of group 0 are all used. */
  ghost predicate InodesTaken(lay: Layout, im: Image, n: nat) {
    Shaped(lay, im) && n <= lay.inodesPerGroup && forall m :: 0 <= m < n ==> BitAt(InodeBitmapOf(lay, im, 0), m)
  }

  /** The first `n` blocks of group 0 are all used. */
  ghost predicate BlocksTaken(lay: Layout, im: Image, n: nat) {
    Shaped(lay, im) && n <= lay.blocksPerGroup && forall m :: 0 <= m < n ==> BitAt(BlockBitmapOf(lay, im, 0), m)
  }

  lemma BlocksTakenSame(lay: Layout, im: Image, im': Image, n: nat)
    requires SameBlockBits(lay, im, im')
    ensures BlocksTaken(lay, im', n) <==> BlocksTaken(lay, im, n)
  {
  }

  lemma MarkInodeClaims(lay: Layout, im: Image, n: nat)
    requires Formatted(lay, im) && n < lay.inodesPerGroup && !BitAt(InodeBitmapOf(lay, im, 0), n)
    ensures InodeClaimed(lay, im, MarkInode(lay, im, n), n + 1)
  {
    hide BitAt, WithBit, GroupOf, IndexOf, BlockGroupOf, BlockIndexOf, DescribesGroup, Raw, BlockUsed, MarkInode;
    var im' := MarkInode(lay, im, n);
    assert lay.GroupOk(0);
    MarkInodeOnly(lay, im, n);
    FirstGroup(lay, n);
    FrameInodes(lay, im, im', lay.groups[0].inodeBitmap);
    FrameBlockBits(lay, im, im', lay.groups[0].inodeBitmap);
    forall i | lay.IsInode(i) ensures InodeUsed(lay, im', i) <==> (i == n + 1 || InodeUsed(lay, im, i)) {
      MarkInodeUsed(lay, im, n, i);
    }
  }

  lemma MarkBlockClaims(lay: Layout, im: Image, n: nat)
    requires Formatted(lay, im) && SpareSound(lay, im)
    requires n < lay.blocksPerGroup && !BitAt(BlockBitmapOf(lay, im, 0), n)
    ensures BlockClaimed(lay, im, MarkBlock(lay, im, n), lay.firstDataBlock + n)
    ensures SpareSound(lay, MarkBlock(lay, im, n))
  {
    hide BitAt, WithBit, GroupOf, IndexOf, BlockGroupOf, BlockIndexOf, DescribesGroup, Raw, InodeUsed, MarkBlock;
    var im' := MarkBlock(lay, im, n);
    assert lay.GroupOk(0);
    assert lay.HasRole(lay.firstDataBlock + n, Data);
    MarkBlockOnly(lay, im, n);
    FirstGroup(lay, n);
    FrameInodes(lay, im, im', lay.groups[0].blockBitmap);
    FrameInodeBits(lay, im, im', lay.groups[0].blockBitmap);
    forall c | lay.IsBlock(c)
      ensures BlockUsed(lay, im', c) <==> (c == lay.firstDataBlock + n || BlockUsed(lay, im, c))
    {
      MarkBlockUsed(lay, im, n, c);
    }
    forall m | 0 <= m < lay.blocksPerGroup && !BitAt(BlockBitmapOf(lay, im', 0), m)
      ensures lay.HasRole(lay.firstDataBlock + m, Data)
    {
      WithBitChangesOne(BlockBitmapOf(lay, im, 0), n, m);
    }
  }

  /** Nothing but the descriptor block differs. */
  lemma DescriptorWrite(lay: Layout, im: Image, im': Image)
    requires Formatted(lay, im) && Formatted(lay, im') && OnlyBlock(lay, im, im', lay.firstDataBlock + 1)
    ensures SameInodes(lay, im, im') && SameData(lay, im, im')
    ensures SameInodeBits(lay, im, im') && SameBlockBits(lay, im, im')
  {
    hide DescribesGroup, Raw, InodeUsed, BlockUsed;
    FrameInodes(lay, im, im', lay.firstDataBlock + 1);
    FrameInodeBits(lay, im, im', lay.firstDataBlock + 1);
    FrameBlockBits(lay, im, im', lay.firstDataBlock + 1);
  }

  /** Both writes of `ext2_alloc_inode` leave the volume sound; after the second the counts are right again. */
  lemma AllocInodeSteps(lay: Layout, im: Image, live: set<nat>, owner: Owner, n: nat)
    requires Sound(lay, im, live, owner) && Counted(lay, im)
    requires n < lay.inodesPerGroup && !BitAt(InodeBitmapOf(lay, im, 0), n)
    ensures FreeInodes(lay, im) > 0
    ensures
      var im1 := MarkInode(lay, im, n);
      && Sound(lay, im1, live, owner)
      && var im2 := SetFreeInodes(lay, im1, FreeInodes(lay, im) - 1);
      && Sound(lay, im2, live, owner) && Counted(lay, im2) && InodeClaimed(lay, im, im2, n + 1)
  {
    hide BitAt, WithBit, DescribesGroup, Raw, BlockUsed, InodeUsed, MarkInode, SetFreeInodes, InodeSound, ZeroBits;
    var im1 := MarkInode(lay, im, n);
    MarkInodeClaims(lay, im, n);
    MarkInodeOnly(lay, im, n);
    assert SpareSound(lay, im1);
    MetadataStep(lay, im, im1, live, owner);
    ZeroBitsWithBit(InodeBitmapOf(lay, im, 0), n, lay.inodesPerGroup);
    assert lay.GroupOk(0);
    assert Descriptor(lay, im1) == Descriptor(lay, im);
    var im2 := SetFreeInodes(lay, im1, FreeInodes(lay, im) - 1);
    SetFreeInodesOnly(lay, im1, FreeInodes(lay, im) - 1);
    DescriptorWrite(lay, im1, im2);
    assert SpareSound(lay, im2);
    MetadataStep(lay, im1, im2, live, owner);
  }

  /** Both writes of `ext2_alloc_block`. */
  lemma AllocBlockSteps(lay: Layout, im: Image, live: set<nat>, owner: Owner, n: nat)
    requires Sound(lay, im, live, owner) && Counted(lay, im)
    requires n < lay.blocksPerGroup && !BitAt(BlockBitmapOf(lay, im, 0), n)
    ensures FreeBlocks(lay, im) > 0
    ensures
      var im1 := MarkBlock(lay, im, n);
      && Sound(lay, im1, live, owner)
      && var im2 := SetFreeBlocks(lay, im1, FreeBlocks(lay, im) - 1);
      && Sound(lay, im2, live, owner) && Counted(lay, im2) && BlockClaimed(lay, im, im2, lay.firstDataBlock + n)
  {
    hide BitAt, WithBit, DescribesGroup, Raw, BlockUsed, InodeUsed, MarkBlock, SetFreeBlocks, InodeSound, ZeroBits, SpareSound;
    var im1 := MarkBlock(lay, im, n);
    MarkBlockClaims(lay, im, n);
    MarkBlockOnly(lay, im, n);
    MetadataStep(lay, im, im1, live, owner);
    ZeroBitsWithBit(BlockBitmapOf(lay, im, 0), n, lay.blocksPerGroup);
    assert lay.GroupOk(0);
    assert Descriptor(lay, im1) == Descriptor(lay, im);
    var im2 := SetFreeBlocks(lay, im1, FreeBlocks(lay, im) - 1);
    SetFreeBlocksOnly(lay, im1, FreeBlocks(lay, im) - 1);
    DescriptorWrite(lay, im1, im2);
    SpareFollowsBitmap(lay, im1, im2);
    MetadataStep(lay, im1, im2, live, owner);
  }

  lemma SpareFollowsBitmap(lay: Layout, im: Image, im': Image)
    requires Shaped(lay, im) && SpareSound(lay, im) && SameBlockBits(lay, im, im')
    ensures SpareSound(lay, im')
  {
  }

  // What has just been claimed belongs to nobody.

  lemma ClaimedInodeNotLive(lay: Layout, im: Image, im': Image, live: set<nat>, owner: Owner, ino: nat)
    requires Sound(lay, im, live, owner) && InodeClaimed(lay, im, im', ino)
    ensures ino !in live && ino != ROOT_INO && InodeUsed(lay, im', ino)
  {
    hide Raw, InodeUsed, BlockUsed, DescribesGroup, SameInodes, SameData, SameBlockBits;
    assert ino in live ==> InodeSound(lay, im, live, owner, ino);
  }

  lemma ClaimedBlockUnreferenced(lay: Layout, im: Image, im': Image, live: set<nat>, owner: Owner, b: nat)
    requires Sound(lay, im, live, owner) && BlockClaimed(lay, im, im', b)
    ensures Unreferenced(lay, im', live, b) && BlockUsed(lay, im', b) && b != 0
  {
    hide Raw, InodeUsed, BlockUsed, DescribesGroup, SameData, SameInodeBits, U32, DirSound;
    forall i, k | i in live && lay.IsInode(i) && 0 <= k < 15 ensures Ptr(Raw(lay, im', i), k) != b {
      if Ptr(Raw(lay, im, i), k) != 0 {
        PointerOwned(lay, im, live, owner, i, k);
      }
    }
  }

  /** Counts stay right when neither the bitmaps nor the descriptors change. */
  lemma CountedKept(lay: Layout, im: Image, im': Image, b: nat)
    requires Shaped(lay, im) && Counted(lay, im) && OnlyBlock(lay, im, im', b)
    requires lay.roles[b].Data? || lay.roles[b].InodeTable?
    ensures Counted(lay, im')
  {
    hide ZeroBits, U16;
    assert lay.GroupOk(0);
  }

  // New inodes.

  /** The inode write of `ext2_create_file`: the new inode becomes live, with no blocks. */
  lemma NewFileStep(lay: Layout, im: Image, live: set<nat>, owner: Owner, ino: nat)
    requires Sound(lay, im, live, owner) && Counted(lay, im)
    requires lay.IsInode(ino) && ino !in live && InodeUsed(lay, im, ino)
    ensures
      var im' := SetInode(lay, im, ino, NewInode(FILE_MODE, 1, 0, 0));
      Sound(lay, im', live + {ino}, owner) && Counted(lay, im')
  {
    hide Raw, InodeUsed, BlockUsed, DescribesGroup, U16, U32, SetInode, NewInode, InodeSound, Counted, DirSound;
    var raw := NewInode(FILE_MODE, 1, 0, 0);
    var im' := SetInode(lay, im, ino, raw);
    NewInodeFields(FILE_MODE, 1, 0, 0);
    SetInodeOnly(lay, im, ino, raw);
    InodeTableIsMap(lay, im, ino, ino, raw);
    FrameInodeBits(lay, im, im', TableBlock(lay, ino));
    FileInodeSound(lay, im', live + {ino}, owner, ino, raw);
    InodeStep(lay, im, ino, raw, live, owner, owner);
    CountedKept(lay, im, im', TableBlock(lay, ino));
  }

  lemma FileInodeSound(lay: Layout, im: Image, live: set<nat>, owner: Owner, ino: nat, raw: seq<byte>)
    requires Shaped(lay, im) && lay.IsInode(ino) && InodeUsed(lay, im, ino)
    requires Raw(lay, im, ino) == raw && Links(raw) > 0 && !IsDir(raw)
    requires forall k :: 0 <= k < 15 ==> PointerSound(lay, im, owner, Ptr(raw, k), ino, k)
    ensures InodeSound(lay, im, live, owner, ino)
  {
  }

  /** The inode write of `ext2_vfs_mkdir`: the new inode becomes live and owns its block of records. */
  lemma NewDirStep(lay: Layout, im: Image, live: set<nat>, owner: Owner, ino: nat, b: nat)
    requires Sound(lay, im, live, owner) && Counted(lay, im)
    requires lay.IsInode(ino) && ino !in live && InodeUsed(lay, im, ino)
    requires b < 0x1_0000_0000 && lay.IsBlock(b) && lay.HasRole(b, Data) && BlockUsed(lay, im, b)
    requires Unreferenced(lay, im, live, b) && RecordsSound(im[b], live + {ino})
    ensures
      var im' := SetInode(lay, im, ino, NewInode(DIR_MODE, 2, lay.blockSize, b));
      Sound(lay, im', live + {ino}, owner[b := (ino, 0)]) && Counted(lay, im')
  {
    hide Raw, InodeUsed, BlockUsed, DescribesGroup, U16, U32, SetInode, NewInode, InodeSound, Counted, DirSound, RecordsSound;
    var raw := NewInode(DIR_MODE, 2, lay.blockSize, b);
    var im' := SetInode(lay, im, ino, raw);
    NewInodeFields(DIR_MODE, 2, lay.blockSize, b);
    SetInodeOnly(lay, im, ino, raw);
    InodeTableIsMap(lay, im, ino, ino, raw);
    FrameInodeBits(lay, im, im', TableBlock(lay, ino));
    FrameBlockBits(lay, im, im', TableBlock(lay, ino));
    DirInodeSound(lay, im', live + {ino}, owner[b := (ino, 0)], ino, raw, b);
    InodeStep(lay, im, ino, raw, live, owner, owner[b := (ino, 0)]);
    CountedKept(lay, im, im', TableBlock(lay, ino));
  }

  lemma DirInodeSound(lay: Layout, im: Image, live: set<nat>, owner: Owner, ino: nat, raw: seq<byte>, b: nat)
    requires Shaped(lay, im) && lay.IsInode(ino) && InodeUsed(lay, im, ino)
    requires |raw| == INODE_BYTES && Raw(lay, im, ino) == raw && Links(raw) > 0 && Size(raw) == lay.blockSize
    requires Ptr(raw, 0) == b && forall k :: 1 <= k < 15 ==> Ptr(raw, k) == 0
    requires PointerSound(lay, im, owner, b, ino, 0) && lay.HasRole(b, Data) && RecordsSound(im[b], live)
    ensures InodeSound(lay, im, live, owner, ino)
  {
    hide Raw, InodeUsed, BlockUsed, U16, U32, RecordsSound;
    DivUnique(lay.blockSize, lay.blockSize, 1, 0);
    assert DirLen(lay, raw) == 1;
  }

  // Directory entries.

  /** The block write of `ext2_dir_add_entry`: one more entry, for an inode that is live already. */
  lemma AddEntryStep(lay: Layout, im: Image, im': Image, live: set<nat>, owner: Owner, dir: nat, e: Dirent)
    requires Sound(lay, im, live, owner) && Counted(lay, im)
    requires dir in live && lay.IsInode(dir) && IsDir(Raw(lay, im, dir)) && e.inode in live
    requires OnlyBlock(lay, im, im', Ptr(Raw(lay, im, dir), 0))
    requires AddsEntry(im[Ptr(Raw(lay, im, dir), 0)], im'[Ptr(Raw(lay, im, dir), 0)], e)
    ensures Sound(lay, im', live, owner) && Counted(lay, im')
  {
    hide Raw, InodeUsed, BlockUsed, DescribesGroup, U16, U32, Counted, WellFormed, Entries;
    var b := Ptr(Raw(lay, im, dir), 0);
    assert InodeSound(lay, im, live, owner, dir);
    assert RecordsSound(im[b], live);
    DirectoryStep(lay, im, im', live, owner, dir, 0);
    CountedKept(lay, im, im', b);
  }

  /** The first block of a live directory: its place and its records. */
  lemma FirstDirBlock(lay: Layout, im: Image, live: set<nat>, owner: Owner, dir: nat)
    requires Sound(lay, im, live, owner) && dir in live && lay.IsInode(dir) && IsDir(Raw(lay, im, dir))
    ensures
      var b := Ptr(Raw(lay, im, dir), 0);
      b != 0 && lay.HasRole(b, Data) && RecordsSound(im[b], live)
  {
    hide Raw, InodeUsed, BlockUsed, DescribesGroup, U16, U32, WellFormed, Entries;
    assert InodeSound(lay, im, live, owner, dir);
  }

  // Files.

  /** The data write of `ext2_write_file`, to a block that no directory uses. */
  lemma FileDataStep(lay: Layout, im: Image, im': Image, live: set<nat>, owner: Owner, ino: nat, b: nat)
    requires Sound(lay, im, live, owner) && Counted(lay, im)
    requires ino in live && lay.IsInode(ino) && !IsDir(Raw(lay, im, ino))
    requires OnlyBlock(lay, im, im', b) && lay.HasRole(b, Data)
    requires Unreferenced(lay, im, live, b) || (b == Ptr(Raw(lay, im, ino), 0) && b != 0)
    ensures Sound(lay, im', live, owner) && Counted(lay, im')
  {
    hide Raw, InodeUsed, BlockUsed, DescribesGroup, U16, U32, Counted, WellFormed, Entries, DirSound, PointerSound;
    forall i, k | i in live && 0 <= k < 15 && IsDir(Raw(lay, im, i)) ensures Ptr(Raw(lay, im, i), k) != b {
      assert InodeSound(lay, im, live, owner, i);
      if Ptr(Raw(lay, im, i), k) == b && !Unreferenced(lay, im, live, b) {
        NoSharedBlock(lay, im, live, owner, i, k, ino, 0);
      }
    }
    DataStep(lay, im, im', live, owner, b);
    CountedKept(lay, im, im', b);
  }

  /** `raw'` is the inode `raw` with block `b` first and the given size. */
  predicate FileInode(raw: seq<byte>, raw': seq<byte>, b: nat, size: nat) {
    && |raw| == INODE_BYTES && |raw'| == INODE_BYTES
    && Mode(raw') == Mode(raw) && Links(raw') == Links(raw) && Size(raw') == size && Ptr(raw', 0) == b
    && forall k :: 1 <= k < 15 ==> Ptr(raw', k) == Ptr(raw, k)
  }

  /** The inode write of `ext2_write_file`: a new size, and `b` as first block. */
  lemma FileInodeStep(lay: Layout, im: Image, live: set<nat>, owner: Owner, ino: nat, b: nat, raw': seq<byte>)
    requires Sound(lay, im, live, owner) && Counted(lay, im)
    requires ino in live && lay.IsInode(ino) && !IsDir(Raw(lay, im, ino))
    requires |raw'| == INODE_BYTES && FileInode(Raw(lay, im, ino), raw', b, Size(raw'))
    requires lay.HasRole(b, Data) && lay.IsBlock(b) && BlockUsed(lay, im, b)
    requires Unreferenced(lay, im, live, b) || (b == Ptr(Raw(lay, im, ino), 0) && b != 0)
    ensures
      var im' := SetInode(lay, im, ino, raw');
      Sound(lay, im', live, owner[b := (ino, 0)]) && Counted(lay, im')
  {
    hide Raw, InodeUsed, BlockUsed, DescribesGroup, U16, U32, SetInode, Counted, DirSound;
    var raw := Raw(lay, im, ino);
    var im', owner' := SetInode(lay, im, ino, raw'), owner[b := (ino, 0)];
    SetInodeOnly(lay, im, ino, raw');
    InodeTableIsMap(lay, im, ino, ino, raw');
    FrameInodeBits(lay, im, im', TableBlock(lay, ino));
    FrameBlockBits(lay, im, im', TableBlock(lay, ino));
    assert InodeSound(lay, im, live, owner, ino);
    forall k | 0 <= k < 15 ensures PointerSound(lay, im', owner', Ptr(raw', k), ino, k) {
      assert PointerSound(lay, im, owner, Ptr(raw, k), ino, k);
    }
    FileInodeSound(lay, im', live + {ino}, owner', ino, raw');
    OthersKeepPointers(lay, im, live, owner, ino, b);
    InodeStep(lay, im, ino, raw', live, owner, owner');
    assert live + {ino} == live;
    CountedKept(lay, im, im', TableBlock(lay, ino));
  }

  lemma OthersKeepPointers(lay: Layout, im: Image, live: set<nat>, owner: Owner, ino: nat, b: nat)
    requires Sound(lay, im, live, owner) && ino in live && lay.IsInode(ino)
    requires Unreferenced(lay, im, live, b) || (b == Ptr(Raw(lay, im, ino), 0) && b != 0)
    ensures forall i :: i in live && i != ino && lay.IsInode(i) ==>
      PointersKept(lay, im, owner, owner[b := (ino, 0)], i)
  {
    hide Raw, InodeUsed, BlockUsed, DescribesGroup, U16, U32, InodeSound;
    forall i, k | i in live && i != ino && lay.IsInode(i) && 0 <= k < 15 && Ptr(Raw(lay, im, i), k) != 0
      ensures Ptr(Raw(lay, im, i), k) != b
    {
      if Ptr(Raw(lay, im, i), k) == b && !Unreferenced(lay, im, live, b) {
        NoSharedBlock(lay, im, live, owner, i, k, ino, 0);
      }
    }
  }

  // What an operation as a whole does.

  /** The first block of the directory has slack for an entry with this name. */
  ghost predicate HasRoom(lay: Layout, im: Image, dir: nat, name: Name) {
    && Shaped(lay, im) && lay.IsInode(dir)
    && var b := Ptr(Raw(lay, im, dir), 0);
    && b < |im| && WellFormed(im[b], 0) && HasSlack(im[b], 0, RealSize(|name|))
  }

  /** Every inode that was live, and every data block, reads as before. */
  ghost predicate NothingChanged(lay: Layout, im: Image, im': Image, live: set<nat>) {
    && Shaped(lay, im) && Shaped(lay, im') && SameData(lay, im, im')
    && forall i :: i in live && lay.IsInode(i) ==> Raw(lay, im', i) == Raw(lay, im, i)
  }

  lemma ClaimedChangesNothing(lay: Layout, im: Image, im': Image, live: set<nat>, ino: nat)
    requires InodeClaimed(lay, im, im', ino)
    ensures NothingChanged(lay, im, im', live)
  {
    hide Raw, InodeUsed, BlockUsed, DescribesGroup, SameData, SameBlockBits, Layout.Ok;
  }

  lemma SameAsItself(lay: Layout, im: Image, live: set<nat>)
    requires Shaped(lay, im)
    ensures NothingChanged(lay, im, im, live)
  {
  }

  /**
    The directory has one more entry, in its first block. Every inode that was live, and every other data
    block, reads as before.
   */
  ghost predicate EntryAdded(lay: Layout, im: Image, im': Image, live: set<nat>, dir: nat, e: Dirent) {
    && Shaped(lay, im) && Shaped(lay, im') && lay.IsInode(dir)
    && var b := Ptr(Raw(lay, im, dir), 0);
    && b < |im| && lay.HasRole(b, Data) && AddsEntry(im[b], im'[b], e)
    && (forall c: nat :: lay.HasRole(c, Data) && c != b ==> im'[c] == im[c])
    && forall i :: i in live && lay.IsInode(i) ==> Raw(lay, im', i) == Raw(lay, im, i)
  }

  /** Claiming and writing a new inode changes nothing that was live, and no data block. */
  lemma NewInodeSteps(lay: Layout, im: Image, im2: Image, live: set<nat>, owner: Owner, ino: nat, raw: seq<byte>)
    requires Sound(lay, im, live, owner) && InodeClaimed(lay, im, im2, ino) && |raw| == INODE_BYTES
    ensures
      var im3 := SetInode(lay, im2, ino, raw);
      && NothingChanged(lay, im, im3, live) && Raw(lay, im3, ino) == raw
  {
    hide U32, Raw, InodeUsed, BlockUsed, DescribesGroup, SameBlockBits, InodeSound, SpareSound, SetInode;
    var im3 := SetInode(lay, im2, ino, raw);
    ClaimedInodeNotLive(lay, im, im2, live, owner, ino);
    SetInodeOnly(lay, im2, ino, raw);
    InodeTableIsMap(lay, im2, ino, ino, raw);
    forall i | i in live && lay.IsInode(i) ensures Raw(lay, im3, i) == Raw(lay, im, i) {
      InodeTableIsMap(lay, im2, ino, i, raw);
    }
  }

  lemma EntryWritten(lay: Layout, im: Image, im3: Image, im4: Image, live: set<nat>, dir: nat, ino: nat, e: Dirent)
    requires NothingChanged(lay, im, im3, live) && dir in live && lay.IsInode(dir) && lay.IsInode(ino)
    requires EntryAdded(lay, im3, im4, live + {ino}, dir, e)
    ensures EntryAdded(lay, im, im4, live, dir, e)
  {
    hide U32, Raw, AddsEntry, Layout.Ok;
  }

  /** The block that `ext2_write_file` writes: the one the file has, or one that was free. */
  ghost predicate FileBlock(lay: Layout, im: Image, ino: nat, b: nat)
    requires Shaped(lay, im) && lay.IsInode(ino)
  {
    && b != 0 && lay.HasRole(b, Data) && lay.IsBlock(b)
    && if Ptr(Raw(lay, im, ino), 0) != 0 then b == Ptr(Raw(lay, im, ino), 0) else !BlockUsed(lay, im, b)
  }

  /**
    The file holds `data`, in the block it had or in one that was free. Every other live inode, and
    every other data block, reads as before.
   */
  ghost predicate FileWritten(lay: Layout, im: Image, im': Image, live: set<nat>, ino: nat, data: seq<byte>) {
    && Shaped(lay, im) && Shaped(lay, im') && lay.IsInode(ino)
    && var raw, raw' := Raw(lay, im, ino), Raw(lay, im', ino);
    && var b := Ptr(raw', 0);
    && FileBlock(lay, im, ino, b) && FileInode(raw, raw', b, |data|)
    && |data| <= lay.blockSize && im'[b] == data + Zeros(lay.blockSize - |data|)
    && (forall i :: i in live && i != ino && lay.IsInode(i) ==> Raw(lay, im', i) == Raw(lay, im, i))
    && forall c: nat :: lay.HasRole(c, Data) && c != b ==> im'[c] == im[c]
  }

  /** Block `b` may become, or is, the first block of the file. */
  ghost predicate Target(lay: Layout, im: Image, live: set<nat>, ino: nat, b: nat)
    requires Shaped(lay, im) && lay.IsInode(ino)
  {
    && b != 0 && lay.HasRole(b, Data) && lay.IsBlock(b) && BlockUsed(lay, im, b)
    && (Unreferenced(lay, im, live, b) || b == Ptr(Raw(lay, im, ino), 0))
  }

  lemma TargetKept(lay: Layout, im: Image, im': Image, live: set<nat>, ino: nat, b: nat)
    requires Shaped(lay, im) && lay.IsInode(ino) && Target(lay, im, live, ino, b) && OnlyBlock(lay, im, im', b)
    ensures Target(lay, im', live, ino, b) && Raw(lay, im', ino) == Raw(lay, im, ino)
  {
    hide U32, Raw, BlockUsed;
    FrameInodes(lay, im, im', b);
    FrameBlockBits(lay, im, im', b);
  }

  lemma ExistingTarget(lay: Layout, im: Image, live: set<nat>, owner: Owner, ino: nat)
    requires Sound(lay, im, live, owner) && ino in live && lay.IsInode(ino) && Ptr(Raw(lay, im, ino), 0) != 0
    ensures Target(lay, im, live, ino, Ptr(Raw(lay, im, ino), 0))
    ensures FileBlock(lay, im, ino, Ptr(Raw(lay, im, ino), 0))
    ensures SameInodes(lay, im, im) && SameData(lay, im, im)
  {
    hide U32, Raw, BlockUsed, InodeSound, SpareSound, DescribesGroup;
    PointerOwned(lay, im, live, owner, ino, 0);
  }

  lemma ClaimedTarget(lay: Layout, im: Image, im': Image, live: set<nat>, owner: Owner, ino: nat, b: nat)
    requires Sound(lay, im, live, owner) && BlockClaimed(lay, im, im', b)
    requires lay.IsInode(ino) && Ptr(Raw(lay, im, ino), 0) == 0
    ensures Target(lay, im', live, ino, b) && FileBlock(lay, im, ino, b)
  {
    hide U32, Raw, BlockUsed, InodeSound, SpareSound, DescribesGroup, Unreferenced, SameData, SameInodeBits;
    ClaimedBlockUnreferenced(lay, im, im', live, owner, b);
  }

  lemma FileSteps(lay: Layout, im: Image, im2: Image, im3: Image, live: set<nat>, ino: nat, b: nat,
                  raw': seq<byte>, data: seq<byte>)
    requires Formatted(lay, im) && Formatted(lay, im2) && SameInodes(lay, im, im2) && SameData(lay, im, im2)
    requires lay.IsInode(ino) && FileBlock(lay, im, ino, b) && OnlyBlock(lay, im2, im3, b)
    requires |data| <= lay.blockSize && im3[b] == data + Zeros(lay.blockSize - |data|)
    requires FileInode(Raw(lay, im, ino), raw', b, |data|)
    ensures FileWritten(lay, im, SetInode(lay, im3, ino, raw'), live, ino, data)
  {
    hide U32, U16, Raw, BlockUsed, InodeUsed, DescribesGroup, Zeros, SetInode;
    var im4 := SetInode(lay, im3, ino, raw');
    FrameFormat(lay, im2, im3, b);
    FrameInodes(lay, im2, im3, b);
    SetInodeOnly(lay, im3, ino, raw');
    InodeTableIsMap(lay, im3, ino, ino, raw');
    forall i | i in live && i != ino && lay.IsInode(i) ensures Raw(lay, im4, i) == Raw(lay, im, i) {
      InodeTableIsMap(lay, im3, ino, i, raw');
    }
  }

  /** What was written is what a fresh read of the inode finds. */
  lemma WrittenHolds(lay: Layout, im: Image, im': Image, live: set<nat>, ino: nat, data: seq<byte>)
    requires FileWritten(lay, im, im', live, ino, data) && InRange(lay, Raw(lay, im', ino))
    ensures Holds(lay, im', Raw(lay, im', ino), data)
  {
  }

  /** A directory made from nothing holds "." and ".."; every other data block reads as before. */
  ghost predicate DirectoryMade(lay: Layout, im: Image, im': Image, live: set<nat>, parent: nat, ino: nat) {
    && Shaped(lay, im) && Shaped(lay, im') && lay.IsInode(ino) && parent < 0x1_0000_0000 && ino < 0x1_0000_0000
    && var raw := Raw(lay, im', ino);
    && var b := Ptr(raw, 0);
    && b < |im| && raw == NewInode(DIR_MODE, 2, lay.blockSize, b)
    && lay.HasRole(b, Data) && lay.IsBlock(b) && !BlockUsed(lay, im, b)
    && im'[b] == EmptyDirectory(lay.blockSize, ino, parent)
    && (forall i :: i in live && lay.IsInode(i) ==> Raw(lay, im', i) == Raw(lay, im, i))
    && forall c: nat :: lay.HasRole(c, Data) && c != b ==> im'[c] == im[c]
  }

  lemma EmptyDirectorySound(lay: Layout, self: nat, parent: nat, live: set<nat>)
    requires lay.GeometryOk() && lay.IsInode(self) && lay.IsInode(parent) && self in live && parent in live
    ensures self < 0x1_0000_0000 && parent < 0x1_0000_0000
    ensures RecordsSound(EmptyDirectory(lay.blockSize, self, parent), live)
  {
    hide WellFormed, Entries, EmptyDirectory;
    EmptyDirectoryEntries(lay.blockSize, self, parent);
  }

  lemma UnreferencedKept(lay: Layout, im: Image, im': Image, live: set<nat>, b: nat)
    requires SameInodes(lay, im, im') && Unreferenced(lay, im, live, b)
    ensures Unreferenced(lay, im', live, b)
  {
    hide U32, Raw;
    forall i, k | i in live && lay.IsInode(i) && 0 <= k < 15 ensures Ptr(Raw(lay, im', i), k) != b {
      assert Ptr(Raw(lay, im, i), k) != b;
    }
  }

  /** Writing a claimed block that nobody refers to yet. */
  lemma ClaimedDataStep(lay: Layout, im: Image, im': Image, live: set<nat>, owner: Owner, b: nat)
    requires Sound(lay, im, live, owner) && Counted(lay, im) && OnlyBlock(lay, im, im', b)
    requires lay.IsBlock(b) && lay.HasRole(b, Data) && BlockUsed(lay, im, b) && Unreferenced(lay, im, live, b)
    ensures Sound(lay, im', live, owner) && Counted(lay, im')
    ensures BlockUsed(lay, im', b) && Unreferenced(lay, im', live, b)
    ensures SameInodeBits(lay, im, im')
  {
    hide Raw, InodeUsed, BlockUsed, DescribesGroup, U16, U32, Counted, DirSound, PointerSound, SpareSound, SameInodes, Ptr;
    forall i, k | i in live && 0 <= k < 15 && IsDir(Raw(lay, im, i)) ensures Ptr(Raw(lay, im, i), k) != b {
      assert InodeSound(lay, im, live, owner, i);
    }
    DataStep(lay, im, im', live, owner, b);
    CountedKept(lay, im, im', b);
    FrameInodes(lay, im, im', b);
    UnreferencedKept(lay, im, im', live, b);
    FrameInodeBits(lay, im, im', b);
    FrameBlockBits(lay, im, im', b);
  }

  /** The last two writes of `ext2_vfs_mkdir` before the entry: the block of records, then the inode. */
  lemma MakeDirectorySteps(lay: Layout, im: Image, im': Image, live: set<nat>, owner: Owner, ino: nat, b: nat, parent: nat)
    requires Sound(lay, im, live, owner) && Counted(lay, im)
    requires lay.IsInode(ino) && ino !in live && InodeUsed(lay, im, ino) && lay.IsInode(parent) && parent in live
    requires lay.IsBlock(b) && lay.HasRole(b, Data) && BlockUsed(lay, im, b) && Unreferenced(lay, im, live, b)
    requires OnlyBlock(lay, im, im', b) && ino < 0x1_0000_0000 && parent < 0x1_0000_0000
    requires im'[b] == EmptyDirectory(lay.blockSize, ino, parent)
    ensures Sound(lay, im', live, owner) && Counted(lay, im')
    ensures
      var im'' := SetInode(lay, im', ino, NewInode(DIR_MODE, 2, lay.blockSize, b));
      Sound(lay, im'', live + {ino}, owner[b := (ino, 0)]) && Counted(lay, im'')
  {
    hide Raw, InodeUsed, BlockUsed, DescribesGroup, U16, U32, Counted, InodeSound, SpareSound, SetInode, NewInode;
    hide RecordsSound, EmptyDirectory, Unreferenced;
    ClaimedDataStep(lay, im, im', live, owner, b);
    EmptyDirectorySound(lay, ino, parent, live + {ino});
    NewDirStep(lay, im', live, owner, ino, b);
  }

  lemma LiveIsInode(lay: Layout, im: Image, live: set<nat>, owner: Owner, i: nat)
    requires Sound(lay, im, live, owner) && i in live
    ensures lay.IsInode(i)
  {
    hide Raw, InodeUsed, BlockUsed, DescribesGroup, U16, U32, DirSound, PointerSound;
    assert InodeSound(lay, im, live, owner, i);
  }

  lemma DirectoryMadeSteps(lay: Layout, im0: Image, im2: Image, im4: Image, im5: Image, live: set<nat>, owner: Owner,
                           ino: nat, b: nat, parent: nat)
    requires Sound(lay, im0, live, owner) && InodeClaimed(lay, im0, im2, ino) && BlockClaimed(lay, im2, im4, b)
    requires OnlyBlock(lay, im4, im5, b) && ino < 0x1_0000_0000 && parent < 0x1_0000_0000
    requires im5[b] == EmptyDirectory(lay.blockSize, ino, parent)
    ensures b < 0x1_0000_0000
    ensures DirectoryMade(lay, im0, SetInode(lay, im5, ino, NewInode(DIR_MODE, 2, lay.blockSize, b)), live, parent, ino)
  {
    hide Raw, InodeUsed, BlockUsed, DescribesGroup, U16, U32, InodeSound, SpareSound, SetInode, NewInode, EmptyDirectory;
    var raw := NewInode(DIR_MODE, 2, lay.blockSize, b);
    var im6 := SetInode(lay, im5, ino, raw);
    ClaimedInodeNotLive(lay, im0, im2, live, owner, ino);
    NewInodeFields(DIR_MODE, 2, lay.blockSize, b);
    FrameFormat(lay, im4, im5, b);
    FrameInodes(lay, im4, im5, b);
    SetInodeOnly(lay, im5, ino, raw);
    InodeTableIsMap(lay, im5, ino, ino, raw);
    forall i | i in live && lay.IsInode(i) ensures Raw(lay, im6, i) == Raw(lay, im0, i) {
      InodeTableIsMap(lay, im5, ino, i, raw);
    }
  }

  /** The parent has the room, and the records, that it had before the directory was made. */
  lemma RoomKept(lay: Layout, im: Image, im': Image, live: set<nat>, owner: Owner, dir: nat, ino: nat, name: Name)
    requires Sound(lay, im, live, owner) && dir in live && lay.IsInode(dir) && IsDir(Raw(lay, im, dir))
    requires DirectoryMade(lay, im, im', live, dir, ino)
    ensures Ptr(Raw(lay, im, dir), 0) < |im| && im'[Ptr(Raw(lay, im, dir), 0)] == im[Ptr(Raw(lay, im, dir), 0)]
    ensures HasRoom(lay, im', dir, name) <==> HasRoom(lay, im, dir, name)
  {
    hide Raw, InodeUsed, BlockUsed, DescribesGroup, U16, U32, InodeSound, SpareSound, NewInode, EmptyDirectory;
    hide WellFormed, Entries, HasSlack, RealSize;
    FirstDirBlock(lay, im, live, owner, dir);
    PointerOwned(lay, im, live, owner, dir, 0);
  }

  /** A directory that has just been made has room for an entry of any name. */
  lemma NewDirectoryHasRoom(lay: Layout, im: Image, im': Image, live: set<nat>, parent: nat, ino: nat, name: Name)
    requires DirectoryMade(lay, im, im', live, parent, ino) && |name| < 0x100
    ensures HasRoom(lay, im', ino, name)
  {
    hide U16, U32, Raw, EmptyDirectory, WellFormed, HasSlack, NewInode, Layout.GroupOk;
    EmptyDirectoryRoom(lay.blockSize, ino, parent, RealSize(|name|));
  }
}
