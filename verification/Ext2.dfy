/**
  The ext2 driver. Every block write is one atomic step; `Disk.history` holds the contents of the whole
  volume after each of them, that is, everything a crash can leave behind.
 */
module Ext2 {
  import opened Arith
  import opened Bytes
  import opened Bits
  import opened Dirent
  import opened Ext2Directory
  import opened Ext2Layout
  import opened Ext2Image
  import opened Ext2Invariant
  import opened Ext2Steps
  import opened Ext2Writes
  import opened Ext2Contents
  import opened Ext2Theorems
  import opened Ext2History

  class Disk {
    var image: Image
    ghost var history: seq<Image>

    constructor (image: Image)
      ensures this.image == image && history == [image]
    {
      this.image := image;
      history := [image];
    }

    method ReadBlock(b: nat) returns (buf: array<byte>)
      requires b < |image|
      ensures fresh(buf) && buf[..] == image[b]
    {
      var blk := image[b];
      buf := new byte[|blk|](i requires 0 <= i < |blk| => blk[i]);
    }

    method WriteBlock(b: nat, buf: array<byte>)
      requires b < |image|
      modifies this
      ensures image == old(image)[b := old(buf[..])]
      ensures history == old(history) + [image]
    {
      image := image[b := buf[..]];
      history := history + [image];
    }
  }

  class Ext2 {
    const disk: Disk
    const blockSize: nat
    const inodesPerGroup: nat
    const blocksPerGroup: nat
    const inodeSize: nat
    const firstDataBlock: nat

    ghost const lay: Layout
    ghost var live: set<nat>
    ghost var owner: Owner

    ghost predicate Mounted()
      reads disk
    {
      && blockSize == lay.blockSize && inodesPerGroup == lay.inodesPerGroup
      && blocksPerGroup == lay.blocksPerGroup && inodeSize == lay.inodeSize
      && firstDataBlock == lay.firstDataBlock
      && Formatted(lay, disk.image)
    }

    /**
      Between operations the volume is sound and the free counts are exact; and at no moment so far
      could a crash have left a volume on which something dangles.
     */
    ghost predicate Valid()
      reads this, disk
    {
      && Mounted() && Sound(lay, disk.image, live, owner) && Counted(lay, disk.image)
      && disk.history != [] && disk.history[|disk.history| - 1] == disk.image
      && forall h :: h in disk.history ==> CrashSafe(lay, h)
    }

    constructor (disk: Disk, blockSize: nat, inodesPerGroup: nat, blocksPerGroup: nat, inodeSize: nat,
                 firstDataBlock: nat, ghost lay: Layout, ghost live: set<nat>, ghost owner: Owner)
      requires blockSize == lay.blockSize && inodesPerGroup == lay.inodesPerGroup
      requires blocksPerGroup == lay.blocksPerGroup && inodeSize == lay.inodeSize
      requires firstDataBlock == lay.firstDataBlock
      requires Sound(lay, disk.image, live, owner) && Counted(lay, disk.image) && disk.history == [disk.image]
      ensures Valid() && this.disk == disk && this.lay == lay && this.live == live
    {
      this.disk := disk;
      this.blockSize, this.inodesPerGroup := blockSize, inodesPerGroup;
      this.blocksPerGroup, this.inodeSize, this.firstDataBlock := blocksPerGroup, inodeSize, firstDataBlock;
      this.lay, this.live, this.owner := lay, live, owner;
    }

    // Inodes.

    /** The block of the table that holds an inode, from the descriptor on disk, and the offset in it. */
    method Locate(ino: nat) returns (b: nat, off: nat)
      requires Mounted() && lay.IsInode(ino)
      ensures b == TableBlock(lay, ino) && off == SlotOffset(lay, ino)
    {
      hide U32, Fits, Remainder;
      PlaceOf(lay, ino);
      var group := Fits(ino - 1, inodesPerGroup);
      var index := Remainder(ino - 1, inodesPerGroup);
      var bgd := disk.ReadBlock(firstDataBlock + 1);
      assert DescribesGroup(Descriptor(lay, disk.image), group, lay.groups[group]);
      var table := U32(bgd[..], DESCRIPTOR_SIZE * group + 8);
      var offset := Offset32(index, inodeSize);
      b := table + Fits(offset, blockSize);
      off := Remainder(offset, blockSize);
    }

    method ReadInode(ino: nat) returns (raw: seq<byte>)
      requires Mounted() && lay.IsInode(ino)
      ensures raw == Raw(lay, disk.image, ino)
    {
      hide SlotOffset, TableBlock;
      var b, off := Locate(ino);
      var buf := disk.ReadBlock(b);
      raw := buf[..][off..off + INODE_BYTES];
    }

    method WriteInode(ino: nat, raw: seq<byte>)
      requires Mounted() && lay.IsInode(ino) && |raw| == INODE_BYTES
      modifies disk
      ensures disk.image == SetInode(lay, old(disk.image), ino, raw)
      ensures disk.history == old(disk.history) + [disk.image]
    {
      hide SlotOffset, TableBlock, Splice;
      var b, off := Locate(ino);
      var buf := disk.ReadBlock(b);
      CopyIn(buf, off, raw);
      disk.WriteBlock(b, buf);
    }

    // Allocation.

    /** The lowest free inode, now used; 0 if there is none. */
    method AllocInode() returns (ino: nat)
      requires Valid()
      modifies disk
      ensures Valid() && old(disk.history) <= disk.history
      ensures ino == 0 <==> InodesTaken(lay, old(disk.image), inodesPerGroup)
      ensures ino == 0 ==> disk.image == old(disk.image) && disk.history == old(disk.history)
      ensures SparesSince(lay, old(disk.image), live, 0, old(disk.history), disk.history)
      ensures Spares(lay, old(disk.image), disk.image, live, 0)
      ensures ino != 0 ==>
        && InodeClaimed(lay, old(disk.image), disk.image, ino) && InodesTaken(lay, old(disk.image), ino - 1)
        && ClaimsInode(lay, old(disk.image), disk.image, ino)
    {
      hide U32, BitAt, WithBit, InodeSound, SpareSound, BlockBitmapOf, InodeClaimed, Splice, Put16, ZeroBits, Raw;
      hide Spares, SparesSince, ClaimsInode, Counted;
      ghost var im, was := disk.image, disk.history;
      SparesItself(lay, im, live, owner, 0);
      SparesNothingWritten(lay, im, live, 0, was);
      var bgd := disk.ReadBlock(firstDataBlock + 1);
      assert DescribesGroup(Descriptor(lay, im), 0, lay.groups[0]) && lay.GroupOk(0);
      var inodeBitmap := U32(bgd[..], 4);
      var bitmap := disk.ReadBlock(inodeBitmap);
      assert bitmap[..] == InodeBitmapOf(lay, im, 0);
      var n := ClaimFirstClear(bitmap, inodesPerGroup / 8);
      if n == -1 {
        return 0;
      }
      AllocInodeSteps(lay, im, live, owner, n);
      AllocInodeSpares(lay, im, live, owner, n, was);
      disk.WriteBlock(inodeBitmap, bitmap);
      assert disk.image == MarkInode(lay, im, n);
      assert CrashSafe(lay, disk.image);
      CopyIn(bgd, 14, Put16(U16(bgd[..], 14) - 1));
      assert Descriptor(lay, disk.image) == Descriptor(lay, im);
      disk.WriteBlock(firstDataBlock + 1, bgd);
      assert disk.image == SetFreeInodes(lay, MarkInode(lay, im, n), FreeInodes(lay, im) - 1);
      assert CrashSafe(lay, disk.image);
      InodeClaimedExactly(lay, im, n);
      ino := n + 1;
    }

    /** The lowest free block, now used; 0 if there is none. */
    method AllocBlock() returns (b: nat)
      requires Valid()
      modifies disk
      ensures Valid() && old(disk.history) <= disk.history
      ensures b == 0 <==> BlocksTaken(lay, old(disk.image), blocksPerGroup)
      ensures b == 0 ==> disk.image == old(disk.image) && disk.history == old(disk.history)
      ensures SparesSince(lay, old(disk.image), live, 0, old(disk.history), disk.history)
      ensures Spares(lay, old(disk.image), disk.image, live, 0)
      ensures b != 0 ==>
        && BlockClaimed(lay, old(disk.image), disk.image, b)
        && b >= firstDataBlock && BlocksTaken(lay, old(disk.image), b - firstDataBlock)
        && ClaimsBlock(lay, old(disk.image), disk.image, b)
    {
      hide U32, BitAt, WithBit, InodeSound, SpareSound, InodeBitmapOf, Splice, Put16, ZeroBits, Raw;
      hide BlockUsed, SameInodes, SameData, SameInodeBits, Spares, SparesSince, ClaimsBlock, Counted, Sound;
      ghost var im, was := disk.image, disk.history;
      SparesItself(lay, im, live, owner, 0);
      SparesNothingWritten(lay, im, live, 0, was);
      var bgd := disk.ReadBlock(firstDataBlock + 1);
      assert DescribesGroup(Descriptor(lay, im), 0, lay.groups[0]) && lay.GroupOk(0);
      var blockBitmap := U32(bgd[..], 0);
      var bitmap := disk.ReadBlock(blockBitmap);
      assert bitmap[..] == BlockBitmapOf(lay, im, 0);
      var n := ClaimFirstClear(bitmap, blocksPerGroup / 8);
      if n == -1 {
        return 0;
      }
      AllocBlockSteps(lay, im, live, owner, n);
      AllocBlockSpares(lay, im, live, owner, n, was);
      disk.WriteBlock(blockBitmap, bitmap);
      assert disk.image == MarkBlock(lay, im, n);
      assert CrashSafe(lay, disk.image);
      CopyIn(bgd, 12, Put16(U16(bgd[..], 12) - 1));
      assert Descriptor(lay, disk.image) == Descriptor(lay, im);
      disk.WriteBlock(firstDataBlock + 1, bgd);
      assert disk.image == SetFreeBlocks(lay, MarkBlock(lay, im, n), FreeBlocks(lay, im) - 1);
      assert CrashSafe(lay, disk.image);
      BlockClaimedExactly(lay, im, n);
      b := firstDataBlock + n;
    }

    // Reading.

    /** The bytes of an inode from `offset` on: at most `size` of them, and none past a missing block. */
    method ReadInodeData(raw: seq<byte>, offset: word, size: word) returns (r: seq<byte>)
      requires Mounted() && |raw| == INODE_BYTES && InRange(lay, raw)
      ensures IsRead(lay, disk.image, raw, offset, size, r)
    {
      hide U32, Fits, Remainder;
      r := [];
      var end := ReadLimit(raw, offset, size);
      while offset + |r| < end
        invariant r == [] || offset + |r| <= end
        invariant forall i :: 0 <= i < |r| ==> HasByte(lay, disk.image, raw, offset + i, r[i])
        decreases end - (offset + |r|)
      {
        var pos := offset + |r|;
        var blockIdx := Fits(pos, blockSize);
        var inner := Remainder(pos, blockSize);
        if blockIdx >= DIRECT_BLOCKS {
          break;
        }
        var blockNo := Ptr(raw, blockIdx);
        if blockNo == 0 {
          break;
        }
        var buf := disk.ReadBlock(blockNo);
        var avail := blockSize - inner;
        var want := end - pos;
        var chunk := if avail < want then avail else want;
        var piece := buf[inner..inner + chunk];
        forall i | 0 <= i < chunk ensures HasByte(lay, disk.image, raw, pos + i, piece[i]) {
          FitsSame(pos, i, blockSize);
        }
        r := r + piece;
      }
    }

    /** `ext2_dir_lookup`: the inode that the directory gives this name; 0 if it has no such entry. */
    method DirLookup(raw: seq<byte>, name: Name) returns (ino: nat)
      requires Mounted() && |raw| == INODE_BYTES && Readable(lay, disk.image, raw)
      ensures ino == Find(EntriesOf(lay, disk.image, raw), name)
    {
      hide U32, WellFormed, Entries, EntriesOf, IsRead, DirLen;
      var readSize := if Size(raw) != 0 then Size(raw) else blockSize;
      var r := ReadInodeData(raw, 0, readSize);
      ReadableSize(lay, disk.image, raw);
      DirectoryRead(lay, disk.image, raw, r);
      ino := 0;
      if |r| > 0 {
        var buf := new byte[|r|](i requires 0 <= i < |r| => r[i]);
        assert buf[..] == r;
        ino := FindRecord(buf, name);
      }
    }

    /** `ext2_vfs_readdir`: the `index`-th entry of the listing. */
    method ReadDir(raw: seq<byte>, index: nat) returns (found: bool, e: Dirent)
      requires Mounted() && |raw| == INODE_BYTES && Readable(lay, disk.image, raw)
      ensures found <==> index < |Listing(EntriesOf(lay, disk.image, raw))|
      ensures found ==> e == Listing(EntriesOf(lay, disk.image, raw))[index]
    {
      hide U32, WellFormed, Entries, EntriesOf, IsRead, DirLen;
      var readSize := if Size(raw) != 0 then Size(raw) else blockSize;
      var r := ReadInodeData(raw, 0, readSize);
      ReadableSize(lay, disk.image, raw);
      DirectoryRead(lay, disk.image, raw, r);
      var buf := new byte[|r|](i requires 0 <= i < |r| => r[i]);
      assert buf[..] == r;
      found, e := NthRecord(buf, index);
    }
  
    // Directories.

    /** `ext2_dir_add_entry`: one block write, or none when no record has the slack for the new one. */
    method DirAddEntry(raw: seq<byte>, e: Dirent) returns (ok: bool)
      requires Mounted() && |raw| == INODE_BYTES && Ptr(raw, 0) < |disk.image|
      requires WellFormed(disk.image[Ptr(raw, 0)], 0) && e.inode < 0x1_0000_0000 && |e.name| < 0x100
      modifies disk
      ensures ok <==> HasSlack(old(disk.image)[Ptr(raw, 0)], 0, RealSize(|e.name|))
      ensures !ok ==> disk.image == old(disk.image) && disk.history == old(disk.history)
      ensures ok ==>
        && OnlyBlock(lay, old(disk.image), disk.image, Ptr(raw, 0))
        && AddsEntry(old(disk.image)[Ptr(raw, 0)], disk.image[Ptr(raw, 0)], e)
        && FirstSlack(old(disk.image)[Ptr(raw, 0)], 0, RealSize(|e.name|)) < |old(disk.image)[Ptr(raw, 0)]|
        && disk.image == old(disk.image)[Ptr(raw, 0) := Split(old(disk.image)[Ptr(raw, 0)],
             FirstSlack(old(disk.image)[Ptr(raw, 0)], 0, RealSize(|e.name|)), e)]
        && disk.history == old(disk.history) + [disk.image]
    {
      hide U32, U16, WellFormed, Entries, HasSlack, Reaches, FirstSlack, IsSplit, AddsEntry, DescribesGroup, RealSize, Split;
      var blockNo := Ptr(raw, 0);
      var buf := disk.ReadBlock(blockNo);
      ghost var s := buf[..];
      ok := AddRecord(buf, e);
      if ok {
        SplitAddsEntry(s, buf[..], FirstSlack(s, 0, RealSize(|e.name|)), e);
        AddsEntryLength(s, buf[..], FirstSlack(s, 0, RealSize(|e.name|)), e);
        disk.WriteBlock(blockNo, buf);
      }
    }

    /** `ext2_create_file`: the number of the new, empty file, or 0. */
    method CreateFile(dir: nat, name: Name) returns (ino: nat)
      requires Valid() && dir in live && lay.IsInode(dir) && IsDir(Raw(lay, disk.image, dir)) && 1 <= |name| < 0x100
      modifies this, disk
      ensures Valid() && old(disk.history) <= disk.history
      ensures old(live) <= live && (ino != 0 ==> ino !in old(live) && live == old(live) + {ino})
      ensures ino != 0 <==>
        && !InodesTaken(lay, old(disk.image), inodesPerGroup)
        && HasRoom(lay, old(disk.image), dir, name)
      ensures ino != 0 ==>
        && EntryAdded(lay, old(disk.image), disk.image, old(live), dir, Dirent(ino, name, FT_REG_FILE))
        && lay.IsInode(ino) && Raw(lay, disk.image, ino) == NewInode(FILE_MODE, 1, 0, 0)
      ensures ino == 0 ==> NothingChanged(lay, old(disk.image), disk.image, old(live))
      ensures CreatesFile(lay, old(disk.image), disk.image, dir, name, ino)
      ensures SparesUntil(lay, old(disk.image), old(live), dir, old(disk.history), disk.history)
    {
      hide U32, U16, Raw, InodeSound, SpareSound, InodeUsed, BlockUsed, WellFormed, Entries, AddsEntry, HasSlack, RealSize;
      hide SameBlockBits, Counted, SetInode, NewInode, DescribesGroup, BitAt, Spares, SparesSince, SparesUntil;
      hide ClaimsInode, PutsEntry;
      ghost var im0, live0, owner0, was := disk.image, live, owner, disk.history;
      FirstDirBlock(lay, im0, live, owner, dir);
      var newIno := AllocInode();
      if newIno == 0 {
        SparesWeaker(lay, im0, live0, owner0, dir, was, disk.history);
        return 0;
      }
      ghost var im2 := disk.image;
      ClaimedInodeNotLive(lay, im0, im2, live, owner, newIno);
      LastInodeSpares(lay, im0, im2, live, owner, newIno, NewInode(FILE_MODE, 1, 0, 0), was, disk.history);
      NewFileStep(lay, im2, live, owner, newIno);
      WriteInode(newIno, NewInode(FILE_MODE, 1, 0, 0));
      ghost var im3 := disk.image;
      assert CrashSafe(lay, im3);
      live := live + {newIno};
      NewInodeSteps(lay, im0, im2, live - {newIno}, owner, newIno, NewInode(FILE_MODE, 1, 0, 0));
      ghost var mid := disk.history;
      var ok := Link(dir, Dirent(newIno, name, FT_REG_FILE));
      SparesLinked(lay, im0, im3, disk.image, live0, live, owner0, dir, was, mid, disk.history);
      if ok {
        EntryWritten(lay, im0, im3, disk.image, live - {newIno}, dir, newIno, Dirent(newIno, name, FT_REG_FILE));
        ino := newIno;
      } else {
        ino := 0;
      }
      assert PutsFile(lay, im2, disk.image, dir, name, ino, newIno);
    }

    // Files.

    /** The file's first block, claimed now if it had none, and the inode that says so; 0 if the disk is full. */
    method FirstBlock(ino: nat) returns (b: nat, inode: seq<byte>)
      requires Valid() && ino in live && lay.IsInode(ino)
      modifies disk
      ensures Valid() && old(disk.history) <= disk.history
      ensures b != 0 <==>
        Ptr(Raw(lay, old(disk.image), ino), 0) != 0 || !BlocksTaken(lay, old(disk.image), blocksPerGroup)
      ensures b == 0 ==> disk.image == old(disk.image) && disk.history == old(disk.history)
      ensures SparesSince(lay, old(disk.image), live, 0, old(disk.history), disk.history)
      ensures Spares(lay, old(disk.image), disk.image, live, 0)
      ensures b != 0 ==>
        && SameInodes(lay, old(disk.image), disk.image) && SameData(lay, old(disk.image), disk.image)
        && FileBlock(lay, old(disk.image), ino, b) && Target(lay, disk.image, live, ino, b)
        && FileInode(Raw(lay, old(disk.image), ino), inode, b, Size(Raw(lay, old(disk.image), ino)))
        && FindsBlock(lay, old(disk.image), disk.image, ino, b, inode)
    {
      hide U32, U16, Raw, InodeSound, SpareSound, BlockUsed, InodeUsed, SameInodeBits, DescribesGroup, BitAt, WithPtr0;
      hide ClaimsBlock, Target, FileBlock, SameData, Counted, Spares, SparesSince;
      ghost var im := disk.image;
      SparesItself(lay, im, live, owner, 0);
      SparesNothingWritten(lay, im, live, 0, disk.history);
      inode := ReadInode(ino);
      b := Ptr(inode, 0);
      if b == 0 {
        b := AllocBlock();
        if b != 0 {
          ClaimedTarget(lay, im, disk.image, live, owner, ino, b);
          WithPtr0Fields(inode, b);
          inode := WithPtr0(inode, b);
        }
      } else {
        ExistingTarget(lay, im, live, owner, ino);
      }
    }

    /** `ext2_write_file`: the whole contents of the file, at most one block of them. */
    method WriteFile(ino: nat, data: seq<byte>) returns (ok: bool)
      requires Valid() && ino in live && lay.IsInode(ino) && !IsDir(Raw(lay, disk.image, ino))
      requires |data| <= blockSize
      modifies this, disk
      ensures Valid() && old(disk.history) <= disk.history && live == old(live)
      ensures ok <==>
        Ptr(Raw(lay, old(disk.image), ino), 0) != 0 || !BlocksTaken(lay, old(disk.image), blocksPerGroup)
      ensures !ok ==> disk.image == old(disk.image) && disk.history == old(disk.history)
      ensures ok ==> FileWritten(lay, old(disk.image), disk.image, live, ino, data)
      ensures ok ==> WritesFile(lay, old(disk.image), disk.image, ino, data)
      ensures SparesSince(lay, old(disk.image), live, ino, old(disk.history), disk.history)
    {
      hide U32, U16, Raw, InodeSound, SpareSound, InodeUsed, BlockUsed, SameData, FileBlock, Unreferenced;
      hide Counted, SetInode, DescribesGroup, BitAt, WithSize, Zeros, FileWritten, Splice, BlocksTaken, Spares, SparesSince;
      hide FindsBlock;
      ghost var im0, was := disk.image, disk.history;
      ghost var owner0 := owner;
      var blockNo, inode := FirstBlock(ino);
      SparesFewer(lay, im0, live, owner0, ino, was, disk.history);
      SparesButOne(lay, im0, disk.image, live, owner0, ino);
      if blockNo == 0 {
        return false;
      }
      ghost var im2 := disk.image;
      var buf := new byte[blockSize](_ => 0);
      CopyIn(buf, 0, data);
      assert buf[..] == data + Zeros(blockSize - |data|);
      ghost var hist2 := disk.history;
      disk.WriteBlock(blockNo, buf);
      ghost var im3 := disk.image;
      FileDataStep(lay, im2, im3, live, owner, ino, blockNo);
      DataSpares(lay, im2, im3, live, owner, blockNo, ino);
      SparesNext(lay, im0, im2, im3, live, ino, was, hist2);
      assert CrashSafe(lay, im3);
      TargetKept(lay, im2, im3, live, ino, blockNo);
      WithSizeFields(inode, |data|);
      ghost var raw := inode;
      inode := WithSize(inode, |data|);
      FileInodeStep(lay, im3, live, owner, ino, blockNo, inode);
      FileSteps(lay, im0, im2, im3, live, ino, blockNo, inode, data);
      InodeSpares(lay, im3, live, owner, ino, inode);
      SparesNext(lay, im0, im3, SetInode(lay, im3, ino, inode), live, ino, was, disk.history);
      WriteInode(ino, inode);
      assert PutsData(lay, im2, disk.image, ino, data, blockNo, raw);
      owner := owner[blockNo := (ino, 0)];
      assert CrashSafe(lay, disk.image);
      ok := true;
    }
  
    /** The block write of `ext2_vfs_mkdir`: a zeroed block with the records "." and "..". */
    method PutEmptyDirectory(b: nat, self: nat, parent: nat)
      requires Mounted() && b < |disk.image| && self < 0x1_0000_0000 && parent < 0x1_0000_0000
      modifies disk
      ensures OnlyBlock(lay, old(disk.image), disk.image, b)
      ensures disk.image[b] == EmptyDirectory(blockSize, self, parent)
      ensures disk.history == old(disk.history) + [disk.image]
    {
      hide NewRecord, Splice, DescribesGroup;
      var buf := new byte[blockSize](_ => 0);
      assert buf[..] == Zeros(blockSize);
      PutRecord(buf, 0, Dirent(self, DOT, FT_DIR), 12);
      PutRecord(buf, 12, Dirent(parent, DOTDOT, FT_DIR), blockSize - 12);
      disk.WriteBlock(b, buf);
    }

    /** Reads the directory's inode and adds an entry for a live inode, if the first block has room. */
    method Link(dir: nat, e: Dirent) returns (ok: bool)
      requires Valid() && dir in live && lay.IsInode(dir) && IsDir(Raw(lay, disk.image, dir))
      requires e.inode in live && e.inode < 0x1_0000_0000 && |e.name| < 0x100
      modifies disk
      ensures Valid() && old(disk.history) <= disk.history
      ensures ok <==> HasRoom(lay, old(disk.image), dir, e.name)
      ensures ok ==> EntryAdded(lay, old(disk.image), disk.image, live, dir, e)
      ensures ok ==> PutsEntry(lay, old(disk.image), disk.image, dir, e)
      ensures ok ==> forall i :: lay.IsInode(i) ==> Raw(lay, disk.image, i) == Raw(lay, old(disk.image), i)
      ensures !ok ==> disk.image == old(disk.image) && disk.history == old(disk.history)
      ensures ok ==>
        disk.history == old(disk.history) + [disk.image] && Spares(lay, old(disk.image), disk.image, live, dir)
    {
      hide U32, U16, Raw, InodeSound, SpareSound, WellFormed, Entries, AddsEntry, HasSlack, RealSize, Counted, DescribesGroup;
      hide Spares, Split, FirstSlack;
      ghost var im := disk.image;
      FirstDirBlock(lay, im, live, owner, dir);
      var dirInode := ReadInode(dir);
      ok := DirAddEntry(dirInode, e);
      if ok {
        AddEntryStep(lay, im, disk.image, live, owner, dir, e);
        DataSpares(lay, im, disk.image, live, owner, Ptr(dirInode, 0), dir);
        assert CrashSafe(lay, disk.image);
        FrameInodes(lay, im, disk.image, Ptr(dirInode, 0));
      }
    }

    /** The part of `ext2_vfs_mkdir` before the entry: inode, block, records. */
    method NewDirectory(parent: nat) returns (ino: nat)
      requires Valid() && parent in live && lay.IsInode(parent)
      modifies this, disk
      ensures Valid() && old(disk.history) <= disk.history
      ensures ino != 0 <==>
        !InodesTaken(lay, old(disk.image), inodesPerGroup) && !BlocksTaken(lay, old(disk.image), blocksPerGroup)
      ensures ino == 0 ==> live == old(live) && NothingChanged(lay, old(disk.image), disk.image, live)
      ensures ino != 0 ==>
        && ino !in old(live) && live == old(live) + {ino}
        && DirectoryMade(lay, old(disk.image), disk.image, old(live), parent, ino)
      ensures PutsDirectory(lay, old(disk.image), disk.image, parent, ino)
      ensures SparesSince(lay, old(disk.image), old(live), 0, old(disk.history), disk.history)
      ensures Spares(lay, old(disk.image), disk.image, old(live), 0)
    {
      hide U32, U16, Raw, InodeSound, SpareSound, InodeUsed, BlockUsed, Counted, SetInode, NewInode, DescribesGroup;
      hide BitAt, EmptyDirectory, DirectoryMade, Unreferenced, BlocksTaken, InodesTaken, Spares, SparesSince;
      hide ClaimsInode, ClaimsBlock, PutsRecords, FillsDirectory, NothingChanged, PutsDirectory;
      ghost var im0, was := disk.image, disk.history;
      var newIno := AllocInode();
      if newIno == 0 {
        SameAsItself(lay, im0, live);
        NoInodeForDirectory(lay, im0, parent);
        return 0;
      }
      ghost var im2 := disk.image;
      ClaimedInodeNotLive(lay, im0, im2, live, owner, newIno);
      ghost var hist2 := disk.history;
      var blk := AllocBlock();
      SparesThrough(lay, im0, im2, live, live, 0, was, hist2, disk.history);
      SparesTwice(lay, im0, im2, disk.image, live, 0);
      BlocksTakenSame(lay, im0, im2, blocksPerGroup);
      if blk == 0 {
        ClaimedChangesNothing(lay, im0, im2, live, newIno);
        NoBlockForDirectory(lay, im0, im2, parent, newIno);
        return 0;
      }
      ghost var im4 := disk.image;
      ClaimedBlockUnreferenced(lay, im2, im4, live, owner, blk);
      ghost var hist4 := disk.history;
      PutEmptyDirectory(blk, newIno, parent);
      ghost var im5 := disk.image;
      RecordsPut(lay, im4, im5, parent, newIno, blk);
      DataSpares(lay, im4, im5, live, owner, blk, 0);
      SparesNext(lay, im0, im4, im5, live, 0, was, hist4);
      MakeDirectorySteps(lay, im4, im5, live, owner, newIno, blk, parent);
      DirectoryMadeSteps(lay, im0, im2, im4, im5, live, owner, newIno, blk, parent);
      assert CrashSafe(lay, im5);
      LastInodeSpares(lay, im0, im5, live, owner, newIno, NewInode(DIR_MODE, 2, blockSize, blk), was, disk.history);
      WriteInode(newIno, NewInode(DIR_MODE, 2, blockSize, blk));
      live, owner := live + {newIno}, owner[blk := (newIno, 0)];
      assert CrashSafe(lay, disk.image);
      ino := newIno;
      DirectoryPut(lay, im0, im2, im4, disk.image, parent, newIno, blk);
    }

    /**
      `ext2_vfs_mkdir`: the number of the new directory, or 0. When the parent has no room for the entry
      the driver returns the new directory all the same; `made` is the volume just before the entry.
     */
    method MakeDirectory(parent: nat, name: Name) returns (ino: nat, ghost made: Image)
      requires Valid() && parent in live && lay.IsInode(parent) && IsDir(Raw(lay, disk.image, parent))
      requires 1 <= |name| < 0x100
      modifies this, disk
      ensures Valid() && old(disk.history) <= disk.history
      ensures ino != 0 <==>
        !InodesTaken(lay, old(disk.image), inodesPerGroup) && !BlocksTaken(lay, old(disk.image), blocksPerGroup)
      ensures ino == 0 ==> live == old(live) && NothingChanged(lay, old(disk.image), disk.image, live)
      ensures ino != 0 ==>
        && ino !in old(live) && live == old(live) + {ino}
        && DirectoryMade(lay, old(disk.image), made, old(live), parent, ino) && Sound(lay, made, live, owner)
        && if HasRoom(lay, old(disk.image), parent, name)
           then EntryAdded(lay, made, disk.image, live, parent, Dirent(ino, name, FT_DIR))
           else disk.image == made
      ensures MakesDirectory(lay, old(disk.image), disk.image, parent, name, ino)
      ensures SparesUntil(lay, old(disk.image), old(live), parent, old(disk.history), disk.history)
    {
      hide U32, U16, Sound, InodeUsed, BlockUsed, Counted, BlocksTaken, InodesTaken, HasRoom, EntryAdded;
      hide NewInode, EmptyDirectory, Spares, SparesSince, SparesUntil, PutsDirectory, PutsEntry;
      ghost var im0, live0, owner0, was := disk.image, live, owner, disk.history;
      ino := NewDirectory(parent);
      made := disk.image;
      ghost var mid := disk.history;
      if ino != 0 {
        RoomKept(lay, im0, made, live0, owner0, parent, ino, name);
        var linked := Link(parent, Dirent(ino, name, FT_DIR));
      }
      SparesLinked(lay, im0, made, disk.image, live0, live, owner0, parent, was, mid, disk.history);
      assert EntersDirectory(lay, made, disk.image, parent, name, ino);
    }
  }
}
