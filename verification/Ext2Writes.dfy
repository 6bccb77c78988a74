/** Exactly what each operation of the driver writes: the image afterwards, block for block. */
module Ext2Writes {
  import opened Bytes
  import opened Bits
  import opened Dirent
  import opened Ext2Layout
  import opened Ext2Image
  import opened Ext2Steps

  /** The lowest free inode of group 0 is `n`; its bit is set and the count is one lower. */
  ghost predicate ClaimsInode(lay: Layout, im: Image, im': Image, n: nat) {
    && Shaped(lay, im) && 1 <= n <= lay.inodesPerGroup && FreeInodes(lay, im) > 0
    && InodesTaken(lay, im, n - 1) && !BitAt(InodeBitmapOf(lay, im, 0), n - 1)
    && Shaped(lay, MarkInode(lay, im, n - 1))
    && im' == SetFreeInodes(lay, MarkInode(lay, im, n - 1), FreeInodes(lay, im) - 1)
  }

  /** The lowest free block of group 0 is `b`; its bit is set and the count is one lower. */
  ghost predicate ClaimsBlock(lay: Layout, im: Image, im': Image, b: nat) {
    && Shaped(lay, im) && lay.firstDataBlock <= b < lay.firstDataBlock + lay.blocksPerGroup && FreeBlocks(lay, im) > 0
    && BlocksTaken(lay, im, b - lay.firstDataBlock) && !BitAt(BlockBitmapOf(lay, im, 0), b - lay.firstDataBlock)
    && Shaped(lay, MarkBlock(lay, im, b - lay.firstDataBlock))
    && im' == SetFreeBlocks(lay, MarkBlock(lay, im, b - lay.firstDataBlock), FreeBlocks(lay, im) - 1)
  }

  /** The first record of the directory's first block that has the slack is split. */
  ghost predicate PutsEntry(lay: Layout, im: Image, im': Image, dir: nat, e: Dirent) {
    && Shaped(lay, im) && lay.IsInode(dir) && e.inode < 0x1_0000_0000 && |e.name| < 0x100
    && var b := Ptr(Raw(lay, im, dir), 0);
    && b < |im| && WellFormed(im[b], 0)
    && var p := FirstSlack(im[b], 0, RealSize(|e.name|));
    && p < |im[b]| && im' == im[b := Split(im[b], p, e)]
  }

  /** A fresh inode is written, and entered if there is room; if not, it stays claimed. */
  ghost predicate CreatesFile(lay: Layout, im: Image, im': Image, dir: nat, name: Name, ino: nat) {
    if InodesTaken(lay, im, lay.inodesPerGroup) then
      ino == 0 && im' == im
    else
      exists n, im1 :: ClaimsInode(lay, im, im1, n) && PutsFile(lay, im1, im', dir, name, ino, n)
  }

  ghost predicate PutsFile(lay: Layout, im1: Image, im': Image, dir: nat, name: Name, ino: nat, n: nat) {
    && Shaped(lay, im1) && lay.IsInode(n)
    && var im2 := SetInode(lay, im1, n, NewInode(FILE_MODE, 1, 0, 0));
    if ino != 0 then
      ino == n && PutsEntry(lay, im2, im', dir, Dirent(n, name, FT_REG_FILE))
    else
      !HasRoom(lay, im2, dir, name) && im' == im2
  }

  /** The block that a write goes to: the file's first one, or one claimed now and put into the inode `raw`. */
  ghost predicate FindsBlock(lay: Layout, im: Image, im2: Image, ino: nat, b: nat, raw: seq<byte>) {
    && Shaped(lay, im) && lay.IsInode(ino) && b < 0x1_0000_0000
    && var raw0 := Raw(lay, im, ino);
    if Ptr(raw0, 0) != 0 then
      im2 == im && b == Ptr(raw0, 0) && raw == raw0
    else
      ClaimsBlock(lay, im, im2, b) && raw == WithPtr0(raw0, b)
  }

  /** The data and zeros in that block, and then the inode with the new size. */
  ghost predicate WritesFile(lay: Layout, im: Image, im': Image, ino: nat, data: seq<byte>) {
    exists im2, b, raw :: FindsBlock(lay, im, im2, ino, b, raw) && PutsData(lay, im2, im', ino, data, b, raw)
  }

  ghost predicate PutsData(lay: Layout, im2: Image, im': Image, ino: nat, data: seq<byte>, b: nat, raw: seq<byte>) {
    && Shaped(lay, im2) && b < |im2| && |raw| == INODE_BYTES && |data| <= lay.blockSize < 0x1_0000_0000 && lay.IsInode(ino)
    && var im3 := im2[b := data + Zeros(lay.blockSize - |data|)];
    && Shaped(lay, im3) && im' == SetInode(lay, im3, ino, WithSize(raw, |data|))
  }

  /** A fresh inode, a fresh block with "." and "..", the inode written last; without a block the inode stays claimed. */
  ghost predicate PutsDirectory(lay: Layout, im: Image, im': Image, parent: nat, ino: nat) {
    if InodesTaken(lay, im, lay.inodesPerGroup) then
      ino == 0 && im' == im
    else
      exists n, im1 :: ClaimsInode(lay, im, im1, n) && FillsDirectory(lay, im1, im', parent, ino, n)
  }

  ghost predicate FillsDirectory(lay: Layout, im1: Image, im': Image, parent: nat, ino: nat, n: nat) {
    if BlocksTaken(lay, im1, lay.blocksPerGroup) then
      ino == 0 && im' == im1
    else
      ino == n && exists b, im2 :: ClaimsBlock(lay, im1, im2, b) && PutsRecords(lay, im2, im', parent, n, b)
  }

  ghost predicate PutsRecords(lay: Layout, im2: Image, im': Image, parent: nat, n: nat, b: nat) {
    && Shaped(lay, im2) && b < |im2| && b < 0x1_0000_0000 && lay.IsInode(n) && n < 0x1_0000_0000 && parent < 0x1_0000_0000
    && var im3 := im2[b := EmptyDirectory(lay.blockSize, n, parent)];
    && Shaped(lay, im3) && im' == SetInode(lay, im3, n, NewInode(DIR_MODE, 2, lay.blockSize, b))
  }

  lemma RecordsPut(lay: Layout, im2: Image, im3: Image, parent: nat, n: nat, b: nat)
    requires Shaped(lay, im2) && OnlyBlock(lay, im2, im3, b) && b < 0x1_0000_0000
    requires n < 0x1_0000_0000 && parent < 0x1_0000_0000 && im3[b] == EmptyDirectory(lay.blockSize, n, parent)
    requires lay.IsInode(n)
    ensures Shaped(lay, im3)
    ensures PutsRecords(lay, im2, SetInode(lay, im3, n, NewInode(DIR_MODE, 2, lay.blockSize, b)), parent, n, b)
  {
    hide EmptyDirectory, SetInode, NewInode, DescribesGroup;
    assert im3 == im2[b := EmptyDirectory(lay.blockSize, n, parent)];
  }

  lemma DirectoryPut(lay: Layout, im: Image, im1: Image, im2: Image, im': Image, parent: nat, n: nat, b: nat)
    requires !InodesTaken(lay, im, lay.inodesPerGroup) && ClaimsInode(lay, im, im1, n)
    requires !BlocksTaken(lay, im1, lay.blocksPerGroup) && ClaimsBlock(lay, im1, im2, b)
    requires PutsRecords(lay, im2, im', parent, n, b)
    ensures PutsDirectory(lay, im, im', parent, n)
  {
    hide ClaimsInode, ClaimsBlock, PutsRecords, InodesTaken, BlocksTaken;
    assert FillsDirectory(lay, im1, im', parent, n, n);
  }

  lemma NoInodeForDirectory(lay: Layout, im: Image, parent: nat)
    requires InodesTaken(lay, im, lay.inodesPerGroup)
    ensures PutsDirectory(lay, im, im, parent, 0)
  {
    hide ClaimsInode, FillsDirectory, InodesTaken;
  }

  lemma NoBlockForDirectory(lay: Layout, im: Image, im1: Image, parent: nat, n: nat)
    requires !InodesTaken(lay, im, lay.inodesPerGroup) && ClaimsInode(lay, im, im1, n)
    requires BlocksTaken(lay, im1, lay.blocksPerGroup)
    ensures PutsDirectory(lay, im, im1, parent, 0)
  {
    hide ClaimsInode, ClaimsBlock, PutsRecords, InodesTaken, BlocksTaken;
    assert FillsDirectory(lay, im1, im1, parent, 0, n);
  }

  lemma InodeClaimedExactly(lay: Layout, im: Image, n: nat)
    requires Shaped(lay, im) && n < lay.inodesPerGroup && FreeInodes(lay, im) > 0 && InodesTaken(lay, im, n)
    requires !BitAt(InodeBitmapOf(lay, im, 0), n) && Shaped(lay, MarkInode(lay, im, n))
    ensures ClaimsInode(lay, im, SetFreeInodes(lay, MarkInode(lay, im, n), FreeInodes(lay, im) - 1), n + 1)
  {
    hide BitAt, InodesTaken, MarkInode, SetFreeInodes, Layout.Ok;
  }

  lemma BlockClaimedExactly(lay: Layout, im: Image, n: nat)
    requires Shaped(lay, im) && n < lay.blocksPerGroup && FreeBlocks(lay, im) > 0 && BlocksTaken(lay, im, n)
    requires !BitAt(BlockBitmapOf(lay, im, 0), n) && Shaped(lay, MarkBlock(lay, im, n))
    ensures ClaimsBlock(lay, im, SetFreeBlocks(lay, MarkBlock(lay, im, n), FreeBlocks(lay, im) - 1),
                        lay.firstDataBlock + n)
  {
    hide BitAt, BlocksTaken, MarkBlock, SetFreeBlocks, Layout.Ok;
  }

  /** Then the entry in the parent, if there is room for it. */
  ghost predicate MakesDirectory(lay: Layout, im: Image, im': Image, parent: nat, name: Name, ino: nat) {
    exists made :: PutsDirectory(lay, im, made, parent, ino) && EntersDirectory(lay, made, im', parent, name, ino)
  }

  ghost predicate EntersDirectory(lay: Layout, made: Image, im': Image, parent: nat, name: Name, ino: nat) {
    if ino != 0 && HasRoom(lay, made, parent, name) then
      PutsEntry(lay, made, im', parent, Dirent(ino, name, FT_DIR))
    else
      im' == made
  }
}
