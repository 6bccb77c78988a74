/**
  Where an ext2 volume keeps what: the values that `ext2_mount` reads from the superblock, the block
  numbers in the group descriptor table, and the purpose of every block.
 */
module Ext2Layout {
  import opened Bytes
  import opened Arith

  type Block = seq<byte>

  /** The whole volume: block number to contents. */
  type Image = seq<Block>

  datatype Role =
    | Reserved
    | GroupTable
    | BlockBitmap(group: nat)
    | InodeBitmap(group: nat)
    | InodeTable(group: nat, index: nat)
    | Data

  datatype Group = Group(blockBitmap: nat, inodeBitmap: nat, inodeTable: nat)

  const ROOT_INO: nat := 2
  const DESCRIPTOR_SIZE: nat := 32
  /** sizeof(ext2_inode_t): the driver's structure stops after i_faddr. */
  const INODE_BYTES: nat := 116
  const DIRECT_BLOCKS: nat := 12

  datatype Layout = Layout(
    blockSize: nat,
    inodesPerGroup: nat,
    blocksPerGroup: nat,
    inodeSize: nat,
    firstDataBlock: nat,
    groups: seq<Group>,
    roles: seq<Role>)
  {
    predicate GeometryOk() {
      && 1024 <= blockSize <= 0x1_0000
      && 128 <= inodeSize <= blockSize && blockSize % inodeSize == 0
      && 8 <= inodesPerGroup <= 8 * blockSize && inodesPerGroup % 8 == 0
      && 8 <= blocksPerGroup <= 8 * blockSize && blocksPerGroup % 8 == 0
      && 1 <= |groups| && DESCRIPTOR_SIZE * |groups| <= blockSize
      && |roles| < 0x1_0000_0000
      && ROOT_INO <= inodesPerGroup
      && |groups| * inodesPerGroup < 0x1_0000_0000
      && Times(inodesPerGroup - 1, inodeSize) < 0x1_0000_0000 // or slots would coincide: see OffsetsExact
    }

    predicate HasRole(b: nat, r: Role) {
      b < |roles| && roles[b] == r
    }

    /** Blocks of one inode table. */
    function TableBlocks(): nat
      requires blockSize > 0
    {
      BlocksFor(inodesPerGroup, inodeSize, blockSize)
    }

    predicate GroupOk(g: nat)
      requires g < |groups| && blockSize > 0
    {
      && HasRole(groups[g].blockBitmap, BlockBitmap(g))
      && HasRole(groups[g].inodeBitmap, InodeBitmap(g))
      && forall k :: 0 <= k < TableBlocks() ==> HasRole(groups[g].inodeTable + k, InodeTable(g, k))
    }

    /** No block has two purposes, because `roles` gives it one. */
    predicate Ok() {
      && GeometryOk()
      && HasRole(firstDataBlock + 1, GroupTable)
      && !HasRole(0, Data) // the boot sector, or the superblock
      && forall g :: 0 <= g < |groups| ==> GroupOk(g)
    }

    predicate IsInode(ino: nat) {
      1 <= ino && (ino - 1) < |groups| * inodesPerGroup
    }

    predicate IsBlock(b: nat) {
      firstDataBlock <= b < |roles| && b - firstDataBlock < |groups| * blocksPerGroup
    }
  }

  // Where things are. The arithmetic stays inside these functions and the lemmas about them.

  function GroupOf(lay: Layout, ino: nat): (g: nat)
    requires lay.GeometryOk() && lay.IsInode(ino)
    ensures g < |lay.groups|
  {
    Quotient(ino - 1, lay.inodesPerGroup, |lay.groups|)
  }

  function IndexOf(lay: Layout, ino: nat): (i: nat)
    requires lay.GeometryOk() && lay.IsInode(ino)
    ensures i < lay.inodesPerGroup
  {
    Remainder(ino - 1, lay.inodesPerGroup)
  }

  function BlockGroupOf(lay: Layout, b: nat): (g: nat)
    requires lay.GeometryOk() && lay.IsBlock(b)
    ensures g < |lay.groups|
  {
    Quotient(b - lay.firstDataBlock, lay.blocksPerGroup, |lay.groups|)
  }

  function BlockIndexOf(lay: Layout, b: nat): (i: nat)
    requires lay.GeometryOk() && lay.IsBlock(b)
    ensures i < lay.blocksPerGroup
  {
    Remainder(b - lay.firstDataBlock, lay.blocksPerGroup)
  }

  /** Inode and block numbers of group 0, where all allocation takes place. */
  lemma FirstGroup(lay: Layout, n: nat)
    requires lay.GeometryOk()
    ensures n < lay.inodesPerGroup ==>
      lay.IsInode(n + 1) && GroupOf(lay, n + 1) == 0 && IndexOf(lay, n + 1) == n
    ensures n < lay.blocksPerGroup && lay.firstDataBlock + n < |lay.roles| ==>
      && lay.IsBlock(lay.firstDataBlock + n)
      && BlockGroupOf(lay, lay.firstDataBlock + n) == 0 && BlockIndexOf(lay, lay.firstDataBlock + n) == n
  {
    MulLeq(1, |lay.groups|, lay.inodesPerGroup);
    MulLeq(1, |lay.groups|, lay.blocksPerGroup);
    if n < lay.inodesPerGroup {
      DivSmall(n, lay.inodesPerGroup);
    }
    if n < lay.blocksPerGroup {
      DivSmall(n, lay.blocksPerGroup);
    }
  }

  lemma InodeFromPlace(lay: Layout, i: nat, j: nat)
    requires lay.GeometryOk() && lay.IsInode(i) && lay.IsInode(j)
    requires GroupOf(lay, i) == GroupOf(lay, j) && IndexOf(lay, i) == IndexOf(lay, j)
    ensures i == j
  {
    DivMod(i - 1, lay.inodesPerGroup);
    DivMod(j - 1, lay.inodesPerGroup);
  }

  lemma BlockFromPlace(lay: Layout, b: nat, c: nat)
    requires lay.GeometryOk() && lay.IsBlock(b) && lay.IsBlock(c)
    requires BlockGroupOf(lay, b) == BlockGroupOf(lay, c) && BlockIndexOf(lay, b) == BlockIndexOf(lay, c)
    ensures b == c
  {
    DivMod(b - lay.firstDataBlock, lay.blocksPerGroup);
    DivMod(c - lay.firstDataBlock, lay.blocksPerGroup);
  }

  /** The block of the inode table, and the offset in it, where an inode is stored. */
  function SlotBlock(lay: Layout, ino: nat): (b: nat)
    requires lay.GeometryOk() && lay.IsInode(ino)
    ensures b < lay.TableBlocks()
  {
    BlockOfSlot(IndexOf(lay, ino), lay.inodesPerGroup, lay.inodeSize, lay.blockSize)
  }

  function SlotOffset(lay: Layout, ino: nat): (o: nat)
    requires lay.GeometryOk() && lay.IsInode(ino)
    ensures o + INODE_BYTES <= lay.blockSize
  {
    SlotInsideBlock(IndexOf(lay, ino), lay.inodeSize, lay.blockSize);
    DivMod(IndexOf(lay, ino) * lay.inodeSize, lay.blockSize);
    IndexOf(lay, ino) * lay.inodeSize % lay.blockSize
  }

  /** Inodes of one group that share a table block do not overlap in it. */
  lemma SlotsDisjoint(lay: Layout, i: nat, j: nat)
    requires lay.GeometryOk() && lay.IsInode(i) && lay.IsInode(j) && i != j
    requires GroupOf(lay, i) == GroupOf(lay, j) && SlotBlock(lay, i) == SlotBlock(lay, j)
    ensures
      || SlotOffset(lay, i) + INODE_BYTES <= SlotOffset(lay, j)
      || SlotOffset(lay, j) + INODE_BYTES <= SlotOffset(lay, i)
  {
    if IndexOf(lay, i) == IndexOf(lay, j) {
      InodeFromPlace(lay, i, j);
    } else if IndexOf(lay, i) < IndexOf(lay, j) {
      SlotsApart(IndexOf(lay, i), IndexOf(lay, j), lay.inodeSize, lay.blockSize);
    } else {
      SlotsApart(IndexOf(lay, j), IndexOf(lay, i), lay.inodeSize, lay.blockSize);
    }
  }

  function TableBlock(lay: Layout, ino: nat): (b: nat)
    requires lay.Ok() && lay.IsInode(ino)
    ensures lay.HasRole(b, InodeTable(GroupOf(lay, ino), SlotBlock(lay, ino)))
  {
    assert lay.GroupOk(GroupOf(lay, ino));
    lay.groups[GroupOf(lay, ino)].inodeTable + SlotBlock(lay, ino)
  }

  /** The divisions and remainders with which the driver finds an inode. */
  lemma PlaceOf(lay: Layout, ino: nat)
    requires lay.GeometryOk() && lay.IsInode(ino)
    ensures GroupOf(lay, ino) == Fits(ino - 1, lay.inodesPerGroup)
    ensures IndexOf(lay, ino) == Remainder(ino - 1, lay.inodesPerGroup)
    ensures SlotBlock(lay, ino) == Fits(Offset32(IndexOf(lay, ino), lay.inodeSize), lay.blockSize)
    ensures SlotOffset(lay, ino) == Remainder(Offset32(IndexOf(lay, ino), lay.inodeSize), lay.blockSize)
  {
    OffsetFits(IndexOf(lay, ino), lay.inodesPerGroup, lay.inodeSize);
  }

  /** Inodes are numbered from 1 through the groups, and stored one after the other in the tables. */
  lemma PlaceMeans(lay: Layout, ino: nat)
    requires lay.GeometryOk() && lay.IsInode(ino)
    ensures GroupOf(lay, ino) * lay.inodesPerGroup + IndexOf(lay, ino) == ino - 1 && IndexOf(lay, ino) < lay.inodesPerGroup
    ensures SlotBlock(lay, ino) * lay.blockSize + SlotOffset(lay, ino) == IndexOf(lay, ino) * lay.inodeSize
  {
    DivMod(ino - 1, lay.inodesPerGroup);
    MulNat(IndexOf(lay, ino), lay.inodeSize);
    DivMod(IndexOf(lay, ino) * lay.inodeSize, lay.blockSize);
  }

  /** With 16 KiB inodes the 32-bit offset of index 262144 is that of index 0: two inodes in one slot. */
  lemma SlotsCoincide()
    ensures Offset32(262144, 16384) == Offset32(0, 16384) && Times(262144, 16384) != Times(0, 16384)
  {
  }
}
