/** What a volume says: bitmap bits, free counts, inodes; and the single-block updates that the driver makes. */
module Ext2Image {
  import opened Bytes
  import opened Bits
  import opened Ext2Layout

  // Inodes as they lie in the table.

  function Mode(raw: seq<byte>): nat requires |raw| == INODE_BYTES { U16(raw, 0) }
  function Size(raw: seq<byte>): nat requires |raw| == INODE_BYTES { U32(raw, 4) }
  function Links(raw: seq<byte>): nat requires |raw| == INODE_BYTES { U16(raw, 26) }

  /** i_block[k]; 0 is no block. */
  function Ptr(raw: seq<byte>, k: nat): nat
    requires |raw| == INODE_BYTES && k < 15
  {
    U32(raw, 40 + 4 * k)
  }

  /** `(i_mode & 0xF000) == 0x4000` */
  predicate IsDir(raw: seq<byte>)
    requires |raw| == INODE_BYTES
  {
    Mode(raw) / 0x1000 == 4
  }

  function WithSize(raw: seq<byte>, size: nat): (r: seq<byte>)
    requires |raw| == INODE_BYTES && size < 0x1_0000_0000
    ensures |r| == INODE_BYTES
  {
    Splice(raw, 4, Put32(size))
  }

  function WithPtr0(raw: seq<byte>, b: nat): (r: seq<byte>)
    requires |raw| == INODE_BYTES && b < 0x1_0000_0000
    ensures |r| == INODE_BYTES
  {
    Splice(raw, 40, Put32(b))
  }

  /** A zeroed inode with a mode, a link count, a size and perhaps a first block. */
  function NewInode(mode: nat, links: nat, size: nat, b: nat): (r: seq<byte>)
    requires mode < 0x1_0000 && links < 0x1_0000 && size < 0x1_0000_0000 && b < 0x1_0000_0000
    ensures |r| == INODE_BYTES
  {
    WithPtr0(WithSize(Splice(Splice(Zeros(INODE_BYTES), 0, Put16(mode)), 26, Put16(links)), size), b)
  }

  lemma WithSizeFields(raw: seq<byte>, size: nat)
    requires |raw| == INODE_BYTES && size < 0x1_0000_0000
    ensures
      var r := WithSize(raw, size);
      && Size(r) == size && Mode(r) == Mode(raw) && Links(r) == Links(raw)
      && forall k :: 0 <= k < 15 ==> Ptr(r, k) == Ptr(raw, k)
  {
    var b := Put32(size);
    assert U32(WithSize(raw, size), 4) == U32(b, 0);
  }

  lemma WithPtr0Fields(raw: seq<byte>, b: nat)
    requires |raw| == INODE_BYTES && b < 0x1_0000_0000
    ensures
      var r := WithPtr0(raw, b);
      && Size(r) == Size(raw) && Mode(r) == Mode(raw) && Links(r) == Links(raw)
      && Ptr(r, 0) == b && forall k :: 1 <= k < 15 ==> Ptr(r, k) == Ptr(raw, k)
  {
    var p := Put32(b);
    assert U32(WithPtr0(raw, b), 40) == U32(p, 0);
  }

  lemma NewInodeFields(mode: nat, links: nat, size: nat, b: nat)
    requires mode < 0x1_0000 && links < 0x1_0000 && size < 0x1_0000_0000 && b < 0x1_0000_0000
    ensures
      var r := NewInode(mode, links, size, b);
      && Mode(r) == mode && Links(r) == links && Size(r) == size && Ptr(r, 0) == b
      && forall k :: 1 <= k < 15 ==> Ptr(r, k) == 0
  {
    hide Put16, WithSize, WithPtr0;
    var m, l := Put16(mode), Put16(links);
    var r0 := Splice(Splice(Zeros(INODE_BYTES), 0, m), 26, l);
    assert U16(r0, 0) == U16(m, 0) && U16(r0, 26) == U16(l, 0);
    assert forall k :: 1 <= k < 15 ==> Ptr(r0, k) == 0;
    WithSizeFields(r0, size);
    WithPtr0Fields(WithSize(r0, size), b);
  }

  /** The fields of a new inode in the order of the structure: mode, size, links and first pointer amid zeros. */
  lemma NewInodeBytes(mode: nat, links: nat, size: nat, b: nat)
    requires mode < 0x1_0000 && links < 0x1_0000 && size < 0x1_0000_0000 && b < 0x1_0000_0000
    ensures NewInode(mode, links, size, b)
         == Put16(mode) + Zeros(2) + Put32(size) + Zeros(18) + Put16(links) + Zeros(12) + Put32(b) + Zeros(72)
  {
    hide Put16, Put32;
    var l := NewInode(mode, links, size, b);
    var r := Put16(mode) + Zeros(2) + Put32(size) + Zeros(18) + Put16(links) + Zeros(12) + Put32(b) + Zeros(72);
    assert |l| == |r| && forall i :: 0 <= i < |l| ==> l[i] == r[i];
  }

  /** The inode structure, field by field. */
  lemma InodeFields(raw: seq<byte>, mode: nat, size: nat, links: nat, k: nat, ptr: nat)
    requires |raw| == 116 && mode < 0x1_0000 && size < 0x1_0000_0000 && links < 0x1_0000 && k < 15 && ptr < 0x1_0000_0000
    requires raw[0..2] == Put16(mode) && raw[4..8] == Put32(size) && raw[26..28] == Put16(links)
    requires raw[40 + 4 * k..44 + 4 * k] == Put32(ptr)
    ensures Mode(raw) == mode && Size(raw) == size && Links(raw) == links && Ptr(raw, k) == ptr
  {
    hide Put16, Put32, U16, U32;
    HalfIn(raw, 0);
    QuadIn(raw, 4, 8, 0);
    HalfIn(raw, 26);
    QuadIn(raw, 40 + 4 * k, 44 + 4 * k, 0);
  }

  /** The file type is the upper half of the second byte. */
  lemma IsDirByte(raw: seq<byte>)
    requires |raw| == INODE_BYTES
    ensures IsDir(raw) <==> raw[1] / 16 == 4
  {
  }

  // Group descriptors.

  function Descriptor(lay: Layout, im: Image): (d: Block)
    requires Shaped(lay, im)
    ensures |d| == lay.blockSize
  {
    im[lay.firstDataBlock + 1]
  }

  predicate Shaped(lay: Layout, im: Image) {
    && lay.Ok() && |im| == |lay.roles|
    && forall b :: 0 <= b < |im| ==> |im[b]| == lay.blockSize
  }

  predicate DescribesGroup(d: Block, g: nat, group: Group)
    requires DESCRIPTOR_SIZE * g + 12 <= |d|
  {
    && U32(d, DESCRIPTOR_SIZE * g) == group.blockBitmap
    && U32(d, DESCRIPTOR_SIZE * g + 4) == group.inodeBitmap
    && U32(d, DESCRIPTOR_SIZE * g + 8) == group.inodeTable
  }

  /** The volume has the layout's shape, and its descriptors name the layout's blocks. */
  predicate Formatted(lay: Layout, im: Image) {
    && Shaped(lay, im)
    && forall g :: 0 <= g < |lay.groups| ==> DescribesGroup(Descriptor(lay, im), g, lay.groups[g])
  }

  /** Group 0's bg_free_blocks_count and bg_free_inodes_count. */
  function FreeBlocks(lay: Layout, im: Image): nat requires Shaped(lay, im) { U16(Descriptor(lay, im), 12) }
  function FreeInodes(lay: Layout, im: Image): nat requires Shaped(lay, im) { U16(Descriptor(lay, im), 14) }

  // Bitmaps.

  function InodeBitmapOf(lay: Layout, im: Image, g: nat): (m: Block)
    requires Shaped(lay, im) && g < |lay.groups|
    ensures |m| == lay.blockSize
  {
    assert lay.GroupOk(g);
    im[lay.groups[g].inodeBitmap]
  }

  function BlockBitmapOf(lay: Layout, im: Image, g: nat): (m: Block)
    requires Shaped(lay, im) && g < |lay.groups|
    ensures |m| == lay.blockSize
  {
    assert lay.GroupOk(g);
    im[lay.groups[g].blockBitmap]
  }

  predicate InodeUsed(lay: Layout, im: Image, ino: nat)
    requires Shaped(lay, im) && lay.IsInode(ino)
  {
    BitAt(InodeBitmapOf(lay, im, GroupOf(lay, ino)), IndexOf(lay, ino))
  }

  predicate BlockUsed(lay: Layout, im: Image, b: nat)
    requires Shaped(lay, im) && lay.IsBlock(b)
  {
    BitAt(BlockBitmapOf(lay, im, BlockGroupOf(lay, b)), BlockIndexOf(lay, b))
  }

  /** Group 0's counts are the numbers of clear bits in its bitmaps. */
  predicate Counted(lay: Layout, im: Image)
    requires Shaped(lay, im)
  {
    && FreeInodes(lay, im) == ZeroBits(InodeBitmapOf(lay, im, 0), lay.inodesPerGroup)
    && FreeBlocks(lay, im) == ZeroBits(BlockBitmapOf(lay, im, 0), lay.blocksPerGroup)
  }

  // The inode table.

  function Raw(lay: Layout, im: Image, ino: nat): (r: seq<byte>)
    requires Shaped(lay, im) && lay.IsInode(ino)
    ensures |r| == INODE_BYTES
  {
    im[TableBlock(lay, ino)][SlotOffset(lay, ino)..SlotOffset(lay, ino) + INODE_BYTES]
  }

  function SetInode(lay: Layout, im: Image, ino: nat, raw: seq<byte>): (im': Image)
    requires Shaped(lay, im) && lay.IsInode(ino) && |raw| == INODE_BYTES
    ensures |im'| == |im|
  {
    im[TableBlock(lay, ino) := Splice(im[TableBlock(lay, ino)], SlotOffset(lay, ino), raw)]
  }

  /** The inode table is a map from inode numbers to inodes: a write is read back at its own number only. */
  lemma InodeTableIsMap(lay: Layout, im: Image, i: nat, j: nat, raw: seq<byte>)
    requires Shaped(lay, im) && lay.IsInode(i) && lay.IsInode(j) && |raw| == INODE_BYTES
    ensures Shaped(lay, SetInode(lay, im, i, raw))
    ensures Raw(lay, SetInode(lay, im, i, raw), j) == if i == j then raw else Raw(lay, im, j)
  {
    var b, c := TableBlock(lay, i), TableBlock(lay, j);
    if b == c && i != j {
      SlotsDisjoint(lay, i, j);
    }
  }

  // Updates of one block.

  function MarkInode(lay: Layout, im: Image, n: nat): (im': Image)
    requires Shaped(lay, im) && n < lay.inodesPerGroup
    ensures |im'| == |im|
  {
    assert lay.GroupOk(0);
    im[lay.groups[0].inodeBitmap := WithBit(InodeBitmapOf(lay, im, 0), n)]
  }

  function MarkBlock(lay: Layout, im: Image, n: nat): (im': Image)
    requires Shaped(lay, im) && n < lay.blocksPerGroup
    ensures |im'| == |im|
  {
    assert lay.GroupOk(0);
    im[lay.groups[0].blockBitmap := WithBit(BlockBitmapOf(lay, im, 0), n)]
  }

  function SetFreeInodes(lay: Layout, im: Image, n: nat): (im': Image)
    requires Shaped(lay, im) && n < 0x1_0000
    ensures |im'| == |im|
  {
    im[lay.firstDataBlock + 1 := Splice(Descriptor(lay, im), 14, Put16(n))]
  }

  function SetFreeBlocks(lay: Layout, im: Image, n: nat): (im': Image)
    requires Shaped(lay, im) && n < 0x1_0000
    ensures |im'| == |im|
  {
    im[lay.firstDataBlock + 1 := Splice(Descriptor(lay, im), 12, Put16(n))]
  }

  // Frames: what an update of one block leaves alone, by the role of the block.

  ghost predicate OnlyBlock(lay: Layout, im: Image, im': Image, b: nat) {
    && Shaped(lay, im) && Shaped(lay, im') && b < |im|
    && forall c :: 0 <= c < |im| && c != b ==> im'[c] == im[c]
  }

  ghost predicate SameInodes(lay: Layout, im: Image, im': Image) {
    && Shaped(lay, im) && Shaped(lay, im')
    && forall i :: lay.IsInode(i) ==> Raw(lay, im', i) == Raw(lay, im, i)
  }

  ghost predicate SameInodeBits(lay: Layout, im: Image, im': Image) {
    && Shaped(lay, im) && Shaped(lay, im')
    && InodeBitmapOf(lay, im', 0) == InodeBitmapOf(lay, im, 0)
    && forall i :: lay.IsInode(i) ==> (InodeUsed(lay, im', i) <==> InodeUsed(lay, im, i))
  }

  ghost predicate SameBlockBits(lay: Layout, im: Image, im': Image) {
    && Shaped(lay, im) && Shaped(lay, im')
    && BlockBitmapOf(lay, im', 0) == BlockBitmapOf(lay, im, 0)
    && forall b :: lay.IsBlock(b) ==> (BlockUsed(lay, im', b) <==> BlockUsed(lay, im, b))
  }

  ghost predicate SameData(lay: Layout, im: Image, im': Image) {
    && Shaped(lay, im) && Shaped(lay, im')
    && forall b: nat :: lay.HasRole(b, Data) ==> im'[b] == im[b]
  }

  lemma FrameInodes(lay: Layout, im: Image, im': Image, b: nat)
    requires OnlyBlock(lay, im, im', b) && !lay.roles[b].InodeTable?
    ensures SameInodes(lay, im, im')
  {
  }

  lemma FrameInodeBits(lay: Layout, im: Image, im': Image, b: nat)
    requires OnlyBlock(lay, im, im', b) && !lay.roles[b].InodeBitmap?
    ensures SameInodeBits(lay, im, im')
  {
    hide BitAt, GroupOf, IndexOf;
    assert lay.GroupOk(0);
    forall i | lay.IsInode(i) ensures InodeUsed(lay, im', i) <==> InodeUsed(lay, im, i) {
      assert lay.GroupOk(GroupOf(lay, i));
    }
  }

  lemma FrameBlockBits(lay: Layout, im: Image, im': Image, b: nat)
    requires OnlyBlock(lay, im, im', b) && !lay.roles[b].BlockBitmap?
    ensures SameBlockBits(lay, im, im')
  {
    hide BitAt, BlockGroupOf, BlockIndexOf;
    assert lay.GroupOk(0);
    forall c | lay.IsBlock(c) ensures BlockUsed(lay, im', c) <==> BlockUsed(lay, im, c) {
      assert lay.GroupOk(BlockGroupOf(lay, c));
    }
  }

  lemma FrameFormat(lay: Layout, im: Image, im': Image, b: nat)
    requires Formatted(lay, im) && OnlyBlock(lay, im, im', b) && !lay.roles[b].GroupTable?
    ensures Formatted(lay, im') && Descriptor(lay, im') == Descriptor(lay, im)
  {
    hide DescribesGroup;
  }

  // What each update changes.

  lemma MarkInodeOnly(lay: Layout, im: Image, n: nat)
    requires Formatted(lay, im) && n < lay.inodesPerGroup
    ensures OnlyBlock(lay, im, MarkInode(lay, im, n), lay.groups[0].inodeBitmap)
    ensures Formatted(lay, MarkInode(lay, im, n))
    ensures InodeBitmapOf(lay, MarkInode(lay, im, n), 0) == WithBit(InodeBitmapOf(lay, im, 0), n)
  {
    hide WithBit, DescribesGroup;
    assert lay.GroupOk(0);
    FrameFormat(lay, im, MarkInode(lay, im, n), lay.groups[0].inodeBitmap);
  }

  /** Marking inode `n` of group 0 makes exactly one more inode used. */
  lemma MarkInodeUsed(lay: Layout, im: Image, n: nat, i: nat)
    requires Formatted(lay, im) && n < lay.inodesPerGroup && lay.IsInode(i)
    ensures Formatted(lay, MarkInode(lay, im, n))
    ensures InodeUsed(lay, MarkInode(lay, im, n), i) <==> (i == n + 1 || InodeUsed(lay, im, i))
  {
    hide BitAt, WithBit, GroupOf, IndexOf, DescribesGroup;
    MarkInodeOnly(lay, im, n);
    FirstGroup(lay, n);
    assert lay.GroupOk(0) && lay.GroupOk(GroupOf(lay, i));
    if GroupOf(lay, i) == 0 {
      WithBitChangesOne(InodeBitmapOf(lay, im, 0), n, IndexOf(lay, i));
      if IndexOf(lay, i) == n {
        InodeFromPlace(lay, i, n + 1);
      }
    }
  }

  lemma MarkBlockOnly(lay: Layout, im: Image, n: nat)
    requires Formatted(lay, im) && n < lay.blocksPerGroup
    ensures OnlyBlock(lay, im, MarkBlock(lay, im, n), lay.groups[0].blockBitmap)
    ensures Formatted(lay, MarkBlock(lay, im, n))
    ensures BlockBitmapOf(lay, MarkBlock(lay, im, n), 0) == WithBit(BlockBitmapOf(lay, im, 0), n)
  {
    hide WithBit, DescribesGroup;
    assert lay.GroupOk(0);
    FrameFormat(lay, im, MarkBlock(lay, im, n), lay.groups[0].blockBitmap);
  }

  /** Marking block `n` of group 0 makes exactly one more block used. */
  lemma MarkBlockUsed(lay: Layout, im: Image, n: nat, b: nat)
    requires Formatted(lay, im) && n < lay.blocksPerGroup && lay.IsBlock(b)
    requires lay.firstDataBlock + n < |lay.roles|
    ensures Formatted(lay, MarkBlock(lay, im, n))
    ensures BlockUsed(lay, MarkBlock(lay, im, n), b) <==> (b == lay.firstDataBlock + n || BlockUsed(lay, im, b))
  {
    hide BitAt, WithBit, BlockGroupOf, BlockIndexOf, DescribesGroup;
    MarkBlockOnly(lay, im, n);
    FirstGroup(lay, n);
    assert lay.GroupOk(0) && lay.GroupOk(BlockGroupOf(lay, b));
    if BlockGroupOf(lay, b) == 0 {
      WithBitChangesOne(BlockBitmapOf(lay, im, 0), n, BlockIndexOf(lay, b));
      if BlockIndexOf(lay, b) == n {
        BlockFromPlace(lay, b, lay.firstDataBlock + n);
      }
    }
  }

  lemma CountFieldWrite(d: Block, at: nat, n: nat, g: nat, group: Group)
    requires (at == 12 || at == 14) && n < 0x1_0000 && DESCRIPTOR_SIZE * g + 16 <= |d| && DescribesGroup(d, g, group)
    ensures |d| >= 16
    ensures DescribesGroup(Splice(d, at, Put16(n)), g, group)
    ensures U16(Splice(d, at, Put16(n)), at) == n
    ensures U16(Splice(d, at, Put16(n)), 26 - at) == U16(d, 26 - at)
  {
    hide Put16;
    var b := Put16(n);
    var d' := Splice(d, at, b);
    assert forall k :: 0 <= k < |d| && k != at && k != at + 1 ==> d'[k] == d[k];
    assert d'[at] == b[0] && d'[at + 1] == b[1];
    GroupFieldsKept(d, d', g, group);
  }

  lemma GroupFieldsKept(d: Block, d': Block, g: nat, group: Group)
    requires |d'| == |d| && DESCRIPTOR_SIZE * g + 16 <= |d| && DescribesGroup(d, g, group)
    requires forall k :: 0 <= k < |d| && !(12 <= k < 16) ==> d'[k] == d[k]
    ensures DescribesGroup(d', g, group)
  {
  }

  lemma SetFreeInodesOnly(lay: Layout, im: Image, n: nat)
    requires Formatted(lay, im) && n < 0x1_0000
    ensures
      var im' := SetFreeInodes(lay, im, n);
      && OnlyBlock(lay, im, im', lay.firstDataBlock + 1) && Formatted(lay, im')
      && FreeInodes(lay, im') == n && FreeBlocks(lay, im') == FreeBlocks(lay, im)
  {
    hide DescribesGroup, Put16, Splice;
    forall g | 0 <= g < |lay.groups|
      ensures DescribesGroup(Splice(Descriptor(lay, im), 14, Put16(n)), g, lay.groups[g])
    {
      CountFieldWrite(Descriptor(lay, im), 14, n, g, lay.groups[g]);
    }
    CountFieldWrite(Descriptor(lay, im), 14, n, 0, lay.groups[0]);
  }

  lemma SetFreeBlocksOnly(lay: Layout, im: Image, n: nat)
    requires Formatted(lay, im) && n < 0x1_0000
    ensures
      var im' := SetFreeBlocks(lay, im, n);
      && OnlyBlock(lay, im, im', lay.firstDataBlock + 1) && Formatted(lay, im')
      && FreeBlocks(lay, im') == n && FreeInodes(lay, im') == FreeInodes(lay, im)
  {
    hide DescribesGroup, Put16, Splice;
    forall g | 0 <= g < |lay.groups|
      ensures DescribesGroup(Splice(Descriptor(lay, im), 12, Put16(n)), g, lay.groups[g])
    {
      CountFieldWrite(Descriptor(lay, im), 12, n, g, lay.groups[g]);
    }
    CountFieldWrite(Descriptor(lay, im), 12, n, 0, lay.groups[0]);
  }

  lemma SetInodeOnly(lay: Layout, im: Image, ino: nat, raw: seq<byte>)
    requires Formatted(lay, im) && lay.IsInode(ino) && |raw| == INODE_BYTES
    ensures OnlyBlock(lay, im, SetInode(lay, im, ino, raw), TableBlock(lay, ino))
    ensures Formatted(lay, SetInode(lay, im, ino, raw))
  {
    hide DescribesGroup, TableBlock, SlotOffset;
    FrameFormat(lay, im, SetInode(lay, im, ino, raw), TableBlock(lay, ino));
  }
}
