/**
  What makes a volume sound. `live` is a set of inodes that contains the root and every inode that a
  directory in it names; `owner` says which pointer of which live inode a block belongs to, so no block
  belongs to two.
 */
module Ext2Invariant {
  import opened Arith
  import opened Bytes
  import opened Bits
  import opened Dirent
  import opened Ext2Layout
  import opened Ext2Image

  type Owner = map<nat, (nat, nat)>

  /** Pointer `k` of inode `i` is absent, or names a data block that is marked used and belongs to it alone. */
  ghost predicate PointerSound(lay: Layout, im: Image, owner: Owner, p: nat, i: nat, k: nat)
    requires Shaped(lay, im)
  {
    p != 0 ==>
      && lay.HasRole(p, Data) && lay.IsBlock(p) && BlockUsed(lay, im, p)
      && p in owner && owner[p] == (i, k)
  }

  /** A block of well-formed records, each deleted or naming a live inode. */
  ghost predicate RecordsSound(blk: Block, live: set<nat>) {
    && WellFormed(blk, 0)
    && forall e :: e in Entries(blk, 0) ==> e.inode == 0 || e.inode in live
  }

  /** The number of blocks of a directory. */
  function DirLen(lay: Layout, raw: seq<byte>): nat
    requires |raw| == INODE_BYTES && lay.blockSize > 0
  {
    Fits(Size(raw), lay.blockSize)
  }

  /** A directory is a whole number of direct blocks, all present, each with sound records. */
  ghost predicate DirSound(lay: Layout, im: Image, live: set<nat>, raw: seq<byte>)
    requires Shaped(lay, im) && |raw| == INODE_BYTES
  {
    && 1 <= DirLen(lay, raw) <= DIRECT_BLOCKS && Size(raw) == DirLen(lay, raw) * lay.blockSize
    && forall k :: 0 <= k < DirLen(lay, raw) ==>
      lay.HasRole(Ptr(raw, k), Data) && RecordsSound(im[Ptr(raw, k)], live)
  }

  /** A live inode is marked used and initialised, and so are its blocks and, for a directory, its children. */
  ghost predicate InodeSound(lay: Layout, im: Image, live: set<nat>, owner: Owner, i: nat)
    requires Shaped(lay, im)
  {
    && lay.IsInode(i) && InodeUsed(lay, im, i) && Links(Raw(lay, im, i)) > 0
    && (forall k :: 0 <= k < 15 ==> PointerSound(lay, im, owner, Ptr(Raw(lay, im, i), k), i, k))
    && (IsDir(Raw(lay, im, i)) ==> DirSound(lay, im, live, Raw(lay, im, i)))
  }

  /** What is free in group 0 is free for data: the bits of metadata, and of blocks past the end, are set. */
  ghost predicate SpareSound(lay: Layout, im: Image)
    requires Shaped(lay, im)
  {
    forall n :: 0 <= n < lay.blocksPerGroup && !BitAt(BlockBitmapOf(lay, im, 0), n) ==>
      lay.HasRole(lay.firstDataBlock + n, Data)
  }

  ghost predicate Sound(lay: Layout, im: Image, live: set<nat>, owner: Owner) {
    && Formatted(lay, im) && SpareSound(lay, im)
    && ROOT_INO in live && lay.IsInode(ROOT_INO) && IsDir(Raw(lay, im, ROOT_INO))
    && forall i :: i in live ==> InodeSound(lay, im, live, owner, i)
  }

  /** A volume on which nothing dangles, whatever operation was under way when it was last written. */
  ghost predicate CrashSafe(lay: Layout, im: Image) {
    exists live, owner :: Sound(lay, im, live, owner)
  }

  // The ownership statements that an fsck of the volume would make follow from `Sound`.

  /** No two pointers of live inodes name the same block. */
  lemma NoSharedBlock(lay: Layout, im: Image, live: set<nat>, owner: Owner, i: nat, k: nat, j: nat, l: nat)
    requires Sound(lay, im, live, owner) && i in live && j in live && k < 15 && l < 15
    requires Ptr(Raw(lay, im, i), k) == Ptr(Raw(lay, im, j), l) != 0
    ensures i == j && k == l
  {
    hide U32, PointerSound, DirSound, Raw, InodeUsed, DescribesGroup, SpareSound;
    PointerOwned(lay, im, live, owner, i, k);
    PointerOwned(lay, im, live, owner, j, l);
  }

  lemma PointerOwned(lay: Layout, im: Image, live: set<nat>, owner: Owner, i: nat, k: nat)
    requires Sound(lay, im, live, owner) && i in live && k < 15 && Ptr(Raw(lay, im, i), k) != 0
    ensures
      var p := Ptr(Raw(lay, im, i), k);
      && lay.HasRole(p, Data) && lay.IsBlock(p) && BlockUsed(lay, im, p)
      && p in owner && owner[p] == (i, k)
  {
    hide U32, DirSound, Raw, InodeUsed, BlockUsed, DescribesGroup, SpareSound;
    assert InodeSound(lay, im, live, owner, i);
    assert PointerSound(lay, im, owner, Ptr(Raw(lay, im, i), k), i, k);
  }

  /** Entries of a live directory name live inodes, which are marked used and initialised. */
  lemma EntryNamesUsedInode(lay: Layout, im: Image, live: set<nat>, owner: Owner, dir: nat, k: nat, e: Dirent)
    requires Sound(lay, im, live, owner) && dir in live && IsDir(Raw(lay, im, dir))
    requires k < DirLen(lay, Raw(lay, im, dir))
    requires lay.HasRole(Ptr(Raw(lay, im, dir), k), Data) && WellFormed(im[Ptr(Raw(lay, im, dir), k)], 0)
    requires e in Entries(im[Ptr(Raw(lay, im, dir), k)], 0) && e.inode != 0
    ensures e.inode in live && lay.IsInode(e.inode) && InodeUsed(lay, im, e.inode)
    ensures Links(Raw(lay, im, e.inode)) > 0
  {
    hide U32, U16, PointerSound, Raw, InodeUsed, DescribesGroup, SpareSound, WellFormed, Entries, DirLen;
    assert InodeSound(lay, im, live, owner, dir);
    assert InodeSound(lay, im, live, owner, e.inode);
  }

  /** The new ownership agrees with the old one on the blocks of inode `i`. */
  ghost predicate PointersKept(lay: Layout, im: Image, owner: Owner, owner': Owner, i: nat)
    requires Shaped(lay, im) && lay.IsInode(i)
  {
    forall k :: 0 <= k < 15 && Ptr(Raw(lay, im, i), k) != 0 && Ptr(Raw(lay, im, i), k) in owner ==>
      Ptr(Raw(lay, im, i), k) in owner' && owner'[Ptr(Raw(lay, im, i), k)] == owner[Ptr(Raw(lay, im, i), k)]
  }

  /** No live inode points to block `b`. */
  ghost predicate Unreferenced(lay: Layout, im: Image, live: set<nat>, b: nat)
    requires Shaped(lay, im)
  {
    forall i, k :: i in live && lay.IsInode(i) && 0 <= k < 15 ==> Ptr(Raw(lay, im, i), k) != b
  }

  // Steps. Each update of one block keeps the volume sound.

  /** More is used, and perhaps more is live, but inode `i` and the directory blocks it has are untouched. */
  lemma InodeSoundKept(lay: Layout, im: Image, im': Image, live: set<nat>, live': set<nat>, owner: Owner, owner': Owner, i: nat)
    requires Shaped(lay, im) && Shaped(lay, im') && InodeSound(lay, im, live, owner, i)
    requires live <= live' && Raw(lay, im', i) == Raw(lay, im, i) && InodeUsed(lay, im', i)
    requires forall b :: lay.IsBlock(b) && BlockUsed(lay, im, b) ==> BlockUsed(lay, im', b)
    requires PointersKept(lay, im, owner, owner', i)
    requires IsDir(Raw(lay, im, i)) ==>
      forall k :: 0 <= k < 15 && lay.HasRole(Ptr(Raw(lay, im, i), k), Data) ==>
        im'[Ptr(Raw(lay, im, i), k)] == im[Ptr(Raw(lay, im, i), k)]
    ensures InodeSound(lay, im', live', owner', i)
  {
    hide U32, U16, Raw, InodeUsed, BlockUsed, WellFormed, Entries, DirLen;
    var raw := Raw(lay, im, i);
    forall k | 0 <= k < 15 ensures PointerSound(lay, im', owner', Ptr(raw, k), i, k) {
      assert PointerSound(lay, im, owner, Ptr(raw, k), i, k);
    }
  }

  /** An update of a bitmap or of a count: no inode and no data block changes, and nothing becomes free. */
  lemma MetadataStep(lay: Layout, im: Image, im': Image, live: set<nat>, owner: Owner)
    requires Sound(lay, im, live, owner) && Formatted(lay, im')
    requires SameInodes(lay, im, im') && SameData(lay, im, im')
    requires forall i :: lay.IsInode(i) && InodeUsed(lay, im, i) ==> InodeUsed(lay, im', i)
    requires forall b :: lay.IsBlock(b) && BlockUsed(lay, im, b) ==> BlockUsed(lay, im', b)
    requires SpareSound(lay, im')
    ensures Sound(lay, im', live, owner)
  {
    hide U32, U16, Raw, InodeUsed, BlockUsed, WellFormed, Entries, DescribesGroup, SpareSound;
    forall i | i in live ensures InodeSound(lay, im', live, owner, i) {
      assert InodeSound(lay, im, live, owner, i);
      InodeSoundKept(lay, im, im', live, live, owner, owner, i);
    }
  }

  /** Writing a data block that no live directory uses. */
  lemma DataStep(lay: Layout, im: Image, im': Image, live: set<nat>, owner: Owner, b: nat)
    requires Sound(lay, im, live, owner) && OnlyBlock(lay, im, im', b) && lay.HasRole(b, Data)
    requires forall i, k :: i in live && 0 <= k < 15 && IsDir(Raw(lay, im, i)) ==> Ptr(Raw(lay, im, i), k) != b
    ensures Sound(lay, im', live, owner)
  {
    hide U32, U16, Raw, InodeUsed, BlockUsed, WellFormed, Entries, DescribesGroup, BlockBitmapOf, InodeBitmapOf, BitAt;
    FrameFormat(lay, im, im', b);
    FrameInodes(lay, im, im', b);
    FrameInodeBits(lay, im, im', b);
    FrameBlockBits(lay, im, im', b);
    forall i | i in live ensures InodeSound(lay, im', live, owner, i) {
      assert InodeSound(lay, im, live, owner, i);
      InodeSoundKept(lay, im, im', live, live, owner, owner, i);
    }
  }

  /** Writing one inode, which is or becomes live, in a way that leaves it sound. */
  lemma InodeStep(lay: Layout, im: Image, ino: nat, raw: seq<byte>, live: set<nat>, owner: Owner, owner': Owner)
    requires Sound(lay, im, live, owner) && lay.IsInode(ino) && |raw| == INODE_BYTES
    requires Formatted(lay, SetInode(lay, im, ino, raw))
    requires InodeSound(lay, SetInode(lay, im, ino, raw), live + {ino}, owner', ino)
    requires ino == ROOT_INO ==> IsDir(raw)
    requires forall i :: i in live && i != ino && lay.IsInode(i) ==> PointersKept(lay, im, owner, owner', i)
    ensures Sound(lay, SetInode(lay, im, ino, raw), live + {ino}, owner')
  {
    hide U32, U16, Raw, InodeUsed, BlockUsed, WellFormed, Entries, DescribesGroup, BlockBitmapOf, InodeBitmapOf, BitAt, SetInode;
    var im' := SetInode(lay, im, ino, raw);
    SetInodeOnly(lay, im, ino, raw);
    FrameInodeBits(lay, im, im', TableBlock(lay, ino));
    FrameBlockBits(lay, im, im', TableBlock(lay, ino));
    forall i | i in live && i != ino ensures InodeSound(lay, im', live + {ino}, owner', i) {
      assert InodeSound(lay, im, live, owner, i);
      InodeTableIsMap(lay, im, ino, i, raw);
      InodeSoundKept(lay, im, im', live, live + {ino}, owner, owner', i);
    }
    InodeTableIsMap(lay, im, ino, ROOT_INO, raw);
  }

  /** Writing block `k` of a live directory, with records that are sound. */
  lemma DirectoryStep(lay: Layout, im: Image, im': Image, live: set<nat>, owner: Owner, dir: nat, k: nat)
    requires Sound(lay, im, live, owner) && dir in live && IsDir(Raw(lay, im, dir))
    requires k < DirLen(lay, Raw(lay, im, dir)) <= DIRECT_BLOCKS && Ptr(Raw(lay, im, dir), k) != 0
    requires OnlyBlock(lay, im, im', Ptr(Raw(lay, im, dir), k))
    requires RecordsSound(im'[Ptr(Raw(lay, im, dir), k)], live)
    ensures Sound(lay, im', live, owner)
  {
    hide U32, U16, Raw, InodeUsed, BlockUsed, WellFormed, Entries, DescribesGroup, BlockBitmapOf, InodeBitmapOf, BitAt;
    var b := Ptr(Raw(lay, im, dir), k);
    PointerOwned(lay, im, live, owner, dir, k);
    FrameFormat(lay, im, im', b);
    FrameInodes(lay, im, im', b);
    FrameInodeBits(lay, im, im', b);
    FrameBlockBits(lay, im, im', b);
    forall i | i in live ensures InodeSound(lay, im', live, owner, i) {
      OtherRecordsSound(lay, im, im', live, owner, b, i);
    }
  }

  lemma OtherRecordsSound(lay: Layout, im: Image, im': Image, live: set<nat>, owner: Owner, b: nat, i: nat)
    requires Shaped(lay, im) && Shaped(lay, im') && InodeSound(lay, im, live, owner, i)
    requires OnlyBlock(lay, im, im', b) && RecordsSound(im'[b], live)
    requires Raw(lay, im', i) == Raw(lay, im, i) && InodeUsed(lay, im', i)
    requires forall b :: lay.IsBlock(b) && BlockUsed(lay, im, b) ==> BlockUsed(lay, im', b)
    ensures InodeSound(lay, im', live, owner, i)
  {
    hide U32, U16, Raw, InodeUsed, BlockUsed, WellFormed, Entries, DirLen;
    var raw := Raw(lay, im, i);
    forall k | 0 <= k < 15 ensures PointerSound(lay, im', owner, Ptr(raw, k), i, k) {
      assert PointerSound(lay, im, owner, Ptr(raw, k), i, k);
    }
  }
}
