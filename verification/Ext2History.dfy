/** What a crash in the middle of an operation can cost: every image that the operation leaves on the way. */
module Ext2History {
  import opened Bytes
  import opened Bits
  import opened Dirent
  import opened Ext2Layout
  import opened Ext2Image
  import opened Ext2Invariant
  import opened Ext2Contents
  import opened Ext2Steps
  import opened Ext2Theorems
  import opened Ext2Paths

  /** Every live inode but `x` has its old contents in `h`. */
  ghost predicate Spares(lay: Layout, im: Image, h: Image, live: set<nat>, x: nat) {
    Shaped(lay, im) && Shaped(lay, h) && forall i :: i in live && i != x ==> SameContents(lay, im, h, i)
  }

  /** The history has grown, and all that was added spares the live inodes but `x`. */
  ghost predicate SparesSince(lay: Layout, im: Image, live: set<nat>, x: nat, was: seq<Image>, now: seq<Image>) {
    was <= now && forall j :: |was| <= j < |now| ==> Spares(lay, im, now[j], live, x)
  }

  lemma SparesNothingWritten(lay: Layout, im: Image, live: set<nat>, x: nat, was: seq<Image>)
    ensures SparesSince(lay, im, live, x, was, was)
  {
  }

  lemma SparesOneMore(lay: Layout, im: Image, live: set<nat>, x: nat, was: seq<Image>, now: seq<Image>, h: Image)
    requires SparesSince(lay, im, live, x, was, now) && Spares(lay, im, h, live, x)
    ensures SparesSince(lay, im, live, x, was, now + [h])
  {
    hide Spares;
  }

  lemma SparesItself(lay: Layout, im: Image, live: set<nat>, owner: Owner, x: nat)
    requires Sound(lay, im, live, owner)
    ensures Spares(lay, im, im, live, x)
  {
    hide U32, U16, Raw, InodeUsed, BlockUsed, PointerSound, DirSound, DescribesGroup, SpareSound;
    forall i | i in live ensures SameContents(lay, im, im, i) {
      assert InodeSound(lay, im, live, owner, i);
    }
  }

  lemma SameContentsTwice(lay: Layout, im: Image, im': Image, im'': Image, i: nat)
    requires SameContents(lay, im, im', i) && SameContents(lay, im', im'', i)
    ensures SameContents(lay, im, im'', i)
  {
    hide Raw, U32, Layout.Ok;
  }

  lemma SparesTwice(lay: Layout, im: Image, im': Image, im'': Image, live: set<nat>, x: nat)
    requires Spares(lay, im, im', live, x) && Spares(lay, im', im'', live, x)
    ensures Spares(lay, im, im'', live, x)
  {
    hide SameContents, Layout.Ok;
    forall i | i in live && i != x ensures SameContents(lay, im, im'', i) {
      SameContentsTwice(lay, im, im', im'', i);
    }
  }

  /** What spares the live inodes of a later image that spared those of an earlier one. */
  lemma SparesThrough(lay: Layout, im: Image, im': Image, live: set<nat>, live': set<nat>, x: nat,
                      was: seq<Image>, mid: seq<Image>, now: seq<Image>)
    requires SparesSince(lay, im, live, x, was, mid) && Spares(lay, im, im', live, x)
    requires live <= live' && SparesSince(lay, im', live', x, mid, now)
    ensures SparesSince(lay, im, live, x, was, now)
  {
    hide SameContents, Layout.Ok;
    forall j | |was| <= j < |now| ensures Spares(lay, im, now[j], live, x) {
      if j < |mid| {
        assert now[j] == mid[j];
      } else {
        SparesTwice(lay, im, im', now[j], live, x);
      }
    }
  }

  // ---- Single writes.

  /** A block write spares an inode unless it changes the inode or one of its blocks. */
  lemma BlockSpares(lay: Layout, im: Image, im': Image, live: set<nat>, owner: Owner, b: nat, x: nat)
    requires Sound(lay, im, live, owner) && OnlyBlock(lay, im, im', b)
    requires forall i :: i in live && i != x && lay.IsInode(i) ==> Raw(lay, im', i) == Raw(lay, im, i)
    requires lay.HasRole(b, Data) ==> forall i, k :: i in live && i != x && lay.IsInode(i) && 0 <= k < 15 ==>
      Ptr(Raw(lay, im, i), k) != b
    ensures Spares(lay, im, im', live, x)
  {
    hide U32, U16, Ptr, Raw, InodeUsed, BlockUsed, DescribesGroup, SpareSound, DirSound, PointerSound, Layout.Ok;
    forall i | i in live && i != x ensures SameContents(lay, im, im', i) {
      assert InodeSound(lay, im, live, owner, i);
      forall k | 0 <= k < 15 && Ptr(Raw(lay, im, i), k) != 0 && Ptr(Raw(lay, im, i), k) < |im|
        ensures im'[Ptr(Raw(lay, im, i), k)] == im[Ptr(Raw(lay, im, i), k)]
      {
        PointerOwned(lay, im, live, owner, i, k);
      }
    }
  }

  lemma MetadataSpares(lay: Layout, im: Image, im': Image, live: set<nat>, owner: Owner, b: nat)
    requires Sound(lay, im, live, owner) && OnlyBlock(lay, im, im', b)
    requires lay.roles[b].GroupTable? || lay.roles[b].BlockBitmap? || lay.roles[b].InodeBitmap?
    ensures Spares(lay, im, im', live, 0)
  {
    hide Sound, OnlyBlock, Raw, Ptr;
    SoundShaped(lay, im, live, owner);
    FrameInodes(lay, im, im', b);
    BlockSpares(lay, im, im', live, owner, b, 0);
  }

  lemma SoundShaped(lay: Layout, im: Image, live: set<nat>, owner: Owner)
    requires Sound(lay, im, live, owner)
    ensures Shaped(lay, im)
  {
  }

  /** Both writes of an inode allocation. */
  lemma AllocInodeSpares(lay: Layout, im: Image, live: set<nat>, owner: Owner, n: nat, was: seq<Image>)
    requires Sound(lay, im, live, owner) && Counted(lay, im)
    requires n < lay.inodesPerGroup && !BitAt(InodeBitmapOf(lay, im, 0), n)
    ensures FreeInodes(lay, im) > 0 && Shaped(lay, MarkInode(lay, im, n))
    ensures
      var im1 := MarkInode(lay, im, n);
      var im2 := SetFreeInodes(lay, im1, FreeInodes(lay, im) - 1);
      && Spares(lay, im, im2, live, 0)
      && SparesSince(lay, im, live, 0, was, was + [im1] + [im2])
  {
    hide BitAt, InodeSound, SpareSound, DescribesGroup, U16, Counted, Raw, MarkInode, SetFreeInodes, Spares, InodeClaimed, ZeroBits;
    AllocInodeSteps(lay, im, live, owner, n);
    var im1 := MarkInode(lay, im, n);
    var im2 := SetFreeInodes(lay, im1, FreeInodes(lay, im) - 1);
    SoundShaped(lay, im1, live, owner);
    assert lay.GroupOk(0);
    MarkInodeOnly(lay, im, n);
    MetadataSpares(lay, im, im1, live, owner, lay.groups[0].inodeBitmap);
    SetFreeInodesOnly(lay, im1, FreeInodes(lay, im) - 1);
    MetadataSpares(lay, im1, im2, live, owner, lay.firstDataBlock + 1);
    SparesTwice(lay, im, im1, im2, live, 0);
    SparesNothingWritten(lay, im, live, 0, was);
    SparesOneMore(lay, im, live, 0, was, was, im1);
    SparesOneMore(lay, im, live, 0, was, was + [im1], im2);
  }

  lemma AllocBlockSpares(lay: Layout, im: Image, live: set<nat>, owner: Owner, n: nat, was: seq<Image>)
    requires Sound(lay, im, live, owner) && Counted(lay, im)
    requires n < lay.blocksPerGroup && !BitAt(BlockBitmapOf(lay, im, 0), n)
    ensures FreeBlocks(lay, im) > 0 && Shaped(lay, MarkBlock(lay, im, n))
    ensures
      var im1 := MarkBlock(lay, im, n);
      var im2 := SetFreeBlocks(lay, im1, FreeBlocks(lay, im) - 1);
      && Spares(lay, im, im2, live, 0)
      && SparesSince(lay, im, live, 0, was, was + [im1] + [im2])
  {
    hide BitAt, InodeSound, SpareSound, DescribesGroup, U16, Counted, Raw, MarkBlock, SetFreeBlocks, Spares, BlockClaimed, ZeroBits;
    AllocBlockSteps(lay, im, live, owner, n);
    var im1 := MarkBlock(lay, im, n);
    var im2 := SetFreeBlocks(lay, im1, FreeBlocks(lay, im) - 1);
    SoundShaped(lay, im1, live, owner);
    assert lay.GroupOk(0);
    MarkBlockOnly(lay, im, n);
    MetadataSpares(lay, im, im1, live, owner, lay.groups[0].blockBitmap);
    SetFreeBlocksOnly(lay, im1, FreeBlocks(lay, im) - 1);
    MetadataSpares(lay, im1, im2, live, owner, lay.firstDataBlock + 1);
    SparesTwice(lay, im, im1, im2, live, 0);
    SparesNothingWritten(lay, im, live, 0, was);
    SparesOneMore(lay, im, live, 0, was, was, im1);
    SparesOneMore(lay, im, live, 0, was, was + [im1], im2);
  }

  /** Writing inode `x` spares all the others. */
  lemma InodeSpares(lay: Layout, im: Image, live: set<nat>, owner: Owner, x: nat, raw: seq<byte>)
    requires Sound(lay, im, live, owner) && lay.IsInode(x) && |raw| == INODE_BYTES
    ensures Spares(lay, im, SetInode(lay, im, x, raw), live, x)
  {
    hide U32, Ptr, Raw, InodeSound, DescribesGroup, SpareSound, SetInode;
    var im' := SetInode(lay, im, x, raw);
    SetInodeOnly(lay, im, x, raw);
    forall i | i in live && i != x && lay.IsInode(i) ensures Raw(lay, im', i) == Raw(lay, im, i) {
      InodeTableIsMap(lay, im, x, i, raw);
    }
    BlockSpares(lay, im, im', live, owner, TableBlock(lay, x), x);
  }

  /** Writing a block of inode `x`, or of none, spares all the others. */
  lemma DataSpares(lay: Layout, im: Image, im': Image, live: set<nat>, owner: Owner, b: nat, x: nat)
    requires Sound(lay, im, live, owner) && OnlyBlock(lay, im, im', b) && lay.HasRole(b, Data)
    requires Unreferenced(lay, im, live, b)
          || (b != 0 && x in live && lay.IsInode(x) && b == Ptr(Raw(lay, im, x), 0))
    ensures Spares(lay, im, im', live, x)
  {
    hide U32, Ptr, Raw, InodeSound, DescribesGroup, SpareSound;
    FrameInodes(lay, im, im', b);
    forall i, k | i in live && i != x && lay.IsInode(i) && 0 <= k < 15 ensures Ptr(Raw(lay, im, i), k) != b {
      if Ptr(Raw(lay, im, i), k) == b && !Unreferenced(lay, im, live, b) {
        NoSharedBlock(lay, im, live, owner, i, k, x, 0);
      }
    }
    BlockSpares(lay, im, im', live, owner, b, x);
  }

  /** Sparing all live inodes is sparing all but one, whichever. */
  lemma SparesFewer(lay: Layout, im: Image, live: set<nat>, owner: Owner, x: nat, was: seq<Image>, now: seq<Image>)
    requires Sound(lay, im, live, owner) && SparesSince(lay, im, live, 0, was, now)
    ensures SparesSince(lay, im, live, x, was, now)
  {
    hide SameContents, Raw, DescribesGroup, SpareSound, Layout.Ok;
    forall j | |was| <= j < |now| ensures Spares(lay, im, now[j], live, x) {
      SparesButOne(lay, im, now[j], live, owner, x);
    }
  }

  lemma SparesButOne(lay: Layout, im: Image, h: Image, live: set<nat>, owner: Owner, x: nat)
    requires Sound(lay, im, live, owner) && Spares(lay, im, h, live, 0)
    ensures Spares(lay, im, h, live, x)
  {
    hide SameContents, Raw, DescribesGroup, SpareSound, DirSound, PointerSound, InodeUsed;
    forall i | i in live && i != x ensures SameContents(lay, im, h, i) {
      assert InodeSound(lay, im, live, owner, i);
    }
  }

  // ---- Whole operations.

  /** All that was added to the history but the last spares every live inode, and the last every one but `x`. */
  ghost predicate SparesUntil(lay: Layout, im: Image, live: set<nat>, x: nat, was: seq<Image>, now: seq<Image>) {
    && was <= now
    && (forall j :: |was| <= j < |now| - 1 ==> Spares(lay, im, now[j], live, 0))
    && (|was| < |now| ==> Spares(lay, im, now[|now| - 1], live, x))
  }

  lemma SparesOutside(lay: Layout, im: Image, h: Image, live: set<nat>, x: nat)
    requires Spares(lay, im, h, live, x) && x !in live
    ensures Spares(lay, im, h, live, 0)
  {
    hide SameContents, Layout.Ok;
  }

  lemma SparesLess(lay: Layout, im: Image, h: Image, live: set<nat>, live': set<nat>, x: nat)
    requires Spares(lay, im, h, live', x) && live <= live'
    ensures Spares(lay, im, h, live, x)
  {
    hide SameContents, Layout.Ok;
  }

  /** One more write, from an image that spared all. */
  lemma SparesNext(lay: Layout, im: Image, im': Image, im'': Image, live: set<nat>, x: nat, was: seq<Image>, mid: seq<Image>)
    requires SparesSince(lay, im, live, x, was, mid) && Spares(lay, im, im', live, x) && Spares(lay, im', im'', live, x)
    ensures SparesSince(lay, im, live, x, was, mid + [im'']) && Spares(lay, im, im'', live, x)
  {
    hide Spares;
    SparesTwice(lay, im, im', im'', live, x);
    SparesOneMore(lay, im, live, x, was, mid, im'');
  }

  /** The entry of something new is the last write of its making, if there is room for it. */
  lemma SparesLinked(lay: Layout, im: Image, made: Image, im': Image, live: set<nat>, live': set<nat>, owner: Owner, dir: nat,
                     was: seq<Image>, mid: seq<Image>, now: seq<Image>)
    requires Sound(lay, im, live, owner) && live <= live'
    requires SparesSince(lay, im, live, 0, was, mid) && Spares(lay, im, made, live, 0)
    requires now == mid || (now == mid + [im'] && Spares(lay, made, im', live', dir))
    ensures SparesUntil(lay, im, live, dir, was, now)
  {
    hide Sound, Spares;
    if now == mid {
      if |was| < |now| {
        SparesButOne(lay, im, now[|now| - 1], live, owner, dir);
      }
    } else {
      SparesButOne(lay, im, made, live, owner, dir);
      SparesLess(lay, made, im', live, live', dir);
      SparesTwice(lay, im, made, im', live, dir);
      forall j | |was| <= j < |now| - 1 ensures Spares(lay, im, now[j], live, 0) {
        assert now[j] == mid[j];
      }
    }
  }

  lemma SparesWeaker(lay: Layout, im: Image, live: set<nat>, owner: Owner, x: nat, was: seq<Image>, now: seq<Image>)
    requires Sound(lay, im, live, owner) && SparesSince(lay, im, live, 0, was, now)
    ensures SparesUntil(lay, im, live, x, was, now)
  {
    hide Sound, Spares;
    if |was| < |now| {
      SparesButOne(lay, im, now[|now| - 1], live, owner, x);
    }
  }

  /** Writing an inode that is not live yet. */
  lemma LastInodeSpares(lay: Layout, im: Image, im': Image, live: set<nat>, owner: Owner, ino: nat, raw: seq<byte>,
                        was: seq<Image>, mid: seq<Image>)
    requires Sound(lay, im', live, owner) && ino !in live && lay.IsInode(ino) && |raw| == INODE_BYTES
    requires SparesSince(lay, im, live, 0, was, mid) && Spares(lay, im, im', live, 0)
    ensures
      var im'' := SetInode(lay, im', ino, raw);
      SparesSince(lay, im, live, 0, was, mid + [im'']) && Spares(lay, im, im'', live, 0)
  {
    hide InodeSound, SpareSound, DescribesGroup, Raw, Spares, SparesSince, SetInode;
    InodeSpares(lay, im', live, owner, ino, raw);
    SparesOutside(lay, im', SetInode(lay, im', ino, raw), live, ino);
    SparesNext(lay, im, im', SetInode(lay, im', ino, raw), live, 0, was, mid);
  }

  // ---- Paths.

  /** Every image that was added to the history keeps the paths of `im`. */
  ghost predicate PathsKeptSince(lay: Layout, im: Image, was: seq<Image>, now: seq<Image>) {
    was <= now && forall j :: |was| <= j < |now| ==> PathsKept(lay, im, now[j])
  }

  lemma SparingKeepsPaths(lay: Layout, im: Image, h: Image, live: set<nat>, owner: Owner, x: nat)
    requires Sound(lay, im, live, owner) && Spares(lay, im, h, live, x)
    requires x in live ==> lay.IsInode(x) && !IsDir(Raw(lay, im, x))
    ensures PathsKept(lay, im, h)
  {
    hide U32, U16, Raw, IsDir, InodeSound, SpareSound, DescribesGroup, SameContents, LookupsKept;
    forall i | i in live ensures LookupsKept(lay, im, h, i) {
      if i == x {
        NoLookups(lay, im, h, i);
      } else {
        SameContentsKept(lay, im, h, i);
      }
    }
    AllKept(lay, im, h, live, owner);
  }

  lemma SparingKeepsPathsSince(lay: Layout, im: Image, live: set<nat>, owner: Owner, x: nat, was: seq<Image>, now: seq<Image>)
    requires Sound(lay, im, live, owner) && SparesSince(lay, im, live, x, was, now)
    requires x in live ==> lay.IsInode(x) && !IsDir(Raw(lay, im, x))
    ensures PathsKeptSince(lay, im, was, now)
  {
    hide Spares, PathsKept, Raw, IsDir, InodeSound, SpareSound, DescribesGroup;
    forall j | |was| <= j < |now| ensures PathsKept(lay, im, now[j]) {
      SparingKeepsPaths(lay, im, now[j], live, owner, x);
    }
  }

  lemma PathsKeptUntil(lay: Layout, im: Image, live: set<nat>, owner: Owner, x: nat, was: seq<Image>, now: seq<Image>)
    requires Sound(lay, im, live, owner) && SparesUntil(lay, im, live, x, was, now)
    requires |was| < |now| ==> PathsKept(lay, im, now[|now| - 1])
    ensures PathsKeptSince(lay, im, was, now)
  {
    hide Spares, PathsKept, Raw, SpareSound, DescribesGroup, PointerSound, DirSound, InodeUsed;
    assert 0 in live ==> InodeSound(lay, im, live, owner, 0);
    forall j | |was| <= j < |now| ensures PathsKept(lay, im, now[j]) {
      if j < |now| - 1 {
        SparingKeepsPaths(lay, im, now[j], live, owner, 0);
      }
    }
  }

  lemma PathsKeptThrough(lay: Layout, im: Image, im': Image, was: seq<Image>, mid: seq<Image>, now: seq<Image>)
    requires PathsKeptSince(lay, im, was, mid) && PathsKept(lay, im, im') && PathsKeptSince(lay, im', mid, now)
    ensures PathsKeptSince(lay, im, was, now)
  {
    hide PathsKept;
    forall j | |was| <= j < |now| ensures PathsKept(lay, im, now[j]) {
      if j < |mid| {
        assert now[j] == mid[j];
      } else {
        PathsKeptTrans(lay, im, im', now[j]);
      }
    }
  }
}
