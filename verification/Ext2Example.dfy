/** Volumes of nine blocks that hold nothing but a root directory: the assumptions about volumes can be met. */
module Ext2Example {
  import opened Arith
  import opened Bytes
  import opened Bits
  import opened Dirent
  import opened Ext2Layout
  import opened Ext2Image
  import opened Ext2Invariant
  import opened Ext2Contents
  import opened Ext2Steps
  import opened Ext2Theorems
  import opened Ext2Paths
  import opened Ext2Run

  const BS: nat := 1024

  const ROLES: seq<Role> :=
    [Reserved, Reserved, GroupTable, BlockBitmap(0), InodeBitmap(0), InodeTable(0, 0), Data, Data, Data]

  /** One group of eight blocks and eight inodes, behind a boot block. */
  const SMALL := Layout(BS, 8, 8, 128, 1, [Group(3, 4, 5)], ROLES)

  /** A block that is zero but for some bytes. */
  function Filled(at: nat, b: seq<byte>): (blk: Block)
    requires at + |b| <= BS
    ensures |blk| == BS
  {
    Splice(Zeros(BS), at, b)
  }

  function DescriptorBytes(): (d: seq<byte>)
    ensures |d| == 16
  {
    Put32(3) + Put32(4) + Put32(5) + Put16(2) + Put16(6)
  }

  /** Six blocks and two inodes are used; inode 2 is a directory whose only block is block 6. */
  function Volume(root: Block): (im: Image)
    requires |root| == BS
    ensures |im| == 9 && forall b :: 0 <= b < 9 ==> |im[b]| == BS
  {
    [Zeros(BS), Zeros(BS), Filled(0, DescriptorBytes()), Filled(0, [63]), Filled(0, [3]),
     Filled(128, NewInode(0x41ED, 2, BS, 6)), root, Zeros(BS), Zeros(BS)]
  }

  function EmptyVolume(): (im: Image)
    ensures |im| == 9
  {
    Volume(EmptyDirectory(BS, 2, 2))
  }

  lemma SmallOk()
    ensures SMALL.Ok() && SMALL.TableBlocks() == 1
  {
    assert 8 * 128 + 1024 - 1 == 2047;
    DivUnique(2047, 1024, 1, 1023);
    assert SMALL.GeometryOk();
    assert SMALL.GroupOk(0);
  }

  lemma DescriptorReads()
    ensures var d := Filled(0, DescriptorBytes());
      U32(d, 0) == 3 && U32(d, 4) == 4 && U32(d, 8) == 5 && U16(d, 12) == 2 && U16(d, 14) == 6
  {
    hide Put32, Put16;
    var d := Filled(0, DescriptorBytes());
    var p3, p4, p5, p2, p6 := Put32(3), Put32(4), Put32(5), Put16(2), Put16(6);
    assert U32(d, 0) == U32(p3, 0) && U32(d, 4) == U32(p4, 0) && U32(d, 8) == U32(p5, 0);
    assert U16(d, 12) == U16(p2, 0) && U16(d, 14) == U16(p6, 0);
  }

  /** The low `w` bits of 2^w - 1 are set, and no others. */
  lemma {:induction false} OnesBits(w: nat, i: nat)
    ensures Bit(Pow2(w) - 1, i) <==> i < w
  {
    if i != 0 {
      if w == 0 {
        OnesBits(0, i - 1);
      } else {
        assert (Pow2(w) - 1) / 2 == Pow2(w - 1) - 1;
        OnesBits(w - 1, i - 1);
      }
    }
  }

  lemma {:induction false} CountBehindOnes(s: seq<byte>, w: nat, n: nat)
    requires n <= 8 * |s| && forall m :: 0 <= m < n ==> (BitAt(s, m) <==> m < w)
    ensures ZeroBits(s, n) == if n <= w then 0 else n - w
  {
    hide BitAt;
    if n != 0 {
      CountBehindOnes(s, w, n - 1);
    }
  }

  lemma BitmapReads(b: byte, w: nat)
    requires w <= 8 && b == Pow2(w) - 1
    ensures forall m :: 0 <= m < 8 ==> (BitAt(Filled(0, [b]), m) <==> m < w)
    ensures ZeroBits(Filled(0, [b]), 8) == 8 - w
  {
    hide Splice, Zeros;
    var s := Filled(0, [b]);
    assert s[0] == b;
    forall m | 0 <= m < 8 ensures BitAt(s, m) <==> m < w {
      OnesBits(w, m);
      assert m / 8 == 0 && m % 8 == m;
    }
    CountBehindOnes(s, w, 8);
  }

  lemma Powers()
    ensures Pow2(2) == 4 && Pow2(6) == 64
  {
    assert Pow2(4) == 16;
  }

  lemma VolumeShaped(root: Block)
    requires |root| == BS
    ensures Shaped(SMALL, Volume(root)) && Formatted(SMALL, Volume(root)) && Counted(SMALL, Volume(root))
  {
    hide Filled, NewInode, BitAt, ZeroBits, Pow2, U16, U32, DescriptorBytes, Layout.Ok;
    SmallOk();
    DescriptorReads();
    Powers();
    BitmapReads(63, 6);
    BitmapReads(3, 2);
    assert SMALL.groups[0] == Group(3, 4, 5);
  }

  /** The root's inode is the second slot of the only block of the table. */
  lemma RootRaw(root: Block)
    requires |root| == BS
    ensures Shaped(SMALL, Volume(root)) && SMALL.IsInode(2)
    ensures Raw(SMALL, Volume(root), 2) == NewInode(0x41ED, 2, BS, 6)
    ensures InodeUsed(SMALL, Volume(root), 2)
  {
    hide NewInode, BitAt, Pow2, DescriptorBytes, Layout.Ok, Splice, Zeros, SlotOffset, SlotBlock, Fits, Remainder;
    VolumeShaped(root);
    SmallOk();
    Powers();
    BitmapReads(3, 2);
    FirstGroup(SMALL, 1);
    PlaceOf(SMALL, 2);
    FitsSmall(128, 1024);
    assert SMALL.groups[0] == Group(3, 4, 5);
    assert SlotBlock(SMALL, 2) == 0 && SlotOffset(SMALL, 2) == 128;
    var raw := NewInode(0x41ED, 2, BS, 6);
    assert Filled(128, raw)[128..244] == raw;
  }

  lemma RootPointer(root: Block)
    requires |root| == BS
    ensures Shaped(SMALL, Volume(root)) && SMALL.IsBlock(6) && SMALL.HasRole(6, Data) && BlockUsed(SMALL, Volume(root), 6)
  {
    hide NewInode, BitAt, Pow2, DescriptorBytes, Layout.Ok, Splice, Zeros, Filled;
    VolumeShaped(root);
    SmallOk();
    Powers();
    BitmapReads(63, 6);
    FirstGroup(SMALL, 5);
    assert SMALL.groups[0] == Group(3, 4, 5);
  }

  lemma RootSound(root: Block)
    requires |root| == BS && RecordsSound(root, {2})
    ensures Shaped(SMALL, Volume(root))
    ensures InodeSound(SMALL, Volume(root), {2}, map[6 := (2, 0)], 2) && IsDir(Raw(SMALL, Volume(root), 2))
  {
    hide NewInode, BitAt, Pow2, Layout.Ok, Raw, InodeUsed, BlockUsed, RecordsSound, Fits, U16, U32, Filled;
    var im, raw := Volume(root), NewInode(0x41ED, 2, BS, 6);
    RootRaw(root);
    RootPointer(root);
    NewInodeFields(0x41ED, 2, BS, 6);
    FitsUnique(BS, BS, 1, 0);
    assert im[6] == root;
    assert DirLen(SMALL, raw) == 1;
    forall k | 0 <= k < 15 ensures PointerSound(SMALL, im, map[6 := (2, 0)], Ptr(raw, k), 2, k) {
    }
  }

  lemma VolumeSound(root: Block)
    requires |root| == BS && RecordsSound(root, {ROOT_INO})
    ensures Sound(SMALL, Volume(root), {ROOT_INO}, map[6 := (2, 0)]) && Counted(SMALL, Volume(root))
  {
    hide RecordsSound, NewInode, BitAt, Pow2, Layout.Ok, Raw, InodeSound, Filled, IsDir, DescribesGroup, ZeroBits;
    VolumeShaped(root);
    RootRaw(root);
    RootSound(root);
    Powers();
    BitmapReads(63, 6);
    SmallOk();
    assert SMALL.groups[0] == Group(3, 4, 5);
    assert BlockBitmapOf(SMALL, Volume(root), 0) == Filled(0, [63]);
    assert SpareSound(SMALL, Volume(root));
  }

  /** The volume is sound and its counts are exact, so a driver can be mounted on it. */
  lemma EmptyVolumeSound()
    ensures Sound(SMALL, EmptyVolume(), {ROOT_INO}, map[6 := (2, 0)]) && Counted(SMALL, EmptyVolume())
  {
    hide EmptyDirectory, WellFormed, Entries, Sound, Counted;
    EmptyDirectoryEntries(BS, 2, 2);
    assert RecordsSound(EmptyDirectory(BS, 2, 2), {ROOT_INO});
    VolumeSound(EmptyDirectory(BS, 2, 2));
  }

  // ---- A root directory without room: four records of 256 bytes, two of them deleted.

  const GONE: Dirent := Dirent(0, DOT, FT_REG_FILE)

  function Quarter(e: Dirent): (b: seq<byte>)
    requires e.inode < 0x1_0000_0000 && |e.name| < 0x100 - 8
    ensures |b| == 256
  {
    NewRecord(e, 256) + Zeros(256 - |NewRecord(e, 256)|)
  }

  function CrowdedRoot(): (b: Block)
    ensures |b| == BS
  {
    Quarter(Dirent(2, DOT, FT_DIR)) + Quarter(Dirent(2, DOTDOT, FT_DIR)) + Quarter(GONE) + Quarter(GONE)
  }

  /** A record of the crowded block ends after 256 bytes and leaves too little for a name of 255. */
  lemma QuarterReads(b: Block, off: nat, e: Dirent)
    requires |b| == BS && off + 256 <= BS && 0 < |e.name| <= 2 && e.inode < 0x1_0000_0000
    requires b[off..off + 256] == Quarter(e) && WellFormed(b, off + 256)
    ensures WellFormed(b, off) && Entries(b, off) == [e] + Entries(b, off + 256)
    ensures HasSlack(b, off, RealSize(255)) <==> HasSlack(b, off + 256, RealSize(255))
  {
    hide U16, U32, Put16, Put32, NewRecord, Record, HasSlack, Entries;
    SubSlice(b, off, off + 256, 0, 8 + |e.name|);
    assert Quarter(e)[0..8 + |e.name|] == NewRecord(e, 256);
    NewRecordDecodes(b, off, e, 256);
    Step(b, off);
    NameLength(b, off);
    SlackStep(b, off, RealSize(255));
  }

  lemma NameLength(b: Block, off: nat)
    requires RecordOk(b, off)
    ensures |Record(b, off).name| == NameLen(b, off)
  {
    hide RealSize;
  }

  lemma FourParts(q0: seq<byte>, q1: seq<byte>, q2: seq<byte>, q3: seq<byte>)
    requires |q0| == |q1| == |q2| == |q3| == 256
    ensures var b := q0 + q1 + q2 + q3;
      b[0..256] == q0 && b[256..512] == q1 && b[512..768] == q2 && b[768..1024] == q3
  {
  }

  lemma BlockEnd(b: Block)
    ensures WellFormed(b, |b|) && Entries(b, |b|) == [] && !HasSlack(b, |b|, RealSize(255))
  {
  }

  lemma CrowdedRootReads()
    ensures var b := CrowdedRoot();
      && WellFormed(b, 0) && !HasSlack(b, 0, RealSize(255))
      && Entries(b, 0) == [Dirent(2, DOT, FT_DIR), Dirent(2, DOTDOT, FT_DIR), GONE, GONE]
  {
    hide Quarter, RealSize, WellFormed, Entries, HasSlack;
    var b := CrowdedRoot();
    FourParts(Quarter(Dirent(2, DOT, FT_DIR)), Quarter(Dirent(2, DOTDOT, FT_DIR)), Quarter(GONE), Quarter(GONE));
    BlockEnd(b);
    QuarterReads(b, 768, GONE);
    QuarterReads(b, 512, GONE);
    QuarterReads(b, 256, Dirent(2, DOTDOT, FT_DIR));
    QuarterReads(b, 0, Dirent(2, DOT, FT_DIR));
  }

  /** A name of 255 bytes. */
  const LONG: Name := seq<byte>(255, _ => 97)

  lemma CrowdedLookup()
    ensures WellFormed(CrowdedRoot(), 0) && Find(Entries(CrowdedRoot(), 0), LONG) == 0
  {
    hide CrowdedRoot, Entries, WellFormed, HasSlack, Find;
    CrowdedRootReads();
    var es := [Dirent(2, DOT, FT_DIR), Dirent(2, DOTDOT, FT_DIR), GONE, GONE];
    assert |LONG| == 255;
    assert forall i :: 0 <= i < |es| ==> |es[i].name| <= 2;
    NoSuchName(es, LONG);
  }

  lemma {:induction false} NoSuchName(es: seq<Dirent>, name: Name)
    requires forall i :: 0 <= i < |es| ==> es[i].name != name
    ensures Find(es, name) == 0
  {
    if es != [] {
      NoSuchName(es[1..], name);
    }
  }

  lemma SomethingFree(root: Block)
    requires |root| == BS
    ensures Shaped(SMALL, Volume(root))
    ensures !InodesTaken(SMALL, Volume(root), 8) && !BlocksTaken(SMALL, Volume(root), 8)
  {
    hide BitAt, Pow2, Layout.Ok, Filled, NewInode, DescribesGroup, ZeroBits;
    VolumeShaped(root);
    Powers();
    BitmapReads(63, 6);
    BitmapReads(3, 2);
    SmallOk();
    assert SMALL.groups[0] == Group(3, 4, 5);
    assert !BitAt(InodeBitmapOf(SMALL, Volume(root), 0), 2) && !BitAt(BlockBitmapOf(SMALL, Volume(root), 0), 6);
  }

  /** The entries of the root are those of its only block. */
  lemma RootEntries(root: Block)
    requires |root| == BS && RecordsSound(root, {ROOT_INO})
    ensures Shaped(SMALL, Volume(root)) && SMALL.IsInode(ROOT_INO) && IsDir(Raw(SMALL, Volume(root), ROOT_INO))
    ensures Ptr(Raw(SMALL, Volume(root), ROOT_INO), 0) == 6 && WellFormed(root, 0)
    ensures Readable(SMALL, Volume(root), Raw(SMALL, Volume(root), ROOT_INO))
    ensures EntriesOf(SMALL, Volume(root), Raw(SMALL, Volume(root), ROOT_INO)) == Entries(root, 0)
  {
    hide U16, U32, Raw, NewInode, WellFormed, Entries, Fits, Layout.Ok, InodeUsed, InodeSound, SpareSound, DescribesGroup, Filled;
    var im := Volume(root);
    RootRaw(root);
    VolumeSound(root);
    LiveInRange(SMALL, im, {ROOT_INO}, map[6 := (2, 0)], ROOT_INO);
    NewInodeFields(0x41ED, 2, BS, 6);
    FitsUnique(BS, BS, 1, 0);
    var raw := Raw(SMALL, im, ROOT_INO);
    assert DirEntries(SMALL, im, raw, 0) + Entries(root, 0) == Entries(root, 0);
    assert DirEntries(SMALL, im, raw, 1) == Entries(root, 0);
  }

  /**
    On a sound volume with a free inode and a free block, a directory can be made under a fresh name for which
    the root has no room: the driver will return it, and no path will lead to it.
   */
  lemma NoRoomForTheName()
    ensures Sound(SMALL, Volume(CrowdedRoot()), {ROOT_INO}, map[6 := (2, 0)]) && Counted(SMALL, Volume(CrowdedRoot()))
    ensures CanMakeDirectory(SMALL, Volume(CrowdedRoot()), [], LONG)
    ensures !HasRoom(SMALL, Volume(CrowdedRoot()), ROOT_INO, LONG)
    ensures Resolve(SMALL, Volume(CrowdedRoot()), []) == ROOT_INO && Resolve(SMALL, Volume(CrowdedRoot()), [] + [LONG]) == 0
  {
    hide U16, U32, Raw, WellFormed, Entries, HasSlack, Find, Layout.Ok, Sound, Counted, CrowdedRoot, InodesTaken, BlocksTaken;
    hide Readable, EntriesOf, IsDir, RealSize;
    var root := CrowdedRoot();
    CrowdedRootReads();
    CrowdedLookup();
    assert RecordsSound(root, {ROOT_INO});
    VolumeSound(root);
    RootEntries(root);
    SomethingFree(root);
    ResolveMore(SMALL, Volume(root), [], LONG);
    assert |LONG| == 255;
  }
}
