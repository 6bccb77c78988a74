/** What the invariants and the contracts of the driver's operations mean for someone who uses the volume. */
module Ext2Theorems {
  import opened Arith
  import opened Bytes
  import opened Dirent
  import opened Ext2Layout
  import opened Ext2Image
  import opened Ext2Invariant
  import opened Ext2Contents
  import opened Ext2Steps

  // Crash safety, on the bytes of the volume alone.

  /** The inode that a path from the root leads to; 0 if a component is missing or is not a directory. */
  function Resolve(lay: Layout, im: Image, path: seq<Name>): nat
    requires Shaped(lay, im)
  {
    if path == [] then ROOT_INO else
      var dir := Resolve(lay, im, path[..|path| - 1]);
      if lay.IsInode(dir) && IsDir(Raw(lay, im, dir)) && Readable(lay, im, Raw(lay, im, dir))
      then Find(EntriesOf(lay, im, Raw(lay, im, dir)), path[|path| - 1])
      else 0
  }

  lemma {:induction false} FindIsEntry(es: seq<Dirent>, name: Name)
    requires Find(es, name) != 0
    ensures exists e :: e in es && e.inode == Find(es, name) && e.name == name
  {
    if es[0].inode != 0 && es[0].name == name {
      assert es[0] in es;
    } else {
      FindIsEntry(es[1..], name);
    }
  }

  lemma {:induction false} EntriesLive(lay: Layout, im: Image, live: set<nat>, raw: seq<byte>, n: nat, e: Dirent)
    requires Shaped(lay, im) && |raw| == INODE_BYTES && InRange(lay, raw) && n <= DIRECT_BLOCKS
    requires forall k :: 0 <= k < n ==> WellFormed(im[Ptr(raw, k)], 0)
    requires forall k :: 0 <= k < n ==> RecordsSound(im[Ptr(raw, k)], live)
    requires e in DirEntries(lay, im, raw, n) && e.inode != 0
    ensures e.inode in live
  {
    hide U32, Ptr, WellFormed, Entries;
    assert n != 0;
    if e in Entries(im[Ptr(raw, n - 1)], 0) {
      assert RecordsSound(im[Ptr(raw, n - 1)], live);
    } else {
      EntriesLive(lay, im, live, raw, n - 1, e);
    }
  }

  /** A name in a live directory stands for a live inode. */
  lemma LookupIsLive(lay: Layout, im: Image, live: set<nat>, owner: Owner, dir: nat, name: Name)
    requires Sound(lay, im, live, owner) && dir in live && lay.IsInode(dir) && IsDir(Raw(lay, im, dir))
    requires Readable(lay, im, Raw(lay, im, dir)) && Find(EntriesOf(lay, im, Raw(lay, im, dir)), name) != 0
    ensures Find(EntriesOf(lay, im, Raw(lay, im, dir)), name) in live
  {
    hide U32, U16, Raw, InodeSound, DescribesGroup, EntriesOf, Readable, Find, SpareSound;
    var es := EntriesOf(lay, im, Raw(lay, im, dir));
    FindIsEntry(es, name);
    var e :| e in es && e.inode == Find(es, name) && e.name == name;
    EntryIsLive(lay, im, live, owner, dir, e);
  }

  lemma {:induction false} ResolvedIsLive(lay: Layout, im: Image, live: set<nat>, owner: Owner, path: seq<Name>)
    requires Sound(lay, im, live, owner) && Resolve(lay, im, path) != 0
    ensures Resolve(lay, im, path) in live
  {
    hide U32, U16, Raw, InodeSound, SpareSound, EntriesOf, Readable, Find, DescribesGroup;
    if path != [] {
      ResolvedIsLive(lay, im, live, owner, path[..|path| - 1]);
      LookupIsLive(lay, im, live, owner, Resolve(lay, im, path[..|path| - 1]), path[|path| - 1]);
    }
  }

  /** Marked used and initialised, and so is every block it points to. */
  ghost predicate Initialised(lay: Layout, im: Image, ino: nat)
    requires Shaped(lay, im)
  {
    && lay.IsInode(ino) && InodeUsed(lay, im, ino) && Links(Raw(lay, im, ino)) > 0
    && forall k :: 0 <= k < 15 && Ptr(Raw(lay, im, ino), k) != 0 ==>
      && lay.HasRole(Ptr(Raw(lay, im, ino), k), Data) && lay.IsBlock(Ptr(Raw(lay, im, ino), k))
      && BlockUsed(lay, im, Ptr(Raw(lay, im, ino), k))
  }

  lemma LiveIsInitialised(lay: Layout, im: Image, live: set<nat>, owner: Owner, ino: nat)
    requires Sound(lay, im, live, owner) && ino in live
    ensures Initialised(lay, im, ino)
  {
    hide U32, U16, Raw, InodeUsed, BlockUsed, DescribesGroup, SpareSound, DirSound, PointerSound;
    assert InodeSound(lay, im, live, owner, ino);
    forall k | 0 <= k < 15 && Ptr(Raw(lay, im, ino), k) != 0
      ensures
        && lay.HasRole(Ptr(Raw(lay, im, ino), k), Data) && lay.IsBlock(Ptr(Raw(lay, im, ino), k))
        && BlockUsed(lay, im, Ptr(Raw(lay, im, ino), k))
    {
      PointerOwned(lay, im, live, owner, ino, k);
    }
  }

  /** On a volume that a crash may leave behind, whatever a path leads to is initialised, blocks and all. */
  lemma CrashSafety(lay: Layout, im: Image, path: seq<Name>)
    requires CrashSafe(lay, im) && Shaped(lay, im) && Resolve(lay, im, path) != 0
    ensures Initialised(lay, im, Resolve(lay, im, path))
  {
    hide U32, U16, Raw, InodeSound, DescribesGroup, SpareSound, Resolve, Initialised;
    var live, owner :| Sound(lay, im, live, owner);
    ResolvedIsLive(lay, im, live, owner, path);
    LiveIsInitialised(lay, im, live, owner, Resolve(lay, im, path));
  }

  /** So is whatever any entry of any directory names, also an entry that another of the same name shadows. */
  lemma CrashSafeEntries(lay: Layout, im: Image, path: seq<Name>)
    requires CrashSafe(lay, im) && Shaped(lay, im) && Resolve(lay, im, path) != 0
    requires lay.IsInode(Resolve(lay, im, path)) && IsDir(Raw(lay, im, Resolve(lay, im, path)))
    ensures Readable(lay, im, Raw(lay, im, Resolve(lay, im, path)))
    ensures forall e :: e in EntriesOf(lay, im, Raw(lay, im, Resolve(lay, im, path))) && e.inode != 0 ==>
      Initialised(lay, im, e.inode)
  {
    hide U32, U16, Raw, DescribesGroup, SpareSound, Resolve, Initialised, IsDir, EntriesOf, Readable;
    var live, owner :| Sound(lay, im, live, owner);
    var dir := Resolve(lay, im, path);
    ResolvedIsLive(lay, im, live, owner, path);
    LiveInRange(lay, im, live, owner, dir);
    forall e | e in EntriesOf(lay, im, Raw(lay, im, dir)) && e.inode != 0 ensures Initialised(lay, im, e.inode) {
      EntryIsLive(lay, im, live, owner, dir, e);
      LiveIsInitialised(lay, im, live, owner, e.inode);
    }
  }

  lemma EntryIsLive(lay: Layout, im: Image, live: set<nat>, owner: Owner, dir: nat, e: Dirent)
    requires Sound(lay, im, live, owner) && dir in live && lay.IsInode(dir) && IsDir(Raw(lay, im, dir))
    requires Readable(lay, im, Raw(lay, im, dir)) && e in EntriesOf(lay, im, Raw(lay, im, dir)) && e.inode != 0
    ensures e.inode in live
  {
    hide U32, U16, Raw, InodeUsed, BlockUsed, DescribesGroup, WellFormed, Entries, PointerSound, SpareSound;
    assert InodeSound(lay, im, live, owner, dir);
    EntriesLive(lay, im, live, Raw(lay, im, dir), DirLen(lay, Raw(lay, im, dir)), e);
  }

  /** On such a volume, two paths that lead to different inodes never lead to a common block. */
  lemma CrashSafeUnshared(lay: Layout, im: Image, p: seq<Name>, q: seq<Name>, k: nat, l: nat)
    requires CrashSafe(lay, im) && Shaped(lay, im) && k < 15 && l < 15
    requires Resolve(lay, im, p) != 0 && Resolve(lay, im, q) != 0
    requires lay.IsInode(Resolve(lay, im, p)) && lay.IsInode(Resolve(lay, im, q))
    requires Ptr(Raw(lay, im, Resolve(lay, im, p)), k) == Ptr(Raw(lay, im, Resolve(lay, im, q)), l) != 0
    ensures Resolve(lay, im, p) == Resolve(lay, im, q) && k == l
  {
    hide U32, U16, Raw, InodeSound, DescribesGroup, SpareSound, Resolve;
    var live, owner :| Sound(lay, im, live, owner);
    ResolvedIsLive(lay, im, live, owner, p);
    ResolvedIsLive(lay, im, live, owner, q);
    NoSharedBlock(lay, im, live, owner, Resolve(lay, im, p), k, Resolve(lay, im, q), l);
  }

  // Directories.

  /** After an entry is added, its name is found, other names mean what they meant, and the listing has one more. */
  lemma EntryFound(lay: Layout, im: Image, im': Image, live: set<nat>, owner: Owner, live': set<nat>, owner': Owner,
                   dir: nat, e: Dirent)
    requires Sound(lay, im, live, owner) && Sound(lay, im', live', owner') && live <= live'
    requires dir in live && lay.IsInode(dir) && IsDir(Raw(lay, im, dir)) && EntryAdded(lay, im, im', live, dir, e)
    requires e.inode != 0 && |e.name| > 0 && Readable(lay, im, Raw(lay, im, dir))
    requires Find(EntriesOf(lay, im, Raw(lay, im, dir)), e.name) == 0
    ensures Raw(lay, im', dir) == Raw(lay, im, dir) && Readable(lay, im', Raw(lay, im', dir))
    ensures
      var es, fs := EntriesOf(lay, im, Raw(lay, im, dir)), EntriesOf(lay, im', Raw(lay, im', dir));
      && Find(fs, e.name) == e.inode
      && (forall n :: n != e.name ==> Find(fs, n) == Find(es, n))
      && AddedTo(Listing(es), Listing(fs), e)
  {
    hide U32, U16, Raw, InodeSound, SpareSound, WellFormed, Entries, Find, DescribesGroup, BlockUsed, DirLen, Readable;
    hide AddsEntry, DirEntries, Inserted;
    LiveInRange(lay, im', live', owner', dir);
    DirectoryGrew(lay, im, im', live, owner, dir, e);
    var es, fs := EntriesOf(lay, im, Raw(lay, im, dir)), EntriesOf(lay, im', Raw(lay, im', dir));
    var j :| 0 <= j <= |es| && fs == Inserted(es, j, e);
    InsertedMeaning(es, j, e);
  }

  lemma DirectoryGrew(lay: Layout, im: Image, im': Image, live: set<nat>, owner: Owner, dir: nat, e: Dirent)
    requires Sound(lay, im, live, owner) && dir in live && lay.IsInode(dir) && IsDir(Raw(lay, im, dir))
    requires EntryAdded(lay, im, im', live, dir, e) && Readable(lay, im, Raw(lay, im, dir))
    requires Readable(lay, im', Raw(lay, im, dir))
    ensures AddedTo(EntriesOf(lay, im, Raw(lay, im, dir)), EntriesOf(lay, im', Raw(lay, im, dir)), e)
  {
    hide U32, U16, Raw, InodeSound, SpareSound, WellFormed, Entries, DescribesGroup, BlockUsed, DirLen, AddsEntry;
    var raw := Raw(lay, im, dir);
    forall k | 1 <= k < DirLen(lay, raw) ensures im'[Ptr(raw, k)] == im[Ptr(raw, k)] {
      PointerOwned(lay, im, live, owner, dir, k);
      if Ptr(raw, k) == Ptr(raw, 0) {
        NoSharedBlock(lay, im, live, owner, dir, k, dir, 0);
      }
    }
    AddedEntries(lay, im, im', raw, DirLen(lay, raw), e);
  }

  // Inodes that an operation is not about.

  /** The inode and all its direct blocks read as before. */
  ghost predicate SameContents(lay: Layout, im: Image, im': Image, i: nat) {
    && Shaped(lay, im) && Shaped(lay, im') && lay.IsInode(i) && Raw(lay, im', i) == Raw(lay, im, i)
    && forall k :: 0 <= k < 15 && Ptr(Raw(lay, im, i), k) != 0 && Ptr(Raw(lay, im, i), k) < |im| ==>
      im'[Ptr(Raw(lay, im, i), k)] == im[Ptr(Raw(lay, im, i), k)]
  }

  /** Then every read of it, at any offset and size, yields the same bytes. */
  lemma SameReads(lay: Layout, im: Image, im': Image, i: nat, offset: word, size: word, r: seq<byte>)
    requires SameContents(lay, im, im', i) && InRange(lay, Raw(lay, im, i))
    ensures IsRead(lay, im', Raw(lay, im', i), offset, size, r) <==> IsRead(lay, im, Raw(lay, im, i), offset, size, r)
  {
    hide U32, Raw, Fits, Remainder;
  }

  /** Adding an entry to one directory changes no other live file or directory. */
  lemma OthersKeepContents(lay: Layout, im: Image, im': Image, live: set<nat>, owner: Owner, dir: nat, e: Dirent, i: nat)
    requires Sound(lay, im, live, owner) && EntryAdded(lay, im, im', live, dir, e)
    requires dir in live && i in live && i != dir && lay.IsInode(i) && Ptr(Raw(lay, im, dir), 0) != 0
    ensures SameContents(lay, im, im', i)
  {
    hide U32, U16, Raw, InodeSound, SpareSound, DescribesGroup, BlockUsed, AddsEntry, Layout.Ok;
    var raw := Raw(lay, im, i);
    forall k | 0 <= k < 15 && Ptr(raw, k) != 0 && Ptr(raw, k) < |im| ensures im'[Ptr(raw, k)] == im[Ptr(raw, k)] {
      PointerOwned(lay, im, live, owner, i, k);
      if Ptr(raw, k) == Ptr(Raw(lay, im, dir), 0) {
        NoSharedBlock(lay, im, live, owner, i, k, dir, 0);
      }
    }
  }

  /** Writing one file changes no other live file or directory. */
  lemma OtherFilesKeepContents(lay: Layout, im: Image, im': Image, live: set<nat>, owner: Owner, ino: nat,
                               data: seq<byte>, i: nat)
    requires Sound(lay, im, live, owner) && FileWritten(lay, im, im', live, ino, data)
    requires ino in live && i in live && i != ino && lay.IsInode(i)
    ensures SameContents(lay, im, im', i)
  {
    hide U32, U16, Raw, InodeSound, SpareSound, DescribesGroup, BlockUsed, Zeros, FileInode, Layout.Ok;
    var raw, b := Raw(lay, im, i), Ptr(Raw(lay, im', ino), 0);
    forall k | 0 <= k < 15 && Ptr(raw, k) != 0 && Ptr(raw, k) < |im| ensures im'[Ptr(raw, k)] == im[Ptr(raw, k)] {
      PointerOwned(lay, im, live, owner, i, k);
      if Ptr(raw, k) == b && Ptr(Raw(lay, im, ino), 0) != 0 {
        NoSharedBlock(lay, im, live, owner, i, k, ino, 0);
      }
    }
  }

  // Files.

  /**
    Write, then read through a fresh vnode: exactly that slice of what was written, at every offset and size
    whose 64-bit sum does not wrap around, and else only behind the end.
   */
  lemma WriteThenRead(lay: Layout, im: Image, im': Image, live: set<nat>, owner: Owner, live0: set<nat>, ino: nat,
                      data: seq<byte>, offset: word, size: word, r: seq<byte>)
    requires FileWritten(lay, im, im', live0, ino, data) && Sound(lay, im', live, owner) && ino in live
    requires lay.IsInode(ino) && InRange(lay, Raw(lay, im', ino)) && IsRead(lay, im', Raw(lay, im', ino), offset, size, r)
    ensures r == Slice(data, offset, size) <==> offset + size < WORD_LIMIT || offset >= |data|
    ensures offset + size >= WORD_LIMIT ==> r == []
  {
    hide U32, U16, Raw, InodeSound, SpareSound, DescribesGroup, BlockUsed, Zeros, FileWritten, IsRead, Holds, InRange;
    WrittenHolds(lay, im, im', live0, ino, data);
    ReadBack(lay, im', Raw(lay, im', ino), data, offset, size, r);
  }

  /**
    The vnode through which a file was written keeps its old block pointers and takes only the new size.
    Reads through it, short of wrapping around, find what was written exactly when the file had a block before,
    or nothing was written.
   */
  lemma StaleVnode(lay: Layout, im: Image, im': Image, live: set<nat>, ino: nat, data: seq<byte>, cached: seq<byte>)
    requires FileWritten(lay, im, im', live, ino, data) && InRange(lay, Raw(lay, im, ino))
    requires |data| < 0x1_0000_0000 && cached == WithSize(Raw(lay, im, ino), |data|)
    ensures InRange(lay, cached)
    ensures (forall offset: word, size: word, r ::
      IsRead(lay, im', cached, offset, size, r) && offset + size < WORD_LIMIT ==> r == Slice(data, offset, size)) <==>
      (Ptr(Raw(lay, im, ino), 0) != 0 || data == [])
  {
    hide U32, U16, Raw, DescribesGroup, BlockUsed, Zeros, IsRead, WithSize, Slice;
    WithSizeFields(Raw(lay, im, ino), |data|);
    if Ptr(Raw(lay, im, ino), 0) != 0 {
      forall offset: word, size: word, r | IsRead(lay, im', cached, offset, size, r) && offset + size < WORD_LIMIT
        ensures r == Slice(data, offset, size)
      {
        ReadBack(lay, im', cached, data, offset, size, r);
      }
    } else {
      EmptyRead(lay, im', cached, 0, |data|);
      assert IsRead(lay, im', cached, 0, |data|, []);
      SliceAll(data);
      if data == [] {
        forall offset: word, size: word, r | IsRead(lay, im', cached, offset, size, r)
          ensures r == Slice(data, offset, size)
        {
          ReadPastEnd(lay, im', cached, offset, size, r);
        }
      }
    }
  }

  /** The failing input: a file just created, written for the first time, reads as empty through its old vnode. */
  lemma StaleAfterCreate(lay: Layout, im: Image, im': Image, live: set<nat>, ino: nat, data: seq<byte>, cached: seq<byte>)
    requires FileWritten(lay, im, im', live, ino, data) && Raw(lay, im, ino) == NewInode(FILE_MODE, 1, 0, 0)
    requires data != [] && |data| < 0x1_0000_0000 && cached == WithSize(Raw(lay, im, ino), |data|)
    ensures InRange(lay, cached)
    ensures IsRead(lay, im', cached, 0, |data|, []) && Slice(data, 0, |data|) == data != []
  {
    hide U32, U16, Raw, DescribesGroup, BlockUsed, Zeros, IsRead, WithSize, NewInode, Slice, FileInode;
    NewInodeFields(FILE_MODE, 1, 0, 0);
    WithSizeFields(Raw(lay, im, ino), |data|);
    EmptyRead(lay, im', cached, 0, |data|);
    SliceAll(data);
  }

  lemma SliceAll(data: seq<byte>)
    ensures Slice(data, 0, |data|) == data
    ensures forall offset: nat, size: nat :: Slice([], offset, size) == []
  {
  }

  lemma EmptyRead(lay: Layout, im: Image, raw: seq<byte>, offset: word, size: word)
    requires Shaped(lay, im) && |raw| == INODE_BYTES && InRange(lay, raw)
    requires Ptr(raw, 0) == 0 && offset < lay.blockSize
    ensures IsRead(lay, im, raw, offset, size, [])
  {
    hide U32, Ptr, Size, Fits, Remainder;
    FitsSmall(offset, lay.blockSize);
  }

  lemma ReadPastEnd(lay: Layout, im: Image, raw: seq<byte>, offset: word, size: word, r: seq<byte>)
    requires Shaped(lay, im) && |raw| == INODE_BYTES && InRange(lay, raw)
    requires Size(raw) == 0 && IsRead(lay, im, raw, offset, size, r)
    ensures r == []
  {
    hide U32, Ptr, HasByte, Backed;
  }
}
