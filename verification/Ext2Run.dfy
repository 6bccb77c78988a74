/** The driver as its callers see it: vnodes with a cached inode, and runs of path-based operations. */
module Ext2Run {
  import opened Bytes
  import opened Dirent
  import opened Ext2Layout
  import opened Ext2Image
  import opened Ext2Invariant
  import opened Ext2Steps
  import opened Ext2Writes
  import opened Ext2Contents
  import opened Ext2Theorems
  import opened Ext2Paths
  import opened Ext2History
  import opened Ext2

  class Vnode {
    const fs: Ext2
    const ino: nat
    var inode: seq<byte>
    var size: nat

    /** `ext2_make_vnode`: a fresh copy of the inode. */
    constructor (fs: Ext2, ino: nat)
      requires fs.Mounted() && fs.lay.IsInode(ino)
      ensures this.fs == fs && this.ino == ino && inode == Raw(fs.lay, fs.disk.image, ino) && size == Size(inode)
    {
      var raw := fs.ReadInode(ino);
      this.fs, this.ino, this.inode, this.size := fs, ino, raw, Size(raw);
    }

    /** `ext2_vfs_read`: reads with the cached inode. */
    method Read(offset: word, count: word) returns (r: seq<byte>)
      requires fs.Mounted() && |inode| == INODE_BYTES && InRange(fs.lay, inode)
      ensures IsRead(fs.lay, fs.disk.image, inode, offset, count, r)
    {
      r := fs.ReadInodeData(inode, offset, count);
    }

    /** `ext2_vfs_write`: rewrites the file from its start, whatever the offset; of the cached inode only the size is renewed. */
    method Write(data: seq<byte>, offset: nat) returns (n: int)
      requires fs.Valid() && ino in fs.live && fs.lay.IsInode(ino) && |inode| == INODE_BYTES
      requires !IsDir(Raw(fs.lay, fs.disk.image, ino)) && |data| <= fs.blockSize
      modifies this, fs, fs.disk
      ensures fs.Valid() && old(fs.disk.history) <= fs.disk.history && fs.live == old(fs.live)
      ensures n == if Ptr(Raw(fs.lay, old(fs.disk.image), ino), 0) != 0
                      || !BlocksTaken(fs.lay, old(fs.disk.image), fs.lay.blocksPerGroup) then |data| else -1
      ensures n == -1 ==> inode == old(inode) && size == old(size) && fs.disk.image == old(fs.disk.image)
      ensures n >= 0 ==>
        && FileWritten(fs.lay, old(fs.disk.image), fs.disk.image, fs.live, ino, data)
        && |data| < 0x1_0000_0000 && inode == WithSize(old(inode), |data|) && size == |data|
    {
      hide Sound, Counted, FileWritten, BlocksTaken, Raw, WithSize;
      assert fs.lay.Ok() by {
        assert Formatted(fs.lay, fs.disk.image);
      }
      var ok := fs.WriteFile(ino, data);
      if !ok {
        return -1;
      }
      inode := WithSize(inode, |data|);
      size := |data|;
      n := |data|;
    }
  }

  /** Walks a path from the root with one directory lookup after the other. */
  method ResolvePath(fs: Ext2, path: seq<Name>) returns (ino: nat)
    requires fs.Valid()
    ensures ino == Resolve(fs.lay, fs.disk.image, path)
    ensures ino != 0 ==> ino in fs.live && fs.lay.IsInode(ino)
  {
    hide U32, U16, Raw, InodeSound, SpareSound, EntriesOf, Readable, Find, Counted, DescribesGroup;
    ino := ROOT_INO;
    for i := 0 to |path|
      invariant ino == Resolve(fs.lay, fs.disk.image, path[..i])
      invariant ino != 0 ==> ino in fs.live && fs.lay.IsInode(ino)
    {
      assert path[..i + 1][..i] == path[..i];
      if ino != 0 {
        var raw := fs.ReadInode(ino);
        if IsDir(raw) {
          LiveInRange(fs.lay, fs.disk.image, fs.live, fs.owner, ino);
          var dir := ino;
          ino := fs.DirLookup(raw, path[i]);
          if ino != 0 {
            LookupIsLive(fs.lay, fs.disk.image, fs.live, fs.owner, dir, path[i]);
            LiveIsInode(fs.lay, fs.disk.image, fs.live, fs.owner, ino);
          }
        } else {
          ino := 0;
        }
      }
    }
    assert path[..|path|] == path;
  }

  datatype Op =
    | CreateFile(dir: seq<Name>, name: Name)
    | MakeDirectory(dir: seq<Name>, name: Name)
    | WriteFile(file: seq<Name>, data: seq<byte>)

  /** The name that the operation is to create leads nowhere yet. */
  ghost predicate Fresh(lay: Layout, im: Image, op: Op)
    requires Shaped(lay, im)
  {
    !op.WriteFile? ==> Resolve(lay, im, op.dir + [op.name]) == 0
  }

  /** The path leads to a directory, and the name is one that a record can hold. */
  ghost predicate NameOk(lay: Layout, im: Image, dir: seq<Name>, name: Name)
    requires Shaped(lay, im)
  {
    var d := Resolve(lay, im, dir);
    d != 0 && 1 <= |name| < 0x100 && lay.IsInode(d) && IsDir(Raw(lay, im, d))
  }

  ghost predicate CanCreate(lay: Layout, im: Image, dir: seq<Name>, name: Name)
    requires Shaped(lay, im)
  {
    NameOk(lay, im, dir, name) && !InodesTaken(lay, im, lay.inodesPerGroup) && HasRoom(lay, im, Resolve(lay, im, dir), name)
  }

  /** The parent's room for the entry does not come into it. */
  ghost predicate CanMakeDirectory(lay: Layout, im: Image, dir: seq<Name>, name: Name)
    requires Shaped(lay, im)
  {
    && NameOk(lay, im, dir, name)
    && !InodesTaken(lay, im, lay.inodesPerGroup) && !BlocksTaken(lay, im, lay.blocksPerGroup)
  }

  ghost predicate CanWrite(lay: Layout, im: Image, file: seq<Name>, data: seq<byte>)
    requires Shaped(lay, im)
  {
    var f := Resolve(lay, im, file);
    && f != 0 && lay.IsInode(f) && !IsDir(Raw(lay, im, f)) && |data| <= lay.blockSize
    && (Ptr(Raw(lay, im, f), 0) != 0 || !BlocksTaken(lay, im, lay.blocksPerGroup))
  }

  /** The image after the operation, byte for byte; nothing is written when the path leads to no directory. */
  ghost predicate Created(lay: Layout, im: Image, im': Image, dir: seq<Name>, name: Name, ok: bool)
    requires Shaped(lay, im)
  {
    if NameOk(lay, im, dir, name) then
      exists ino :: CreatesFile(lay, im, im', Resolve(lay, im, dir), name, ino) && (ok <==> ino != 0)
    else
      !ok && im' == im
  }

  ghost predicate Made(lay: Layout, im: Image, im': Image, dir: seq<Name>, name: Name, ok: bool)
    requires Shaped(lay, im)
  {
    if NameOk(lay, im, dir, name) then
      exists ino :: MakesDirectory(lay, im, im', Resolve(lay, im, dir), name, ino) && (ok <==> ino != 0)
    else
      !ok && im' == im
  }

  /** Creates a file in the directory to which a path leads. */
  method PerformCreate(fs: Ext2, dir: seq<Name>, name: Name) returns (ok: bool)
    requires fs.Valid()
    modifies fs, fs.disk
    ensures ok <==> CanCreate(fs.lay, old(fs.disk.image), dir, name)
    ensures Created(fs.lay, old(fs.disk.image), fs.disk.image, dir, name, ok)
    ensures fs.Valid() && old(fs.disk.history) <= fs.disk.history
    ensures !ok || Resolve(fs.lay, old(fs.disk.image), dir + [name]) == 0 ==>
      PathsKeptSince(fs.lay, old(fs.disk.image), old(fs.disk.history), fs.disk.history)
    ensures SparesUntil(fs.lay, old(fs.disk.image), old(fs.live), Resolve(fs.lay, old(fs.disk.image), dir),
                        old(fs.disk.history), fs.disk.history)
    ensures !ok ==> PathsKept(fs.lay, old(fs.disk.image), fs.disk.image)
    ensures ok && Resolve(fs.lay, old(fs.disk.image), dir + [name]) == 0 ==>
      && PathsKept(fs.lay, old(fs.disk.image), fs.disk.image)
      && var ino := Resolve(fs.lay, fs.disk.image, dir + [name]);
         ino !in old(fs.live) && fs.lay.IsInode(ino) && Raw(fs.lay, fs.disk.image, ino) == NewInode(FILE_MODE, 1, 0, 0)
  {
    hide Sound, Counted, InodesTaken, Raw, EntryAdded, NothingChanged, HasRoom, Resolve, NewInode, EntriesOf, Readable;
    hide PathsKept, SparesUntil, PathsKeptSince, CreatesFile;
    ghost var im, live, owner, was := fs.disk.image, fs.live, fs.owner, fs.disk.history;
    NothingDone(fs.lay, im, live, owner);
    ok := false;
    var d := ResolvePath(fs, dir);
    NothingWritten(fs.lay, im, live, owner, d, was);
    if d != 0 && 1 <= |name| < 0x100 {
      var raw := fs.ReadInode(d);
      if IsDir(raw) {
        var ino := fs.CreateFile(d, name);
        ok := ino != 0;
        if !ok {
          NothingKept(fs.lay, im, fs.disk.image, live, owner);
        } else if Resolve(fs.lay, im, dir + [name]) == 0 {
          NameAbsent(fs.lay, im, live, owner, dir, name);
          EntryAddedKept(fs.lay, im, fs.disk.image, live, owner, fs.live, fs.owner, d, Dirent(ino, name, FT_REG_FILE));
        }
        if !ok || Resolve(fs.lay, im, dir + [name]) == 0 {
          PathsKeptUntil(fs.lay, im, live, owner, d, was, fs.disk.history);
        }
      }
    }
  }

  /** Makes a directory in the directory to which a path leads; it is entered there if there is room. */
  method PerformMakeDirectory(fs: Ext2, dir: seq<Name>, name: Name) returns (ok: bool)
    requires fs.Valid()
    modifies fs, fs.disk
    ensures ok <==> CanMakeDirectory(fs.lay, old(fs.disk.image), dir, name)
    ensures Made(fs.lay, old(fs.disk.image), fs.disk.image, dir, name, ok)
    ensures fs.Valid() && old(fs.disk.history) <= fs.disk.history
    ensures !ok || Resolve(fs.lay, old(fs.disk.image), dir + [name]) == 0 ==>
      PathsKeptSince(fs.lay, old(fs.disk.image), old(fs.disk.history), fs.disk.history)
    ensures SparesUntil(fs.lay, old(fs.disk.image), old(fs.live), Resolve(fs.lay, old(fs.disk.image), dir),
                        old(fs.disk.history), fs.disk.history)
    ensures !ok ==> PathsKept(fs.lay, old(fs.disk.image), fs.disk.image)
    ensures ok && Resolve(fs.lay, old(fs.disk.image), dir + [name]) == 0 ==>
      && PathsKept(fs.lay, old(fs.disk.image), fs.disk.image)
      && var ino := Resolve(fs.lay, fs.disk.image, dir + [name]);
         if HasRoom(fs.lay, old(fs.disk.image), Resolve(fs.lay, old(fs.disk.image), dir), name)
         then ino != 0 && ino !in old(fs.live) && fs.lay.IsInode(ino) && IsDir(Raw(fs.lay, fs.disk.image, ino))
         else ino == 0
  {
    hide Sound, Counted, BlocksTaken, InodesTaken, Raw, DirectoryMade, EntryAdded, NothingChanged, HasRoom, Resolve, IsDir;
    hide EntriesOf, Readable, PathsKept, SparesUntil, PathsKeptSince, CrashSafe, DescribesGroup, Layout.Ok, U16, U32, SameContents, MakesDirectory;
    ghost var im, live, owner, was := fs.disk.image, fs.live, fs.owner, fs.disk.history;
    NothingDone(fs.lay, im, live, owner);
    ok := false;
    var d := ResolvePath(fs, dir);
    NothingWritten(fs.lay, im, live, owner, d, was);
    if d != 0 && 1 <= |name| < 0x100 {
      var raw := fs.ReadInode(d);
      if IsDir(raw) {
        var ino, made := fs.MakeDirectory(d, name);
        ok := ino != 0;
        if !ok {
          NothingKept(fs.lay, im, fs.disk.image, live, owner);
        } else {
          DirectoryMadeKept(fs.lay, im, made, live, owner, d, ino);
          PathKept(fs.lay, im, made, dir);
          if Resolve(fs.lay, im, dir + [name]) == 0 {
            NameAbsent(fs.lay, im, live, owner, dir, name);
            StillAbsent(fs.lay, im, made, d, name);
            if HasRoom(fs.lay, im, d, name) {
              EntryAddedKept(fs.lay, made, fs.disk.image, fs.live, fs.owner, fs.live, fs.owner, d, Dirent(ino, name, FT_DIR));
              PathsKeptTrans(fs.lay, im, made, fs.disk.image);
              NewDirectoryIsDir(fs.lay, im, made, fs.disk.image, live, fs.live, d, ino, Dirent(ino, name, FT_DIR));
            } else {
              AbsentUnresolved(fs.lay, im, made, dir, name);
            }
          }
        }
        if !ok || Resolve(fs.lay, im, dir + [name]) == 0 {
          PathsKeptUntil(fs.lay, im, live, owner, d, was, fs.disk.history);
        }
      }
    }
  }

  /** Writes the file to which a path leads. */
  method PerformWrite(fs: Ext2, file: seq<Name>, data: seq<byte>) returns (ok: bool)
    requires fs.Valid()
    modifies fs, fs.disk
    ensures ok <==> CanWrite(fs.lay, old(fs.disk.image), file, data)
    ensures fs.Valid() && old(fs.disk.history) <= fs.disk.history && fs.live == old(fs.live)
    ensures PathsKept(fs.lay, old(fs.disk.image), fs.disk.image)
    ensures PathsKeptSince(fs.lay, old(fs.disk.image), old(fs.disk.history), fs.disk.history)
    ensures SparesSince(fs.lay, old(fs.disk.image), fs.live, Resolve(fs.lay, old(fs.disk.image), file),
                        old(fs.disk.history), fs.disk.history)
    ensures !ok ==> fs.disk.image == old(fs.disk.image)
    ensures ok ==>
      WritesFile(fs.lay, old(fs.disk.image), fs.disk.image, Resolve(fs.lay, old(fs.disk.image), file), data)
    ensures ok ==>
      FileWritten(fs.lay, old(fs.disk.image), fs.disk.image, fs.live, Resolve(fs.lay, fs.disk.image, file), data)
  {
    hide Sound, Counted, FileWritten, BlocksTaken, Raw, Resolve, IsDir, PathsKept, SparesSince, PathsKeptSince;
    hide CrashSafe, DescribesGroup, Layout.Ok, U16, U32, WritesFile;
    ghost var im, live, owner, was := fs.disk.image, fs.live, fs.owner, fs.disk.history;
    NothingDone(fs.lay, im, live, owner);
    ok := false;
    var f := ResolvePath(fs, file);
    NothingWritten(fs.lay, im, live, owner, f, was);
    if f != 0 && |data| <= fs.blockSize {
      var raw := fs.ReadInode(f);
      if !IsDir(raw) {
        ok := fs.WriteFile(f, data);
        SparingKeepsPathsSince(fs.lay, im, live, owner, f, was, fs.disk.history);
        if ok {
          FileWrittenKept(fs.lay, im, fs.disk.image, live, owner, f, data);
          PathKept(fs.lay, im, fs.disk.image, file);
        }
      }
    }
  }

  lemma NothingDone(lay: Layout, im: Image, live: set<nat>, owner: Owner)
    requires Sound(lay, im, live, owner)
    ensures PathsKept(lay, im, im)
  {
    hide Resolve, InodeSound, SpareSound, Raw;
  }

  lemma NothingWritten(lay: Layout, im: Image, live: set<nat>, owner: Owner, x: nat, was: seq<Image>)
    requires Sound(lay, im, live, owner)
    ensures SparesSince(lay, im, live, x, was, was) && SparesUntil(lay, im, live, x, was, was)
    ensures PathsKeptSince(lay, im, was, was)
  {
  }

  /** A path with a last component that leads nowhere, in a directory that there is. */
  lemma NameAbsent(lay: Layout, im: Image, live: set<nat>, owner: Owner, dir: seq<Name>, name: Name)
    requires Sound(lay, im, live, owner) && Resolve(lay, im, dir) != 0 && lay.IsInode(Resolve(lay, im, dir))
    requires IsDir(Raw(lay, im, Resolve(lay, im, dir))) && Resolve(lay, im, dir + [name]) == 0
    ensures Absent(lay, im, Resolve(lay, im, dir), name)
  {
    hide InodeSound, SpareSound, Raw, IsDir, EntriesOf, Readable, Find, Resolve;
    ResolvedIsLive(lay, im, live, owner, dir);
    LiveInRange(lay, im, live, owner, Resolve(lay, im, dir));
    ResolveMore(lay, im, dir, name);
  }

  lemma StillAbsent(lay: Layout, im: Image, im': Image, dir: nat, name: Name)
    requires Absent(lay, im, dir, name) && SameContents(lay, im, im', dir)
    ensures Absent(lay, im', dir, name)
  {
    hide Raw, IsDir, EntriesOf, Readable, Find, Ptr;
    SameEntries(lay, im, im', dir);
  }

  /** The path to a name that the directory does not have leads nowhere. */
  lemma AbsentUnresolved(lay: Layout, im: Image, made: Image, dir: seq<Name>, name: Name)
    requires PathsKept(lay, im, made) && Resolve(lay, im, dir) != 0 && Absent(lay, made, Resolve(lay, im, dir), name)
    ensures Resolve(lay, made, dir + [name]) == 0
  {
    hide Raw, IsDir, EntriesOf, Readable, Find, Resolve;
    ResolveMore(lay, made, dir, name);
  }

  lemma NewDirectoryIsDir(lay: Layout, im: Image, made: Image, im': Image, live: set<nat>, live': set<nat>,
                          parent: nat, ino: nat, e: Dirent)
    requires DirectoryMade(lay, im, made, live, parent, ino) && EntryAdded(lay, made, im', live', parent, e)
    requires ino in live'
    ensures lay.IsInode(ino) && Shaped(lay, im') && IsDir(Raw(lay, im', ino))
  {
    hide Raw, NewInode, EmptyDirectory, AddsEntry, Ptr;
    assert lay.blockSize < 0x1_0000_0000;
    NewInodeFields(DIR_MODE, 2, lay.blockSize, Ptr(Raw(lay, made, ino), 0));
  }

  /** What an operation does to the volume, and what it returns. */
  ghost predicate Does(lay: Layout, im: Image, op: Op, ok: bool, im': Image) {
    && Shaped(lay, im) && Shaped(lay, im')
    && (!ok || Fresh(lay, im, op) ==> PathsKept(lay, im, im'))
    && match op
       case CreateFile(dir, name) =>
         && (ok <==> CanCreate(lay, im, dir, name)) && Created(lay, im, im', dir, name, ok)
         && (ok && Fresh(lay, im, op) ==>
             var ino := Resolve(lay, im', dir + [name]);
             lay.IsInode(ino) && Raw(lay, im', ino) == NewInode(FILE_MODE, 1, 0, 0))
       case MakeDirectory(dir, name) =>
         && (ok <==> CanMakeDirectory(lay, im, dir, name)) && Made(lay, im, im', dir, name, ok)
         && (ok && Fresh(lay, im, op) ==>
             var ino := Resolve(lay, im', dir + [name]);
             if HasRoom(lay, im, Resolve(lay, im, dir), name)
             then ino != 0 && lay.IsInode(ino) && IsDir(Raw(lay, im', ino)) else ino == 0)
       case WriteFile(file, data) =>
         && (ok <==> CanWrite(lay, im, file, data))
         && if ok then
              && WritesFile(lay, im, im', Resolve(lay, im, file), data)
              && FileWritten(lay, im, im', {}, Resolve(lay, im', file), data)
            else
              im' == im
  }

  lemma WrittenAlone(lay: Layout, im: Image, im': Image, live: set<nat>, ino: nat, data: seq<byte>)
    requires FileWritten(lay, im, im', live, ino, data)
    ensures FileWritten(lay, im, im', {}, ino, data)
  {
    hide Raw, FileInode, FileBlock, Zeros, Layout.Ok;
  }

  /** One operation; one that creates nothing over an existing name leaves every path its meaning. */
  method Perform(fs: Ext2, op: Op) returns (ok: bool)
    requires fs.Valid()
    modifies fs, fs.disk
    ensures fs.Valid() && old(fs.disk.history) <= fs.disk.history
    ensures Does(fs.lay, old(fs.disk.image), op, ok, fs.disk.image)
    ensures !ok || Fresh(fs.lay, old(fs.disk.image), op) ==>
      PathsKeptSince(fs.lay, old(fs.disk.image), old(fs.disk.history), fs.disk.history)
  {
    hide Sound, Counted, FileWritten, Raw, HasRoom, Resolve, NewInode, PathsKept, PathsKeptSince, SparesUntil, SparesSince;
    hide CanCreate, CanMakeDirectory, CanWrite, CrashSafe, DescribesGroup, Layout.Ok, IsDir, Created, Made, WritesFile;
    ghost var im := fs.disk.image;
    match op {
      case CreateFile(dir, name) => ok := PerformCreate(fs, dir, name);
      case MakeDirectory(dir, name) => ok := PerformMakeDirectory(fs, dir, name);
      case WriteFile(file, data) =>
        ok := PerformWrite(fs, file, data);
        if ok {
          WrittenAlone(fs.lay, im, fs.disk.image, fs.live, Resolve(fs.lay, fs.disk.image, file), data);
        }
    }
  }

  /** The volume before each operation of a run, and after the last. */
  ghost predicate IsRunOf(lay: Layout, states: seq<Image>, ops: seq<Op>, oks: seq<bool>) {
    && |states| == |ops| + 1 && |oks| == |ops|
    && (forall i :: 0 <= i < |states| ==> Shaped(lay, states[i]))
    && forall i :: 0 <= i < |ops| ==> Does(lay, states[i], ops[i], oks[i], states[i + 1])
  }

  /** No operation creates a name that is taken. */
  ghost predicate AllFresh(lay: Layout, states: seq<Image>, ops: seq<Op>)
    requires |states| == |ops| + 1 && forall i :: 0 <= i < |states| ==> Shaped(lay, states[i])
  {
    forall i :: 0 <= i < |ops| ==> Fresh(lay, states[i], ops[i])
  }

  lemma FreshBefore(lay: Layout, states: seq<Image>, ops: seq<Op>, oks: seq<bool>, i: nat, im: Image, ok: bool)
    requires i < |ops| && IsRunOf(lay, states, ops[..i], oks) && IsRunOf(lay, states + [im], ops[..i + 1], oks + [ok])
    ensures AllFresh(lay, states + [im], ops[..i + 1]) ==>
      AllFresh(lay, states, ops[..i]) && Fresh(lay, states[i], ops[i])
  {
    hide Fresh, Does, Shaped;
    if AllFresh(lay, states + [im], ops[..i + 1]) {
      forall j | 0 <= j < i ensures Fresh(lay, states[j], ops[..i][j]) {
        assert Fresh(lay, (states + [im])[j], ops[..i + 1][j]);
      }
      assert Fresh(lay, (states + [im])[i], ops[..i + 1][i]);
    }
  }

  lemma {:induction false} RunKeepsPaths(lay: Layout, states: seq<Image>, ops: seq<Op>, oks: seq<bool>)
    requires IsRunOf(lay, states, ops, oks) && AllFresh(lay, states, ops)
    ensures PathsKept(lay, states[0], states[|ops|])
  {
    hide Fresh, Resolve, Shaped, CanCreate, CanMakeDirectory, CanWrite, HasRoom, FileWritten, NewInode, IsDir, Raw;
    if |ops| == 0 {
      assert PathsKept(lay, states[0], states[0]);
    } else {
      var n := |ops| - 1;
      assert Fresh(lay, states[n], ops[n]) && Does(lay, states[n], ops[n], oks[n], states[n + 1]);
      RunKeepsPaths(lay, states[..n + 1], ops[..n], oks[..n]);
      PathsKeptTrans(lay, states[0], states[n], states[n + 1]);
    }
  }

  lemma RunMore(lay: Layout, states: seq<Image>, ops: seq<Op>, oks: seq<bool>, op: Op, ok: bool, im: Image)
    requires IsRunOf(lay, states, ops, oks) && Shaped(lay, im) && Does(lay, states[|ops|], op, ok, im)
    ensures IsRunOf(lay, states + [im], ops + [op], oks + [ok])
  {
    hide Does, Shaped;
    var s, o, k := states + [im], ops + [op], oks + [ok];
    forall i | 0 <= i < |o| ensures Does(lay, s[i], o[i], k[i], s[i + 1]) {
    }
  }

  lemma DoesShaped(lay: Layout, im: Image, op: Op, ok: bool, im': Image)
    requires Does(lay, im, op, ok, im')
    ensures Shaped(lay, im) && Shaped(lay, im') && (Fresh(lay, im, op) ==> PathsKept(lay, im, im'))
  {
  }

  /**
    Any sequence of operations keeps the volume sound between them, and leaves it crash-safe after every
    single block write: nothing that a path of the surviving volume leads to dangles. If no operation
    creates a name that is taken, every path that led to an inode leads to it still, at the end and on
    every volume that a crash on the way could leave.
   */
  method Run(fs: Ext2, ops: seq<Op>) returns (oks: seq<bool>, ghost states: seq<Image>)
    requires fs.Valid()
    modifies fs, fs.disk
    ensures fs.Valid() && old(fs.disk.history) <= fs.disk.history
    ensures Counted(fs.lay, fs.disk.image)
    ensures forall h :: h in fs.disk.history ==> CrashSafe(fs.lay, h)
    ensures IsRunOf(fs.lay, states, ops, oks) && states[0] == old(fs.disk.image) && states[|ops|] == fs.disk.image
    ensures AllFresh(fs.lay, states, ops) ==>
      && PathsKept(fs.lay, old(fs.disk.image), fs.disk.image)
      && PathsKeptSince(fs.lay, old(fs.disk.image), old(fs.disk.history), fs.disk.history)
  {
    hide Sound, Counted, Resolve, PathsKept, PathsKeptSince, Fresh, Does;
    ghost var im, was := fs.disk.image, fs.disk.history;
    NothingDone(fs.lay, im, fs.live, fs.owner);
    NothingWritten(fs.lay, im, fs.live, fs.owner, 0, was);
    oks, states := [], [fs.disk.image];
    for i := 0 to |ops|
      invariant fs.Valid() && old(fs.disk.history) <= fs.disk.history
      invariant IsRunOf(fs.lay, states, ops[..i], oks) && states[0] == im && states[i] == fs.disk.image
      invariant AllFresh(fs.lay, states, ops[..i]) ==>
        PathsKept(fs.lay, im, fs.disk.image) && PathsKeptSince(fs.lay, im, was, fs.disk.history)
    {
      ghost var before, mid := fs.disk.image, fs.disk.history;
      var ok := Perform(fs, ops[i]);
      DoesShaped(fs.lay, before, ops[i], ok, fs.disk.image);
      if AllFresh(fs.lay, states, ops[..i]) && Fresh(fs.lay, before, ops[i]) {
        PathsKeptThrough(fs.lay, im, before, was, mid, fs.disk.history);
        PathsKeptTrans(fs.lay, im, before, fs.disk.image);
      }
      RunMore(fs.lay, states, ops[..i], oks, ops[i], ok, fs.disk.image);
      assert ops[..i + 1] == ops[..i] + [ops[i]];
      FreshBefore(fs.lay, states, ops, oks, i, fs.disk.image, ok);
      oks, states := oks + [ok], states + [fs.disk.image];
    }
    assert ops[..|ops|] == ops;
  }
}
