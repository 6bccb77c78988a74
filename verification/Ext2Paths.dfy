/** What the operations do to whole paths: old ones keep their meaning, and the new one is found. */
module Ext2Paths {
  import opened Arith
  import opened Bytes
  import opened Dirent
  import opened Ext2Layout
  import opened Ext2Image
  import opened Ext2Invariant
  import opened Ext2Contents
  import opened Ext2Steps
  import opened Ext2Theorems

  /** Every path that leads somewhere leads to the same inode. */
  ghost predicate PathsKept(lay: Layout, im: Image, im': Image) {
    && Shaped(lay, im) && Shaped(lay, im')
    && forall p :: Resolve(lay, im, p) != 0 ==> Resolve(lay, im', p) == Resolve(lay, im, p)
  }

  lemma PathKept(lay: Layout, im: Image, im': Image, p: seq<Name>)
    requires PathsKept(lay, im, im') && Resolve(lay, im, p) != 0
    ensures Resolve(lay, im', p) == Resolve(lay, im, p)
  {
    hide Resolve;
  }

  lemma PathsKeptTrans(lay: Layout, im: Image, im': Image, im'': Image)
    requires PathsKept(lay, im, im') && PathsKept(lay, im', im'')
    ensures PathsKept(lay, im, im'')
  {
    hide Resolve;
    forall p | Resolve(lay, im, p) != 0 ensures Resolve(lay, im'', p) == Resolve(lay, im, p) {
      assert Resolve(lay, im', p) == Resolve(lay, im, p);
    }
  }

  /** The directory still is one, and finds what it found. */
  ghost predicate LookupsKept(lay: Layout, im: Image, im': Image, i: nat)
    requires Shaped(lay, im) && Shaped(lay, im')
  {
    lay.IsInode(i) && IsDir(Raw(lay, im, i)) && Readable(lay, im, Raw(lay, im, i)) ==>
      && Raw(lay, im', i) == Raw(lay, im, i) && Readable(lay, im', Raw(lay, im, i))
      && forall n :: Find(EntriesOf(lay, im, Raw(lay, im, i)), n) != 0 ==>
           Find(EntriesOf(lay, im', Raw(lay, im, i)), n) == Find(EntriesOf(lay, im, Raw(lay, im, i)), n)
  }

  ghost predicate AllLookupsKept(lay: Layout, im: Image, im': Image, live: set<nat>) {
    Shaped(lay, im) && Shaped(lay, im') && forall i :: i in live ==> LookupsKept(lay, im, im', i)
  }

  lemma {:induction false} ResolveKept(lay: Layout, im: Image, im': Image, live: set<nat>, owner: Owner, path: seq<Name>)
    requires Sound(lay, im, live, owner) && AllLookupsKept(lay, im, im', live)
    requires Resolve(lay, im, path) != 0
    ensures Resolve(lay, im', path) == Resolve(lay, im, path)
  {
    hide U32, U16, Raw, InodeSound, SpareSound, DescribesGroup, EntriesOf, Readable, Find, Layout.Ok;
    if path != [] {
      var dir := Resolve(lay, im, path[..|path| - 1]);
      assert dir != 0 by { NoInodeZero(lay, im, path); }
      ResolveKept(lay, im, im', live, owner, path[..|path| - 1]);
      ResolvedIsLive(lay, im, live, owner, path[..|path| - 1]);
      assert LookupsKept(lay, im, im', dir);
    }
  }

  lemma NoInodeZero(lay: Layout, im: Image, path: seq<Name>)
    requires Shaped(lay, im) && path != [] && Resolve(lay, im, path) != 0
    ensures Resolve(lay, im, path[..|path| - 1]) != 0
  {
    hide Raw, EntriesOf, Readable, Find;
  }

  lemma AllKept(lay: Layout, im: Image, im': Image, live: set<nat>, owner: Owner)
    requires Sound(lay, im, live, owner) && AllLookupsKept(lay, im, im', live)
    ensures PathsKept(lay, im, im')
  {
    hide Sound, Resolve, LookupsKept, Shaped;
    forall p | Resolve(lay, im, p) != 0 ensures Resolve(lay, im', p) == Resolve(lay, im, p) {
      ResolveKept(lay, im, im', live, owner, p);
    }
  }

  lemma {:induction false} SameBlocksSameEntries(lay: Layout, im: Image, im': Image, raw: seq<byte>, n: nat)
    requires Shaped(lay, im) && Shaped(lay, im') && |raw| == INODE_BYTES && InRange(lay, raw) && n <= DIRECT_BLOCKS
    requires forall k :: 0 <= k < n ==> WellFormed(im[Ptr(raw, k)], 0) && im'[Ptr(raw, k)] == im[Ptr(raw, k)]
    ensures DirEntries(lay, im', raw, n) == DirEntries(lay, im, raw, n)
  {
    hide U32, Ptr, WellFormed, Entries;
    if n != 0 {
      SameBlocksSameEntries(lay, im, im', raw, n - 1);
    }
  }

  lemma SameEntries(lay: Layout, im: Image, im': Image, i: nat)
    requires SameContents(lay, im, im', i) && Readable(lay, im, Raw(lay, im, i))
    ensures Readable(lay, im', Raw(lay, im, i))
    ensures EntriesOf(lay, im', Raw(lay, im, i)) == EntriesOf(lay, im, Raw(lay, im, i))
  {
    hide U32, U16, Ptr, Raw, WellFormed, Entries, DirLen;
    SameBlocksSameEntries(lay, im, im', Raw(lay, im, i), DirLen(lay, Raw(lay, im, i)));
  }

  /** A directory whose inode and blocks are as before finds what it found. */
  lemma SameContentsKept(lay: Layout, im: Image, im': Image, i: nat)
    requires SameContents(lay, im, im', i)
    ensures LookupsKept(lay, im, im', i)
  {
    hide U32, U16, Ptr, Raw, EntriesOf, Readable, Find;
    if IsDir(Raw(lay, im, i)) && Readable(lay, im, Raw(lay, im, i)) {
      SameEntries(lay, im, im', i);
    }
  }

  /** An operation that changes nothing live. */
  lemma NothingKept(lay: Layout, im: Image, im': Image, live: set<nat>, owner: Owner)
    requires Sound(lay, im, live, owner) && NothingChanged(lay, im, im', live)
    ensures PathsKept(lay, im, im')
  {
    hide U32, U16, Ptr, Raw, InodeSound, SpareSound, DescribesGroup, SameContents, LookupsKept;
    forall i | i in live ensures LookupsKept(lay, im, im', i) {
      LiveUntouched(lay, im, im', live, owner, i);
      SameContentsKept(lay, im, im', i);
    }
    AllKept(lay, im, im', live, owner);
  }

  lemma LiveUntouched(lay: Layout, im: Image, im': Image, live: set<nat>, owner: Owner, i: nat)
    requires Sound(lay, im, live, owner) && NothingChanged(lay, im, im', live) && i in live
    ensures SameContents(lay, im, im', i)
  {
    hide U32, U16, Ptr, Raw, InodeUsed, BlockUsed, DescribesGroup, SpareSound, DirSound, PointerSound;
    assert InodeSound(lay, im, live, owner, i);
    forall k | 0 <= k < 15 && Ptr(Raw(lay, im, i), k) != 0 && Ptr(Raw(lay, im, i), k) < |im|
      ensures im'[Ptr(Raw(lay, im, i), k)] == im[Ptr(Raw(lay, im, i), k)]
    {
      PointerOwned(lay, im, live, owner, i, k);
    }
  }

  /** Writing a file moves no path. */
  lemma FileWrittenKept(lay: Layout, im: Image, im': Image, live: set<nat>, owner: Owner, ino: nat, data: seq<byte>)
    requires Sound(lay, im, live, owner) && FileWritten(lay, im, im', live, ino, data)
    requires ino in live && lay.IsInode(ino) && !IsDir(Raw(lay, im, ino))
    ensures PathsKept(lay, im, im')
  {
    hide U32, U16, Ptr, Raw, InodeSound, SpareSound, DescribesGroup, SameContents, LookupsKept, FileWritten;
    assert Shaped(lay, im') by { WrittenShaped(lay, im, im', live, ino, data); }
    forall i | i in live ensures LookupsKept(lay, im, im', i) {
      if i == ino {
        NoLookups(lay, im, im', i);
      } else {
        LiveIsInode(lay, im, live, owner, i);
        OtherFilesKeepContents(lay, im, im', live, owner, ino, data, i);
        SameContentsKept(lay, im, im', i);
      }
    }
    AllKept(lay, im, im', live, owner);
  }

  lemma WrittenShaped(lay: Layout, im: Image, im': Image, live: set<nat>, ino: nat, data: seq<byte>)
    requires FileWritten(lay, im, im', live, ino, data)
    ensures Shaped(lay, im) && Shaped(lay, im')
  {
  }

  lemma NoLookups(lay: Layout, im: Image, im': Image, i: nat)
    requires Shaped(lay, im) && Shaped(lay, im') && lay.IsInode(i) && !IsDir(Raw(lay, im, i))
    ensures LookupsKept(lay, im, im', i)
  {
    hide Raw, IsDir, EntriesOf, Readable, Find;
  }

  /** Making a directory, before it is entered anywhere, moves no path. */
  lemma DirectoryMadeKept(lay: Layout, im: Image, im': Image, live: set<nat>, owner: Owner, parent: nat, ino: nat)
    requires Sound(lay, im, live, owner) && DirectoryMade(lay, im, im', live, parent, ino)
    ensures PathsKept(lay, im, im') && forall i :: i in live ==> SameContents(lay, im, im', i)
  {
    hide U32, U16, Ptr, Raw, InodeSound, SpareSound, DescribesGroup, SameContents, LookupsKept, DirectoryMade;
    assert Shaped(lay, im') by { MadeShaped(lay, im, im', live, parent, ino); }
    forall i | i in live ensures LookupsKept(lay, im, im', i) && SameContents(lay, im, im', i) {
      MadeElsewhere(lay, im, im', live, owner, parent, ino, i);
      SameContentsKept(lay, im, im', i);
    }
    AllKept(lay, im, im', live, owner);
  }

  lemma MadeShaped(lay: Layout, im: Image, im': Image, live: set<nat>, parent: nat, ino: nat)
    requires DirectoryMade(lay, im, im', live, parent, ino)
    ensures Shaped(lay, im) && Shaped(lay, im')
  {
  }

  lemma MadeElsewhere(lay: Layout, im: Image, im': Image, live: set<nat>, owner: Owner, parent: nat, ino: nat, i: nat)
    requires Sound(lay, im, live, owner) && DirectoryMade(lay, im, im', live, parent, ino) && i in live
    ensures SameContents(lay, im, im', i)
  {
    hide U32, U16, Ptr, Raw, InodeUsed, BlockUsed, DescribesGroup, SpareSound, DirSound, PointerSound, NewInode, EmptyDirectory;
    assert InodeSound(lay, im, live, owner, i);
    forall k | 0 <= k < 15 && Ptr(Raw(lay, im, i), k) != 0 && Ptr(Raw(lay, im, i), k) < |im|
      ensures im'[Ptr(Raw(lay, im, i), k)] == im[Ptr(Raw(lay, im, i), k)]
    {
      PointerOwned(lay, im, live, owner, i, k);
    }
  }

  /** The directory has no entry of that name. */
  ghost predicate Absent(lay: Layout, im: Image, dir: nat, name: Name) {
    && Shaped(lay, im) && lay.IsInode(dir) && IsDir(Raw(lay, im, dir)) && Readable(lay, im, Raw(lay, im, dir))
    && Find(EntriesOf(lay, im, Raw(lay, im, dir)), name) == 0
  }

  /** A new entry whose name was absent moves no path, and every path to the directory now goes on to the entry. */
  lemma EntryAddedKept(lay: Layout, im: Image, im': Image, live: set<nat>, owner: Owner, live': set<nat>, owner': Owner,
                       dir: nat, e: Dirent)
    requires Sound(lay, im, live, owner) && Sound(lay, im', live', owner') && live <= live'
    requires dir in live && EntryAdded(lay, im, im', live, dir, e) && Absent(lay, im, dir, e.name)
    requires e.inode != 0 && |e.name| > 0
    ensures PathsKept(lay, im, im')
    ensures forall p :: Resolve(lay, im, p) == dir ==> Resolve(lay, im', p + [e.name]) == e.inode
  {
    hide U32, U16, Ptr, Raw, InodeSound, SpareSound, DescribesGroup, SameContents, LookupsKept, EntryAdded, EntriesOf, Readable, Find;
    hide Layout.Ok, Resolve;
    EntryFound(lay, im, im', live, owner, live', owner', dir, e);
    assert LookupsKept(lay, im, im', dir) by { FoundKept(lay, im, im', dir, e.name); }
    assert Ptr(Raw(lay, im, dir), 0) != 0 by { FirstDirBlock(lay, im, live, owner, dir); }
    forall i | i in live ensures LookupsKept(lay, im, im', i) {
      if i != dir {
        LiveIsInode(lay, im, live, owner, i);
        OthersKeepContents(lay, im, im', live, owner, dir, e, i);
        SameContentsKept(lay, im, im', i);
      }
    }
    AllKept(lay, im, im', live, owner);
    forall p | Resolve(lay, im, p) == dir ensures Resolve(lay, im', p + [e.name]) == e.inode {
      LiveIsInode(lay, im, live, owner, dir);
      ResolveMore(lay, im', p, e.name);
    }
  }

  lemma ResolveMore(lay: Layout, im: Image, p: seq<Name>, name: Name)
    requires Shaped(lay, im) && lay.IsInode(Resolve(lay, im, p))
    requires IsDir(Raw(lay, im, Resolve(lay, im, p))) && Readable(lay, im, Raw(lay, im, Resolve(lay, im, p)))
    ensures Resolve(lay, im, p + [name]) == Find(EntriesOf(lay, im, Raw(lay, im, Resolve(lay, im, p))), name)
  {
    hide Raw, IsDir, EntriesOf, Readable, Find;
    assert (p + [name])[..|p|] == p;
  }

  lemma FoundKept(lay: Layout, im: Image, im': Image, dir: nat, name: Name)
    requires Absent(lay, im, dir, name) && Shaped(lay, im') && Raw(lay, im', dir) == Raw(lay, im, dir)
    requires Readable(lay, im', Raw(lay, im, dir))
    requires forall n :: n != name ==>
      Find(EntriesOf(lay, im', Raw(lay, im, dir)), n) == Find(EntriesOf(lay, im, Raw(lay, im, dir)), n)
    ensures LookupsKept(lay, im, im', dir)
  {
    hide Raw, IsDir, EntriesOf, Readable, Find;
  }
}
