/** What reading an inode yields: the bytes of a file, the entries of a directory. */
module Ext2Contents {
  import opened Arith
  import opened Bytes
  import opened Dirent
  import opened Ext2Layout
  import opened Ext2Image
  import opened Ext2Invariant

  /** Byte `p` of the inode lies in a direct block that is present. */
  predicate Backed(lay: Layout, raw: seq<byte>, p: nat)
    requires |raw| == INODE_BYTES && lay.blockSize > 0
  {
    Fits(p, lay.blockSize) < DIRECT_BLOCKS && Ptr(raw, Fits(p, lay.blockSize)) != 0
  }

  /** All direct pointers name blocks of the volume. */
  predicate InRange(lay: Layout, raw: seq<byte>)
    requires |raw| == INODE_BYTES
  {
    forall k :: 0 <= k < DIRECT_BLOCKS ==> Ptr(raw, k) < |lay.roles|
  }

  function ByteAt(lay: Layout, im: Image, raw: seq<byte>, p: nat): byte
    requires Shaped(lay, im) && |raw| == INODE_BYTES && InRange(lay, raw) && Backed(lay, raw, p)
  {
    im[Ptr(raw, Fits(p, lay.blockSize))][Remainder(p, lay.blockSize)]
  }

  /** Byte `p` of the inode is present, and is `b`. */
  predicate HasByte(lay: Layout, im: Image, raw: seq<byte>, p: nat, b: byte)
    requires Shaped(lay, im) && |raw| == INODE_BYTES && InRange(lay, raw)
  {
    Backed(lay, raw, p) && b == ByteAt(lay, im, raw, p)
  }

  /** Where a read of `size` bytes at `offset` must stop at the latest; the sum is one of 64-bit words. */
  function ReadLimit(raw: seq<byte>, offset: word, size: word): nat
    requires |raw| == INODE_BYTES
  {
    if Sum64(offset, size) > Size(raw) then Size(raw) else Sum64(offset, size)
  }

  /** `r` is the longest run of present bytes from `offset` on, up to the limit. */
  ghost predicate IsRead(lay: Layout, im: Image, raw: seq<byte>, offset: word, size: word, r: seq<byte>)
    requires Shaped(lay, im) && |raw| == INODE_BYTES && InRange(lay, raw)
  {
    && (r == [] || offset + |r| <= ReadLimit(raw, offset, size))
    && (forall i :: 0 <= i < |r| ==> HasByte(lay, im, raw, offset + i, r[i]))
    && (offset + |r| >= ReadLimit(raw, offset, size) || !Backed(lay, raw, offset + |r|))
  }

  lemma ReadByte(lay: Layout, im: Image, raw: seq<byte>, offset: word, size: word, r: seq<byte>, i: nat)
    requires Shaped(lay, im) && |raw| == INODE_BYTES && InRange(lay, raw)
    requires IsRead(lay, im, raw, offset, size, r) && i < |r|
    ensures HasByte(lay, im, raw, offset + i, r[i]) && offset + i < ReadLimit(raw, offset, size)
  {
  }

  lemma ReadNotShorter(lay: Layout, im: Image, raw: seq<byte>, offset: word, size: word, r: seq<byte>, s: seq<byte>)
    requires Shaped(lay, im) && |raw| == INODE_BYTES && InRange(lay, raw)
    requires IsRead(lay, im, raw, offset, size, r) && IsRead(lay, im, raw, offset, size, s)
    ensures |s| <= |r|
  {
    hide Backed, ByteAt, U32, InRange;
    if |r| < |s| {
      ReadByte(lay, im, raw, offset, size, s, |r|);
    }
  }

  lemma ReadIsUnique(lay: Layout, im: Image, raw: seq<byte>, offset: word, size: word, r: seq<byte>, s: seq<byte>)
    requires Shaped(lay, im) && |raw| == INODE_BYTES && InRange(lay, raw)
    requires IsRead(lay, im, raw, offset, size, r) && IsRead(lay, im, raw, offset, size, s)
    ensures r == s
  {
    hide Backed, ByteAt, U32, InRange;
    ReadNotShorter(lay, im, raw, offset, size, r, s);
    ReadNotShorter(lay, im, raw, offset, size, s, r);
    forall i | 0 <= i < |r| ensures r[i] == s[i] {
      ReadByte(lay, im, raw, offset, size, r, i);
      ReadByte(lay, im, raw, offset, size, s, i);
    }
  }

  // Files of at most one block.

  /** The first block of the inode holds `data` and then zeros, and the size says where `data` ends. */
  ghost predicate Holds(lay: Layout, im: Image, raw: seq<byte>, data: seq<byte>)
    requires Shaped(lay, im) && |raw| == INODE_BYTES && InRange(lay, raw)
  {
    && |data| <= lay.blockSize && Size(raw) == |data| && Ptr(raw, 0) != 0
    && im[Ptr(raw, 0)] == data + Zeros(lay.blockSize - |data|)
  }

  function Slice(data: seq<byte>, offset: nat, size: nat): seq<byte> {
    if offset >= |data| then []
    else if offset + size > |data| then data[offset..]
    else data[offset..offset + size]
  }

  /**
    Reading such a file yields exactly that slice of what was written, unless the 64-bit sum of offset and
    size wraps around inside the file: then it yields nothing.
   */
  lemma ReadBack(lay: Layout, im: Image, raw: seq<byte>, data: seq<byte>, offset: word, size: word, r: seq<byte>)
    requires Shaped(lay, im) && |raw| == INODE_BYTES && InRange(lay, raw)
    requires Holds(lay, im, raw, data) && IsRead(lay, im, raw, offset, size, r)
    ensures r == Slice(data, offset, size) <==> offset + size < WORD_LIMIT || offset >= |data|
    ensures offset + size >= WORD_LIMIT ==> r == []
  {
    hide U32, Ptr, Size, Fits, Remainder, InRange, Sum64;
    var s := if offset + size < WORD_LIMIT then Slice(data, offset, size) else [];
    forall i | 0 <= i < |s|
      ensures HasByte(lay, im, raw, offset + i, s[i])
    {
      FitsSmall(offset + i, lay.blockSize);
    }
    ReadIsUnique(lay, im, raw, offset, size, r, s);
  }

  /** The failing read: from the second byte of a file to the end of the address space yields nothing. */
  lemma ReadWrapsAround(lay: Layout, im: Image, raw: seq<byte>, data: seq<byte>, r: seq<byte>)
    requires Shaped(lay, im) && |raw| == INODE_BYTES && InRange(lay, raw)
    requires Holds(lay, im, raw, data) && |data| >= 2 && IsRead(lay, im, raw, 1, WORD_LIMIT - 1, r)
    ensures r == [] && Slice(data, 1, WORD_LIMIT - 1) == data[1..] != []
  {
    hide IsRead, InRange, Sum64, U32, Layout.GroupOk;
    ReadBack(lay, im, raw, data, 1, WORD_LIMIT - 1, r);
    assert data[1..][0] == data[1];
  }

  // Directories.

  /** The first `n` blocks, one after the other. */
  function DirData(lay: Layout, im: Image, raw: seq<byte>, n: nat): (r: seq<byte>)
    requires Shaped(lay, im) && |raw| == INODE_BYTES && InRange(lay, raw) && n <= DIRECT_BLOCKS
    ensures |r| == n * lay.blockSize
  {
    if n == 0 then [] else
      MulSplit(n, 1, lay.blockSize);
      DirData(lay, im, raw, n - 1) + im[Ptr(raw, n - 1)]
  }

  /** The entries of the first `n` blocks. */
  function DirEntries(lay: Layout, im: Image, raw: seq<byte>, n: nat): seq<Dirent>
    requires Shaped(lay, im) && |raw| == INODE_BYTES && InRange(lay, raw) && n <= DIRECT_BLOCKS
    requires forall k :: 0 <= k < n ==> WellFormed(im[Ptr(raw, k)], 0)
  {
    if n == 0 then [] else DirEntries(lay, im, raw, n - 1) + Entries(im[Ptr(raw, n - 1)], 0)
  }

  lemma {:induction false} DirDataAt(lay: Layout, im: Image, raw: seq<byte>, n: nat, p: nat)
    requires Shaped(lay, im) && |raw| == INODE_BYTES && InRange(lay, raw) && n <= DIRECT_BLOCKS
    requires p < n * lay.blockSize && forall k :: 0 <= k < n ==> Ptr(raw, k) != 0
    ensures HasByte(lay, im, raw, p, DirData(lay, im, raw, n)[p])
  {
    hide U32, Ptr, Fits, Remainder, InRange;
    MulSplit(n, 1, lay.blockSize);
    if p < (n - 1) * lay.blockSize {
      DirDataAt(lay, im, raw, n - 1, p);
    } else {
      FitsUnique(p, lay.blockSize, n - 1, p - (n - 1) * lay.blockSize);
    }
  }

  /** Scanning the blocks as one buffer finds the entries of all of them. */
  lemma {:induction false} DirDataEntries(lay: Layout, im: Image, raw: seq<byte>, n: nat)
    requires Shaped(lay, im) && |raw| == INODE_BYTES && InRange(lay, raw) && n <= DIRECT_BLOCKS
    requires forall k :: 0 <= k < n ==> WellFormed(im[Ptr(raw, k)], 0)
    ensures WellFormed(DirData(lay, im, raw, n), 0)
    ensures Entries(DirData(lay, im, raw, n), 0) == DirEntries(lay, im, raw, n)
  {
    hide U32, Ptr, Record, RecLen, RecordOk;
    if n != 0 {
      DirDataEntries(lay, im, raw, n - 1);
      Concat(DirData(lay, im, raw, n - 1), im[Ptr(raw, n - 1)], 0);
    }
  }

  /**
    Reading a file of up to twelve blocks, all there, yields that slice of its blocks one after the other, up to its
    size, exactly when the sum of offset and size does not wrap around or the offset is behind the end.
   */
  lemma ReadBlocks(lay: Layout, im: Image, raw: seq<byte>, n: nat, offset: word, size: word, r: seq<byte>)
    requires Shaped(lay, im) && |raw| == INODE_BYTES && InRange(lay, raw)
    requires n <= 12 && Size(raw) <= n * lay.blockSize && forall k :: 0 <= k < n ==> Ptr(raw, k) != 0
    requires IsRead(lay, im, raw, offset, size, r)
    ensures
      var data := DirData(lay, im, raw, n)[..Size(raw)];
      && (r == Slice(data, offset, size) <==> offset + size < WORD_LIMIT || offset >= |data|)
      && (offset + size >= WORD_LIMIT ==> r == [])
  {
    hide U32, Ptr, Size, Fits, Remainder, InRange, Sum64, DirData;
    var data := DirData(lay, im, raw, n)[..Size(raw)];
    var s := if offset + size < WORD_LIMIT then Slice(data, offset, size) else [];
    forall i | 0 <= i < |s|
      ensures HasByte(lay, im, raw, offset + i, s[i])
    {
      DirDataAt(lay, im, raw, n, offset + i);
    }
    ReadIsUnique(lay, im, raw, offset, size, r, s);
  }

  /** The entries of a directory of a sound volume, in the order of a listing. */
  function EntriesOf(lay: Layout, im: Image, raw: seq<byte>): seq<Dirent>
    requires Shaped(lay, im) && |raw| == INODE_BYTES && Readable(lay, im, raw)
  {
    DirEntries(lay, im, raw, DirLen(lay, raw))
  }

  /** A directory whose blocks are all there and well formed. */
  predicate Readable(lay: Layout, im: Image, raw: seq<byte>)
    requires Shaped(lay, im) && |raw| == INODE_BYTES
  {
    && InRange(lay, raw)
    && 1 <= DirLen(lay, raw) <= DIRECT_BLOCKS && Size(raw) == DirLen(lay, raw) * lay.blockSize
    && forall k :: 0 <= k < DirLen(lay, raw) ==> Ptr(raw, k) != 0 && WellFormed(im[Ptr(raw, k)], 0)
  }

  lemma ReadableSize(lay: Layout, im: Image, raw: seq<byte>)
    requires Shaped(lay, im) && |raw| == INODE_BYTES && Readable(lay, im, raw)
    ensures Size(raw) >= lay.blockSize
  {
    hide U32, WellFormed;
    MulLeq(1, DirLen(lay, raw), lay.blockSize);
  }

  lemma LiveInRange(lay: Layout, im: Image, live: set<nat>, owner: Owner, i: nat)
    requires Sound(lay, im, live, owner) && i in live && lay.IsInode(i)
    ensures InRange(lay, Raw(lay, im, i))
    ensures IsDir(Raw(lay, im, i)) ==> Readable(lay, im, Raw(lay, im, i))
  {
    hide Raw, InodeUsed, BlockUsed, DescribesGroup, U16, U32, WellFormed, Entries, DirLen;
    var raw := Raw(lay, im, i);
    assert InodeSound(lay, im, live, owner, i);
    forall k | 0 <= k < DIRECT_BLOCKS ensures Ptr(raw, k) < |lay.roles| {
      assert PointerSound(lay, im, owner, Ptr(raw, k), i, k);
    }
    if IsDir(raw) {
      forall k | 0 <= k < DirLen(lay, raw) ensures Ptr(raw, k) != 0 && WellFormed(im[Ptr(raw, k)], 0) {
        assert RecordsSound(im[Ptr(raw, k)], live);
      }
    }
  }

  lemma WholeRead(lay: Layout, im: Image, raw: seq<byte>, s: seq<byte>)
    requires Shaped(lay, im) && |raw| == INODE_BYTES && InRange(lay, raw) && |s| == Size(raw)
    requires forall p :: 0 <= p < |s| ==> HasByte(lay, im, raw, 0 + p, s[p])
    ensures IsRead(lay, im, raw, 0, Size(raw), s)
  {
    hide U32, HasByte, Backed;
  }

  /** A whole directory, read, is its blocks one after the other; scanned, its entries. */
  lemma DirectoryRead(lay: Layout, im: Image, raw: seq<byte>, r: seq<byte>)
    requires Shaped(lay, im) && |raw| == INODE_BYTES && Readable(lay, im, raw)
    requires IsRead(lay, im, raw, 0, Size(raw), r)
    ensures |r| == Size(raw) && WellFormed(r, 0) && Entries(r, 0) == EntriesOf(lay, im, raw)
  {
    hide U32, Ptr, WellFormed, Entries, HasByte, DirLen, DirEntries, IsRead, Layout.GroupOk;
    var n := DirLen(lay, raw);
    var s := DirData(lay, im, raw, n);
    forall p | 0 <= p < |s| ensures HasByte(lay, im, raw, 0 + p, s[p]) {
      DirDataAt(lay, im, raw, n, p);
    }
    WholeRead(lay, im, raw, s);
    ReadIsUnique(lay, im, raw, 0, Size(raw), r, s);
    DirDataEntries(lay, im, raw, n);
  }

  /** `fs` is `es` with `e` inserted somewhere. */
  ghost predicate AddedTo(es: seq<Dirent>, fs: seq<Dirent>, e: Dirent) {
    exists j :: 0 <= j <= |es| && fs == Inserted(es, j, e)
  }

  /** One more entry in the first block is one more entry in the directory. */
  lemma {:induction false} AddedEntries(lay: Layout, im: Image, im': Image, raw: seq<byte>, n: nat, e: Dirent)
    requires Shaped(lay, im) && Shaped(lay, im') && |raw| == INODE_BYTES && InRange(lay, raw)
    requires 1 <= n <= DIRECT_BLOCKS && forall k :: 0 <= k < n ==> WellFormed(im[Ptr(raw, k)], 0)
    requires AddsEntry(im[Ptr(raw, 0)], im'[Ptr(raw, 0)], e)
    requires forall k :: 1 <= k < n ==> im'[Ptr(raw, k)] == im[Ptr(raw, k)]
    ensures forall k :: 0 <= k < n ==> WellFormed(im'[Ptr(raw, k)], 0)
    ensures AddedTo(DirEntries(lay, im, raw, n), DirEntries(lay, im', raw, n), e)
  {
    hide U32, Ptr, WellFormed, Entries;
    if n == 1 {
      var s, t := Entries(im[Ptr(raw, 0)], 0), Entries(im'[Ptr(raw, 0)], 0);
      assert DirEntries(lay, im, raw, 0) + s == s && DirEntries(lay, im', raw, 0) + t == t;
      var k :| 0 <= k <= |s| && t == Inserted(s, k, e);
      assert DirEntries(lay, im', raw, n) == Inserted(DirEntries(lay, im, raw, n), k, e);
    } else {
      AddedEntries(lay, im, im', raw, n - 1, e);
      var a, b := DirEntries(lay, im, raw, n - 1), Entries(im[Ptr(raw, n - 1)], 0);
      var j :| 0 <= j <= |a| && DirEntries(lay, im', raw, n - 1) == Inserted(a, j, e);
      InsertedConcat(a, b, j, e);
      assert DirEntries(lay, im', raw, n) == Inserted(DirEntries(lay, im, raw, n), j, e);
    }
  }

  lemma InsertedConcat(a: seq<Dirent>, b: seq<Dirent>, j: nat, e: Dirent)
    requires j <= |a|
    ensures Inserted(a, j, e) + b == Inserted(a + b, j, e)
  {
    assert (a + b)[..j] == a[..j] && (a + b)[j..] == a[j..] + b;
  }
}
