/** The loops of the ext2 driver that scan, and split in place, a buffer of directory records. */
module Ext2Directory {
  import opened Bytes
  import opened Dirent

  /** The scan of `ext2_dir_lookup`: the inode of the first live record with this name, or 0. */
  method FindRecord(buf: array<byte>, name: Name) returns (result: nat)
    requires WellFormed(buf[..], 0)
    ensures result == Find(Entries(buf[..], 0), name)
  {
    hide U16, U32, RealSize, Entries, Find;
    var off := 0;
    ghost var s := buf[..];
    while off + 8 <= buf.Length
      invariant off <= |s| && WellFormed(s, off)
      invariant Find(Entries(s, 0), name) == Find(Entries(s, off), name)
      decreases |s| - off
    {
      var recLen := RecLen(buf[..], off);
      if recLen == 0 {
        break;
      }
      FindStep(s, off, name);
      if Inode(buf[..], off) != 0 && NameLen(buf[..], off) == |name| && buf[off + 8..off + 8 + |name|] == name {
        return Inode(buf[..], off);
      }
      off := off + recLen;
    }
    FindEnd(s, name);
    result := 0;
  }

  lemma FindEnd(s: seq<byte>, name: Name)
    ensures WellFormed(s, |s|) && Find(Entries(s, |s|), name) == 0
  {
  }

  /** The scan of `ext2_vfs_readdir`: the `index`-th record that is live and has a name. */
  method NthRecord(buf: array<byte>, index: nat) returns (found: bool, e: Dirent)
    requires WellFormed(buf[..], 0)
    ensures found <==> index < |Listing(Entries(buf[..], 0))|
    ensures found ==> e == Listing(Entries(buf[..], 0))[index]
  {
    hide U16, U32, RealSize, Record, Listing, Entries;
    var off, cur := 0, 0;
    ghost var s := buf[..];
    ghost var all := Listing(Entries(s, 0));
    e := Dirent(0, [], 0);
    while off + 8 <= buf.Length
      invariant off <= |s| && WellFormed(s, off)
      invariant cur <= index && cur <= |all|
      invariant all[cur..] == Listing(Entries(s, off))
      decreases |s| - off
    {
      var recLen := RecLen(buf[..], off);
      if recLen == 0 {
        break;
      }
      ListingStep(s, off);
      if Inode(buf[..], off) != 0 && NameLen(buf[..], off) > 0 {
        assert all[cur] == all[cur..][0] == Record(s, off);
        if cur == index {
          return true, Record(buf[..], off);
        }
        cur := cur + 1;
      }
      off := off + recLen;
    }
    ListingEnd(s);
    found := false;
  }

  /** Stores the fields of one record, one after the other. */
  method PutRecord(buf: array<byte>, at: nat, e: Dirent, recLen: nat)
    requires e.inode < 0x1_0000_0000 && recLen < 0x1_0000 && |e.name| < 0x100
    requires at + 8 + |e.name| <= buf.Length
    modifies buf
    ensures buf[..] == Splice(old(buf[..]), at, NewRecord(e, recLen))
  {
    hide Put16, Put32, Splice;
    var ino, len, nameLen, fileType := Put32(e.inode), Put16(recLen), [|e.name| as byte], [e.fileType];
    ghost var s := buf[..];
    CopyIn(buf, at, ino);
    CopyIn(buf, at + 4, len);
    SpliceJoin(s, at, ino, len);
    CopyIn(buf, at + 6, nameLen);
    SpliceJoin(s, at, ino + len, nameLen);
    CopyIn(buf, at + 7, fileType);
    SpliceJoin(s, at, ino + len + nameLen, fileType);
    CopyIn(buf, at + 8, e.name);
    SpliceJoin(s, at, ino + len + nameLen + fileType, e.name);
    assert ino + len + nameLen + fileType + e.name == NewRecord(e, recLen);
  }

  /** Shrinks the record at `off` and stores the new record behind it. */
  method SplitRecord(buf: array<byte>, off: nat, e: Dirent)
    requires RecordOk(buf[..], off) && e.inode < 0x1_0000_0000 && |e.name| < 0x100
    requires RecLen(buf[..], off) - RealSize(NameLen(buf[..], off)) >= RealSize(|e.name|)
    modifies buf
    ensures IsSplit(old(buf[..]), buf[..], off, e) && buf[..] == Split(old(buf[..]), off, e)
  {
    hide U16, U32, RealSize, Put16, Splice;
    var oldRecLen, realSize := RecLen(buf[..], off), RealSize(NameLen(buf[..], off));
    SplitIsSplit(buf[..], off, e);
    CopyIn(buf, off + 4, Put16(realSize));
    PutRecord(buf, off + realSize, e, oldRecLen - realSize);
  }

  /**
    The scan of `ext2_dir_add_entry`: shrinks the first record with enough slack and puts the new
    record in the space this frees; without such a record the buffer stays as it was.
   */
  method AddRecord(buf: array<byte>, e: Dirent) returns (ok: bool)
    requires WellFormed(buf[..], 0) && e.inode < 0x1_0000_0000 && |e.name| < 0x100
    modifies buf
    ensures ok <==> HasSlack(old(buf[..]), 0, RealSize(|e.name|))
    ensures !ok ==> buf[..] == old(buf[..])
    ensures ok ==>
      var s := old(buf[..]);
      var p := FirstSlack(s, 0, RealSize(|e.name|));
      && Reaches(s, 0, p) && p < |s| && IsSplit(s, buf[..], p, e) && buf[..] == Split(s, p, e)
  {
    hide U16, U32, RealSize;
    var needed := RealSize(|e.name|);
    var off := 0;
    ghost var s := buf[..];
    FirstSlackReaches(s, 0, needed);
    while off + 8 <= buf.Length
      invariant buf[..] == s
      invariant off <= |s| && WellFormed(s, off)
      invariant FirstSlack(s, 0, needed) == FirstSlack(s, off, needed)
      decreases |s| - off
    {
      var recLen := RecLen(buf[..], off);
      if recLen == 0 {
        break;
      }
      var realSize := RealSize(NameLen(buf[..], off));
      if recLen - realSize >= needed {
        assert off == FirstSlack(s, off, needed);
        SplitRecord(buf, off, e);
        return true;
      }
      off := off + recLen;
    }
    ok := false;
  }
}
