/** Directory blocks: a chain of variable-length records, each `inode`, `rec_len`, `name_len`, `file_type`, name. */
module Dirent {
  import opened Bytes

  type Name = seq<byte>

  datatype Dirent = Dirent(inode: nat, name: Name, fileType: byte)

  const HEADER: nat := 8

  function Inode(s: seq<byte>, off: nat): nat
    requires off + 8 <= |s|
  {
    U32(s, off)
  }

  function RecLen(s: seq<byte>, off: nat): (r: nat)
    requires off + 8 <= |s|
    ensures r < 0x1_0000
  {
    U16(s, off + 4)
  }

  function NameLen(s: seq<byte>, off: nat): (r: nat)
    requires off + 8 <= |s|
    ensures r < 0x100
  {
    s[off + 6]
  }

  /** `(8 + name_len + 3) & ~3` */
  function RealSize(nameLen: nat): (r: nat)
    ensures 8 + nameLen <= r < 12 + nameLen && r % 4 == 0
  {
    (8 + nameLen + 3) / 4 * 4
  }

  /** One record at `off` lies inside the buffer and has room for its own name. */
  predicate RecordOk(s: seq<byte>, off: nat) {
    off + 8 <= |s| && RealSize(NameLen(s, off)) <= RecLen(s, off) && off + RecLen(s, off) <= |s|
  }

  /** From `off` on, the record lengths tile the rest of the buffer. */
  predicate WellFormed(s: seq<byte>, off: nat)
    decreases |s| - off
  {
    off == |s| || (RecordOk(s, off) && WellFormed(s, off + RecLen(s, off)))
  }

  function Record(s: seq<byte>, off: nat): Dirent
    requires RecordOk(s, off)
  {
    Dirent(Inode(s, off), s[off + 8..off + 8 + NameLen(s, off)], s[off + 7])
  }

  /** All records from `off` on, deleted ones (inode 0) included. */
  function Entries(s: seq<byte>, off: nat): seq<Dirent>
    requires WellFormed(s, off)
    decreases |s| - off
  {
    if off == |s| then [] else [Record(s, off)] + Entries(s, off + RecLen(s, off))
  }

  /** The inode of the first live entry with this name; 0 if there is none. */
  function Find(es: seq<Dirent>, name: Name): nat {
    if es == [] then 0
    else if es[0].inode != 0 && es[0].name == name then es[0].inode
    else Find(es[1..], name)
  }

  /** The entries that a listing shows, in order. */
  function Listing(es: seq<Dirent>): seq<Dirent> {
    if es == [] then []
    else (if es[0].inode != 0 && |es[0].name| > 0 then [es[0]] else []) + Listing(es[1..])
  }

  /** A scan that has reached `off` finds the name in the record there, or behind it. */
  lemma FindStep(s: seq<byte>, off: nat, name: Name)
    requires off < |s| && WellFormed(s, off)
    ensures RecordOk(s, off) && WellFormed(s, off + RecLen(s, off))
    ensures
      var e := Record(s, off);
      Find(Entries(s, off), name)
        == if e.inode != 0 && e.name == name then e.inode else Find(Entries(s, off + RecLen(s, off)), name)
  {
    hide U16, U32, RealSize, Record;
  }

  /** A scan that has reached `off` still has to list the record there, if it is shown, and the rest. */
  lemma ListingStep(s: seq<byte>, off: nat)
    requires off < |s| && WellFormed(s, off)
    ensures Listing(Entries(s, off)) ==
      (if Inode(s, off) != 0 && NameLen(s, off) > 0 then [Record(s, off)] else [])
      + Listing(Entries(s, off + RecLen(s, off)))
  {
    hide U16, U32, RealSize;
    assert Entries(s, off)[1..] == Entries(s, off + RecLen(s, off));
  }

  /** A listing shows the live entries that have a name, and no others. */
  lemma {:induction false} ListingMeans(es: seq<Dirent>, e: Dirent)
    ensures e in Listing(es) <==> e in es && e.inode != 0 && |e.name| > 0
  {
    if es != [] {
      ListingMeans(es[1..], e);
    }
  }

  lemma ListingEnd(s: seq<byte>)
    ensures WellFormed(s, |s|) && Listing(Entries(s, |s|)) == []
  {
  }

  lemma {:induction false} FindConcat(a: seq<Dirent>, b: seq<Dirent>, name: Name)
    ensures Find(a + b, name) == if Find(a, name) != 0 then Find(a, name) else Find(b, name)
  {
    if a == [] {
      assert a + b == b;
    } else {
      assert (a + b)[1..] == a[1..] + b;
      FindConcat(a[1..], b, name);
    }
  }

  lemma {:induction false} ListingConcat(a: seq<Dirent>, b: seq<Dirent>)
    ensures Listing(a + b) == Listing(a) + Listing(b)
  {
    if a == [] {
      assert a + b == b;
    } else {
      assert (a + b)[1..] == a[1..] + b;
      ListingConcat(a[1..], b);
    }
  }

  function Inserted(es: seq<Dirent>, k: nat, e: Dirent): seq<Dirent>
    requires k <= |es|
  {
    es[..k] + [e] + es[k..]
  }

  /** A name stands for its first live entry, and for none if it has none. */
  lemma {:induction false} FindMeans(es: seq<Dirent>, name: Name, k: nat)
    requires k <= |es| && forall j :: 0 <= j < k ==> es[j].inode == 0 || es[j].name != name
    ensures k == |es| ==> Find(es, name) == 0
    ensures k < |es| && es[k].inode != 0 && es[k].name == name ==> Find(es, name) == es[k].inode
  {
    if k != 0 {
      assert es[0].inode == 0 || es[0].name != name;
      FindMeans(es[1..], name, k - 1);
    }
  }

  /** What inserting a live entry with a new name does to every lookup and to the listing. */
  lemma InsertedMeaning(es: seq<Dirent>, k: nat, e: Dirent)
    requires k <= |es| && e.inode != 0 && |e.name| > 0 && Find(es, e.name) == 0
    ensures Find(Inserted(es, k, e), e.name) == e.inode
    ensures forall n :: n != e.name ==> Find(Inserted(es, k, e), n) == Find(es, n)
    ensures exists j :: 0 <= j <= |Listing(es)| && Listing(Inserted(es, k, e)) == Inserted(Listing(es), j, e)
  {
    var a, b := es[..k], es[k..];
    assert es == a + b;
    assert Find([e], e.name) == e.inode;
    forall n ensures Find(Inserted(es, k, e), n) == if n == e.name then e.inode else Find(es, n) {
      FindConcat(a, b, n);
      FindConcat(a, [e] + b, n);
      FindConcat([e], b, n);
      assert Inserted(es, k, e) == a + ([e] + b);
      assert [e][1..] == [];
    }
    ListingConcat(a, b);
    ListingConcat(a, [e] + b);
    ListingConcat([e], b);
    assert Inserted(es, k, e) == a + ([e] + b);
    assert [e][1..] == [];
    assert Listing([e]) == [e];
    assert Listing(Inserted(es, k, e)) == Inserted(Listing(es), |Listing(a)|, e);
  }

  lemma Step(s: seq<byte>, off: nat)
    requires RecordOk(s, off) && WellFormed(s, off + RecLen(s, off))
    ensures WellFormed(s, off) && Entries(s, off) == [Record(s, off)] + Entries(s, off + RecLen(s, off))
  {
  }

  lemma Tail(s: seq<byte>, off: nat)
    requires off < |s| && WellFormed(s, off)
    ensures RecordOk(s, off) && off + RecLen(s, off) <= |s| && WellFormed(s, off + RecLen(s, off))
  {
  }

  lemma RecordInside(s: seq<byte>, off: nat)
    requires RecordOk(s, off)
    ensures off + 8 <= off + RecLen(s, off) <= |s|
  {
  }

  lemma FieldsSame(s: seq<byte>, o: nat, t: seq<byte>, p: nat)
    requires o + 8 <= |s| && p + 8 <= |t| && s[o..o + 8] == t[p..p + 8]
    ensures Inode(t, p) == Inode(s, o) && RecLen(t, p) == RecLen(s, o) && NameLen(t, p) == NameLen(s, o)
    ensures s[o + 7] == t[p + 7]
  {
    var h := s[o..o + 8];
    assert h[0] == s[o] == t[p] && h[1] == s[o + 1] == t[p + 1] && h[2] == s[o + 2] == t[p + 2];
    assert h[3] == s[o + 3] == t[p + 3] && h[4] == s[o + 4] == t[p + 4] && h[5] == s[o + 5] == t[p + 5];
    assert h[6] == s[o + 6] == t[p + 6] && h[7] == s[o + 7] == t[p + 7];
  }

  /** A record depends only on the bytes it covers. */
  lemma RecordSame(s: seq<byte>, o: nat, t: seq<byte>, p: nat)
    requires RecordOk(s, o) && p + RecLen(s, o) <= |t|
    requires s[o..o + RecLen(s, o)] == t[p..p + RecLen(s, o)]
    ensures RecordOk(t, p) && RecLen(t, p) == RecLen(s, o) && Record(t, p) == Record(s, o)
  {
    hide U16, U32, RealSize, RecLen, NameLen, Inode;
    RecordInside(s, o);
    var len := RecLen(s, o);
    SubSlice(s, o, o + len, 0, 8);
    SubSlice(t, p, p + len, 0, 8);
    FieldsSame(s, o, t, p);
    SubSlice(s, o, o + len, 8, 8 + NameLen(s, o));
    SubSlice(t, p, p + len, 8, 8 + NameLen(s, o));
  }

  /** Entries depend only on the bytes from their first record on, wherever those lie. */
  lemma {:induction false} SuffixSame(s: seq<byte>, o: nat, t: seq<byte>, p: nat)
    requires o <= |s| && p <= |t| && s[o..] == t[p..] && WellFormed(s, o)
    ensures WellFormed(t, p) && Entries(t, p) == Entries(s, o)
    decreases |s| - o
  {
    hide U16, U32, RealSize, Record, RecLen, NameLen, Inode, RecordOk;
    assert |s| - o == |t| - p;
    if o < |s| {
      RecordInside(s, o);
      var len := RecLen(s, o);
      SameSuffix(s, o, t, p, len);
      RecordSame(s, o, t, p);
      SuffixSame(s, o + len, t, p + len);
    }
  }

  lemma ConsAssoc(r: Dirent, a: seq<Dirent>, b: seq<Dirent>)
    ensures [r] + (a + b) == ([r] + a) + b
  {
  }

  /** A well-formed buffer followed by another is well formed, with both lists of entries. */
  lemma {:induction false} Concat(s: seq<byte>, t: seq<byte>, off: nat)
    requires off <= |s| && WellFormed(s, off) && WellFormed(t, 0)
    ensures WellFormed(s + t, off) && Entries(s + t, off) == Entries(s, off) + Entries(t, 0)
    decreases |s| - off
  {
    hide U16, U32, RealSize, Record;
    if off == |s| {
      assert (s + t)[off..] == t[0..];
      SuffixSame(t, 0, s + t, off);
      assert Entries(s, off) + Entries(t, 0) == Entries(t, 0);
    } else {
      var next := off + RecLen(s, off);
      assert (s + t)[off..next] == s[off..next];
      RecordSame(s, off, s + t, off);
      Concat(s, t, next);
      ConsAssoc(Record(s, off), Entries(s, next), Entries(t, 0));
    }
  }

  /** The offset of the first record from `off` on whose slack is at least `needed`; |s| if there is none. */
  function FirstSlack(s: seq<byte>, off: nat, needed: nat): (p: nat)
    requires WellFormed(s, off)
    ensures p <= |s|
    ensures p < |s| ==> off <= p && RecordOk(s, p) && RecLen(s, p) - RealSize(NameLen(s, p)) >= needed
    decreases |s| - off
  {
    if off == |s| then |s|
    else if RecLen(s, off) - RealSize(NameLen(s, off)) >= needed then off
    else FirstSlack(s, off + RecLen(s, off), needed)
  }

  function NewRecord(e: Dirent, recLen: nat): (b: seq<byte>)
    requires e.inode < 0x1_0000_0000 && recLen < 0x1_0000 && |e.name| < 0x100
    ensures |b| == 8 + |e.name|
  {
    Put32(e.inode) + Put16(recLen) + [|e.name|, e.fileType] + e.name
  }

  /** The record at `p` shrunk to its real size, and the new entry in the space that this frees. */
  function Split(s: seq<byte>, p: nat, e: Dirent): (t: seq<byte>)
    requires RecordOk(s, p) && e.inode < 0x1_0000_0000 && |e.name| < 0x100
    requires RecLen(s, p) - RealSize(NameLen(s, p)) >= RealSize(|e.name|)
    ensures |t| == |s|
  {
    var used := RealSize(NameLen(s, p));
    Splice(Splice(s, p + 4, Put16(used)), p + used, NewRecord(e, RecLen(s, p) - used))
  }

  /** `t` is `s` with the record at `p` cut to its real size and `e` in the rest of its space. */
  predicate IsSplit(s: seq<byte>, t: seq<byte>, p: nat, e: Dirent) {
    && RecordOk(s, p) && |t| == |s|
    && s[..p] == t[..p] && s[p + RecLen(s, p)..] == t[p + RecLen(s, p)..]
    && RecordOk(t, p) && Record(t, p) == Record(s, p)
    && RecLen(t, p) == RealSize(NameLen(s, p))
    && RecordOk(t, p + RecLen(t, p)) && Record(t, p + RecLen(t, p)) == e
    && RecLen(t, p) + RecLen(t, p + RecLen(t, p)) == RecLen(s, p)
  }

  lemma SplitIsSplit(s: seq<byte>, p: nat, e: Dirent)
    requires RecordOk(s, p) && e.inode < 0x1_0000_0000 && |e.name| < 0x100
    requires RecLen(s, p) - RealSize(NameLen(s, p)) >= RealSize(|e.name|)
    ensures IsSplit(s, Split(s, p, e), p, e)
  {
    hide U16, U32, RealSize, Record, NewRecord, Put16;
    var t, used, len := Split(s, p, e), RealSize(NameLen(s, p)), RecLen(s, p);
    assert t[p + used..p + used + 8 + |e.name|] == NewRecord(e, len - used);
    NewRecordDecodes(t, p + used, e, len - used);
    SplitShrinks(s, p, e);
    assert s[..p] == t[..p] && s[p + len..] == t[p + len..];
  }

  lemma SplitShrinks(s: seq<byte>, p: nat, e: Dirent)
    requires RecordOk(s, p) && e.inode < 0x1_0000_0000 && |e.name| < 0x100
    requires RecLen(s, p) - RealSize(NameLen(s, p)) >= RealSize(|e.name|)
    ensures RecordOk(Split(s, p, e), p) && Record(Split(s, p, e), p) == Record(s, p)
    ensures RecLen(Split(s, p, e), p) == RealSize(NameLen(s, p))
  {
    hide RealSize, NewRecord, Put16;
    var t, used := Split(s, p, e), RealSize(NameLen(s, p));
    var lens := Put16(used);
    assert t[p + 4] == lens[0] && t[p + 5] == lens[1];
    assert t[p + 8..p + 8 + NameLen(s, p)] == s[p + 8..p + 8 + NameLen(s, p)];
  }

  lemma NewRecordDecodes(t: seq<byte>, q: nat, e: Dirent, len: nat)
    requires e.inode < 0x1_0000_0000 && |e.name| < 0x100 && RealSize(|e.name|) <= len < 0x1_0000 && q + len <= |t|
    requires t[q..q + 8 + |e.name|] == NewRecord(e, len)
    ensures RecordOk(t, q) && RecLen(t, q) == len && Record(t, q) == e
  {
    var b, ino, rl := t[q..q + 8 + |e.name|], Put32(e.inode), Put16(len);
    assert forall i :: 0 <= i < 8 ==> t[q + i] == b[i];
    assert forall i :: 0 <= i < 4 ==> b[i] == ino[i];
    assert U32(t, q) == U32(ino, 0);
    assert U16(t, q + 4) == U16(rl, 0);
    assert t[q + 8..q + 8 + |e.name|] == b[8..] == e.name;
  }

  /** The number of records from `off` up to and including the one at `p`. */
  function Rank(s: seq<byte>, off: nat, p: nat): (k: nat)
    requires WellFormed(s, off) && off <= p < |s|
    ensures 1 <= k <= |Entries(s, off)|
    decreases |s| - off
  {
    if off + RecLen(s, off) > p then 1 else 1 + Rank(s, off + RecLen(s, off), p)
  }

  /** The chain of records from `off` reaches `p`. */
  predicate Reaches(s: seq<byte>, off: nat, p: nat)
    requires WellFormed(s, off)
    decreases |s| - off
  {
    off <= p < |s| && (off == p || Reaches(s, off + RecLen(s, off), p))
  }

  /** Some record of the chain, live or deleted, has `needed` unused bytes after its own name. */
  ghost predicate HasSlack(s: seq<byte>, off: nat, needed: nat)
    requires WellFormed(s, off)
  {
    exists p: nat :: Reaches(s, off, p) && RecordOk(s, p) && RecLen(s, p) - RealSize(NameLen(s, p)) >= needed
  }

  /** The chain goes through every record. */
  lemma {:induction false} EveryRecordReached(s: seq<byte>, off: nat, k: nat)
    requires WellFormed(s, off) && k < |Entries(s, off)|
    ensures exists p: nat :: Reaches(s, off, p) && RecordOk(s, p) && Record(s, p) == Entries(s, off)[k]
    decreases |s| - off
  {
    hide U16, U32, RealSize, Record;
    Tail(s, off);
    if k == 0 {
      assert Reaches(s, off, off);
    } else {
      var next := off + RecLen(s, off);
      EveryRecordReached(s, next, k - 1);
      var p: nat :| Reaches(s, next, p) && RecordOk(s, p) && Record(s, p) == Entries(s, next)[k - 1];
      assert Reaches(s, off, p);
    }
  }

  lemma SlackStep(s: seq<byte>, off: nat, needed: nat)
    requires WellFormed(s, off)
    ensures HasSlack(s, off, needed) <==>
      off < |s| && (RecLen(s, off) - RealSize(NameLen(s, off)) >= needed || HasSlack(s, off + RecLen(s, off), needed))
  {
    hide U16, RealSize;
    if off < |s| {
      Tail(s, off);
      var next := off + RecLen(s, off);
      if RecLen(s, off) - RealSize(NameLen(s, off)) >= needed {
        assert Reaches(s, off, off);
      }
      if HasSlack(s, next, needed) {
        var p: nat :| Reaches(s, next, p) && RecordOk(s, p) && RecLen(s, p) - RealSize(NameLen(s, p)) >= needed;
        assert Reaches(s, off, p);
      }
    }
  }

  /** The scan stops at a record exactly when some record has the slack, and then at the first that has. */
  lemma {:induction false} FirstSlackReaches(s: seq<byte>, off: nat, needed: nat)
    requires WellFormed(s, off)
    ensures FirstSlack(s, off, needed) < |s| <==> HasSlack(s, off, needed)
    ensures HasSlack(s, off, needed) ==> Reaches(s, off, FirstSlack(s, off, needed))
    ensures forall p: nat :: Reaches(s, off, p) && RecordOk(s, p) && p < FirstSlack(s, off, needed) ==>
      RecLen(s, p) - RealSize(NameLen(s, p)) < needed
    decreases |s| - off
  {
    hide HasSlack, U16, RealSize;
    SlackStep(s, off, needed);
    if off < |s| {
      FirstSlackReaches(s, off + RecLen(s, off), needed);
    }
  }

  lemma InsertedCons(r: Dirent, es: seq<Dirent>, k: nat, e: Dirent)
    requires k <= |es|
    ensures Inserted([r] + es, 1 + k, e) == [r] + Inserted(es, k, e)
  {
    assert ([r] + es)[..1 + k] == [r] + es[..k];
    assert ([r] + es)[1 + k..] == es[k..];
  }

  lemma SplitHere(s: seq<byte>, t: seq<byte>, p: nat, e: Dirent)
    requires WellFormed(s, p) && p < |s| && IsSplit(s, t, p, e)
    ensures WellFormed(t, p)
    ensures Entries(t, p) == [Record(s, p)] + Inserted(Entries(s, p + RecLen(s, p)), 0, e)
  {
    hide U16, U32, RealSize, Record, RecordOk, RecLen, NameLen, Inode, WellFormed, Entries;
    Tail(s, p);
    var next, mid := p + RecLen(s, p), p + RecLen(t, p);
    SuffixSame(s, next, t, next);
    Step(t, mid);
    Step(t, p);
    assert Inserted(Entries(s, next), 0, e) == [e] + Entries(s, next);
  }

  /** Splitting a record keeps the block well formed and inserts exactly one entry. */
  lemma {:induction false} SplitInserts(s: seq<byte>, t: seq<byte>, off: nat, p: nat, e: Dirent)
    requires WellFormed(s, off) && Reaches(s, off, p) && IsSplit(s, t, p, e)
    ensures WellFormed(t, off) && Entries(t, off) == Inserted(Entries(s, off), Rank(s, off, p), e)
    decreases |s| - off
  {
    hide U16, U32, RealSize, Record;
    var next := off + RecLen(s, off);
    if off == p {
      SplitHere(s, t, p, e);
      InsertedCons(Record(s, off), Entries(s, next), 0, e);
    } else {
      SplitInserts(s, t, next, p, e);
      SubSlice(s, 0, p, off, next);
      SubSlice(t, 0, p, off, next);
      RecordSame(s, off, t, off);
      InsertedCons(Record(s, off), Entries(s, next), Rank(s, next, p), e);
    }
  }

  /** `t` is well formed and its entries are those of `s` with one more somewhere. */
  ghost predicate AddsEntry(s: seq<byte>, t: seq<byte>, e: Dirent) {
    && WellFormed(s, 0) && WellFormed(t, 0)
    && exists k :: 0 <= k <= |Entries(s, 0)| && Entries(t, 0) == Inserted(Entries(s, 0), k, e)
  }

  lemma SplitAddsEntry(s: seq<byte>, t: seq<byte>, p: nat, e: Dirent)
    requires WellFormed(s, 0) && Reaches(s, 0, p) && IsSplit(s, t, p, e)
    ensures AddsEntry(s, t, e)
  {
    hide WellFormed, Entries, Rank, Reaches, IsSplit;
    SplitInserts(s, t, 0, p, e);
  }

  lemma AddsEntryLength(s: seq<byte>, t: seq<byte>, p: nat, e: Dirent)
    requires IsSplit(s, t, p, e)
    ensures |s| == |t|
  {
  }

  // The block of a directory that has no entries yet but its own.

  const DOT: Name := [46]
  const DOTDOT: Name := [46, 46]
  const FT_REG_FILE: byte := 1
  const FT_DIR: byte := 2

  function EmptyDirectory(bs: nat, self: nat, parent: nat): (b: seq<byte>)
    requires 1024 <= bs <= 0x1_0000 && self < 0x1_0000_0000 && parent < 0x1_0000_0000
    ensures |b| == bs
  {
    Splice(Splice(Zeros(bs), 0, NewRecord(Dirent(self, DOT, FT_DIR), 12)),
           12, NewRecord(Dirent(parent, DOTDOT, FT_DIR), bs - 12))
  }

  lemma EmptyDirectoryEntries(bs: nat, self: nat, parent: nat)
    requires 1024 <= bs <= 0x1_0000 && self < 0x1_0000_0000 && parent < 0x1_0000_0000
    ensures
      var b := EmptyDirectory(bs, self, parent);
      && WellFormed(b, 0)
      && Entries(b, 0) == [Dirent(self, DOT, FT_DIR), Dirent(parent, DOTDOT, FT_DIR)]
  {
    hide U16, U32, Put16, Put32, NewRecord, Record, Splice;
    var b, e, f := EmptyDirectory(bs, self, parent), Dirent(self, DOT, FT_DIR), Dirent(parent, DOTDOT, FT_DIR);
    var n, m := NewRecord(e, 12), NewRecord(f, bs - 12);
    var z := Splice(Zeros(bs), 0, n);
    assert b[0..9] == n;
    assert b[12..22] == m;
    NewRecordDecodes(b, 0, e, 12);
    NewRecordDecodes(b, 12, f, bs - 12);
    assert WellFormed(b, bs);
    Step(b, 12);
    Step(b, 0);
  }

  /** A directory that has just been made has room behind "..", up to the end of the block. */
  lemma EmptyDirectoryRoom(bs: nat, self: nat, parent: nat, needed: nat)
    requires 1024 <= bs <= 0x1_0000 && self < 0x1_0000_0000 && parent < 0x1_0000_0000
    ensures WellFormed(EmptyDirectory(bs, self, parent), 0)
    ensures HasSlack(EmptyDirectory(bs, self, parent), 0, needed) <==> needed <= bs - 24
  {
    hide U16, U32, Put16, Put32, NewRecord, Record, Splice, Entries, HasSlack;
    var b, e, f := EmptyDirectory(bs, self, parent), Dirent(self, DOT, FT_DIR), Dirent(parent, DOTDOT, FT_DIR);
    var n, m := NewRecord(e, 12), NewRecord(f, bs - 12);
    var z := Splice(Zeros(bs), 0, n);
    assert b[0..9] == n;
    assert b[12..22] == m;
    NewRecordDecodes(b, 0, e, 12);
    NewRecordDecodes(b, 12, f, bs - 12);
    NameLengths(b, e, f);
    assert WellFormed(b, bs);
    Step(b, 12);
    Step(b, 0);
    SlackStep(b, 0, needed);
    SlackStep(b, 12, needed);
    SlackStep(b, bs, needed);
  }

  lemma NameLengths(b: seq<byte>, e: Dirent, f: Dirent)
    requires |b| >= 34 && RecordOk(b, 0) && RecordOk(b, 12) && Record(b, 0) == e && Record(b, 12) == f
    requires |e.name| == 1 && |f.name| == 2
    ensures RealSize(NameLen(b, 0)) == 12 && RealSize(NameLen(b, 12)) == 12
  {
    hide U16, U32;
    assert NameLen(b, 0) == |Record(b, 0).name| && NameLen(b, 12) == |Record(b, 12).name|;
  }

  /** The bytes of a record: inode, length, length of the name and type, lowest byte first, and the name. */
  lemma RecordBytes(e: Dirent, recLen: nat)
    requires e.inode < 0x1_0000_0000 && recLen < 0x1_0000 && |e.name| < 0x100
    ensures NewRecord(e, recLen)
         == [e.inode % 256, e.inode / 256 % 256, e.inode / 65536 % 256, e.inode / 16777216,
             recLen % 256, recLen / 256, |e.name|, e.fileType] + e.name
  {
    hide Put16, Put32;
    LittleEndian16(recLen);
    LittleEndian32(e.inode);
  }
}
