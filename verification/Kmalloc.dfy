/** The kernel heap: block headers kept inline in one region of bytes, first fit, coalesced on every free. */
module Kmalloc {
  import opened Bytes
  import opened HeapBlocks

  /** `block_header_t`: size, free flag (an int, padded to 8 bytes), address of the next header or 0. */
  datatype Header = Header(size: nat, free: nat, next: nat)

  function HeaderAt(s: seq<byte>, off: nat): Header
    requires off + HEADER <= |s|
  {
    Header(U64(s, off), U32(s, off + 8), U64(s, off + 16))
  }

  /** The header structure, field by field. */
  lemma HeaderFields(s: seq<byte>, off: nat, size: nat, free: nat, pad: seq<byte>, next: nat)
    requires off + 24 <= |s| && size < WORD_LIMIT && free < 0x1_0000_0000 && |pad| == 4 && next < WORD_LIMIT
    requires s[off..off + 24] == Put64(size) + Put32(free) + pad + Put64(next)
    ensures HeaderAt(s, off) == Header(size, free, next)
  {
    hide Put32, Put64, U32, U64;
    var h := s[off..off + 24];
    assert h[0..8] == Put64(size) && h[8..12] == Put32(free) && h[16..24] == Put64(next);
    SubSlice(s, off, off + 24, 0, 8);
    SubSlice(s, off, off + 24, 8, 12);
    SubSlice(s, off, off + 24, 16, 24);
    WordIn(s, off);
    QuadIn(s, off + 8, off + 12, 0);
    WordIn(s, off + 16);
  }

  /** A header depends on its own 24 bytes only. */
  lemma HeaderSame(s: seq<byte>, t: seq<byte>, off: nat)
    requires |s| == |t| && off + HEADER <= |s|
    requires forall k :: off <= k < off + HEADER ==> t[k] == s[k]
    ensures HeaderAt(t, off) == HeaderAt(s, off)
  {
  }

  lemma WordStored(s: seq<byte>, at: nat, w: nat)
    requires at + 8 <= |s| && w < WORD_LIMIT
    ensures U64(Splice(s, at, Put64(w)), at) == w
  {
    var b, t := Put64(w), Splice(s, at, Put64(w));
    assert U32(t, at) == U32(b, 0) && U32(t, at + 4) == U32(b, 4);
  }

  lemma HalfStored(s: seq<byte>, at: nat, w: nat)
    requires at + 4 <= |s| && w < 0x1_0000_0000
    ensures U32(Splice(s, at, Put32(w)), at) == w
  {
    var b := Put32(w);
    assert U32(Splice(s, at, b), at) == U32(b, 0);
  }

  /** Address of the header behind block `i`; 0 for the last. */
  function Next(base: nat, bs: Blocks, i: nat): nat
    requires i < |bs|
  {
    if i + 1 < |bs| then base + bs[i + 1].off else 0
  }

  function HeaderOf(base: nat, bs: Blocks, i: nat): Header
    requires i < |bs|
  {
    Header(bs[i].size, if bs[i].free then 1 else 0, Next(base, bs, i))
  }

  /** The headers in memory are those of the block list. */
  ghost predicate Represents(s: seq<byte>, base: nat, bs: Blocks) {
    forall i :: 0 <= i < |bs| ==> bs[i].off + HEADER <= |s| && HeaderAt(s, bs[i].off) == HeaderOf(base, bs, i)
  }

  predicate Aligned(bs: Blocks) {
    forall b :: b in bs ==> b.off % 8 == 0
  }

  /** The list covers the region, and every block starts at a multiple of 8. */
  ghost predicate ListOk(bs: Blocks, total: nat) {
    bs != [] && Tiled(bs, 0, total) && Aligned(bs)
  }

  /** `((x) + 7) & ~7` on 64-bit words, where the addition may wrap around. */
  function Align8(x: nat): (r: nat) {
    (x + 7) % WORD_LIMIT / 8 * 8
  }

  /** Rounding up gives at least what was asked for exactly when the addition does not wrap. */
  lemma Align8Enough(x: nat)
    requires x < WORD_LIMIT
    ensures Align8(x) % 8 == 0 && Align8(x) < WORD_LIMIT && Align8(x) <= x + 7
    ensures Align8(x) >= x <==> x + 7 < WORD_LIMIT
  {
    if x + 7 < WORD_LIMIT {
      assert (x + 7) % WORD_LIMIT == x + 7;
    } else {
      assert (x + 7) % WORD_LIMIT == x + 7 - WORD_LIMIT;
    }
  }

  /** Every byte of every live payload is as before. */
  ghost predicate PayloadsKept(s: seq<byte>, t: seq<byte>, live: Blocks) {
    |s| == |t| &&
    forall b, k :: b in live && b.Payload() <= k < b.End() && k < |s| ==> t[k] == s[k]
  }

  // How updates of memory and of the list go together.

  /** The two memories differ at most in `[from, to)`. */
  ghost predicate OnlyIn(s: seq<byte>, t: seq<byte>, from: nat, to: nat) {
    |s| == |t| && forall k :: 0 <= k < |s| && !(from <= k < to) ==> t[k] == s[k]
  }

  lemma OtherHeader(s: seq<byte>, t: seq<byte>, base: nat, bs: Blocks, i: nat, j: nat)
    requires ListOk(bs, |s|) && Represents(s, base, bs) && i < |bs| && j < |bs| && i != j
    requires OnlyIn(s, t, bs[i].off, bs[i].End())
    ensures bs[j].off + HEADER <= |t| && HeaderAt(t, bs[j].off) == HeaderOf(base, bs, j)
  {
    hide HeaderAt, HeaderOf, Tiled;
    TiledAt(bs, 0, |s|, i);
    HeaderSame(s, t, bs[j].off);
  }

  /** The header of block `j` of the blocks `m`, after which the link goes to `next`. */
  function PartHeader(base: nat, m: Blocks, next: nat, j: nat): Header
    requires j < |m|
  {
    Header(m[j].size, if m[j].free then 1 else 0, if j + 1 < |m| then base + m[j + 1].off else next)
  }

  /** The headers of the blocks that replace block `i`. */
  ghost predicate PartHeaders(t: seq<byte>, base: nat, m: Blocks, next: nat) {
    forall j :: 0 <= j < |m| ==> m[j].off + HEADER <= |t| && HeaderAt(t, m[j].off) == PartHeader(base, m, next, j)
  }

  /** Rewriting the inside of block `i` as the blocks `m`. */
  lemma ReplaceRepresents(s: seq<byte>, t: seq<byte>, base: nat, bs: Blocks, i: nat, m: Blocks)
    requires ListOk(bs, |s|) && Represents(s, base, bs) && i < |bs| && m != []
    requires Tiled(m, bs[i].off, bs[i].End()) && Aligned(m) && m[0].off == bs[i].off
    requires |s| == |t| && OnlyIn(s, t, bs[i].off, bs[i].End()) && PartHeaders(t, base, m, Next(base, bs, i))
    ensures ListOk(Replaced(bs, i, m), |t|) && Represents(t, base, Replaced(bs, i, m))
  {
    hide HeaderAt, Live, HeaderOf, PartHeaders, OnlyIn;
    ReplacedMeaning(bs, 0, |s|, i, m);
    var a := Replaced(bs, i, m);
    forall b | b in a ensures b.off % 8 == 0 {
      assert b in bs || b in m;
    }
    forall j | 0 <= j < |a| ensures a[j].off + HEADER <= |t| && HeaderAt(t, a[j].off) == HeaderOf(base, a, j) {
      if i <= j < i + |m| {
        PartRepresented(t, base, bs, i, m, j - i);
      } else {
        var k := if j < i then j else j - |m| + 1;
        OtherHeader(s, t, base, bs, i, k);
        OtherHeaderOf(base, bs, i, m, k);
      }
    }
  }

  lemma PartRepresented(t: seq<byte>, base: nat, bs: Blocks, i: nat, m: Blocks, j: nat)
    requires i < |bs| && j < |m| && PartHeaders(t, base, m, Next(base, bs, i))
    ensures m[j].off + HEADER <= |t| && Replaced(bs, i, m)[i + j] == m[j]
    ensures HeaderAt(t, m[j].off) == HeaderOf(base, Replaced(bs, i, m), i + j)
  {
    hide HeaderAt, HeaderOf, PartHeader, Replaced;
    PartHeaderOf(base, bs, i, m, j);
  }

  lemma PartHeaderOf(base: nat, bs: Blocks, i: nat, m: Blocks, j: nat)
    requires i < |bs| && j < |m|
    ensures |Replaced(bs, i, m)| == |bs| - 1 + |m| && Replaced(bs, i, m)[i + j] == m[j]
    ensures HeaderOf(base, Replaced(bs, i, m), i + j) == PartHeader(base, m, Next(base, bs, i), j)
  {
    hide Replaced;
    ReplacedIndex(bs, i, m, j);
    if j + 1 < |m| {
      ReplacedIndex(bs, i, m, j + 1);
    }
  }

  lemma ReplacedIndex(bs: Blocks, i: nat, m: Blocks, j: nat)
    requires i < |bs| && j < |m|
    ensures |Replaced(bs, i, m)| == |bs| - 1 + |m| && Replaced(bs, i, m)[i + j] == m[j]
    ensures j + 1 == |m| && i + 1 < |bs| ==> Replaced(bs, i, m)[i + j + 1] == bs[i + 1]
  {
  }

  lemma OtherHeaderOf(base: nat, bs: Blocks, i: nat, m: Blocks, k: nat)
    requires i < |bs| && k < |bs| && k != i && m != [] && m[0].off == bs[i].off
    ensures
      var j := if k < i then k else k + |m| - 1;
      Replaced(bs, i, m)[j] == bs[k] && HeaderOf(base, Replaced(bs, i, m), j) == HeaderOf(base, bs, k)
  {
  }

  /** Two free neighbours made one, by the header of the first alone. */
  function MergedAt(bs: Blocks, k: nat): Blocks
    requires k + 1 < |bs|
  {
    bs[..k] + [Merged(bs[k], bs[k + 1])] + bs[k + 2..]
  }

  lemma MergedMeaning(bs: Blocks, k: nat, total: nat)
    requires ListOk(bs, total) && k + 1 < |bs| && bs[k].free && bs[k + 1].free
    ensures ListOk(MergedAt(bs, k), total) && Live(MergedAt(bs, k)) == Live(bs)
    ensures Coalesced(MergedAt(bs, k)[k..]) == Coalesced(bs[k..]) && MergedAt(bs, k)[..k] == bs[..k]
  {
    hide Live, Tiled, Coalesced;
    MergedTiled(bs, k, total);
    MergedLive(bs, k);
    MergedCoalesced(bs, k);
    var a := MergedAt(bs, k);
    forall b | b in a ensures b.off % 8 == 0 {
      assert b in bs || b == Merged(bs[k], bs[k + 1]);
      assert bs[k] in bs;
    }
  }

  lemma MergedTiled(bs: Blocks, k: nat, total: nat)
    requires Tiled(bs, 0, total) && k + 1 < |bs|
    ensures Tiled(MergedAt(bs, k), 0, total)
  {
    hide Tiled;
    var l, m, r := bs[..k], Merged(bs[k], bs[k + 1]), bs[k + 2..];
    TiledAt(bs, 0, total, k);
    TiledAt(bs, 0, total, k + 1);
    OneBlock(m);
    TiledConcat(l, [m], 0, bs[k].off, m.End());
    TiledConcat(l + [m], r, 0, m.End(), total);
  }

  lemma MergedLive(bs: Blocks, k: nat)
    requires k + 1 < |bs| && bs[k].free && bs[k + 1].free
    ensures Live(MergedAt(bs, k)) == Live(bs)
  {
    hide Live;
    var l, m, r := bs[..k], Merged(bs[k], bs[k + 1]), bs[k + 2..];
    OneBlock(m);
    LiveConcat(l, [m]);
    LiveConcat(l + [m], r);
    LiveAround(bs, k);
    LiveAround(bs[k + 1..], 0);
    EmptyLive();
    assert bs[k + 1..][1..] == r;
    assert bs[k + 1..][..0] == [];
  }

  lemma MergedCoalesced(bs: Blocks, k: nat)
    requires k + 1 < |bs| && bs[k].free && bs[k + 1].free
    ensures Coalesced(MergedAt(bs, k)[k..]) == Coalesced(bs[k..]) && MergedAt(bs, k)[..k] == bs[..k]
  {
    assert MergedAt(bs, k)[k..] == [Merged(bs[k], bs[k + 1])] + bs[k + 2..];
    assert bs[k..][2..] == bs[k + 2..];
  }

  /** Moving on to the next block of the pass. */
  lemma CoalescedStep(bs: Blocks, k: nat)
    requires k + 1 < |bs| && !(bs[k].free && bs[k + 1].free)
    ensures bs[..k] + Coalesced(bs[k..]) == bs[..k + 1] + Coalesced(bs[k + 1..])
  {
    assert bs[k..][1..] == bs[k + 1..];
    assert bs[..k + 1] == bs[..k] + [bs[k]];
  }

  lemma CoalescedEnd(bs: Blocks, k: nat)
    requires k + 1 == |bs|
    ensures bs[..k] + Coalesced(bs[k..]) == bs
  {
  }

  lemma EmptyLive()
    ensures Live([]) == []
  {
  }

  lemma MergedRepresents(s: seq<byte>, t: seq<byte>, base: nat, bs: Blocks, k: nat)
    requires ListOk(bs, |s|) && Represents(s, base, bs) && k + 1 < |bs| && bs[k].free && bs[k + 1].free
    requires OnlyIn(s, t, bs[k].off, bs[k].off + HEADER)
    requires HeaderAt(t, bs[k].off) == Header(bs[k].size + HEADER + bs[k + 1].size, 1, Next(base, bs, k + 1))
    ensures Represents(t, base, MergedAt(bs, k))
  {
    hide HeaderAt, Live, Tiled, HeaderOf, OnlyIn;
    var a := MergedAt(bs, k);
    HeaderRange(s, t, bs, k);
    MergedHeaderOf(base, bs, k, k);
    forall j | 0 <= j < |a| ensures a[j].off + HEADER <= |t| && HeaderAt(t, a[j].off) == HeaderOf(base, a, j) {
      if j != k {
        var l := if j < k then j else j + 1;
        OtherHeader(s, t, base, bs, k, l);
        MergedHeaderOf(base, bs, k, l);
      }
    }
  }

  lemma HeaderRange(s: seq<byte>, t: seq<byte>, bs: Blocks, k: nat)
    requires ListOk(bs, |s|) && k < |bs| && OnlyIn(s, t, bs[k].off, bs[k].off + HEADER)
    ensures |t| == |s| && bs[k].off + HEADER <= |t| && OnlyIn(s, t, bs[k].off, bs[k].End())
  {
    BlockFits(bs, |s|, k);
  }

  lemma MergedHeaderOf(base: nat, bs: Blocks, k: nat, l: nat)
    requires k + 1 < |bs| && l < |bs| && l != k + 1 && bs[k].free
    ensures
      var a, j := MergedAt(bs, k), if l <= k then l else l - 1;
      && a[j].off == bs[l].off
      && HeaderOf(base, a, j) ==
        if l == k then Header(bs[k].size + HEADER + bs[k + 1].size, 1, Next(base, bs, k + 1)) else HeaderOf(base, bs, l)
  {
    var a, j := MergedAt(bs, k), if l <= k then l else l - 1;
    assert l < k ==> a[j] == bs[l] && a[j + 1].off == bs[l + 1].off;
    assert l > k ==> a[j] == bs[l];
    assert l >= k && j + 1 < |a| ==> a[j + 1] == bs[j + 2];
  }

  /** What happens inside a free block, or in any header, touches no live payload. */
  lemma PayloadsOutside(s: seq<byte>, t: seq<byte>, bs: Blocks, i: nat)
    requires ListOk(bs, |s|) && i < |bs|
    requires OnlyIn(s, t, bs[i].off, if bs[i].free then bs[i].End() else bs[i].off + HEADER)
    ensures PayloadsKept(s, t, Live(bs))
  {
    hide Tiled, Live;
    TiledAt(bs, 0, |s|, i);
    forall b, k | b in Live(bs) && b.Payload() <= k < b.End() && k < |s| ensures t[k] == s[k] {
      LiveMember(bs, b);
      var j :| 0 <= j < |bs| && bs[j] == b;
    }
  }

  class Heap {
    const base: nat
    const mem: array<byte>
    ghost var blocks: Blocks

    /** The list without free neighbours, and its headers in memory. The region does not touch either end of the address space. */
    ghost predicate Valid()
      reads this, mem
    {
      Laid(blocks) && NoFreePair(blocks)
    }

    /** The list tiles the region and is what the headers in memory say. */
    ghost predicate Laid(bs: Blocks)
      reads mem
    {
      && base % 8 == 0 && base >= 32 && base + mem.Length <= WORD_LIMIT
      && ListOk(bs, mem.Length) && Represents(mem[..], base, bs)
    }

    // Header fields.

    method SetSize(off: nat, size: nat)
      requires off + HEADER <= mem.Length && size < WORD_LIMIT
      modifies mem
      ensures HeaderAt(mem[..], off) == HeaderAt(old(mem[..]), off).(size := size)
      ensures forall k :: 0 <= k < mem.Length && !(off <= k < off + HEADER) ==> mem[..][k] == old(mem[..])[k]
    {
      WordStored(mem[..], off, size);
      CopyIn(mem, off, Put64(size));
    }

    method SetFree(off: nat, free: nat)
      requires off + HEADER <= mem.Length && free < 2
      modifies mem
      ensures HeaderAt(mem[..], off) == HeaderAt(old(mem[..]), off).(free := free)
      ensures forall k :: 0 <= k < mem.Length && !(off <= k < off + HEADER) ==> mem[..][k] == old(mem[..])[k]
    {
      HalfStored(mem[..], off + 8, free);
      CopyIn(mem, off + 8, Put32(free));
    }

    method SetNext(off: nat, next: nat)
      requires off + HEADER <= mem.Length && next < WORD_LIMIT
      modifies mem
      ensures HeaderAt(mem[..], off) == HeaderAt(old(mem[..]), off).(next := next)
      ensures forall k :: 0 <= k < mem.Length && !(off <= k < off + HEADER) ==> mem[..][k] == old(mem[..])[k]
    {
      WordStored(mem[..], off + 16, next);
      CopyIn(mem, off + 16, Put64(next));
    }
  
    /** `kmalloc_init`: one free block. */
    constructor (base: nat, mem: array<byte>)
      requires base % 8 == 0 && base >= 32 && base + mem.Length <= WORD_LIMIT && mem.Length >= HEADER
      modifies mem
      ensures Valid() && this.mem == mem && this.base == base && blocks == [Block(0, mem.Length - HEADER, true)]
    {
      this.base, this.mem := base, mem;
      blocks := [Block(0, mem.Length - HEADER, true)];
      new;
      SetSize(0, mem.Length - HEADER);
      SetFree(0, 1);
      SetNext(0, 0);
      OneBlock(blocks[0]);
    }

    /** The address of the header of the first free block with at least `n` bytes; 0 if there is none. */
    method FindFree(n: nat) returns (p: nat)
      requires Valid()
      ensures
        var i := FirstFit(blocks, n);
        p == if i < |blocks| then base + blocks[i].off else 0
    {
      hide HeaderAt, Tiled;
      p := base;
      ghost var i := 0;
      assert blocks[0].off == 0 by {
        FirstAtZero(blocks, mem.Length);
      }
      while p != 0
        invariant i <= |blocks| && p == if i < |blocks| then base + blocks[i].off else 0
        invariant forall j :: 0 <= j < i ==> !(blocks[j].free && blocks[j].size >= n)
        decreases |blocks| - i
      {
        var h := HeaderAt(mem[..], p - base);
        assert h == HeaderOf(base, blocks, i);
        if h.free != 0 && h.size >= n {
          return;
        }
        p := h.next;
        i := i + 1;
      }
    }

    /** `kmalloc`: the address of a fresh payload, or 0 when no free block is large enough. */
    method Kmalloc(size: nat) returns (ptr: nat)
      requires Valid() && size < WORD_LIMIT
      modifies this, mem
      ensures Valid() && PayloadsKept(old(mem[..]), mem[..], Live(old(blocks)))
      ensures
        var n, i := Align8(size), FirstFit(old(blocks), Align8(size));
        if i == |old(blocks)| then ptr == 0 && blocks == old(blocks) && mem[..] == old(mem[..])
        else blocks == Allocated(old(blocks), i, n) && ptr == base + blocks[i].Payload()
    {
      hide HeaderAt, Tiled, Live, NoFreePair, PayloadsKept;
      Align8Enough(size);
      var n := Align8(size);
      ghost var i, bs, s := FirstFit(blocks, n), blocks, mem[..];
      var blk := FindFree(n);
      if blk == 0 {
        SamePayloads(s, Live(bs));
        return 0;
      }
      AllocatedMeaning(bs, 0, mem.Length, i, n);
      Carve(i, n, blk - base);
      PayloadsOutside(s, mem[..], bs, i);
      ptr := blk + HEADER;
    }

    /** Splits block `i`, at `off`, if it is large enough for another, and makes it live. */
    method Carve(ghost i: nat, n: nat, off: nat)
      requires Laid(blocks) && i < |blocks| && blocks[i].free && blocks[i].off == off && n <= blocks[i].size && n % 8 == 0
      modifies this, mem
      ensures Laid(blocks) && blocks == Allocated(old(blocks), i, n)
      ensures OnlyIn(old(mem[..]), mem[..], off, old(blocks)[i].End())
    {
      hide HeaderAt, Tiled, Live, ListOk;
      ghost var bs, b, s := blocks, blocks[i], mem[..];
      BlockFits(bs, mem.Length, i);
      PartsMeaning(b, n);
      var h := HeaderAt(mem[..], off);
      assert h == HeaderOf(base, bs, i);
      if h.size >= n + HEADER + 8 {
        var split := off + HEADER + n;
        SetSize(split, h.size - n - HEADER);
        SetFree(split, 1);
        SetNext(split, h.next);
        ghost var u := mem[..];
        HeaderSame(s, u, off);
        SetNext(off, base + split);
        SetSize(off, n);
        SetFree(off, 0);
        HeaderSame(u, mem[..], split);
      } else {
        SetFree(off, 0);
      }
      blocks := Allocated(bs, i, n);
      ReplaceRepresents(s, mem[..], base, bs, i, Parts(b, n));
    }

    /** `kfree`: the block becomes free, and all free neighbours are merged. Address 0 is ignored. */
    method Kfree(ptr: nat, ghost i: nat)
      requires Valid()
      requires ptr != 0 ==> i < |blocks| && !blocks[i].free && ptr == base + blocks[i].Payload()
      modifies this, mem
      ensures Valid() && PayloadsKept(old(mem[..]), mem[..], Live(blocks))
      ensures blocks == if ptr == 0 then old(blocks) else Coalesced(Released(old(blocks), i))
    {
      hide HeaderAt, Tiled, Live, NoFreePair, PayloadsKept, ListOk, Represents, Coalesced;
      ghost var bs, s := blocks, mem[..];
      if ptr == 0 {
        SamePayloads(s, Live(bs));
        return;
      }
      Release(i, ptr - base - HEADER);
      ghost var bs1, s1 := blocks, mem[..];
      CoalescePass();
      CoalescedList(bs1, mem.Length);
      KeptTwice(s, s1, mem[..], Live(blocks));
    }

    /** Sets the free flag of block `i`. */
    method Release(ghost i: nat, off: nat)
      requires Laid(blocks) && i < |blocks| && !blocks[i].free && blocks[i].off == off
      modifies this, mem
      ensures Laid(blocks) && blocks == Released(old(blocks), i)
      ensures PayloadsKept(old(mem[..]), mem[..], Live(blocks))
    {
      hide HeaderAt, Tiled, Live, ListOk, Coalesced;
      ghost var bs, s, f := blocks, mem[..], blocks[i].(free := true);
      BlockFits(bs, mem.Length, i);
      assert HeaderAt(s, off) == HeaderOf(base, bs, i);
      SetFree(off, 1);
      OneBlock(f);
      ReplaceRepresents(s, mem[..], base, bs, i, [f]);
      assert Released(bs, i) == Replaced(bs, i, [f]);
      blocks := Released(bs, i);
      PayloadsOutside(s, mem[..], bs, i);
      FewerPayloads(s, mem[..], bs, i, mem.Length);
    }

    /** The loop of `kfree`: one pass over the list that merges free neighbours. */
    method CoalescePass()
      requires Laid(blocks)
      modifies this, mem
      ensures Laid(blocks) && blocks == Coalesced(old(blocks))
      ensures PayloadsKept(old(mem[..]), mem[..], Live(old(blocks)))
    {
      hide HeaderAt, Tiled, Live, ListOk, Coalesced, PayloadsKept;
      ghost var k, bs, s := 0, blocks, mem[..];
      var cur := 0;
      FirstAtZero(blocks, mem.Length);
      SamePayloads(s, Live(bs));
      while HeaderAt(mem[..], cur).next != 0
        invariant Laid(blocks) && k < |blocks| && cur == blocks[k].off && cur + HEADER <= mem.Length
        invariant blocks[..k] + Coalesced(blocks[k..]) == Coalesced(bs)
        invariant Live(blocks) == Live(bs) && PayloadsKept(s, mem[..], Live(bs))
        decreases |blocks| - k
      {
        ghost var bs1, s1 := blocks, mem[..];
        var h := HeaderAt(mem[..], cur);
        assert h == HeaderOf(base, blocks, k);
        BlockFits(blocks, mem.Length, k);
        var h' := HeaderAt(mem[..], h.next - base);
        assert h' == HeaderOf(base, blocks, k + 1);
        if h.free != 0 && h'.free != 0 {
          SetSize(cur, h.size + HEADER + h'.size);
          SetNext(cur, h'.next);
          MergedMeaning(bs1, k, mem.Length);
          MergedRepresents(s1, mem[..], base, bs1, k);
          PayloadsOutside(s1, mem[..], bs1, k);
          KeptTwice(s, s1, mem[..], Live(bs));
          blocks := MergedAt(bs1, k);
        } else {
          CoalescedStep(blocks, k);
          cur := h.next - base;
          k := k + 1;
        }
      }
      assert HeaderAt(mem[..], cur) == HeaderOf(base, blocks, k);
      CoalescedEnd(blocks, k);
    }

    /** `kmalloc_free_size`: the payload bytes of all free blocks. */
    method FreeSize() returns (n: nat)
      requires Valid()
      ensures n == FreeBytes(blocks)
      ensures n + LiveBytes(blocks) + HEADER * |blocks| == mem.Length
    {
      hide HeaderAt, Tiled, FreeBytes, LiveBytes, NoFreePair, ListOk;
      n := 0;
      var p := base;
      ghost var i := 0;
      FirstAtZero(blocks, mem.Length);
      ListConserved(blocks, mem.Length);
      assert blocks[0..] == blocks;
      while p != 0
        invariant i <= |blocks| && p == if i < |blocks| then base + blocks[i].off else 0
        invariant n + FreeBytes(blocks[i..]) == FreeBytes(blocks)
        decreases |blocks| - i
      {
        var h := HeaderAt(mem[..], p - base);
        assert h == HeaderOf(base, blocks, i);
        FreeBytesStep(blocks, i);
        if h.free != 0 {
          n := n + h.size;
        }
        p := h.next;
        i := i + 1;
      }
      NoMoreBytes(blocks);
    }

    /** A client's store into a live payload leaves the heap, and every other live payload, alone. */
    method Store(ptr: nat, ghost i: nat, k: nat, x: byte)
      requires Valid() && i < |blocks| && !blocks[i].free && ptr == base + blocks[i].Payload() && k < blocks[i].size
      modifies mem
      ensures Valid() && ptr - base + k < mem.Length && mem[..] == old(mem[..])[ptr - base + k := x]
    {
      hide HeaderAt, Tiled, Live, ListOk;
      ghost var s := mem[..];
      BlockFits(blocks, mem.Length, i);
      mem[ptr - base + k] := x;
      forall j | 0 <= j < |blocks|
        ensures blocks[j].off + HEADER <= mem.Length && HeaderAt(mem[..], blocks[j].off) == HeaderOf(base, blocks, j)
      {
        HeaderOutside(s, mem[..], blocks, i, j);
      }
    }
  }

  lemma FirstAtZero(bs: Blocks, total: nat)
    requires ListOk(bs, total)
    ensures bs != [] && bs[0].off == 0
  {
  }

  lemma BlockFits(bs: Blocks, total: nat, i: nat)
    requires ListOk(bs, total) && i < |bs|
    ensures bs[i].End() <= total && bs[i].off % 8 == 0
    ensures i + 1 < |bs| ==> bs[i + 1].off == bs[i].End() && bs[i + 1].End() <= total
  {
    TiledFrom(bs, 0, total);
    TiledAt(bs, 0, total, i);
    assert bs[i] in bs;
  }

  lemma SamePayloads(s: seq<byte>, live: Blocks)
    ensures PayloadsKept(s, s, live)
  {
  }

  lemma CoalescedList(bs: Blocks, total: nat)
    requires ListOk(bs, total)
    ensures NoFreePair(Coalesced(bs)) && Live(Coalesced(bs)) == Live(bs)
  {
    CoalescedMeaning(bs, 0, total);
  }

  lemma KeptTwice(s: seq<byte>, t: seq<byte>, u: seq<byte>, live: Blocks)
    requires PayloadsKept(s, t, live) && PayloadsKept(t, u, live)
    ensures PayloadsKept(s, u, live)
  {
  }

  lemma FewerPayloads(s: seq<byte>, t: seq<byte>, bs: Blocks, i: nat, total: nat)
    requires ListOk(bs, total) && i < |bs| && !bs[i].free && PayloadsKept(s, t, Live(bs))
    ensures PayloadsKept(s, t, Live(Released(bs, i)))
  {
    hide Tiled, Live;
    ReleasedMeaning(bs, 0, total, i);
  }

  /** The inside of a payload belongs to no header. */
  lemma HeaderOutside(s: seq<byte>, t: seq<byte>, bs: Blocks, i: nat, j: nat)
    requires ListOk(bs, |s|) && i < |bs| && j < |bs| && |s| == |t|
    requires forall k :: 0 <= k < |s| && !(bs[i].Payload() <= k < bs[i].End()) ==> t[k] == s[k]
    ensures bs[j].off + HEADER <= |s| && HeaderAt(t, bs[j].off) == HeaderAt(s, bs[j].off)
  {
    hide Tiled, HeaderAt;
    BlockFits(bs, |s|, j);
    TiledAt(bs, 0, |s|, i);
    HeaderSame(s, t, bs[j].off);
  }

  // What the block list means for those who use the heap.

  /** Payloads of live blocks are 8-aligned, inside the region, and disjoint from each other. */
  lemma LivePayloads(bs: Blocks, total: nat, base: nat, i: nat, j: nat)
    requires ListOk(bs, total) && base % 8 == 0 && i < |bs| && j < |bs|
    ensures (base + bs[i].Payload()) % 8 == 0 && bs[i].End() <= total
    ensures i != j ==> bs[i].End() <= bs[j].Payload() || bs[j].End() <= bs[i].Payload()
  {
    hide Tiled;
    BlockFits(bs, total, i);
    TiledAt(bs, 0, total, i);
    assert bs[i] in bs;
    PayloadAligned(base, bs[i].off);
  }

  lemma PayloadAligned(base: nat, off: nat)
    requires base % 8 == 0 && off % 8 == 0
    ensures (base + (off + HEADER)) % 8 == 0
  {
  }

  /**
    The payload that an allocation returns is as large as asked for exactly when rounding up does not wrap around, and
    never by 39 bytes or more larger: what is left of a large block stays free.
   */
  lemma LargeEnough(bs: Blocks, total: nat, size: nat)
    requires ListOk(bs, total) && NoFreePair(bs) && size < WORD_LIMIT && FirstFit(bs, Align8(size)) < |bs|
    requires total <= WORD_LIMIT - 32
    ensures
      var i := FirstFit(bs, Align8(size));
      && i < |Allocated(bs, i, Align8(size))|
      && (Allocated(bs, i, Align8(size))[i].size >= size <==> size + 7 < WORD_LIMIT)
      && Allocated(bs, i, Align8(size))[i].size < size + 39
  {
    hide Tiled, Live, NoFreePair;
    Align8Enough(size);
    var i := FirstFit(bs, Align8(size));
    AllocatedMeaning(bs, 0, total, i, Align8(size));
    BlockFits(bs, total, i);
    BlockFits(Allocated(bs, i, Align8(size)), total, i);
  }

  /** Asking a fresh heap for 2^64 - 1 bytes succeeds, with a payload of no bytes. */
  lemma TooSmall(total: nat)
    requires 2 * HEADER + 8 <= total <= WORD_LIMIT - 32 && total % 8 == 0
    ensures
      var bs := [Block(0, total - HEADER, true)];
      && Align8(WORD_LIMIT - 1) == 0 && ListOk(bs, total) && NoFreePair(bs)
      && FirstFit(bs, 0) == 0 && Allocated(bs, 0, 0)[0] == Block(0, 0, false)
  {
    assert (WORD_LIMIT - 1 + 7) % WORD_LIMIT == 6;
  }

  lemma ListConserved(bs: Blocks, total: nat)
    requires ListOk(bs, total)
    ensures FreeBytes(bs) + LiveBytes(bs) + HEADER * |bs| == total
  {
    Conservation(bs, 0, total);
  }

  lemma NoMoreBytes(bs: Blocks)
    ensures FreeBytes(bs[|bs|..]) == 0
  {
  }

  // Whole runs.

  datatype Op = Alloc(size: nat) | Free(ptr: nat)

  /** The payload addresses of the live blocks. */
  ghost function Addresses(base: nat, bs: Blocks): set<nat> {
    set b | b in Live(bs) :: base + b.Payload()
  }

  /** What a call does to the block list, and what it returns; only pointers that are held are freed. */
  ghost predicate Does(base: nat, op: Op, bs: Blocks, ptr: nat, bs': Blocks) {
    match op
    case Alloc(size) =>
      var n, i := Align8(size), FirstFit(bs, Align8(size));
      if i == |bs| then ptr == 0 && bs' == bs
      else bs' == Allocated(bs, i, n) && i < |bs'| && ptr == base + bs'[i].Payload()
    case Free(p) =>
      ptr == 0 &&
      if p in Addresses(base, bs) then
        exists i :: 0 <= i < |bs| && !bs[i].free && p == base + bs[i].Payload() && bs' == Coalesced(Released(bs, i))
      else
        bs' == bs
  }

  /** The block list before each call of a run, and after the last. */
  ghost predicate IsRunOf(base: nat, ops: seq<Op>, ptrs: seq<nat>, states: seq<Blocks>) {
    && |ptrs| == |ops| && |states| == |ops| + 1
    && forall i :: 0 <= i < |ops| ==> Does(base, ops[i], states[i], ptrs[i], states[i + 1])
  }

  lemma RunMore(base: nat, ops: seq<Op>, ptrs: seq<nat>, states: seq<Blocks>, op: Op, ptr: nat, bs: Blocks)
    requires IsRunOf(base, ops, ptrs, states) && Does(base, op, states[|ops|], ptr, bs)
    ensures IsRunOf(base, ops + [op], ptrs + [ptr], states + [bs])
  {
    hide Does;
    var o, r, s := ops + [op], ptrs + [ptr], states + [bs];
    forall i | 0 <= i < |o| ensures Does(base, o[i], s[i], r[i], s[i + 1]) {
    }
  }

  /**
    Any sequence of allocations, and of frees of what is held, in any order. Once nothing is held any more,
    the heap is the single free block it was at the start.
   */
  method Run(heap: Heap, ops: seq<Op>) returns (held: set<nat>, ptrs: seq<nat>, ghost states: seq<Blocks>)
    requires heap.Valid() && Live(heap.blocks) == [] && forall i :: 0 <= i < |ops| && ops[i].Alloc? ==> ops[i].size < WORD_LIMIT
    modifies heap, heap.mem
    ensures heap.Valid() && held == Addresses(heap.base, heap.blocks)
    ensures IsRunOf(heap.base, ops, ptrs, states) && states[0] == old(heap.blocks) && states[|ops|] == heap.blocks
    ensures held == {} ==> heap.blocks == [Block(0, heap.mem.Length - HEADER, true)]
  {
    hide HeaderAt, Tiled, Live, NoFreePair, PayloadsKept, Represents, Coalesced, Does;
    held, ptrs, states := {}, [], [heap.blocks];
    for i := 0 to |ops|
      invariant heap.Valid() && held == Addresses(heap.base, heap.blocks)
      invariant IsRunOf(heap.base, ops[..i], ptrs, states) && states[0] == old(heap.blocks) && states[i] == heap.blocks
    {
      ghost var bs := heap.blocks;
      var ptr;
      ptr, held := Perform(heap, ops[i], held);
      RunMore(heap.base, ops[..i], ptrs, states, ops[i], ptr, heap.blocks);
      assert ops[..i + 1] == ops[..i] + [ops[i]];
      ptrs, states := ptrs + [ptr], states + [heap.blocks];
    }
    assert ops[..|ops|] == ops;
    if held == {} {
      if Live(heap.blocks) != [] {
        SomethingLive(heap.base, heap.blocks);
      }
      WholeRegion(heap.blocks, heap.mem.Length);
    }
  }

  method Perform(heap: Heap, op: Op, held: set<nat>) returns (ptr: nat, held': set<nat>)
    requires heap.Valid() && held == Addresses(heap.base, heap.blocks) && (op.Alloc? ==> op.size < WORD_LIMIT)
    modifies heap, heap.mem
    ensures heap.Valid() && held' == Addresses(heap.base, heap.blocks)
    ensures Does(heap.base, op, old(heap.blocks), ptr, heap.blocks)
  {
    hide HeaderAt, Tiled, Live, NoFreePair, PayloadsKept, Represents, Coalesced, Addresses;
    ghost var bs := heap.blocks;
    ptr, held' := 0, held;
    match op {
      case Alloc(size) =>
        ptr := heap.Kmalloc(size);
        if ptr != 0 {
          AllocAddress(heap.base, bs, heap.mem.Length, FirstFit(bs, Align8(size)), Align8(size));
          held' := held + {ptr};
        }
      case Free(p) =>
        if p in held {
          ghost var j := LiveIndex(heap.base, bs, p);
          heap.Kfree(p, j);
          FreeAddress(heap.base, bs, heap.mem.Length, j);
          held' := held - {p};
        }
    }
  }

  lemma LiveIndex(base: nat, bs: Blocks, ptr: nat) returns (i: nat)
    requires ptr in Addresses(base, bs)
    ensures i < |bs| && !bs[i].free && ptr == base + bs[i].Payload()
  {
    var b :| b in Live(bs) && ptr == base + b.Payload();
    LiveMember(bs, b);
    i :| 0 <= i < |bs| && bs[i] == b;
  }

  lemma AllocAddress(base: nat, bs: Blocks, total: nat, i: nat, n: nat)
    requires ListOk(bs, total) && NoFreePair(bs) && i < |bs| && bs[i].free && n <= bs[i].size
    ensures i < |Allocated(bs, i, n)|
    ensures Addresses(base, Allocated(bs, i, n)) == Addresses(base, bs) + {base + Allocated(bs, i, n)[i].Payload()}
  {
    hide Tiled, Live, NoFreePair, Allocated;
    AllocatedMeaning(bs, 0, total, i, n);
    var a, l, r := Allocated(bs, i, n), Live(bs[..i]), Live(bs[i + 1..]);
    assert forall b :: b in Live(a) <==> b in Live(bs) || b == a[i];
    assert a[i] in Live(a);
  }

  lemma FreeAddress(base: nat, bs: Blocks, total: nat, i: nat)
    requires ListOk(bs, total) && i < |bs| && !bs[i].free
    ensures Addresses(base, Coalesced(Released(bs, i))) == Addresses(base, bs) - {base + bs[i].Payload()}
  {
    hide Tiled, Live, NoFreePair, Coalesced;
    ReleasedMeaning(bs, 0, total, i);
    CoalescedMeaning(Released(bs, i), 0, total);
    var l, r := Live(bs[..i]), Live(bs[i + 1..]);
    forall b | b in l || b in r ensures b.Payload() != bs[i].Payload() {
      LiveMember(bs[..i], b);
      LiveMember(bs[i + 1..], b);
      OtherBlock(bs, total, i, b);
    }
    assert forall b :: b in Live(bs) <==> b in l || b in r || b == bs[i];
  }

  lemma OtherBlock(bs: Blocks, total: nat, i: nat, b: Block)
    requires ListOk(bs, total) && i < |bs| && (b in bs[..i] || b in bs[i + 1..])
    ensures b.Payload() != bs[i].Payload()
  {
    hide Tiled;
    TiledAt(bs, 0, total, i);
    if b in bs[..i] {
      var j :| 0 <= j < i && bs[j] == b;
    } else {
      var j :| 0 <= j < |bs| - i - 1 && bs[i + 1..][j] == b;
      assert bs[i + 1 + j] == b;
    }
  }

  lemma SomethingLive(base: nat, bs: Blocks)
    requires Live(bs) != []
    ensures Addresses(base, bs) != {}
  {
    assert base + Live(bs)[0].Payload() in Addresses(base, bs);
  }

  lemma WholeRegion(bs: Blocks, total: nat)
    requires ListOk(bs, total) && NoFreePair(bs) && Live(bs) == []
    ensures total >= HEADER && bs == [Block(0, total - HEADER, true)]
  {
    BlockFits(bs, total, 0);
    AllFree(bs, total);
  }
}
