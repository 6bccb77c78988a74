/** The block list of the kernel heap: blocks of 24 bytes of header and a payload, one behind the other. */
module HeapBlocks {
  const HEADER: nat := 24

  datatype Block = Block(off: nat, size: nat, free: bool)
  {
    function End(): nat { off + HEADER + size }
    function Payload(): nat { off + HEADER }
  }

  type Blocks = seq<Block>

  /** The blocks cover `[from, to)` exactly. */
  predicate Tiled(bs: Blocks, from: nat, to: nat) {
    if bs == [] then from == to else bs[0].off == from && Tiled(bs[1..], bs[0].End(), to)
  }

  /** No two neighbours are both free. */
  predicate NoFreePair(bs: Blocks) {
    forall i :: 0 <= i < |bs| - 1 ==> !(bs[i].free && bs[i + 1].free)
  }

  function Live(bs: Blocks): Blocks {
    if bs == [] then [] else (if bs[0].free then [] else [bs[0]]) + Live(bs[1..])
  }

  /** The payload bytes of free blocks. */
  function FreeBytes(bs: Blocks): nat {
    if bs == [] then 0 else (if bs[0].free then bs[0].size else 0) + FreeBytes(bs[1..])
  }

  function LiveBytes(bs: Blocks): nat {
    if bs == [] then 0 else (if bs[0].free then 0 else bs[0].size) + LiveBytes(bs[1..])
  }

  lemma FreeBytesStep(bs: Blocks, i: nat)
    requires i < |bs|
    ensures FreeBytes(bs[i..]) == (if bs[i].free then bs[i].size else 0) + FreeBytes(bs[i + 1..])
  {
    assert bs[i..][1..] == bs[i + 1..];
  }

  /** Nothing is lost: free bytes, live bytes and headers add up to the region. */
  lemma {:induction false} Conservation(bs: Blocks, from: nat, to: nat)
    requires Tiled(bs, from, to)
    ensures FreeBytes(bs) + LiveBytes(bs) + HEADER * |bs| == to - from
  {
    if bs != [] {
      Conservation(bs[1..], bs[0].End(), to);
    }
  }

  lemma {:induction false} TiledFrom(bs: Blocks, from: nat, to: nat)
    requires Tiled(bs, from, to)
    ensures from <= to && forall i :: 0 <= i < |bs| ==> from <= bs[i].off && bs[i].End() <= to
  {
    if bs != [] {
      TiledFrom(bs[1..], bs[0].End(), to);
      forall i | 0 <= i < |bs| ensures from <= bs[i].off && bs[i].End() <= to {
        if i > 0 {
          assert bs[i] == bs[1..][i - 1];
        }
      }
    }
  }

  /** A block ends where the next begins, or the region ends; blocks do not overlap. */
  lemma {:induction false} TiledAt(bs: Blocks, from: nat, to: nat, i: nat)
    requires Tiled(bs, from, to) && i < |bs|
    ensures bs[i].End() == if i + 1 < |bs| then bs[i + 1].off else to
    ensures Tiled(bs[..i], from, bs[i].off) && Tiled(bs[i + 1..], bs[i].End(), to)
    ensures forall j :: 0 <= j < |bs| && j != i ==> bs[j].End() <= bs[i].off || bs[i].End() <= bs[j].off
  {
    if i == 0 {
      TiledFrom(bs[1..], bs[0].End(), to);
      assert forall j :: 1 <= j < |bs| ==> bs[j] == bs[1..][j - 1];
    } else {
      TiledAt(bs[1..], bs[0].End(), to, i - 1);
      assert bs[..i] == [bs[0]] + bs[1..][..i - 1];
      assert bs[i + 1..] == bs[1..][i..];
      TiledFrom(bs[1..], bs[0].End(), to);
      assert forall j :: 1 <= j < |bs| ==> bs[j] == bs[1..][j - 1];
    }
  }

  lemma {:induction false} TiledConcat(a: Blocks, b: Blocks, from: nat, mid: nat, to: nat)
    requires Tiled(a, from, mid) && Tiled(b, mid, to)
    ensures Tiled(a + b, from, to)
  {
    if a == [] {
      assert a + b == b;
    } else {
      TiledConcat(a[1..], b, a[0].End(), mid, to);
      assert (a + b)[1..] == a[1..] + b;
    }
  }

  lemma Assoc(a: Blocks, b: Blocks, c: Blocks)
    ensures (a + b) + c == a + (b + c)
  {
  }

  lemma Around(bs: Blocks, i: nat)
    requires i < |bs|
    ensures bs == (bs[..i] + [bs[i]]) + bs[i + 1..]
  {
  }

  lemma {:induction false} LiveConcat(a: Blocks, b: Blocks)
    ensures Live(a + b) == Live(a) + Live(b)
  {
    if a == [] {
      assert a + b == b;
    } else {
      LiveConcat(a[1..], b);
      assert (a + b)[1..] == a[1..] + b;
      Assoc(if a[0].free then [] else [a[0]], Live(a[1..]), Live(b));
    }
  }

  lemma {:induction false} LiveMember(bs: Blocks, b: Block)
    ensures b in Live(bs) <==> b in bs && !b.free
  {
    if bs != [] {
      LiveMember(bs[1..], b);
    }
  }

  lemma OneBlock(b: Block)
    ensures Tiled([b], b.off, b.End()) && Live([b]) == if b.free then [] else [b]
  {
    assert [b][1..] == [];
  }

  lemma TwoBlocks(a: Block, b: Block)
    requires a.End() == b.off
    ensures Tiled([a, b], a.off, b.End())
    ensures Live([a, b]) == (if a.free then [] else [a]) + (if b.free then [] else [b])
  {
    OneBlock(b);
    assert [a, b][1..] == [b];
  }

  /** The list with block `i` replaced by the blocks `m`. */
  function Replaced(bs: Blocks, i: nat, m: Blocks): Blocks
    requires i < |bs|
  {
    bs[..i] + m + bs[i + 1..]
  }

  lemma ReplacedMeaning(bs: Blocks, from: nat, to: nat, i: nat, m: Blocks)
    requires Tiled(bs, from, to) && i < |bs| && Tiled(m, bs[i].off, bs[i].End())
    ensures Tiled(Replaced(bs, i, m), from, to)
    ensures Live(Replaced(bs, i, m)) == Live(bs[..i]) + Live(m) + Live(bs[i + 1..])
  {
    hide Tiled, Live;
    var l, r := bs[..i], bs[i + 1..];
    TiledAt(bs, from, to, i);
    TiledConcat(l, m, from, bs[i].off, bs[i].End());
    TiledConcat(l + m, r, from, bs[i].End(), to);
    LiveConcat(l, m);
    LiveConcat(l + m, r);
  }

  lemma LiveAround(bs: Blocks, i: nat)
    requires i < |bs|
    ensures Live(bs) == Live(bs[..i]) + (if bs[i].free then [] else [bs[i]]) + Live(bs[i + 1..])
  {
    hide Live;
    var l, r := bs[..i], bs[i + 1..];
    OneBlock(bs[i]);
    Around(bs, i);
    LiveConcat(l + [bs[i]], r);
    LiveConcat(l, [bs[i]]);
  }

  // Splitting: what kmalloc does to the list.

  /** The first free block with at least `n` bytes; |bs| if there is none. */
  function FirstFit(bs: Blocks, n: nat): (i: nat)
    ensures i <= |bs|
    ensures i < |bs| ==> bs[i].free && bs[i].size >= n
    ensures forall j :: 0 <= j < i ==> !(bs[j].free && bs[j].size >= n)
  {
    if bs == [] then 0
    else if bs[0].free && bs[0].size >= n then 0
    else 1 + FirstFit(bs[1..], n)
  }

  /** What becomes of a free block of which `n` bytes are asked for. */
  function Parts(b: Block, n: nat): Blocks
    requires n <= b.size
  {
    if b.size >= n + HEADER + 8
    then [Block(b.off, n, false), Block(b.off + HEADER + n, b.size - n - HEADER, true)]
    else [b.(free := false)]
  }

  /** Block `i` made live, with what is too much split off as a free block. */
  function Allocated(bs: Blocks, i: nat, n: nat): Blocks
    requires i < |bs| && n <= bs[i].size
  {
    Replaced(bs, i, Parts(bs[i], n))
  }

  lemma PartsMeaning(b: Block, n: nat)
    requires n <= b.size
    ensures Tiled(Parts(b, n), b.off, b.End()) && Live(Parts(b, n)) == [Parts(b, n)[0]]
  {
    hide Tiled, Live;
    var p := Parts(b, n);
    if |p| == 2 {
      TwoBlocks(p[0], p[1]);
    } else {
      OneBlock(p[0]);
    }
  }

  lemma PartsTight(b: Block, n: nat)
    requires n <= b.size
    ensures n <= Parts(b, n)[0].size < n + 32
    ensures |Parts(b, n)| > 1 ==> Parts(b, n)[0].size == n && |Parts(b, n)| == 2 && Parts(b, n)[1].free && Parts(b, n)[1].size >= 8
  {
  }

  /**
    The live blocks are those there were, and the new one, of at least the size asked for and less than a header and
    8 bytes more. If the block was split, the new one has exactly that size, and a free one of 8 bytes or more follows.
   */
  lemma AllocatedMeaning(bs: Blocks, from: nat, to: nat, i: nat, n: nat)
    requires Tiled(bs, from, to) && NoFreePair(bs) && i < |bs| && bs[i].free && n <= bs[i].size
    ensures
      var a := Allocated(bs, i, n);
      && Tiled(a, from, to) && NoFreePair(a) && i < |a|
      && a[i].off == bs[i].off && n <= a[i].size < n + 32 && !a[i].free
      && (|a| != |bs| ==> |a| == |bs| + 1 && a[i].size == n && a[i + 1].free && a[i + 1].size >= 8)
      && Live(a) == Live(bs[..i]) + [a[i]] + Live(bs[i + 1..])
      && Live(bs) == Live(bs[..i]) + Live(bs[i + 1..])
  {
    hide Tiled, Live, NoFreePair;
    PartsMeaning(bs[i], n);
    PartsTight(bs[i], n);
    ReplacedMeaning(bs, from, to, i, Parts(bs[i], n));
    LiveAround(bs, i);
    AllocatedPairs(bs, i, n);
  }

  lemma AllocatedPairs(bs: Blocks, i: nat, n: nat)
    requires NoFreePair(bs) && i < |bs| && bs[i].free && n <= bs[i].size
    ensures NoFreePair(Allocated(bs, i, n))
  {
    var a, m := Allocated(bs, i, n), Parts(bs[i], n);
    forall j | 0 <= j < |a| - 1 ensures !(a[j].free && a[j + 1].free) {
      if j >= i + |m| - 1 {
        var k := j - (|m| - 1);
        assert a[j + 1] == bs[k + 1];
        assert a[j].free ==> bs[k].free;
      } else if j + 1 < i {
        assert a[j] == bs[j] && a[j + 1] == bs[j + 1];
      }
    }
  }

  // Merging: what kfree does to the list.

  function Merged(a: Block, b: Block): Block {
    Block(a.off, a.size + HEADER + b.size, a.free)
  }

  /** One pass over the list, merging each free block with the free blocks behind it. */
  function Coalesced(bs: Blocks): Blocks
    decreases |bs|
  {
    if |bs| <= 1 then bs
    else if bs[0].free && bs[1].free then Coalesced([Merged(bs[0], bs[1])] + bs[2..])
    else [bs[0]] + Coalesced(bs[1..])
  }

  /** The pass keeps the region and the live blocks, and leaves no two free neighbours. */
  lemma {:induction false} CoalescedMeaning(bs: Blocks, from: nat, to: nat)
    requires Tiled(bs, from, to)
    ensures
      var c := Coalesced(bs);
      && Tiled(c, from, to) && Live(c) == Live(bs) && NoFreePair(c)
      && (bs == [] <==> c == []) && (bs != [] ==> c[0].free == bs[0].free)
    decreases |bs|
  {
    if |bs| <= 1 {
    } else if bs[0].free && bs[1].free {
      var ms := [Merged(bs[0], bs[1])] + bs[2..];
      assert ms[1..] == bs[2..] == bs[1..][1..];
      CoalescedMeaning(ms, from, to);
    } else {
      CoalescedMeaning(bs[1..], bs[0].End(), to);
      var d := Coalesced(bs[1..]);
      var c := [bs[0]] + d;
      assert c[1..] == d;
      forall i | 0 <= i < |c| - 1 ensures !(c[i].free && c[i + 1].free) {
        if i > 0 {
          assert c[i] == d[i - 1] && c[i + 1] == d[i];
        }
      }
    }
  }

  /** A list without free neighbours is determined by its region and its live blocks. */
  lemma {:induction false} NormalForm(a: Blocks, b: Blocks, from: nat, to: nat)
    requires Tiled(a, from, to) && Tiled(b, from, to) && NoFreePair(a) && NoFreePair(b) && Live(a) == Live(b)
    ensures a == b
    decreases |a| + |b|
  {
    if a == [] || b == [] {
      OneEmpty(a, b, from, to);
    } else {
      SameHead(a, b, from, to);
      NormalForm(a[1..], b[1..], a[0].End(), to);
      assert a == [a[0]] + a[1..] && b == [b[0]] + b[1..];
    }
  }

  lemma OneEmpty(a: Blocks, b: Blocks, from: nat, to: nat)
    requires Tiled(a, from, to) && Tiled(b, from, to) && (a == [] || b == [])
    ensures a == b
  {
    TiledFrom(a, from, to);
    TiledFrom(b, from, to);
  }

  /** Where the first live block of a list begins; the end of the region if there is none. */
  function FirstLive(bs: Blocks, to: nat): nat {
    if Live(bs) == [] then to else Live(bs)[0].off
  }

  /** A free first block reaches up to the first live one. */
  lemma FreeHead(a: Blocks, from: nat, to: nat)
    requires Tiled(a, from, to) && NoFreePair(a) && a != [] && a[0].free
    ensures a[0].End() == FirstLive(a, to)
  {
    hide Tiled, Live, NoFreePair;
    FirstOff(a, from, to);
    FirstOff(a[1..], a[0].End(), to);
    if |a| > 1 {
      FirstPair(a);
      FirstOff(a[1..][1..], a[1].End(), to);
    }
  }

  lemma FirstOff(a: Blocks, from: nat, to: nat)
    requires Tiled(a, from, to)
    ensures if a == [] then from == to && Live(a) == [] else
      && a[0].off == from && Tiled(a[1..], a[0].End(), to)
      && Live(a) == (if a[0].free then Live(a[1..]) else [a[0]] + Live(a[1..]))
  {
  }

  lemma FirstPair(a: Blocks)
    requires NoFreePair(a) && |a| > 1 && a[0].free
    ensures !a[1].free
  {
    assert !(a[0].free && a[0 + 1].free);
  }

  lemma NoFreePairTail(a: Blocks)
    requires NoFreePair(a) && a != []
    ensures NoFreePair(a[1..])
  {
    forall i | 0 <= i < |a[1..]| - 1 ensures !(a[1..][i].free && a[1..][i + 1].free) {
      assert a[1..][i] == a[i + 1] && a[1..][i + 1] == a[i + 1 + 1];
    }
  }

  lemma SameHead(a: Blocks, b: Blocks, from: nat, to: nat)
    requires Tiled(a, from, to) && Tiled(b, from, to) && NoFreePair(a) && NoFreePair(b) && Live(a) == Live(b)
    requires a != [] && b != []
    ensures a[0] == b[0] && Live(a[1..]) == Live(b[1..])
    ensures NoFreePair(a[1..]) && NoFreePair(b[1..])
  {
    hide Tiled, Live, NoFreePair;
    NoFreePairTail(a);
    NoFreePairTail(b);
    FirstBlock(a, from, to);
    FirstBlock(b, from, to);
    if !a[0].free {
      assert Live(a)[0] == a[0] && Live(a)[1..] == Live(a[1..]);
      assert Live(b)[0] == b[0] && Live(b)[1..] == Live(b[1..]);
    }
  }

  /** The first block of a normal list, from the region and the live blocks alone. */
  lemma FirstBlock(a: Blocks, from: nat, to: nat)
    requires Tiled(a, from, to) && NoFreePair(a) && a != []
    ensures a[0].free <==> FirstLive(a, to) != from
    ensures a[0].free ==> a[0].off == from && a[0].End() == FirstLive(a, to) && Live(a[1..]) == Live(a)
    ensures !a[0].free ==> Live(a) == [a[0]] + Live(a[1..])
  {
    if a[0].free {
      FreeHead(a, from, to);
    }
  }

  // Restoration.

  function Released(bs: Blocks, i: nat): Blocks
    requires i < |bs|
  {
    bs[i := bs[i].(free := true)]
  }

  lemma ReleasedMeaning(bs: Blocks, from: nat, to: nat, i: nat)
    requires Tiled(bs, from, to) && i < |bs| && !bs[i].free
    ensures Tiled(Released(bs, i), from, to)
    ensures Live(Released(bs, i)) == Live(bs[..i]) + Live(bs[i + 1..])
    ensures Live(bs) == Live(bs[..i]) + [bs[i]] + Live(bs[i + 1..])
  {
    hide Tiled, Live;
    var f := bs[i].(free := true);
    OneBlock(f);
    ReplacedMeaning(bs, from, to, i, [f]);
    LiveAround(bs, i);
    assert Released(bs, i) == Replaced(bs, i, [f]);
  }

  /** Freeing what has just been allocated restores the very same list. */
  lemma AllocateThenFree(bs: Blocks, from: nat, to: nat, i: nat, n: nat)
    requires Tiled(bs, from, to) && NoFreePair(bs) && i < |bs| && bs[i].free && n <= bs[i].size
    ensures i < |Allocated(bs, i, n)| && Coalesced(Released(Allocated(bs, i, n), i)) == bs
  {
    hide Live, Coalesced, NoFreePair;
    var a := Allocated(bs, i, n);
    AllocatedMeaning(bs, from, to, i, n);
    ReleasedMeaning(a, from, to, i);
    AllocatedSides(bs, i, n);
    CoalescedMeaning(Released(a, i), from, to);
    NormalForm(Coalesced(Released(a, i)), bs, from, to);
  }

  lemma AllocatedSides(bs: Blocks, i: nat, n: nat)
    requires i < |bs| && bs[i].free && n <= bs[i].size
    ensures i < |Allocated(bs, i, n)|
    ensures Live(Allocated(bs, i, n)[..i]) == Live(bs[..i])
    ensures Live(Allocated(bs, i, n)[i + 1..]) == Live(bs[i + 1..])
  {
    var a := Allocated(bs, i, n);
    assert a[..i] == bs[..i];
    if bs[i].size >= n + HEADER + 8 {
      assert a[i + 1..][0].free;
      assert a[i + 1..][1..] == bs[i + 1..];
    } else {
      assert a[i + 1..] == bs[i + 1..];
    }
  }

  /** A heap in which nothing is live is one free block, whatever happened before. */
  lemma AllFree(bs: Blocks, total: nat)
    requires Tiled(bs, 0, total) && NoFreePair(bs) && total >= HEADER && Live(bs) == []
    ensures bs == [Block(0, total - HEADER, true)]
  {
    var one := [Block(0, total - HEADER, true)];
    assert one[1..] == [];
    NormalForm(bs, one, 0, total);
  }
}
