/** The physical memory manager: one bit per 4 KiB frame, and a count of the bits that are set. */
module Pmm {
  import opened Arith
  import opened Bytes
  import opened Bits

  const PAGE_SIZE: nat := 4096
  const BITMAP_BYTES: nat := 131072
  const FRAMES: nat := 8 * BITMAP_BYTES

  /** An entry of the boot loader's memory map. */
  datatype MemoryRange = MemoryRange(base: nat, length: nat, usable: bool)
  {
    /** Frame `f` is one of the range's whole pages, counted from the page in which it starts. */
    predicate Covers(f: nat) {
      usable && base / PAGE_SIZE <= f < base / PAGE_SIZE + length / PAGE_SIZE
    }
  }

  predicate Free(bits: seq<byte>, f: nat)
    requires |bits| == BITMAP_BYTES
  {
    f < FRAMES && !BitAt(bits, f)
  }

  /** Eight frames a byte, the lowest bit first; a frame is free when its bit, shifted down, is 0. */
  lemma FreeShifted(bits: seq<byte>, f: nat)
    requires |bits| == BITMAP_BYTES
    ensures Free(bits, f) <==> f < 1048576 && bits[f / 8] / Pow2(f % 8) % 2 == 0
  {
    if f < FRAMES {
      BitShift(bits[f / 8], f % 8);
    }
  }

  ghost predicate Exhausted(bits: seq<byte>)
    requires |bits| == BITMAP_BYTES
  {
    forall f :: 0 <= f < FRAMES ==> !Free(bits, f)
  }

  /** `n` consecutive free frames start at `f`. */
  predicate FreeRun(bits: seq<byte>, f: nat, n: nat)
    requires |bits| == BITMAP_BYTES
  {
    f + n <= FRAMES && forall g :: f <= g < f + n ==> Free(bits, g)
  }

  /** A run of one is a free frame, and a longer one is two runs one behind the other. */
  lemma RunsJoin(bits: seq<byte>, f: nat, n: nat, m: nat)
    requires |bits| == BITMAP_BYTES && f + n <= FRAMES
    ensures FreeRun(bits, f, 0)
    ensures FreeRun(bits, f, 1) <==> Free(bits, f)
    ensures FreeRun(bits, f, n + m) <==> FreeRun(bits, f, n) && FreeRun(bits, f + n, m)
  {
    hide BitAt;
  }

  /** The bitmap with the `n` bits from `f` on set. */
  function WithRun(bits: seq<byte>, f: nat, n: nat): (r: seq<byte>)
    requires |bits| == BITMAP_BYTES && f + n <= FRAMES
    ensures |r| == BITMAP_BYTES
  {
    if n == 0 then bits else WithBit(WithRun(bits, f, n - 1), f + n - 1)
  }

  lemma {:induction false} WithRunSetsRun(bits: seq<byte>, f: nat, n: nat, g: nat)
    requires |bits| == BITMAP_BYTES && f + n <= FRAMES && g < FRAMES
    ensures Free(WithRun(bits, f, n), g) <==> Free(bits, g) && !(f <= g < f + n)
  {
    if n != 0 {
      WithRunSetsRun(bits, f, n - 1, g);
      WithBitChangesOne(WithRun(bits, f, n - 1), f + n - 1, g);
    }
  }

  lemma {:induction false} AllUsed(bits: seq<byte>, n: nat)
    requires n <= 8 * |bits| && forall i :: 0 <= i < |bits| ==> bits[i] == 0xFF
    ensures ZeroBits(bits, n) == 0
    ensures forall m :: 0 <= m < n ==> BitAt(bits, m)
  {
    if n != 0 {
      AllUsed(bits, n - 1);
      FullByte(bits, (n - 1) / 8);
    }
  }

  /**
    The frames that a usable range covers lie inside it exactly when it starts at a page or is shorter than one; when
    it starts at a page, they are all the frames inside it.
   */
  lemma CoversInside(r: MemoryRange)
    ensures (forall f: nat :: r.Covers(f) ==> r.base <= 4096 * f && 4096 * f + 4096 <= r.base + r.length)
      <==> !r.usable || r.base % 4096 == 0 || r.length < 4096
    ensures r.base % 4096 == 0 ==>
      forall f: nat :: r.Covers(f) <==> r.usable && r.base <= 4096 * f && 4096 * f + 4096 <= r.base + r.length
  {
    assert r.Covers(r.base / 4096) <==> r.usable && r.length >= 4096;
  }

  /** Some usable range among the first `n` covers the frame. */
  predicate Usable(ranges: seq<MemoryRange>, n: nat, f: nat)
    requires n <= |ranges|
  {
    exists i :: 0 <= i < n && ranges[i].Covers(f)
  }

  /** Besides what was free in `s`, frames `[a, b)` are free in `s'`. */
  ghost predicate Freed(s: seq<byte>, s': seq<byte>, a: nat, b: nat) {
    && |s| == |s'| == BITMAP_BYTES
    && forall f :: 0 <= f < FRAMES ==> (Free(s', f) <==> Free(s, f) || a <= f < b)
  }

  lemma FreedNone(s: seq<byte>, a: nat)
    requires |s| == BITMAP_BYTES
    ensures Freed(s, s, a, a)
  {
  }

  lemma FreedNext(s: seq<byte>, s': seq<byte>, a: nat, b: nat)
    requires Freed(s, s', a, b) && a <= b < FRAMES
    ensures Free(s', b) ==> Freed(s, s', a, b + 1)
    ensures Freed(s, WithoutBit(s', b), a, b + 1)
  {
    hide BitAt, WithoutBit;
    forall f | 0 <= f < FRAMES ensures Free(WithoutBit(s', b), f) <==> f == b || Free(s', f) {
      WithoutBitChangesOne(s', b, f);
    }
  }

  lemma FreedBeyond(s: seq<byte>, s': seq<byte>, a: nat, b: nat, c: nat)
    requires Freed(s, s', a, b) && FRAMES <= b <= c
    ensures Freed(s, s', a, c)
  {
    hide Free;
  }

  lemma FreedMeans(s: seq<byte>, s': seq<byte>, a: nat, b: nat)
    requires Freed(s, s', a, b)
    ensures |s| == |s'| == BITMAP_BYTES
    ensures forall f :: 0 <= f < FRAMES ==> (Free(s', f) <==> Free(s, f) || a <= f < b)
  {
  }

  class Pmm {
    const bitmap: array<byte>
    var used: nat

    /** The count equals the number of set bits. */
    ghost predicate Valid()
      reads this, bitmap
    {
      bitmap.Length == BITMAP_BYTES && used == FRAMES - ZeroBits(bitmap[..], FRAMES)
    }

    ghost predicate IsFree(f: nat)
      requires Valid()
      reads this, bitmap
    {
      Free(bitmap[..], f)
    }

    method Set(f: nat)
      requires Valid() && IsFree(f)
      modifies this, bitmap
      ensures Valid() && bitmap[..] == WithBit(old(bitmap[..]), f) && used == old(used) + 1
    {
      ZeroBitsWithBit(bitmap[..], f, FRAMES);
      ghost var s := bitmap[..];
      bitmap[f / 8] := SetByteBit(bitmap[f / 8], f % 8);
      assert bitmap[..] == WithBit(s, f);
      used := used + 1;
    }

    method Clear(f: nat)
      requires Valid() && f < FRAMES && !IsFree(f)
      modifies this, bitmap
      ensures Valid() && bitmap[..] == WithoutBit(old(bitmap[..]), f) && used == old(used) - 1
    {
      ZeroBitsWithoutBit(bitmap[..], f, FRAMES);
      ghost var s := bitmap[..];
      bitmap[f / 8] := ClearByteBit(bitmap[f / 8], f % 8);
      assert bitmap[..] == WithoutBit(s, f);
      used := used - 1;
    }

    method Test(f: nat) returns (b: bool)
      requires Valid() && f < FRAMES
      ensures b <==> !IsFree(f)
    {
      b := Bit(bitmap[f / 8], f % 8);
    }

    /** `pmm_init`: exactly the frames of usable ranges are free, however the ranges overlap. */
    constructor (ranges: seq<MemoryRange>)
      ensures Valid() && fresh(bitmap)
      ensures forall f :: 0 <= f < FRAMES ==> (IsFree(f) <==> Usable(ranges, |ranges|, f))
    {
      bitmap := new byte[BITMAP_BYTES](_ => 0xFF);
      used := FRAMES;
      new;
      AllUsed(bitmap[..], FRAMES);
      for i := 0 to |ranges|
        invariant Valid()
        invariant forall f :: 0 <= f < FRAMES ==> (IsFree(f) <==> Usable(ranges, i, f))
      {
        if ranges[i].usable {
          Release(ranges[i]);
        }
        assert forall f :: 0 <= f < FRAMES ==> (Usable(ranges, i + 1, f) <==> Usable(ranges, i, f) || ranges[i].Covers(f));
      }
    }

    /** Frees the whole pages of one usable range, those that are not free already. */
    method Release(range: MemoryRange)
      requires Valid() && range.usable
      modifies this, bitmap
      ensures Valid()
      ensures forall f :: 0 <= f < FRAMES ==> (IsFree(f) <==> old(IsFree(f)) || range.Covers(f))
    {
      hide ZeroBits, BitAt, WithoutBit, Freed;
      ghost var s0 := bitmap[..];
      var pages, first := range.length / PAGE_SIZE, range.base / PAGE_SIZE;
      FreedNone(s0, first);
      for pg := 0 to pages
        invariant Valid() && Freed(s0, bitmap[..], first, first + pg)
      {
        var idx := first + pg;
        if idx >= FRAMES {
          FreedBeyond(s0, bitmap[..], first, idx, first + pages);
          break;
        }
        var taken := Test(idx);
        FreedNext(s0, bitmap[..], first, idx);
        if taken {
          Clear(idx);
        }
      }
      FreedMeans(s0, bitmap[..], first, first + pages);
    }

    /** The lowest free frame, now used; address 0 if there is none. */
    method Alloc() returns (phys: nat)
      requires Valid()
      modifies this, bitmap
      ensures Valid()
      ensures
        var s := old(bitmap[..]);
        if exists f :: Free(s, f)
        then phys % 4096 == 0 && Free(s, phys / 4096) && (forall g :: 0 <= g < phys / 4096 ==> !Free(s, g))
          && bitmap[..] == WithBit(s, phys / PAGE_SIZE) && used == old(used) + 1
        else phys == 0 && bitmap[..] == s && used == old(used)
    {
      hide WithBit, ZeroBits, BitAt;
      ghost var s := bitmap[..];
      for i := 0 to FRAMES
        invariant Valid() && bitmap[..] == s && used == old(used)
        invariant forall f :: 0 <= f < i ==> !Free(s, f)
      {
        var taken := Test(i);
        if !taken {
          Set(i);
          return i * PAGE_SIZE;
        }
      }
      phys := 0;
    }

    /** Gives a frame back; an address past the last frame, or of a free frame, changes nothing. */
    method FreeFrame(phys: nat)
      requires Valid()
      modifies this, bitmap
      ensures Valid()
      ensures forall f :: 0 <= f < FRAMES ==>
        (Free(bitmap[..], f) <==> Free(old(bitmap[..]), f) || f == phys / PAGE_SIZE)
      ensures used == old(used) - if phys / PAGE_SIZE < FRAMES && !old(IsFree(phys / PAGE_SIZE)) then 1 else 0
    {
      hide WithoutBit, ZeroBits;
      var i := phys / PAGE_SIZE;
      if i >= FRAMES {
        return;
      }
      var taken := Test(i);
      if taken {
        ghost var s := bitmap[..];
        Clear(i);
        forall f | 0 <= f < FRAMES ensures IsFree(f) <==> f == i || Free(s, f) {
          WithoutBitChangesOne(s, i, f);
        }
      }
    }

    /** The lowest base of `n` consecutive free frames, which are used now; 0 if there is none. */
    method AllocN(n: nat) returns (phys: nat)
      requires Valid()
      modifies this, bitmap
      ensures Valid()
      ensures
        var s := old(bitmap[..]);
        if exists f :: FreeRun(s, f, n)
        then phys % 4096 == 0 && FreeRun(s, phys / 4096, n) && (forall g :: 0 <= g < phys / 4096 ==> !FreeRun(s, g, n))
          && bitmap[..] == WithRun(s, phys / PAGE_SIZE, n) && used == old(used) + n
        else phys == 0 && bitmap[..] == s && used == old(used)
    {
      hide WithBit, ZeroBits, WithRun, BitAt;
      ghost var s := bitmap[..];
      var i := 0;
      while i + n <= FRAMES
        invariant Valid() && bitmap[..] == s && used == old(used)
        invariant forall f :: 0 <= f < i ==> !FreeRun(s, f, n)
      {
        var fits := RunFree(i, n);
        if fits {
          SetRun(i, n);
          return i * PAGE_SIZE;
        }
        i := i + 1;
      }
      phys := 0;
    }

    method RunFree(i: nat, n: nat) returns (ok: bool)
      requires Valid() && i + n <= FRAMES
      ensures ok <==> FreeRun(bitmap[..], i, n)
    {
      hide BitAt;
      var j := 0;
      while j < n
        invariant j <= n && forall g :: i <= g < i + j ==> Free(bitmap[..], g)
      {
        var taken := Test(i + j);
        if taken {
          return false;
        }
        j := j + 1;
      }
      ok := true;
    }

    method SetRun(i: nat, n: nat)
      requires Valid() && i + n <= FRAMES && FreeRun(bitmap[..], i, n)
      modifies this, bitmap
      ensures Valid() && bitmap[..] == WithRun(old(bitmap[..]), i, n) && used == old(used) + n
    {
      hide WithBit, ZeroBits;
      ghost var s := bitmap[..];
      for k := 0 to n
        invariant Valid() && bitmap[..] == WithRun(s, i, k) && used == old(used) + k
      {
        assert Free(s, i + k);
        WithRunSetsRun(s, i, k, i + k);
        Set(i + k);
      }
    }
  }
}
