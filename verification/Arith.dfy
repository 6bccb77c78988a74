/** Multiplication and division by a variable: the few facts that the other modules use. */
module Arith {

  lemma MulAtLeast(k: int, d: nat)
    ensures k >= 1 ==> k * d >= d
    ensures k <= -1 ==> k * d + d <= 0
  {
  }

  lemma MulSplit(a: int, b: int, d: int)
    ensures (a - b) * d == a * d - b * d
  {
  }

  lemma MulLess(a: int, b: int, d: nat)
    requires a < b
    ensures a * d + d <= b * d
  {
    MulAtLeast(b - a, d);
    MulSplit(b, a, d);
  }

  lemma MulLeq(a: int, b: int, d: nat)
    requires a <= b
    ensures a * d <= b * d
  {
    if a < b {
      MulLess(a, b, d);
    }
  }

  lemma MulNat(a: nat, b: nat)
    ensures a * b >= 0
  {
  }

  function Times(a: nat, b: nat): nat {
    MulNat(a, b);
    a * b
  }

  lemma DivMod(n: nat, d: nat)
    requires d > 0
    ensures n / d * d <= n < n / d * d + d && n % d < d
    ensures n == n / d * d + n % d
    ensures n / d >= 0 && n % d >= 0
  {
  }

  lemma DivUnique(n: nat, d: nat, q: int, r: nat)
    requires r < d && n == q * d + r
    ensures n / d == q && n % d == r
  {
    DivMod(n, d);
    MulAtLeast(n / d - q, d);
    MulSplit(n / d, q, d);
  }

  lemma DivSmall(n: nat, d: nat)
    requires n < d
    ensures n / d == 0 && n % d == n
  {
    DivUnique(n, d, 0, n);
  }

  lemma DivLess(n: nat, d: nat, k: nat)
    requires d > 0 && n < k * d
    ensures n / d < k
  {
    DivMod(n, d);
    MulAtLeast(n / d - k, d);
    MulSplit(n / d, k, d);
  }

  function Quotient(n: nat, d: nat, k: nat): (q: nat)
    requires d > 0 && n < k * d
    ensures q < k
  {
    DivMod(n, d);
    DivLess(n, d, k);
    n / d
  }

  function Remainder(n: nat, d: nat): (r: nat)
    requires d > 0
    ensures r < d
  {
    DivMod(n, d);
    n % d
  }

  /** Rounding up: a table of `total` bytes covers every offset below `total`. */
  lemma DivUpCovers(n: nat, total: nat, d: nat)
    requires n < total && d > 0
    ensures n / d < (total + d - 1) / d
  {
    DivMod(total + d - 1, d);
    DivLess(n, d, (total + d - 1) / d);
  }

  /** How many times `d` fits into `n`. */
  function Fits(n: nat, d: nat): (q: nat)
    requires d > 0
  {
    DivMod(n, d);
    n / d
  }

  lemma FitsUnique(n: nat, d: nat, q: nat, r: nat)
    requires r < d && n == q * d + r
    ensures Fits(n, d) == q && Remainder(n, d) == r
  {
    DivUnique(n, d, q, r);
  }

  /** Moving on inside a block. */
  lemma FitsSame(n: nat, i: nat, d: nat)
    requires d > 0 && Remainder(n, d) + i < d
    ensures Fits(n + i, d) == Fits(n, d) && Remainder(n + i, d) == Remainder(n, d) + i
  {
    DivMod(n, d);
    FitsUnique(n + i, d, n / d, n % d + i);
  }

  lemma FitsSmall(n: nat, d: nat)
    requires n < d
    ensures Fits(n, d) == 0 && Remainder(n, d) == n
  {
    FitsUnique(n, d, 0, n);
  }

  lemma NextFits(n: nat, d: nat)
    requires d > 0
    ensures Fits(n + 1, d) == (if Remainder(n, d) + 1 < d then Fits(n, d) else Fits(n, d) + 1)
    ensures Remainder(n + 1, d) == (if Remainder(n, d) + 1 < d then Remainder(n, d) + 1 else 0)
  {
    DivMod(n, d);
    var q, r := n / d, n % d;
    MulSplit(q + 1, q, d);
    if r + 1 < d {
      FitsUnique(n + 1, d, q, r + 1);
    } else {
      FitsUnique(n + 1, d, q + 1, 0);
    }
  }

  /** Different numbers differ in their quotient or in their remainder. */
  lemma FitsApart(m: nat, n: nat, d: nat)
    requires d > 0 && m < n
    ensures Fits(m, d) <= Fits(n, d) && (Fits(m, d) == Fits(n, d) ==> Remainder(m, d) < Remainder(n, d))
  {
    DivMod(m, d);
    DivMod(n, d);
    if n / d < m / d {
      MulLess(n / d, m / d, d);
    }
  }

  /** Pixels of `b` bytes in lines `p` bytes apart lie inside the buffer and do not overlap. */
  lemma PixelInside(x: nat, y: nat, w: nat, h: nat, p: nat, b: nat)
    requires x < w && y < h && w * b <= p
    ensures 0 <= x * b && x * b + b <= w * b && 0 <= y * p && y * p + p <= h * p
  {
    MulLess(x, w, b);
    MulLess(y, h, p);
    MulNat(x, b);
    MulNat(y, p);
  }

  lemma PixelsApart(x: nat, y: nat, x': nat, y': nat, w: nat, p: nat, b: nat)
    requires x < w && x' < w && w * b <= p && (y < y' || (y == y' && x < x'))
    ensures y * p + x * b + b <= y' * p + x' * b
  {
    MulNat(x', b);
    if y < y' {
      MulLess(y, y', p);
      MulLess(x, w, b);
    } else {
      MulLess(x, x', b);
    }
  }

  lemma TimesNext(a: nat, d: nat)
    ensures Times(a + 1, d) == Times(a, d) + d && Times(0, d) == 0
  {
    MulSplit(a + 1, a, d);
  }

  /** `k` cells of size `d` end before `n` exactly when `k` is at most the number of cells that fit. */
  lemma FitsWhole(k: nat, n: nat, d: nat)
    requires d > 0
    ensures Times(k, d) <= n <==> k <= Fits(n, d)
  {
    DivMod(n, d);
    if k <= n / d {
      MulLeq(k, n / d, d);
    } else {
      MulLess(n / d, k, d);
    }
  }

  /** `n` lies in cell `q` exactly when it is between the ends of that cell. */
  lemma FitsBetween(n: nat, d: nat, q: nat)
    requires d > 0
    ensures Times(q, d) <= n < Times(q, d) + d <==> Fits(n, d) == q
    ensures Fits(n, d) == q ==> Remainder(n, d) == n - Times(q, d)
  {
    DivMod(n, d);
    if Times(q, d) <= n < Times(q, d) + d {
      FitsUnique(n, d, q, n - Times(q, d));
    }
  }

  lemma FitsShift(n: nat, d: nat)
    requires d > 0
    ensures Fits(n + d, d) == Fits(n, d) + 1 && Remainder(n + d, d) == Remainder(n, d)
  {
    DivMod(n, d);
    MulSplit(n / d + 1, n / d, d);
    FitsUnique(n + d, d, n / d + 1, n % d);
  }

  /** The last `d` places below `n` are in the last whole cell or behind it. */
  lemma FitsBottom(y: nat, n: nat, d: nat)
    requires d > 0 && y + d >= n
    ensures Fits(y, d) + 1 >= Fits(n, d)
  {
    FitsShift(y, d);
    if n < y + d {
      FitsApart(n, y + d, d);
    }
  }

  /** Square `q` of `k` squares of size `d`. */
  lemma DotInCell(q: nat, d: nat, k: nat)
    requires q < k
    ensures Times(q, d) + d <= k * d
  {
    MulLess(q, k, d);
  }

  lemma QuotientIs(n: nat, d: nat, k: nat, q: nat)
    requires d > 0 && n < k * d && Times(q, d) <= n < Times(q, d) + d
    ensures Quotient(n, d, k) == q
  {
    DivUnique(n, d, q, n - Times(q, d));
  }

  /** The number of `bs`-byte blocks that `count` slots of `size` bytes need. */
  function BlocksFor(count: nat, size: nat, bs: nat): (r: nat)
    requires bs > 0
  {
    DivMod(count * size + bs - 1, bs);
    (count * size + bs - 1) / bs
  }

  lemma SlotBelow(index: nat, count: nat, size: nat, bs: nat)
    requires index < count && size > 0 && bs > 0
    ensures 0 <= index * size / bs < BlocksFor(count, size, bs)
  {
    MulLess(index, count, size);
    assert 0 <= index * size < count * size;
    DivMod(index * size, bs);
    DivUpCovers(index * size, count * size, bs);
  }

  /** The 32-bit product with which a table of slots is indexed. */
  function Offset32(index: nat, size: nat): (o: nat)
    ensures o < 0x1_0000_0000
  {
    MulNat(index, size);
    index * size % 0x1_0000_0000
  }

  lemma OffsetFits(index: nat, count: nat, size: nat)
    requires index < count && Times(count - 1, size) < 0x1_0000_0000
    ensures Offset32(index, size) == index * size
  {
    MulLeq(index, count - 1, size);
    MulNat(index, size);
    SmallRemainder(index * size);
  }

  lemma SmallRemainder(n: nat)
    ensures n % 0x1_0000_0000 == n <==> n < 0x1_0000_0000
  {
  }

  /** The products of all indices are exact exactly when that of the last one is below 2^32. */
  lemma OffsetsExact(count: nat, size: nat)
    requires count > 0
    ensures (forall i: nat :: i < count ==> Offset32(i, size) == Times(i, size)) <==> Times(count - 1, size) < 0x1_0000_0000
  {
    if Times(count - 1, size) < 0x1_0000_0000 {
      forall i: nat | i < count ensures Offset32(i, size) == Times(i, size) {
        OffsetFits(i, count, size);
      }
    }
  }

  /** The one of those blocks in which slot `index` starts. */
  function BlockOfSlot(index: nat, count: nat, size: nat, bs: nat): (r: nat)
    requires index < count && size > 0 && bs > 0
    ensures r < BlocksFor(count, size, bs)
  {
    SlotBelow(index, count, size, bs);
    index * size / bs
  }

  /** Slots of `size` bytes that divide a block of `bs` bytes never straddle two blocks. */
  lemma SlotInsideBlock(index: nat, size: nat, bs: nat)
    requires 0 < size <= bs && bs % size == 0
    ensures index * size % bs + size <= bs
  {
    var per := bs / size;
    DivMod(bs, size);
    MulAtLeast(per, size);
    assert per >= 1;
    DivMod(index, per);
    var q, r := index / per, index % per;
    MulLess(r, per, size);
    MulSlot(q, per, r, size);
    DivUnique(index * size, bs, q, r * size);
  }

  lemma MulSlot(q: nat, per: nat, r: nat, size: nat)
    ensures (q * per + r) * size == q * (per * size) + r * size
  {
    assert (q * per) * size == q * (per * size);
  }

  lemma SlotsApart(i: nat, j: nat, size: nat, bs: nat)
    requires bs > 0 && i < j && i * size / bs == j * size / bs
    ensures i * size % bs + size <= j * size % bs
  {
    MulLess(i, j, size);
    DivMod(i * size, bs);
    DivMod(j * size, bs);
  }

  /** Dividing by 2 and then by `q` is dividing by twice `q`. */
  lemma HalfFirst(b: nat, q: nat)
    requires q > 0
    ensures b / 2 / q == b / (2 * q)
  {
    var r, low := b / 2 / q, b / 2 % q;
    DivMod(b / 2, q);
    assert b == 2 * (b / 2) + b % 2;
    TwiceProduct(r, q);
    DivUnique(b, 2 * q, r, 2 * low + b % 2);
  }

  lemma TwiceProduct(r: nat, q: nat)
    ensures r * (2 * q) == 2 * (r * q)
  {
  }

  lemma ThreeBytes(n: nat)
    ensures n % 0x100 + 0x100 * (n / 0x100 % 0x100) + 0x1_0000 * (n / 0x1_0000 % 0x100) == n % 0x100_0000
  {
    var q := n / 0x100;
    var q' := q / 0x100;
    TwoDigits(n);
    DivUnique(n, 0x100_0000, q' / 0x100, n % 0x100 + 0x100 * (q % 0x100) + 0x1_0000 * (q' % 0x100));
  }

  lemma TwoDigits(n: nat)
    ensures n / 0x1_0000 == n / 0x100 / 0x100
  {
  }
}
