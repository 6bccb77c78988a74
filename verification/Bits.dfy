/** Bitmaps: bit `n` of a byte sequence is bit `n % 8` of byte `n / 8`. */
module Bits {
  import opened Arith
  import opened Bytes

  function Pow2(w: nat): (r: nat)
    ensures r > 0
  {
    if w == 0 then 1 else 2 * Pow2(w - 1)
  }

  /** `(b >> i) & 1`, shifting one place at a time. */
  predicate Bit(b: nat, i: nat) {
    if i == 0 then b % 2 == 1 else Bit(b / 2, i - 1)
  }

  /** `b | (1 << i)` */
  function SetBit(b: nat, i: nat): (r: nat)
    ensures b <= r
  {
    if i == 0 then b / 2 * 2 + 1 else 2 * SetBit(b / 2, i - 1) + b % 2
  }

  /** `b & ~(1 << i)` */
  function ClearBit(b: nat, i: nat): (r: nat)
    ensures r <= b
  {
    if i == 0 then b / 2 * 2 else 2 * ClearBit(b / 2, i - 1) + b % 2
  }

  /** Shifting by `i` places at once. */
  lemma {:induction false} BitShift(b: nat, i: nat)
    ensures b / Pow2(i) >= 0
    ensures Bit(b, i) <==> b / Pow2(i) % 2 == 1
  {
    if i != 0 {
      BitShift(b / 2, i - 1);
      HalfFirst(b, Pow2(i - 1));
    }
  }

  lemma {:induction false} SetBitFits(b: nat, i: nat, w: nat)
    requires b < Pow2(w) && i < w
    ensures SetBit(b, i) < Pow2(w)
  {
    if i != 0 {
      SetBitFits(b / 2, i - 1, w - 1);
      assert SetBit(b / 2, i - 1) + 1 <= Pow2(w - 1);
    } else {
      assert b / 2 + 1 <= Pow2(w - 1);
    }
  }

  lemma {:induction false} SetBitChangesOne(b: nat, i: nat, j: nat)
    ensures Bit(SetBit(b, i), j) <==> (i == j || Bit(b, j))
  {
    if i != 0 && j != 0 {
      SetBitChangesOne(b / 2, i - 1, j - 1);
    }
  }

  lemma {:induction false} ClearBitChangesOne(b: nat, i: nat, j: nat)
    ensures Bit(ClearBit(b, i), j) <==> (i != j && Bit(b, j))
  {
    if i != 0 && j != 0 {
      ClearBitChangesOne(b / 2, i - 1, j - 1);
    }
  }

  /** A byte equal to 0xFF has no clear bit: skipping it loses nothing. */
  lemma {:induction false} AllOnes(w: nat, i: nat)
    requires i < w
    ensures Bit(Pow2(w) - 1, i)
  {
    if i != 0 {
      AllOnes(w - 1, i - 1);
    }
  }

  lemma ByteWidth()
    ensures Pow2(8) == 0x100
  {
    assert Pow2(4) == 16;
  }

  function SetByteBit(b: byte, i: nat): (r: byte)
    requires i < 8
  {
    ByteWidth();
    SetBitFits(b, i, 8);
    SetBit(b, i)
  }

  function ClearByteBit(b: byte, i: nat): (r: byte)
  {
    ClearBit(b, i)
  }

  predicate BitAt(s: seq<byte>, n: nat)
    requires n < 8 * |s|
  {
    Bit(s[n / 8], n % 8)
  }

  function WithBit(s: seq<byte>, n: nat): (r: seq<byte>)
    requires n < 8 * |s|
    ensures |r| == |s|
  {
    s[n / 8 := SetByteBit(s[n / 8], n % 8)]
  }

  function WithoutBit(s: seq<byte>, n: nat): (r: seq<byte>)
    requires n < 8 * |s|
    ensures |r| == |s|
  {
    s[n / 8 := ClearByteBit(s[n / 8], n % 8)]
  }

  lemma WithBitChangesOne(s: seq<byte>, n: nat, m: nat)
    requires n < 8 * |s| && m < 8 * |s|
    ensures BitAt(WithBit(s, n), m) <==> (n == m || BitAt(s, m))
  {
    SetBitChangesOne(s[n / 8], n % 8, m % 8);
  }

  lemma WithoutBitChangesOne(s: seq<byte>, n: nat, m: nat)
    requires n < 8 * |s| && m < 8 * |s|
    ensures BitAt(WithoutBit(s, n), m) <==> (n != m && BitAt(s, m))
  {
    ClearBitChangesOne(s[n / 8], n % 8, m % 8);
  }

  /** The number of clear bits among the first `n`. */
  function ZeroBits(s: seq<byte>, n: nat): (z: nat)
    requires n <= 8 * |s|
    ensures z <= n
  {
    if n == 0 then 0 else ZeroBits(s, n - 1) + if BitAt(s, n - 1) then 0 else 1
  }

  lemma {:induction false} ZeroBitsSame(s: seq<byte>, t: seq<byte>, n: nat)
    requires n <= 8 * |s| && |s| == |t|
    requires forall m :: 0 <= m < n ==> BitAt(s, m) == BitAt(t, m)
    ensures ZeroBits(s, n) == ZeroBits(t, n)
  {
    if n != 0 {
      ZeroBitsSame(s, t, n - 1);
    }
  }

  /** Claiming a clear bit uses up exactly one. */
  lemma {:induction false} ZeroBitsWithBit(s: seq<byte>, k: nat, n: nat)
    requires k < n <= 8 * |s| && !BitAt(s, k)
    ensures ZeroBits(s, n) >= 1
    ensures ZeroBits(WithBit(s, k), n) == ZeroBits(s, n) - 1
  {
    WithBitChangesOne(s, k, n - 1);
    if k == n - 1 {
      forall m | 0 <= m < k ensures BitAt(s, m) == BitAt(WithBit(s, k), m) {
        WithBitChangesOne(s, k, m);
      }
      ZeroBitsSame(s, WithBit(s, k), k);
    } else {
      ZeroBitsWithBit(s, k, n - 1);
    }
  }

  /** Releasing a used bit gives back exactly one. */
  lemma {:induction false} ZeroBitsWithoutBit(s: seq<byte>, k: nat, n: nat)
    requires k < n <= 8 * |s| && BitAt(s, k)
    ensures ZeroBits(WithoutBit(s, k), n) == ZeroBits(s, n) + 1
  {
    WithoutBitChangesOne(s, k, n - 1);
    if k == n - 1 {
      forall m | 0 <= m < k ensures BitAt(s, m) == BitAt(WithoutBit(s, k), m) {
        WithoutBitChangesOne(s, k, m);
      }
      ZeroBitsSame(s, WithoutBit(s, k), k);
    } else {
      ZeroBitsWithoutBit(s, k, n - 1);
    }
  }

  /**
    The scan of the ext2 bitmap allocators: sets the first clear bit of the first `bytes` bytes and
    returns its number, or returns -1 if all of them are set.
   */
  method ClaimFirstClear(bitmap: array<byte>, bytes: nat) returns (n: int)
    requires bytes <= bitmap.Length
    modifies bitmap
    ensures -1 <= n < 8 * bytes
    ensures n == -1 ==> bitmap[..] == old(bitmap[..]) && forall m :: 0 <= m < 8 * bytes ==> BitAt(bitmap[..], m)
    ensures n >= 0 ==>
      && !BitAt(old(bitmap[..]), n) && bitmap[..] == WithBit(old(bitmap[..]), n)
      && forall m :: 0 <= m < n ==> BitAt(old(bitmap[..]), m)
  {
    ghost var s := bitmap[..];
    for i := 0 to bytes
      invariant bitmap[..] == s
      invariant forall m :: 0 <= m < 8 * i ==> BitAt(s, m)
    {
      if bitmap[i] == 0xFF {
        FullByte(s, i);
        continue;
      }
      for bit := 0 to 8
        invariant bitmap[..] == s
        invariant forall m :: 0 <= m < 8 * i + bit ==> BitAt(s, m)
      {
        PlaceInByte(i, bit);
        if !Bit(bitmap[i], bit) {
          n := 8 * i + bit;
          bitmap[i] := SetByteBit(bitmap[i], bit);
          assert bitmap[..] == WithBit(s, n);
          return;
        }
      }
    }
    n := -1;
  }

  lemma PlaceInByte(i: nat, bit: nat)
    requires bit < 8
    ensures (8 * i + bit) / 8 == i && (8 * i + bit) % 8 == bit
  {
  }

  lemma FullByte(s: seq<byte>, i: nat)
    requires i < |s| && s[i] == 0xFF
    ensures forall m :: 8 * i <= m < 8 * i + 8 ==> BitAt(s, m)
  {
    ByteWidth();
    forall m | 8 * i <= m < 8 * i + 8 ensures BitAt(s, m) {
      AllOnes(8, m % 8);
    }
  }
}
