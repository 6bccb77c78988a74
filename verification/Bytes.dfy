/** Bytes, and the little-endian integers that the kernel's packed structures hold. */
module Bytes {

  type byte = x: int | 0 <= x < 0x100

  /** uint64_t */
  type word = x: int | 0 <= x < WORD_LIMIT

  const WORD_LIMIT: nat := 0x1_0000_0000_0000_0000

  /** 64-bit addition, which wraps around. */
  function Sum64(a: word, b: word): (r: word)
    ensures r == if a + b < WORD_LIMIT then a + b else a + b - WORD_LIMIT
  {
    (a + b) % WORD_LIMIT
  }

  function U16(s: seq<byte>, a: nat): (r: nat)
    requires a + 2 <= |s|
    ensures r < 0x1_0000
  {
    s[a] as int + 0x100 * (s[a + 1] as int)
  }

  function U32(s: seq<byte>, a: nat): (r: nat)
    requires a + 4 <= |s|
    ensures r < 0x1_0000_0000
  {
    s[a] as int + 0x100 * (s[a + 1] as int) + 0x1_0000 * (s[a + 2] as int) + 0x100_0000 * (s[a + 3] as int)
  }

  function U64(s: seq<byte>, a: nat): (r: nat)
    requires a + 8 <= |s|
    ensures r < 0x1_0000_0000_0000_0000
  {
    U32(s, a) + 0x1_0000_0000 * U32(s, a + 4)
  }

  function Put16(n: nat): (b: seq<byte>)
    requires n < 0x1_0000
    ensures |b| == 2 && U16(b, 0) == n
  {
    [n % 0x100, n / 0x100]
  }

  function Put32(n: nat): (b: seq<byte>)
    requires n < 0x1_0000_0000
    ensures |b| == 4 && U32(b, 0) == n
  {
    var n1 := n / 0x100;
    var n2 := n1 / 0x100;
    [n % 0x100, n1 % 0x100, n2 % 0x100, n2 / 0x100]
  }

  function Put64(n: nat): (b: seq<byte>)
    requires n < 0x1_0000_0000_0000_0000
    ensures |b| == 8 && U64(b, 0) == n
  {
    var lo, hi := Put32(n % 0x1_0000_0000), Put32(n / 0x1_0000_0000);
    var b := lo + hi;
    assert U32(b, 0) == U32(lo, 0) && U32(b, 4) == U32(hi, 0);
    b
  }

  /** Multi-byte fields are stored lowest byte first. */
  lemma LittleEndian16(n: nat)
    requires n < 0x1_0000
    ensures Put16(n) == [n % 256, n / 256]
  {
  }

  lemma LittleEndian32(n: nat)
    requires n < 0x1_0000_0000
    ensures Put32(n) == [n % 256, n / 256 % 256, n / 65536 % 256, n / 16777216]
  {
    assert n / 65536 == n / 256 / 256 && n / 16777216 == n / 256 / 256 / 256;
  }

  lemma LittleEndian64(n: nat)
    requires n < 0x1_0000_0000_0000_0000
    ensures Put64(n) == Put32(n % 0x1_0000_0000) + Put32(n / 0x1_0000_0000)
  {
  }

  /** The bytes of `s` after `b` has been copied over it at offset `a`. */
  function Splice(s: seq<byte>, a: nat, b: seq<byte>): (r: seq<byte>)
    requires a + |b| <= |s|
    ensures |r| == |s|
    ensures forall i :: 0 <= i < |s| ==> r[i] == if a <= i < a + |b| then b[i - a] else s[i]
  {
    s[..a] + b + s[a + |b|..]
  }

  lemma SubSlice<T>(s: seq<T>, a: nat, b: nat, c: nat, d: nat)
    requires a <= b <= |s| && c <= d <= b - a
    ensures s[a..b][c..d] == s[a + c..a + d]
  {
    var u, l, r := s[a..b], s[a..b][c..d], s[a + c..a + d];
    forall i | 0 <= i < d - c ensures l[i] == r[i] {
      assert l[i] == u[c + i] == s[a + (c + i)];
    }
    assert l == r;
  }

  lemma WordIn(data: seq<byte>, at: nat)
    requires at + 8 <= |data|
    ensures U64(data, at) == U64(data[at..at + 8], 0)
  {
    QuadIn(data, at, at + 8, 0);
    QuadIn(data, at, at + 8, 4);
  }

  lemma QuadIn(data: seq<byte>, from: nat, to: nat, at: nat)
    requires from + at + 4 <= to <= |data|
    ensures U32(data[from..to], at) == U32(data, from + at)
  {
  }

  lemma HalfIn(data: seq<byte>, at: nat)
    requires at + 2 <= |data|
    ensures U16(data, at) == U16(data[at..at + 2], 0)
  {
  }

  lemma SameSuffix<T>(s: seq<T>, o: nat, t: seq<T>, p: nat, len: nat)
    requires o + len <= |s| && p + len <= |t| && s[o..] == t[p..]
    ensures s[o..o + len] == t[p..p + len] && s[o + len..] == t[p + len..]
  {
    var u, v := s[o..], t[p..];
    assert forall i :: 0 <= i < len ==> s[o..o + len][i] == u[i] && t[p..p + len][i] == v[i];
    assert forall i :: 0 <= i < |u| - len ==> s[o + len..][i] == u[len..][i] && t[p + len..][i] == v[len..][i];
  }

  /** Two copies, the second right behind the first, are one copy. */
  lemma SpliceAt(s: seq<byte>, a: nat, b: seq<byte>)
    requires a + |b| <= |s|
    ensures Splice(s, a, b)[a..a + |b|] == b
  {
  }

  lemma SpliceApart(s: seq<byte>, a: nat, b: seq<byte>, c: nat, d: nat)
    requires a + |b| <= |s| && c <= d <= |s| && (d <= a || a + |b| <= c)
    ensures Splice(s, a, b)[c..d] == s[c..d]
  {
    var l, r := Splice(s, a, b)[c..d], s[c..d];
    forall i | 0 <= i < d - c ensures l[i] == r[i] {
    }
  }

  lemma SpliceJoin(s: seq<byte>, a: nat, b: seq<byte>, c: seq<byte>)
    requires a + |b| + |c| <= |s|
    ensures Splice(Splice(s, a, b), a + |b|, c) == Splice(s, a, b + c)
  {
    var l, r := Splice(Splice(s, a, b), a + |b|, c), Splice(s, a, b + c);
    forall i | 0 <= i < |s| ensures l[i] == r[i] {
    }
  }

  function Zeros(n: nat): (z: seq<byte>)
    ensures |z| == n && forall i :: 0 <= i < n ==> z[i] == 0
  {
    seq(n, _ => 0)
  }

  /** Copies `b` into the buffer at offset `a` (kmemcpy with a buffer as its destination). */
  method CopyIn(buf: array<byte>, a: nat, b: seq<byte>)
    requires a + |b| <= buf.Length
    modifies buf
    ensures buf[..] == Splice(old(buf[..]), a, b)
  {
    for i := 0 to |b|
      invariant buf[..] == Splice(old(buf[..]), a, b[..i])
    {
      buf[a + i] := b[i];
      assert b[..i + 1] == b[..i] + [b[i]];
    }
    assert b[..|b|] == b;
  }
}
