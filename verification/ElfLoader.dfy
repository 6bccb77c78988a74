/** The program loader: segments of an ELF image become pages of an address space. */
module ElfLoader {
  import opened Arith
  import opened Bytes
  import P = Pmm
  import opened PageTables
  import opened TableRights
  import opened Vmm
  import opened VmmSpaces

  const PT_LOAD: nat := 1
  const ELF_MAGIC: nat := 0x464C457F
  const ET_EXEC: nat := 2
  const EM_X86_64: nat := 0x3E
  const HEADER_BYTES: nat := 64
  const PHDR_BYTES: nat := 56
  const USER_LIMIT: nat := 0x8000_0000_0000

  /** The fields of a program header that the loader reads. */
  datatype Segment = Segment(kind: nat, flags: nat, offset: nat, vaddr: nat, filesz: nat, memsz: nat)
  {
    /** `p_type == PT_LOAD && p_memsz != 0` */
    predicate Loadable() {
      kind == PT_LOAD && memsz != 0
    }

    /** The pages of the segment, by page number: `[FirstPage, EndPage)`. */
    function FirstPage(): nat { vaddr / 4096 }
    function EndPage(): nat { (vaddr + memsz + 4095) / 4096 }

    /** Present and user; writable if PF_W. */
    function PageFlags(): nat {
      if flags / 2 % 2 == 1 then PRESENT + USER + WRITE else PRESENT + USER
    }

    /** The byte that virtual address `va` must hold: from the file below p_filesz, 0 elsewhere on the pages. */
    function ByteAt(data: seq<byte>, va: nat): byte
      requires offset + filesz <= |data|
    {
      if vaddr <= va < vaddr + filesz then data[offset + (va - vaddr)] else 0
    }

    /** The contents of page `n`. */
    function Contents(data: seq<byte>, n: nat): (f: seq<byte>)
      requires offset + filesz <= |data|
      ensures |f| == 4096 && forall b :: 0 <= b < 4096 ==> f[b] == ByteAt(data, 4096 * n + b)
    {
      seq<byte>(4096, b requires 0 <= b < 4096 => ByteAt(data, 4096 * n + b))
    }
  }

  function PhOff(data: seq<byte>): nat requires |data| >= HEADER_BYTES { U64(data, 32) }
  function PhEntSize(data: seq<byte>): nat requires |data| >= HEADER_BYTES { U16(data, 54) }
  function PhNum(data: seq<byte>): nat requires |data| >= HEADER_BYTES { U16(data, 56) }
  function EntryPoint(data: seq<byte>): nat requires |data| >= HEADER_BYTES { U64(data, 24) }

  /** The checks that the loader makes before it touches anything. */
  predicate HeaderOk(data: seq<byte>) {
    && |data| >= HEADER_BYTES && U32(data, 0) == ELF_MAGIC && data[4] == 2
    && U16(data, 18) == EM_X86_64 && U16(data, 16) == ET_EXEC
  }

  function HeaderOffset(data: seq<byte>, i: nat): nat
    requires |data| >= HEADER_BYTES
  {
    PhOff(data) + Times(i, PhEntSize(data))
  }

  function SegmentAt(data: seq<byte>, i: nat): Segment
    requires |data| >= HEADER_BYTES && HeaderOffset(data, i) + PHDR_BYTES <= |data|
  {
    var o := HeaderOffset(data, i);
    Segment(U32(data, o), U32(data, o + 4), U64(data, o + 8), U64(data, o + 16), U64(data, o + 32), U64(data, o + 40))
  }

  // What the fields are in bytes.

  /** The identification 7F 45 4C 46 and class 2, type 2, machine 3E, and no other header is accepted. */
  lemma HeaderBytes(data: seq<byte>)
    ensures HeaderOk(data) <==>
      |data| >= 64 && data[..4] == [0x7F, 0x45, 0x4C, 0x46] && data[4] == 2 && data[16..20] == [2, 0, 0x3E, 0]
  {
    if |data| >= 64 {
      assert data[..4] == [data[0], data[1], data[2], data[3]];
      assert data[16..20] == [data[16], data[17], data[18], data[19]];
    }
  }

  /** The header structure, field by field: the loader reads the entry point and the place and number of segments. */
  lemma HeaderFields(data: seq<byte>, ident: seq<byte>, kind: nat, machine: nat, version: nat, entry: nat, phoff: nat, shoff: nat,
                     flags: nat, ehsize: nat, phentsize: nat, phnum: nat, rest: seq<byte>)
    requires |ident| == 16 && kind < 0x1_0000 && machine < 0x1_0000 && version < 0x1_0000_0000
    requires entry < WORD_LIMIT && phoff < WORD_LIMIT && shoff < WORD_LIMIT && flags < 0x1_0000_0000
    requires ehsize < 0x1_0000 && phentsize < 0x1_0000 && phnum < 0x1_0000 && |rest| >= 6
    requires data == ident + Put16(kind) + Put16(machine) + Put32(version) + Put64(entry) + Put64(phoff) + Put64(shoff)
                   + Put32(flags) + Put16(ehsize) + Put16(phentsize) + Put16(phnum) + rest
    ensures |data| >= HEADER_BYTES && EntryPoint(data) == entry && PhOff(data) == phoff
    ensures PhEntSize(data) == phentsize && PhNum(data) == phnum
  {
    hide Put16, Put32, Put64, U16, U32, U64;
    assert data[24..32] == Put64(entry);
    assert data[32..40] == Put64(phoff);
    assert data[54..56] == Put16(phentsize);
    assert data[56..58] == Put16(phnum);
    WordIn(data, 24);
    WordIn(data, 32);
    HalfIn(data, 54);
    HalfIn(data, 56);
  }

  /** The program header structure, field by field, at the place that the header gives for segment `i`. */
  lemma SegmentFields(data: seq<byte>, i: nat, kind: nat, flags: nat, offset: nat, vaddr: nat, paddr: nat, filesz: nat, memsz: nat, align: nat)
    requires |data| >= HEADER_BYTES && PhOff(data) + i * PhEntSize(data) + 56 <= |data| && 0 <= PhOff(data) + i * PhEntSize(data)
    requires kind < 0x1_0000_0000 && flags < 0x1_0000_0000 && offset < WORD_LIMIT && vaddr < WORD_LIMIT && paddr < WORD_LIMIT
    requires filesz < WORD_LIMIT && memsz < WORD_LIMIT && align < WORD_LIMIT
    requires data[PhOff(data) + i * PhEntSize(data)..PhOff(data) + i * PhEntSize(data) + 56]
          == Put32(kind) + Put32(flags) + Put64(offset) + Put64(vaddr) + Put64(paddr) + Put64(filesz) + Put64(memsz) + Put64(align)
    ensures HeaderOffset(data, i) + PHDR_BYTES <= |data|
    ensures SegmentAt(data, i) == Segment(kind, flags, offset, vaddr, filesz, memsz)
  {
    hide Put32, Put64, U16, U32, U64, PhOff, PhEntSize;
    var o := HeaderOffset(data, i);
    var h := Put32(kind) + Put32(flags) + Put64(offset) + Put64(vaddr) + Put64(paddr) + Put64(filesz) + Put64(memsz) + Put64(align);
    assert data[o..o + 56] == h;
    FieldIn(data, o, h, 0, 4);
    FieldIn(data, o, h, 4, 4);
    FieldIn(data, o, h, 8, 8);
    FieldIn(data, o, h, 16, 8);
    FieldIn(data, o, h, 32, 8);
    FieldIn(data, o, h, 40, 8);
    assert h[0..4] == Put32(kind) && h[4..8] == Put32(flags) && h[8..16] == Put64(offset);
    assert h[16..24] == Put64(vaddr) && h[32..40] == Put64(filesz) && h[40..48] == Put64(memsz);
    QuadIn(data, o, o + 4, 0);
    QuadIn(data, o + 4, o + 8, 0);
    WordIn(data, o + 8);
    WordIn(data, o + 16);
    WordIn(data, o + 32);
    WordIn(data, o + 40);
  }

  lemma FieldIn(data: seq<byte>, o: nat, h: seq<byte>, at: nat, len: nat)
    requires o + 56 <= |data| && |h| == 56 && data[o..o + 56] == h && at + len <= 56
    ensures data[o + at..o + at + len] == h[at..at + len]
  {
    SubSlice(data, o, o + 56, at, at + len);
  }

  /** The pages of a segment are those that share a byte with its `[vaddr, vaddr + memsz)`. */
  lemma SegmentRange(s: Segment, k: nat)
    requires s.memsz > 0
    ensures s.FirstPage() <= k < s.EndPage() <==> 4096 * k < s.vaddr + s.memsz && s.vaddr < 4096 * k + 4096
  {
  }

  /** What the loader takes for granted about the program headers. */
  ghost predicate ImageOk(data: seq<byte>) {
    && |data| >= HEADER_BYTES
    && (forall i :: 0 <= i < PhNum(data) ==> HeaderOffset(data, i) + PHDR_BYTES <= |data| && SegmentOk(data, SegmentAt(data, i)))
    && forall i, j :: 0 <= i < j < PhNum(data) ==> PagesApart(SegmentAt(data, i), SegmentAt(data, j))
  }

  /** The file range lies in the image, and the pages in the lower half. */
  predicate SegmentOk(data: seq<byte>, s: Segment) {
    s.Loadable() ==> s.offset + s.filesz <= |data| && s.vaddr + s.memsz + 4095 < USER_LIMIT
  }

  /** The segments share no page. */
  predicate PagesApart(s: Segment, t: Segment) {
    s.Loadable() && t.Loadable() ==> s.EndPage() <= t.FirstPage() || t.EndPage() <= s.FirstPage()
  }

  // Pages of the lower half that hold given bytes.

  function UserPage(n: nat): Page {
    PageOf(4096 * n)
  }

  lemma UserPageInjective(n: nat, k: nat)
    requires 4096 * n < USER_LIMIT && 4096 * k < USER_LIMIT
    ensures UserPage(n) == UserPage(k) <==> n == k
    ensures UserPage(n).i4 < 256
  {
    hide PageOf;
    SamePage(4096 * n, 4096 * k);
    LowerIndex(4096 * n);
  }

  lemma LowerIndex(va: nat)
    requires va < USER_LIMIT
    ensures PageOf(va).i4 < 256
  {
  }

  /** Page `n` of the space is mapped, with these flags, to frame `g`, which is no table and holds `bytes`. */
  ghost predicate HoldsIn(m: Ram, kinds: Forest, bits: seq<byte>, root: nat, n: nat, flags: nat, bytes: Frame, g: nat)
    requires |bits| == P.BITMAP_BYTES
  {
    && g < |m| && g < P.FRAMES && !P.Free(bits, g) && g !in kinds
    && Walk(m, root, UserPage(n)) == 4096 * g + flags && m[g] == bytes
  }

  /** Page `n` holds `bytes` in a frame that was free when `base` was the bitmap. */
  ghost predicate Holds(m: Ram, kinds: Forest, bits: seq<byte>, base: seq<byte>, root: nat, n: nat, flags: nat, bytes: Frame)
    requires |bits| == |base| == P.BITMAP_BYTES
  {
    exists g: nat :: HoldsIn(m, kinds, bits, root, n, flags, bytes, g) && P.Free(base, g)
  }

  /** What is in use in `base` is in use in `bits`. */
  ghost predicate UseGrows(base: seq<byte>, bits: seq<byte>) {
    && |base| == |bits| == P.BITMAP_BYTES
    && forall f :: 0 <= f < P.FRAMES && !P.Free(base, f) ==> !P.Free(bits, f)
  }

  /** The byte at a virtual address, read through the page tables; -1 if nothing is mapped there. */
  function ReadVirt(m: Ram, root: nat, va: nat): int {
    var e := Walk(m, root, PageOf(va));
    if e == 0 || Target(e) >= |m| then -1 else m[Target(e)][va % 4096]
  }

  lemma ReadHeldByte(m: Ram, kinds: Forest, bits: seq<byte>, root: nat, va: nat, flags: nat, bytes: Frame, g: nat)
    requires |bits| == P.BITMAP_BYTES && FlagsOk(flags) && HoldsIn(m, kinds, bits, root, va / 4096, flags, bytes, g)
    ensures ReadVirt(m, root, va) == bytes[va % 4096]
  {
    hide PageOf, Walk, P.Free;
    SamePage(va, 4096 * (va / 4096));
    assert Target(4096 * g + flags) == g;
  }

  /** Mapping another lower-half page, and writing a frame that was free, disturb no held page. */
  lemma HeldPageKept(m: Ram, kinds: Forest, bits: seq<byte>, m': Ram, kinds': Forest, bits': seq<byte>, m'': Ram,
                     root: nat, n: nat, e: nat, t: nat, k: nat, flags: nat, bytes: Frame, g: nat)
    requires |bits| == |bits'| == P.BITMAP_BYTES && |m| == |m'| == |m''| == P.FRAMES
    requires Remapped(m, kinds, m', kinds', root, UserPage(n), e) && root in kinds && kinds[root] == Root
    requires Untouched(m, kinds, bits, m', kinds', bits') && P.Free(bits, t) && t !in kinds'
    requires forall g :: 0 <= g < |m| && g != t ==> m''[g] == m'[g]
    requires 4096 * n < USER_LIMIT && 4096 * k < USER_LIMIT && k != n
    requires HoldsIn(m, kinds, bits, root, k, flags, bytes, g)
    ensures HoldsIn(m'', kinds', bits', root, k, flags, bytes, g)
  {
    hide PageOf, Walk, P.Free, IsForest, Shares;
    UserPageInjective(n, k);
    OtherTableWalks(m', m'', kinds', t, root, UserPage(k));
  }

  /** Every walk of every other space is as before, and so is which upper-half tables any two spaces share. */
  ghost predicate OthersKept(m: Ram, kinds: Forest, m': Ram, kinds': Forest, root: nat) {
    && (forall f :: f in kinds ==> f in kinds' && kinds'[f] == kinds[f])
    && (forall r, p: Page :: r in kinds && kinds[r] == Root && r != root && p.Ok() ==> Walk(m', r, p) == Walk(m, r, p))
    && forall r, s, i :: r in kinds && s in kinds && kinds[r] == Root && kinds[s] == Root && r != s && 0 <= i < 512 ==>
      (Shares(m', r, s, i) <==> Shares(m, r, s, i))
  }

  /**
    What loading one page does to the rest: every other walk of the space, mapped or not, is as before, and every
    other page that was held still is, in the same frame.
   */
  ghost predicate PageStep(m: Ram, kinds: Forest, bits: seq<byte>, m': Ram, kinds': Forest, bits': seq<byte>, root: nat, n: nat) {
    && UseGrows(bits, bits')
    && (forall k, flags, bytes: Frame, g ::
        k != n && 0 <= k && 4096 * k < USER_LIMIT && HoldsIn(m, kinds, bits, root, k, flags, bytes, g) ==>
        HoldsIn(m', kinds', bits', root, k, flags, bytes, g))
    && (forall p: Page :: p.Ok() && p != UserPage(n) ==> Walk(m', root, p) == Walk(m, root, p))
    && Untouched(m, kinds, bits, m', kinds', bits')
    && OthersKept(m, kinds, m', kinds', root)
  }

  datatype Outcome = Halted | Failed | Success(entry: nat)

  lemma ExtendsRoot(m: Ram, kinds: Forest, m': Ram, kinds': Forest, root: nat)
    requires Extends(m, kinds, m', kinds') && root in kinds
    ensures root in kinds' && kinds'[root] == kinds[root]
  {
  }

  /** Clears a frame and copies into it, byte by byte, what the file has for page `n`. */
  method FillPage(vmm: Vmm, t: nat, data: seq<byte>, seg: Segment, n: nat)
    requires vmm.Valid() && t < P.FRAMES && t !in vmm.kinds && seg.offset + seg.filesz <= |data|
    modifies vmm`ram
    ensures vmm.Valid() && vmm.ram == old(vmm.ram)[t := seg.Contents(data, n)]
  {
    hide IsForest, P.Free;
    ghost var m := vmm.ram;
    ghost var c := seg.Contents(data, n);
    vmm.FillFrame(t, Zeros(4096));
    for b := 0 to 4096
      invariant vmm.Valid() && |vmm.ram| == |m| && forall g :: 0 <= g < |m| && g != t ==> vmm.ram[g] == m[g]
      invariant forall k :: 0 <= k < 4096 ==> vmm.ram[t][k] == if k < b then c[k] else 0
    {
      var va := 4096 * n + b;
      if va < seg.vaddr {
        continue;
      }
      var off := va - seg.vaddr;
      if off >= seg.filesz {
        break;
      }
      vmm.FillFrame(t, vmm.ram[t][b := data[seg.offset + off]]);
    }
    assert vmm.ram[t] == c;
  }

  /** Maps a fresh frame at page `n` and fills it with the bytes that the segment has there. */
  method LoadPage(vmm: Vmm, root: nat, data: seq<byte>, seg: Segment, n: nat, ghost base: seq<byte>) returns (outcome: Outcome)
    requires vmm.Valid() && vmm.IsRoot(root) && seg.offset + seg.filesz <= |data| && 4096 * n < USER_LIMIT
    requires UseGrows(base, vmm.pmm.bitmap[..])
    modifies vmm, vmm.pmm, vmm.pmm.bitmap
    ensures vmm.Valid() && vmm.IsRoot(root)
    ensures !outcome.Success? ==> P.Exhausted(vmm.pmm.bitmap[..])
    ensures outcome.Success? ==>
      && PageStep(old(vmm.ram), old(vmm.kinds), old(vmm.pmm.bitmap[..]), vmm.ram, vmm.kinds, vmm.pmm.bitmap[..], root, n)
      && Holds(vmm.ram, vmm.kinds, vmm.pmm.bitmap[..], base, root, n, seg.PageFlags(), seg.Contents(data, n))
      && AllLevels(old(vmm.ram), vmm.ram, root, UserPage(n), seg.PageFlags())
  {
    hide PageOf, Walk, P.Free, IsForest, PageStep, HoldsIn, Untouched, AllLevels, SameRights;
    var t;
    outcome, t := MapFresh(vmm, root, n, seg.PageFlags());
    if outcome.Success? {
      ghost var m1, kinds1, bits1 := vmm.ram, vmm.kinds, vmm.pmm.bitmap[..];
      FillPage(vmm, t, data, seg, n);
      assert vmm.pmm.bitmap[..] == bits1;
      FrameRights(m1, kinds1, root, t, seg.Contents(data, n));
      SameThenAll(old(vmm.ram), m1, vmm.ram, root, UserPage(n), seg.PageFlags());
      PageFilled(old(vmm.ram), old(vmm.kinds), old(vmm.pmm.bitmap[..]), m1, kinds1, bits1, vmm.ram, root, n, t,
                 seg.PageFlags(), seg.Contents(data, n));
    }
  }

  /** A frame that is no table has no say in the rights of the tables. */
  lemma FrameRights(m: Ram, kinds: Forest, root: nat, t: nat, bytes: Frame)
    requires IsForest(m, kinds) && root in kinds && kinds[root] == Root && t < |m| && t !in kinds
    ensures SameRights(m, m[t := bytes], root)
  {
    hide SlotOk, SameRights;
    ForestRights(m, m[t := bytes], kinds, root);
  }

  /** Page `n` is mapped to frame `t`, which was free, and nothing else is different. */
  ghost predicate FreshlyMapped(m: Ram, kinds: Forest, bits: seq<byte>, m1: Ram, kinds1: Forest, bits1: seq<byte>,
                                root: nat, n: nat, t: nat, flags: nat) {
    && |bits| == |bits1| == P.BITMAP_BYTES && |m| == |m1| == P.FRAMES && t < P.FRAMES && FlagsOk(flags)
    && P.Free(bits, t) && !P.Free(bits1, t) && t !in kinds1 && UseGrows(bits, bits1)
    && Remapped(m, kinds, m1, kinds1, root, UserPage(n), 4096 * t + flags) && root in kinds && kinds[root] == Root
    && Untouched(m, kinds, bits, m1, kinds1, bits1)
  }

  /** Allocates a frame and maps it at page `n`. */
  method MapFresh(vmm: Vmm, root: nat, n: nat, flags: nat) returns (outcome: Outcome, t: nat)
    requires vmm.Valid() && vmm.IsRoot(root) && 4096 * n < USER_LIMIT && FlagsOk(flags)
    modifies vmm, vmm.pmm, vmm.pmm.bitmap
    ensures vmm.Valid() && vmm.IsRoot(root)
    ensures !outcome.Success? ==> P.Exhausted(vmm.pmm.bitmap[..])
    ensures outcome.Success? ==>
      && FreshlyMapped(old(vmm.ram), old(vmm.kinds), old(vmm.pmm.bitmap[..]), vmm.ram, vmm.kinds, vmm.pmm.bitmap[..], root, n, t, flags)
      && AllLevels(old(vmm.ram), vmm.ram, root, UserPage(n), flags)
  {
    hide PageOf, Walk, P.Free, IsForest, Remapped, Extends, AllLevels;
    ghost var m, kinds, bits := vmm.ram, vmm.kinds, vmm.pmm.bitmap[..];
    t := vmm.AllocFrame();
    if t == 0 {
      return Failed, 0;
    }
    ghost var bits1 := vmm.pmm.bitmap[..];
    var halted := vmm.Map(root, 4096 * n, 4096 * t, flags);
    if halted {
      ExtendsRoot(m, kinds, vmm.ram, vmm.kinds, root);
      return Halted, t;
    }
    RemappedRoot(m, kinds, vmm.ram, vmm.kinds, root, UserPage(n), 4096 * t + flags);
    assert Leaf(4096 * t, flags) == 4096 * t + flags;
    outcome := Success(0);
  }

  lemma PageFilled(m: Ram, kinds: Forest, bits: seq<byte>, m1: Ram, kinds1: Forest, bits1: seq<byte>, m': Ram,
                   root: nat, n: nat, t: nat, flags: nat, bytes: Frame)
    requires FreshlyMapped(m, kinds, bits, m1, kinds1, bits1, root, n, t, flags)
    requires m' == m1[t := bytes] && 4096 * n < USER_LIMIT
    ensures PageStep(m, kinds, bits, m', kinds1, bits1, root, n)
    ensures HoldsIn(m', kinds1, bits1, root, n, flags, bytes, t)
  {
    hide PageOf, Walk, P.Free, IsForest, Shares, Entry;
    UserPageInjective(n, n);
    assert Untouched(m, kinds, bits, m', kinds1, bits1);
    forall k, fl, bs: Frame, g | k != n && 0 <= k && 4096 * k < USER_LIMIT && HoldsIn(m, kinds, bits, root, k, fl, bs, g)
      ensures HoldsIn(m', kinds1, bits1, root, k, fl, bs, g)
    {
      HeldPageKept(m, kinds, bits, m1, kinds1, bits1, m', root, n, 4096 * t + flags, t, k, fl, bs, g);
    }
    forall r, p: Page | r in kinds && kinds[r] == Root && r != root && p.Ok() ensures Walk(m', r, p) == Walk(m, r, p) {
      OtherTableWalks(m1, m', kinds1, t, r, p);
      LowerHalfPrivate(m, kinds, r, root, UserPage(n).i4);
    }
    OtherTableWalks(m1, m', kinds1, t, root, UserPage(n));
    forall p: Page | p.Ok() && p != UserPage(n) ensures Walk(m', root, p) == Walk(m, root, p) {
      OtherTableWalks(m1, m', kinds1, t, root, p);
    }
    forall r, s, i | r in kinds && s in kinds && kinds[r] == Root && kinds[s] == Root && r != s && 0 <= i < 512
      ensures Shares(m', r, s, i) <==> Shares(m, r, s, i)
    {
      SharesSame(m1, m', r, s, i);
    }
  }

  /** Sharing is a matter of two entries. */
  lemma SharesSame(m: Ram, m': Ram, r: nat, s: nat, i: nat)
    requires |m| == |m'| && (r < |m| ==> m'[r] == m[r]) && (s < |m| ==> m'[s] == m[s])
    ensures Shares(m', r, s, i) <==> Shares(m, r, s, i)
  {
  }

  // Segments and images.

  /** The pages of a segment up to page `b`, as they are mapped. */
  function SegmentLog(s: Segment, b: nat): (log: seq<Mapping>)
    requires s.FirstPage() <= b
    ensures |log| == b - s.FirstPage()
    ensures forall k :: 0 <= k < |log| ==> log[k] == Mapping(UserPage(s.FirstPage() + k), s.PageFlags())
  {
    seq(b - s.FirstPage(), k requires 0 <= k => Mapping(UserPage(s.FirstPage() + k), s.PageFlags()))
  }

  /** The pages of the first `i` segments. */
  function ImageLog(data: seq<byte>, i: nat): seq<Mapping>
    requires ImageOk(data) && i <= PhNum(data)
  {
    if i == 0 then [] else
      var s := SegmentAt(data, i - 1);
      ImageLog(data, i - 1) + if s.Loadable() then SegmentLog(s, s.EndPage()) else []
  }

  /** Pages `[a, b)` of a segment hold what they should. */
  ghost predicate SegmentHeld(m: Ram, kinds: Forest, bits: seq<byte>, base: seq<byte>, root: nat, data: seq<byte>, s: Segment, b: nat)
    requires |bits| == |base| == P.BITMAP_BYTES && s.offset + s.filesz <= |data|
  {
    forall n :: s.FirstPage() <= n < b ==> Holds(m, kinds, bits, base, root, n, s.PageFlags(), s.Contents(data, n))
  }

  /** The first `i` loadable segments are in memory. */
  ghost predicate ImageHeld(m: Ram, kinds: Forest, bits: seq<byte>, base: seq<byte>, root: nat, data: seq<byte>, i: nat)
    requires |bits| == |base| == P.BITMAP_BYTES && ImageOk(data) && i <= PhNum(data)
  {
    forall j :: 0 <= j < i && SegmentAt(data, j).Loadable() ==>
      SegmentHeld(m, kinds, bits, base, root, data, SegmentAt(data, j), SegmentAt(data, j).EndPage())
  }

  lemma SegmentKept(m: Ram, kinds: Forest, bits: seq<byte>, m': Ram, kinds': Forest, bits': seq<byte>, base: seq<byte>, root: nat, n: nat,
                    data: seq<byte>, s: Segment, b: nat)
    requires PageStep(m, kinds, bits, m', kinds', bits', root, n) && s.offset + s.filesz <= |data|
    requires |base| == P.BITMAP_BYTES && SegmentHeld(m, kinds, bits, base, root, data, s, b) && 4096 * b < USER_LIMIT && !(s.FirstPage() <= n < b)
    ensures SegmentHeld(m', kinds', bits', base, root, data, s, b)
  {
    hide HoldsIn, Walk, P.Free;
    forall k | s.FirstPage() <= k < b
      ensures Holds(m', kinds', bits', base, root, k, s.PageFlags(), s.Contents(data, k))
    {
      assert Holds(m, kinds, bits, base, root, k, s.PageFlags(), s.Contents(data, k));
      var g: nat :| HoldsIn(m, kinds, bits, root, k, s.PageFlags(), s.Contents(data, k), g) && P.Free(base, g);
      assert HoldsIn(m', kinds', bits', root, k, s.PageFlags(), s.Contents(data, k), g);
    }
  }

  lemma SegmentPages(data: seq<byte>, s: Segment)
    requires s.Loadable() && SegmentOk(data, s)
    ensures s.offset + s.filesz <= |data| && 4096 * s.EndPage() < USER_LIMIT && s.FirstPage() < s.EndPage()
  {
  }

  /** Loading a page of segment `i` keeps the segments before it. */
  lemma ImageKept(m: Ram, kinds: Forest, bits: seq<byte>, m': Ram, kinds': Forest, bits': seq<byte>, base: seq<byte>, root: nat, n: nat,
                  data: seq<byte>, i: nat)
    requires ImageOk(data) && i < PhNum(data) && SegmentAt(data, i).Loadable()
    requires PageStep(m, kinds, bits, m', kinds', bits', root, n)
    requires |base| == P.BITMAP_BYTES && ImageHeld(m, kinds, bits, base, root, data, i)
    requires SegmentAt(data, i).FirstPage() <= n < SegmentAt(data, i).EndPage()
    ensures ImageHeld(m', kinds', bits', base, root, data, i)
  {
    hide Holds, HoldsIn, Walk, P.Free, SegmentHeld, SegmentAt, HeaderOffset, PhNum;
    forall j | 0 <= j < i && SegmentAt(data, j).Loadable()
      ensures SegmentHeld(m', kinds', bits', base, root, data, SegmentAt(data, j), SegmentAt(data, j).EndPage())
    {
      SegmentPages(data, SegmentAt(data, j));
      assert PagesApart(SegmentAt(data, j), SegmentAt(data, i));
      SegmentKept(m, kinds, bits, m', kinds', bits', base, root, n, data, SegmentAt(data, j), SegmentAt(data, j).EndPage());
    }
  }

  /** Page `p` is one of the pages of the first `i` segments. */
  ghost predicate PageInImage(data: seq<byte>, i: nat, p: Page)
    requires ImageOk(data) && i <= PhNum(data)
  {
    exists k: nat :: InImage(data, i, k) && p == UserPage(k)
  }

  /** What happens to the rest of the space and of the machine while an image is loaded page by page. */
  ghost predicate Undisturbed(m: Ram, kinds: Forest, bits: seq<byte>, m': Ram, kinds': Forest, bits': seq<byte>, root: nat,
                              data: seq<byte>, i: nat)
    requires ImageOk(data) && i <= PhNum(data)
  {
    && UseGrows(bits, bits')
    && (forall k, flags, bytes: Frame, g ::
        0 <= k && 4096 * k < USER_LIMIT && !InImage(data, i, k) && HoldsIn(m, kinds, bits, root, k, flags, bytes, g) ==>
        HoldsIn(m', kinds', bits', root, k, flags, bytes, g))
    && (forall p: Page :: p.Ok() && !PageInImage(data, i, p) ==> Walk(m', root, p) == Walk(m, root, p))
    && Untouched(m, kinds, bits, m', kinds', bits')
    && OthersKept(m, kinds, m', kinds', root)
  }

  /** Page `k` belongs to one of the first `i` segments. */
  ghost predicate InImage(data: seq<byte>, i: nat, k: nat)
    requires ImageOk(data) && i <= PhNum(data)
  {
    exists j :: 0 <= j < i && SegmentAt(data, j).Loadable() && SegmentAt(data, j).FirstPage() <= k < SegmentAt(data, j).EndPage()
  }

  lemma UndisturbedStep(m: Ram, kinds: Forest, bits: seq<byte>, m': Ram, kinds': Forest, bits': seq<byte>,
                        m'': Ram, kinds'': Forest, bits'': seq<byte>, root: nat, n: nat, data: seq<byte>, i: nat)
    requires ImageOk(data) && i < PhNum(data) && SegmentAt(data, i).Loadable()
    requires SegmentAt(data, i).FirstPage() <= n < SegmentAt(data, i).EndPage()
    requires Undisturbed(m, kinds, bits, m', kinds', bits', root, data, i + 1)
    requires PageStep(m', kinds', bits', m'', kinds'', bits'', root, n)
    ensures Undisturbed(m, kinds, bits, m'', kinds'', bits'', root, data, i + 1)
  {
    hide HoldsIn, Walk, P.Free, SegmentAt, HeaderOffset, PhNum, ImageOk, Shares, PageOf, Untouched;
    assert InImage(data, i + 1, n);
    assert PageInImage(data, i + 1, UserPage(n));
    UntouchedTwice(m, kinds, bits, m', kinds', bits', m'', kinds'', bits'');
  }

  lemma UndisturbedMore(m: Ram, kinds: Forest, bits: seq<byte>, m': Ram, kinds': Forest, bits': seq<byte>, root: nat,
                        data: seq<byte>, i: nat)
    requires ImageOk(data) && i < PhNum(data) && Undisturbed(m, kinds, bits, m', kinds', bits', root, data, i)
    ensures Undisturbed(m, kinds, bits, m', kinds', bits', root, data, i + 1)
  {
    hide HoldsIn, Walk, P.Free, SegmentAt, HeaderOffset, PhNum, ImageOk, Shares, PageOf, Untouched;
    assert forall k :: 0 <= k && InImage(data, i, k) ==> InImage(data, i + 1, k);
    forall p: Page | PageInImage(data, i, p) ensures PageInImage(data, i + 1, p) {
      var k: nat :| InImage(data, i, k) && p == UserPage(k);
      assert InImage(data, i + 1, k);
    }
  }

  /** The page loop of `elf_load`, for one loadable segment. */
  method LoadSegment(vmm: Vmm, root: nat, data: seq<byte>, i: nat, ghost m0: Ram, ghost kinds0: Forest, ghost bits0: seq<byte>)
    returns (outcome: Outcome)
    requires vmm.Valid() && vmm.IsRoot(root) && ImageOk(data) && i < PhNum(data) && SegmentAt(data, i).Loadable()
    requires |bits0| == P.BITMAP_BYTES
    requires ImageHeld(vmm.ram, vmm.kinds, vmm.pmm.bitmap[..], bits0, root, data, i)
    requires Undisturbed(m0, kinds0, bits0, vmm.ram, vmm.kinds, vmm.pmm.bitmap[..], root, data, i)
    requires RightsAfter(m0, vmm.ram, root, ImageLog(data, i))
    modifies vmm, vmm.pmm, vmm.pmm.bitmap
    ensures vmm.Valid() && vmm.IsRoot(root)
    ensures !outcome.Success? ==> P.Exhausted(vmm.pmm.bitmap[..])
    ensures outcome.Success? ==>
      && ImageHeld(vmm.ram, vmm.kinds, vmm.pmm.bitmap[..], bits0, root, data, i + 1)
      && Undisturbed(m0, kinds0, bits0, vmm.ram, vmm.kinds, vmm.pmm.bitmap[..], root, data, i + 1)
      && RightsAfter(m0, vmm.ram, root, ImageLog(data, i + 1))
  {
    hide Holds, HoldsIn, Walk, IsForest, P.Free, PageStep, SegmentAt, HeaderOffset, PhNum, ImageHeld, SegmentHeld, PagesApart;
    hide RightsAfter, AllLevels, Segment.PageFlags;
    var seg := SegmentAt(data, i);
    SegmentPages(data, seg);
    ghost var log := ImageLog(data, i);
    assert log + SegmentLog(seg, seg.FirstPage()) == log;
    UndisturbedMore(m0, kinds0, bits0, vmm.ram, vmm.kinds, vmm.pmm.bitmap[..], root, data, i);
    NothingHeld(vmm.ram, vmm.kinds, vmm.pmm.bitmap[..], bits0, root, data, seg);
    for n := seg.FirstPage() to seg.EndPage()
      invariant vmm.Valid() && vmm.IsRoot(root)
      invariant ImageHeld(vmm.ram, vmm.kinds, vmm.pmm.bitmap[..], bits0, root, data, i)
      invariant SegmentHeld(vmm.ram, vmm.kinds, vmm.pmm.bitmap[..], bits0, root, data, seg, n)
      invariant Undisturbed(m0, kinds0, bits0, vmm.ram, vmm.kinds, vmm.pmm.bitmap[..], root, data, i + 1)
      invariant RightsAfter(m0, vmm.ram, root, log + SegmentLog(seg, n))
    {
      ghost var m, kinds, bits := vmm.ram, vmm.kinds, vmm.pmm.bitmap[..];
      outcome := LoadPage(vmm, root, data, seg, n, bits0);
      if !outcome.Success? {
        return;
      }
      ImageKept(m, kinds, bits, vmm.ram, vmm.kinds, vmm.pmm.bitmap[..], bits0, root, n, data, i);
      SegmentKept(m, kinds, bits, vmm.ram, vmm.kinds, vmm.pmm.bitmap[..], bits0, root, n, data, seg, n);
      OneMorePage(vmm.ram, vmm.kinds, vmm.pmm.bitmap[..], bits0, root, data, seg, n);
      OneMapping(m0, m, vmm.ram, root, log + SegmentLog(seg, n), UserPage(n), seg.PageFlags());
      assert log + SegmentLog(seg, n) + [Mapping(UserPage(n), seg.PageFlags())] == log + SegmentLog(seg, n + 1);
      UndisturbedStep(m0, kinds0, bits0, m, kinds, bits, vmm.ram, vmm.kinds, vmm.pmm.bitmap[..], root, n, data, i);
    }
    OneMoreSegment(vmm.ram, vmm.kinds, vmm.pmm.bitmap[..], bits0, root, data, i);
    outcome := Success(0);
  }

  lemma NothingHeld(m: Ram, kinds: Forest, bits: seq<byte>, base: seq<byte>, root: nat, data: seq<byte>, s: Segment)
    requires |bits| == |base| == P.BITMAP_BYTES && s.offset + s.filesz <= |data|
    ensures SegmentHeld(m, kinds, bits, base, root, data, s, s.FirstPage())
  {
  }

  lemma OneMorePage(m: Ram, kinds: Forest, bits: seq<byte>, base: seq<byte>, root: nat, data: seq<byte>, s: Segment, n: nat)
    requires |bits| == |base| == P.BITMAP_BYTES && s.offset + s.filesz <= |data|
    requires SegmentHeld(m, kinds, bits, base, root, data, s, n) && Holds(m, kinds, bits, base, root, n, s.PageFlags(), s.Contents(data, n))
    ensures SegmentHeld(m, kinds, bits, base, root, data, s, n + 1)
  {
    hide Holds;
  }

  lemma OneMoreSegment(m: Ram, kinds: Forest, bits: seq<byte>, base: seq<byte>, root: nat, data: seq<byte>, i: nat)
    requires |bits| == |base| == P.BITMAP_BYTES && ImageOk(data) && i < PhNum(data) && ImageHeld(m, kinds, bits, base, root, data, i)
    requires SegmentAt(data, i).Loadable() ==> SegmentAt(data, i).offset + SegmentAt(data, i).filesz <= |data|
    requires SegmentAt(data, i).Loadable() ==>
      SegmentHeld(m, kinds, bits, base, root, data, SegmentAt(data, i), SegmentAt(data, i).EndPage())
    ensures ImageHeld(m, kinds, bits, base, root, data, i + 1)
  {
    hide Holds, SegmentHeld, SegmentAt, HeaderOffset, PhNum;
  }

  /** `elf_load`: on success every loadable segment is in memory, and nothing else of any space has changed. */
  method Load(vmm: Vmm, root: nat, data: seq<byte>) returns (outcome: Outcome)
    requires vmm.Valid() && vmm.IsRoot(root) && (HeaderOk(data) ==> ImageOk(data))
    modifies vmm, vmm.pmm, vmm.pmm.bitmap
    ensures vmm.Valid() && vmm.IsRoot(root)
    ensures !HeaderOk(data) ==>
      outcome == Failed && vmm.ram == old(vmm.ram) && vmm.kinds == old(vmm.kinds) && vmm.pmm.bitmap[..] == old(vmm.pmm.bitmap[..])
    ensures HeaderOk(data) && !outcome.Success? ==> P.Exhausted(vmm.pmm.bitmap[..])
    ensures outcome.Success? ==>
      && HeaderOk(data) && outcome.entry == EntryPoint(data)
      && ImageHeld(vmm.ram, vmm.kinds, vmm.pmm.bitmap[..], old(vmm.pmm.bitmap[..]), root, data, PhNum(data))
      && Undisturbed(old(vmm.ram), old(vmm.kinds), old(vmm.pmm.bitmap[..]), vmm.ram, vmm.kinds, vmm.pmm.bitmap[..],
                     root, data, PhNum(data))
      && RightsAfter(old(vmm.ram), vmm.ram, root, ImageLog(data, PhNum(data)))
  {
    hide Holds, Walk, IsForest, P.Free, ImageHeld, SegmentHeld, U16, U32, U64, Undisturbed, InImage, HeaderOffset;
    hide RightsAfter, SegmentLog;
    ghost var m0, kinds0, bits0 := vmm.ram, vmm.kinds, vmm.pmm.bitmap[..];
    if !HeaderOk(data) {
      return Failed;
    }
    NothingDisturbed(m0, kinds0, bits0, root, data);
    NoMappings(m0, root);
    for i := 0 to PhNum(data)
      invariant vmm.Valid() && vmm.IsRoot(root)
      invariant ImageHeld(vmm.ram, vmm.kinds, vmm.pmm.bitmap[..], bits0, root, data, i)
      invariant Undisturbed(m0, kinds0, bits0, vmm.ram, vmm.kinds, vmm.pmm.bitmap[..], root, data, i)
      invariant RightsAfter(m0, vmm.ram, root, ImageLog(data, i))
    {
      assert ImageLog(data, i) + [] == ImageLog(data, i);
      if SegmentAt(data, i).Loadable() {
        outcome := LoadSegment(vmm, root, data, i, m0, kinds0, bits0);
        if !outcome.Success? {
          return;
        }
      } else {
        OneMoreSegment(vmm.ram, vmm.kinds, vmm.pmm.bitmap[..], bits0, root, data, i);
        UndisturbedMore(m0, kinds0, bits0, vmm.ram, vmm.kinds, vmm.pmm.bitmap[..], root, data, i);
      }
    }
    outcome := Success(EntryPoint(data));
  }

  lemma NothingDisturbed(m: Ram, kinds: Forest, bits: seq<byte>, root: nat, data: seq<byte>)
    requires |bits| == P.BITMAP_BYTES && |m| == P.FRAMES && ImageOk(data)
    ensures ImageHeld(m, kinds, bits, bits, root, data, 0)
    ensures Undisturbed(m, kinds, bits, m, kinds, bits, root, data, 0)
  {
  }

  /**
    Any byte of any page that a loadable segment touches, read through the page tables, is the byte of the file
    below p_filesz and 0 elsewhere; the page is present, open to the program, and writable exactly if PF_W says so.
   */
  lemma LoadedByte(m: Ram, kinds: Forest, bits: seq<byte>, base: seq<byte>, root: nat, data: seq<byte>, i: nat, va: nat)
    requires |bits| == |base| == P.BITMAP_BYTES && ImageOk(data) && i < PhNum(data)
    requires ImageHeld(m, kinds, bits, base, root, data, PhNum(data))
    requires SegmentAt(data, i).kind == 1 && SegmentAt(data, i).memsz > 0
    requires va / 4096 * 4096 < SegmentAt(data, i).vaddr + SegmentAt(data, i).memsz
    requires SegmentAt(data, i).vaddr < va / 4096 * 4096 + 4096
    ensures
      var s := SegmentAt(data, i);
      && s.offset + s.filesz <= |data|
      && ReadVirt(m, root, va) == if s.vaddr <= va < s.vaddr + s.filesz then data[s.offset + (va - s.vaddr)] else 0
    ensures
      var e := Walk(m, root, PageOf(va));
      e % 2 == 1 && e / 4 % 2 == 1 && (e / 2 % 2 == 1 <==> SegmentAt(data, i).flags / 2 % 2 == 1) && e % 4096 < 8
  {
    hide HoldsIn, P.Free, Walk, SegmentAt, HeaderOffset, PhNum, ReadVirt, PagesApart, Segment.PageFlags;
    var s := SegmentAt(data, i);
    var g := LoadedFrame(m, kinds, bits, base, root, data, i, va / 4096);
    ReadHeldByte(m, kinds, bits, root, va, s.PageFlags(), s.Contents(data, va / 4096), g);
    LoadedFlags(m, kinds, bits, root, va, s, s.Contents(data, va / 4096), g);
  }

  lemma LoadedFrame(m: Ram, kinds: Forest, bits: seq<byte>, base: seq<byte>, root: nat, data: seq<byte>, i: nat, n: nat) returns (g: nat)
    requires |bits| == |base| == P.BITMAP_BYTES && ImageOk(data) && i < PhNum(data) && SegmentAt(data, i).Loadable()
    requires ImageHeld(m, kinds, bits, base, root, data, PhNum(data))
    requires n * 4096 < SegmentAt(data, i).vaddr + SegmentAt(data, i).memsz && SegmentAt(data, i).vaddr < n * 4096 + 4096
    ensures SegmentAt(data, i).offset + SegmentAt(data, i).filesz <= |data| && FlagsOk(SegmentAt(data, i).PageFlags())
    ensures HoldsIn(m, kinds, bits, root, n, SegmentAt(data, i).PageFlags(), SegmentAt(data, i).Contents(data, n), g)
  {
    hide HoldsIn, P.Free, Walk, SegmentAt, HeaderOffset, PhNum, PagesApart;
    var s := SegmentAt(data, i);
    SegmentRange(s, n);
    SegmentPages(data, s);
    assert SegmentHeld(m, kinds, bits, base, root, data, s, s.EndPage());
    assert Holds(m, kinds, bits, base, root, n, s.PageFlags(), s.Contents(data, n));
    g :| HoldsIn(m, kinds, bits, root, n, s.PageFlags(), s.Contents(data, n), g) && P.Free(base, g);
  }

  lemma LoadedFlags(m: Ram, kinds: Forest, bits: seq<byte>, root: nat, va: nat, s: Segment, bytes: Frame, g: nat)
    requires |bits| == P.BITMAP_BYTES && HoldsIn(m, kinds, bits, root, va / 4096, s.PageFlags(), bytes, g)
    ensures
      var e := Walk(m, root, PageOf(va));
      e % 2 == 1 && e / 4 % 2 == 1 && (e / 2 % 2 == 1 <==> s.flags / 2 % 2 == 1) && e % 4096 < 8
  {
    hide P.Free, Walk, PageOf;
    HeldFlags(va, Walk(m, root, UserPage(va / 4096)), g, s.PageFlags());
  }

  lemma HeldFlags(va: nat, e: nat, g: nat, flags: nat)
    requires e == 4096 * g + flags && flags < 8
    ensures PageOf(va) == UserPage(va / 4096)
    ensures e % 2 == flags % 2 && e / 2 % 2 == flags / 2 % 2 && e / 4 % 2 == flags / 4 % 2 && e % 4096 == flags
  {
    hide PageOf;
    SamePage(va, 4096 * (va / 4096));
    LowBits(e, g, flags);
  }

  lemma LowBits(e: nat, g: nat, flags: nat)
    requires e == 4096 * g + flags && flags < 8
    ensures e % 2 == flags % 2 && e / 2 % 2 == flags / 2 % 2 && e / 4 % 2 == flags / 4 % 2 && e % 4096 == flags
  {
    Half(e, 2048 * g, flags);
    Half(e / 2, 1024 * g, flags / 2);
    Half(e / 2 / 2, 512 * g, flags / 2 / 2);
    Quarter(e);
    Quarter(flags);
    InsideFrame(e, g, flags);
  }

  lemma Quarter(e: nat)
    ensures e / 4 == e / 2 / 2
  {
  }

  lemma InsideFrame(e: nat, g: nat, low: nat)
    requires e == 4096 * g + low && low < 4096
    ensures e % 4096 == low
  {
  }

  lemma Half(e: nat, h: nat, low: nat)
    requires e == 2 * h + low
    ensures e % 2 == low % 2 && e / 2 == h + low / 2
  {
  }
}
