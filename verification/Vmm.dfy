/** The virtual memory manager: page tables kept in frames that the physical memory manager hands out. */
module Vmm {
  import opened Bytes
  import opened Bits
  import P = Pmm
  import opened PageTables
  import opened TableRights

  const KERNEL_FLAGS: nat := PRESENT + WRITE
  const USER_FLAGS: nat := PRESENT + WRITE + USER

  predicate FlagsOk(flags: nat) {
    flags < 8 && flags % 2 == 1
  }

  /** `(phys & ~0xFFF) | flags` */
  function Leaf(phys: nat, flags: nat): nat {
    phys / 4096 * 4096 + flags
  }

  /** The frame of the address, with exactly these flags. */
  lemma LeafMeans(phys: nat, flags: nat)
    requires FlagsOk(flags)
    ensures Target(Leaf(phys, flags)) == phys / 4096 && Leaf(phys, flags) % 4096 == flags
  {
    RemainderOf(phys / 4096, flags);
  }

  class Vmm {
    const pmm: P.Pmm
    var ram: Ram
    ghost var kinds: Forest

    /** Every table is a frame in use, and the tables form a forest; frame 0, which stands for "none", is in use. */
    ghost predicate Valid()
      reads this, pmm, pmm.bitmap
    {
      && pmm.Valid() && |ram| == P.FRAMES && IsForest(ram, kinds) && InUse(0)
      && forall f :: f in kinds ==> InUse(f)
    }

    ghost predicate InUse(f: nat)
      requires pmm.Valid()
      reads this, pmm, pmm.bitmap
    {
      f < P.FRAMES && !pmm.IsFree(f)
    }

    ghost predicate IsRoot(f: nat)
      reads this
    {
      f in kinds && kinds[f] == Root
    }

    constructor (pmm: P.Pmm, ram: Ram)
      requires pmm.Valid() && |ram| == P.FRAMES && !pmm.IsFree(0)
      ensures Valid() && this.pmm == pmm && this.ram == ram && kinds == map[]
    {
      this.pmm, this.ram, this.kinds := pmm, ram, map[];
    }

    /** A frame from the physical memory manager; 0 if none is left. */
    method AllocFrame() returns (t: nat)
      requires Valid()
      modifies pmm, pmm.bitmap
      ensures Valid()
      ensures t < P.FRAMES && InUse(t)
      ensures t != 0 ==> P.Free(old(pmm.bitmap[..]), t) && t !in kinds
      ensures t == 0 ==> P.Exhausted(pmm.bitmap[..])
      ensures forall f :: 0 <= f < P.FRAMES ==>
        (P.Free(pmm.bitmap[..], f) <==> P.Free(old(pmm.bitmap[..]), f) && f != t)
    {
      hide WithBit, BitAt, IsForest;
      ghost var s := pmm.bitmap[..];
      var phys := pmm.Alloc();
      t := phys / P.PAGE_SIZE;
      if t != 0 {
        forall f | 0 <= f < P.FRAMES ensures P.Free(pmm.bitmap[..], f) <==> P.Free(s, f) && f != t {
          WithBitChangesOne(s, t, f);
        }
      }
    }

    /** Hangs a fresh, zeroed table into an absent slot. The kernel halts when no frame is left. */
    method CreateTable(f: nat, idx: nat, flags: nat) returns (halted: bool)
      requires Valid() && f in kinds && !kinds[f].Level1? && idx < 512 && FlagsOk(flags)
      requires !Present(Entry(ram, f, idx))
      modifies this, pmm, pmm.bitmap
      ensures Valid() && Extends(old(ram), old(kinds), ram, kinds)
      ensures Untouched(old(ram), old(kinds), old(pmm.bitmap[..]), ram, kinds, pmm.bitmap[..])
      ensures !halted ==> HasFlags(Entry(ram, f, idx), flags) && Hung(old(ram), old(kinds), ram, f, idx, flags)
      ensures !halted ==>
        Target(Entry(ram, f, idx)) !in old(kinds) && EmptyTable(ram, Target(Entry(ram, f, idx)))
      ensures halted ==> P.Exhausted(pmm.bitmap[..])
    {
      hide P.Free, P.Exhausted, AddTable, Entry, Splice, Put64, Zeros, Extends, IsForest, ChildKind, Untouched, HasFlags;
      hide EmptyTable, Target;
      ghost var bits := pmm.bitmap[..];
      var t := AllocFrame();
      if t == 0 {
        ExtendsItself(ram, kinds);
        NothingTouched(ram, kinds, bits, pmm.bitmap[..]);
        return true;
      }
      TableCreated(ram, kinds, bits, pmm.bitmap[..], f, idx, t, flags);
      AddTableOthers(ram, f, idx, t, flags);
      ghost var ram0, kinds0 := ram, kinds;
      kinds := kinds[t := ChildKind(f, kinds[f], idx)];
      ram := ram[t := Zeros(4096)];
      ram := ram[f := Splice(ram[f], 8 * idx, Put64(4096 * t + flags))];
      assert Hung(ram0, kinds0, ram, f, idx, flags) by {
        assert ram == AddTable(ram0, f, idx, t, flags);
      }
      halted := false;
    }

    /** The table in slot `idx` of a table, created empty if it is absent. */
    method GetOrCreate(f: nat, idx: nat, flags: nat) returns (halted: bool, t: nat)
      requires Valid() && f in kinds && !kinds[f].Level1? && idx < 512 && FlagsOk(flags)
      modifies this, pmm, pmm.bitmap
      ensures Valid() && Extends(old(ram), old(kinds), ram, kinds)
      ensures Untouched(old(ram), old(kinds), old(pmm.bitmap[..]), ram, kinds, pmm.bitmap[..])
      ensures !halted ==>
        && Present(Entry(ram, f, idx)) && t == Target(Entry(ram, f, idx))
        && t in kinds && kinds[t] == ChildKind(f, kinds[f], idx)
      ensures !halted && !Present(Entry(old(ram), f, idx)) ==> HasFlags(Entry(ram, f, idx), flags) && EmptyTable(ram, t)
      ensures !halted ==> Hung(old(ram), old(kinds), ram, f, idx, flags)
      ensures halted ==> P.Exhausted(pmm.bitmap[..])
    {
      hide Walk, BitAt, Entry, Shares, P.Exhausted, EmptyTable, AddTable;
      halted := false;
      if !Present(Entry(ram, f, idx)) {
        halted := CreateTable(f, idx, flags);
      } else {
        ExtendsItself(ram, kinds);
      }
      t := Target(Entry(ram, f, idx));
      assert SlotOk(ram, kinds, f, idx);
    }

    /** Walks from `root` to the last-level table of a page, creating what is missing. */
    method TablesFor(root: nat, p: Page, flags: nat) returns (halted: bool, ghost t3: nat, ghost t2: nat, t1: nat)
      requires Valid() && IsRoot(root) && p.Ok() && FlagsOk(flags)
      modifies this, pmm, pmm.bitmap
      ensures Valid() && Extends(old(ram), old(kinds), ram, kinds)
      ensures Untouched(old(ram), old(kinds), old(pmm.bitmap[..]), ram, kinds, pmm.bitmap[..])
      ensures !halted ==> Reaches(ram, root, p, t3, t2, t1) && t1 in kinds && kinds[t1].Level1?
      ensures !halted ==> AllLevels(old(ram), ram, root, p, flags)
      ensures halted ==> P.Exhausted(pmm.bitmap[..])
    {
      hide Walk, BitAt, Entry, Shares, IsForest, Untouched, P.Free, P.Exhausted, Hung, OneLevel, AllLevels;
      t3, t2, t1 := 0, 0, 0;
      ghost var ram0, kinds0, bits0 := ram, kinds, pmm.bitmap[..];
      var pdpt, pd;
      halted, pdpt := GetOrCreate(root, p.i4, flags);
      t3 := pdpt;
      if halted {
        return;
      }
      ghost var ram1, kinds1, bits1 := ram, kinds, pmm.bitmap[..];
      HungRights(ram0, kinds0, ram1, root, p, 4, root, flags);
      halted, pd := GetOrCreate(pdpt, p.i3, flags);
      t2 := pd;
      ExtendsTwice(ram0, kinds0, ram1, kinds1, ram, kinds);
      UntouchedTwice(ram0, kinds0, bits0, ram1, kinds1, bits1, ram, kinds, pmm.bitmap[..]);
      if halted {
        return;
      }
      ghost var ram2, kinds2, bits2 := ram, kinds, pmm.bitmap[..];
      HungRights(ram1, kinds1, ram2, root, p, 3, pdpt, flags);
      halted, t1 := GetOrCreate(pd, p.i2, flags);
      ExtendsTwice(ram0, kinds0, ram2, kinds2, ram, kinds);
      UntouchedTwice(ram0, kinds0, bits0, ram2, kinds2, bits2, ram, kinds, pmm.bitmap[..]);
      if !halted {
        HungRights(ram2, kinds2, ram, root, p, 2, pd, flags);
        ThreeLevels(ram0, ram1, ram2, ram, root, p, flags);
      }
    }

    /** `vmm_map`: page `virt` of the space now walks to `phys` with the flags; all other walks are as before. */
    method Map(root: nat, virt: nat, phys: nat, flags: nat) returns (halted: bool)
      requires Valid() && IsRoot(root) && FlagsOk(flags) && phys < 0x1_0000_0000_0000_0000
      modifies this, pmm, pmm.bitmap
      ensures Valid()
      ensures Untouched(old(ram), old(kinds), old(pmm.bitmap[..]), ram, kinds, pmm.bitmap[..])
      ensures halted ==> Extends(old(ram), old(kinds), ram, kinds) && P.Exhausted(pmm.bitmap[..])
      ensures !halted ==> Remapped(old(ram), old(kinds), ram, kinds, root, PageOf(virt), Leaf(phys, flags))
      ensures !halted ==> AllLevels(old(ram), ram, root, PageOf(virt), flags)
    {
      hide Walk, BitAt, Entry, Shares, IsForest, P.Free, Splice, Put64, Untouched, PageOf, AllLevels, SameRights;
      ghost var ram0, kinds0, bits0 := ram, kinds, pmm.bitmap[..];
      var p := PageOf(virt);
      ghost var t3, t2;
      var t1;
      halted, t3, t2, t1 := TablesFor(root, p, flags);
      if !halted {
        ghost var ram1, bits1 := ram, pmm.bitmap[..];
        LeafFits(phys, flags);
        SetLeafRemaps(ram, kinds, root, p, t3, t2, t1, Leaf(phys, flags));
        ExtendsThenRemapped(ram0, kinds0, ram, kinds, SetEntry(ram, t1, p.i1, Leaf(phys, flags)), root, p, Leaf(phys, flags));
        SetLeafRights(ram, kinds, root, t1, p.i1, Leaf(phys, flags));
        SameThenAll(ram0, ram, SetEntry(ram, t1, p.i1, Leaf(phys, flags)), root, p, flags);
        ram := ram[t1 := Splice(ram[t1], 8 * p.i1, Put64(Leaf(phys, flags)))];
        LeafUntouched(ram1, kinds, bits1, t1, ram);
        UntouchedTwice(ram0, kinds0, bits0, ram1, kinds, bits1, ram, kinds, pmm.bitmap[..]);
      }
    }

    /** Stores the contents of a frame that is not a table, through the direct mapping. */
    method FillFrame(t: nat, bytes: Frame)
      requires Valid() && t < P.FRAMES && t !in kinds
      modifies `ram
      ensures Valid() && ram == old(ram)[t := bytes]
    {
      hide Entry, Walk;
      FrameOutsideForest(ram, kinds, t, bytes);
      ram := ram[t := bytes];
    }

    /** `vmm_unmap`: page `virt` of the space is absent now; all other walks are as before. */
    method Unmap(root: nat, virt: nat)
      requires Valid() && IsRoot(root)
      modifies this
      ensures Valid() && kinds == old(kinds)
      ensures Remapped(old(ram), old(kinds), ram, kinds, root, PageOf(virt), 0)
      ensures SameRights(old(ram), ram, root)
      ensures Untouched(old(ram), old(kinds), pmm.bitmap[..], ram, kinds, pmm.bitmap[..])
    {
      hide BitAt, Entry, Shares, IsForest, P.Free, Splice, Put64, PageOf, Remapped, Rights;
      ghost var ram0 := ram;
      var p := PageOf(virt);
      var e4 := Entry(ram, root, p.i4);
      if !Present(e4) {
        UnreachedPage(ram, kinds, root, p);
        return;
      }
      var e3 := Entry(ram, Target(e4), p.i3);
      if !Present(e3) {
        UnreachedPage(ram, kinds, root, p);
        return;
      }
      var e2 := Entry(ram, Target(e3), p.i2);
      if !Present(e2) {
        UnreachedPage(ram, kinds, root, p);
        return;
      }
      var t1 := Target(e2);
      PathKinds(ram, kinds, root, p, Target(e4), Target(e3), t1);
      LastTableInRam(ram, kinds, t1);
      SetLeafRemaps(ram, kinds, root, p, Target(e4), Target(e3), t1, 0);
      SetLeafRights(ram, kinds, root, t1, p.i1, 0);
      ram := ram[t1 := Splice(ram[t1], 8 * p.i1, Put64(0))];
      RemappedForest(ram0, kinds, ram, kinds, root, p, 0);
      LeafUntouched(ram0, kinds, pmm.bitmap[..], t1, ram);
    }

    /** A space in which nothing is mapped. */
    method EmptySpace() returns (halted: bool, root: nat)
      requires Valid()
      modifies this, pmm, pmm.bitmap
      ensures Valid()
      ensures Untouched(old(ram), old(kinds), old(pmm.bitmap[..]), ram, kinds, pmm.bitmap[..])
      ensures halted ==> ram == old(ram) && kinds == old(kinds) && P.Exhausted(pmm.bitmap[..])
      ensures !halted ==> root !in old(kinds) && kinds == old(kinds)[root := Root]
      ensures !halted ==> root < P.FRAMES && ram == Zeroed(old(ram), root)
      ensures !halted ==> forall p: Page :: p.Ok() ==> Walk(ram, root, p) == 0
      ensures !halted ==>
        forall r, p: Page :: r in old(kinds) && old(kinds)[r] == Root && p.Ok() ==> Walk(ram, r, p) == Walk(old(ram), r, p)
    {
      hide BitAt, Entry, IsForest, P.Free, Walk, Zeros;
      ghost var ram0 := ram;
      root := AllocFrame();
      if root == 0 {
        return true, 0;
      }
      halted := false;
      NewRootForest(ram, kinds, root);
      kinds := kinds[root := Root];
      ram := ram[root := Zeros(4096)];
      assert ram == Zeroed(ram0, root);
      forall p: Page | p.Ok() ensures Walk(ram, root, p) == 0 {
        EmptyRootWalk(ram0, root, p);
      }
    }

    /**
      `vmm_new_space`: a space whose upper half is that of `current`, table for table, and whose lower half is
      empty. The walks of the spaces that there were are as before.
     */
    method NewSpace(current: nat) returns (halted: bool, root: nat)
      requires Valid() && IsRoot(current)
      modifies this, pmm, pmm.bitmap
      ensures Valid()
      ensures Untouched(old(ram), old(kinds), old(pmm.bitmap[..]), ram, kinds, pmm.bitmap[..])
      ensures halted ==> ram == old(ram) && kinds == old(kinds) && P.Exhausted(pmm.bitmap[..])
      ensures !halted ==>
        && root !in old(kinds) && kinds == old(kinds)[root := Root]
        && (forall r, p: Page :: r in old(kinds) && old(kinds)[r] == Root && p.Ok() ==> Walk(ram, r, p) == Walk(old(ram), r, p))
        && (forall i :: 256 <= i < 512 && Present(Entry(old(ram), current, i)) ==> Shares(ram, root, current, i))
        && (forall p: Page :: p.Ok() ==> Walk(ram, root, p) == if p.i4 < 256 then 0 else Walk(old(ram), current, p))
        && forall p: Page :: p.Ok() && p.i4 < 256 ==> NoTables(ram, root, p)
    {
      hide BitAt, Entry, IsForest, P.Free, Splice, Put64, Walk, Zeroed, NoTables;
      ghost var ram0, kinds0, bits0 := ram, kinds, pmm.bitmap[..];
      halted, root := EmptySpace();
      if halted {
        return;
      }
      ghost var bits1 := pmm.bitmap[..];
      ZeroedFrames(ram0, root);
      forall i ensures Entry(ram, root, i) == 0 && Entry(ram, current, i) == Entry(ram0, current, i) {
        ZeroedReads(ram0, root, root, i);
        ZeroedReads(ram0, root, current, i);
      }
      for i := 256 to 512
        modifies `ram
        invariant |ram| == P.FRAMES && IsForest(ram, kinds)
        invariant forall g :: 0 <= g < |ram| && g != root ==> ram[g] == ram0[g]
        invariant forall j :: 0 <= j < 512 ==>
          Entry(ram, root, j) == if 256 <= j < i then Entry(ram0, current, j) else 0
        invariant forall j :: Entry(ram, current, j) == Entry(ram0, current, j)
      {
        var e := Entry(ram, current, i);
        EntryFits(ram, current, i);
        CopySlotForest(ram, kinds, current, root, i);
        forall j ensures Entry(SetEntry(ram, root, i, e), root, j) == if j == i then e else Entry(ram, root, j) {
          if j >= 0 {
            SetEntryReads(ram, root, i, e, root, j);
          }
        }
        forall j ensures Entry(SetEntry(ram, root, i, e), current, j) == Entry(ram, current, j) {
          if j >= 0 {
            SetEntryReads(ram, root, i, e, current, j);
          }
        }
        ram := ram[root := Splice(ram[root], 8 * i, Put64(e))];
      }
      assert pmm.bitmap[..] == bits1;
      forall r, p: Page | r in kinds0 && kinds0[r] == Root && p.Ok() ensures Walk(ram, r, p) == Walk(ram0, r, p) {
        OtherTableWalks(ram0, ram, kinds0, root, r, p);
      }
      forall p: Page | p.Ok() ensures Walk(ram, root, p) == if p.i4 < 256 then 0 else Walk(ram0, current, p) {
        CopiedWalk(ram, root, current, p);
        assert Walk(ram, current, p) == Walk(ram0, current, p);
      }
      forall p: Page | p.Ok() && p.i4 < 256 ensures NoTables(ram, root, p) {
        AbsentRights(ram, root, p);
      }
    }
  }

  /** Frames that were in use for something other than tables still are, with their contents. */
  ghost predicate Untouched(ram: Ram, kinds: Forest, bits: seq<byte>, ram': Ram, kinds': Forest, bits': seq<byte>) {
    && |bits| == P.BITMAP_BYTES && |bits'| == P.BITMAP_BYTES && |ram| == |ram'| == P.FRAMES
    && forall g :: 0 <= g < P.FRAMES && !P.Free(bits, g) ==>
      !P.Free(bits', g) && (g !in kinds ==> g !in kinds' && ram'[g] == ram[g])
  }

  lemma UntouchedTwice(ram: Ram, kinds: Forest, bits: seq<byte>, ram': Ram, kinds': Forest, bits': seq<byte>,
                       ram'': Ram, kinds'': Forest, bits'': seq<byte>)
    requires Untouched(ram, kinds, bits, ram', kinds', bits')
    requires Untouched(ram', kinds', bits', ram'', kinds'', bits'')
    ensures Untouched(ram, kinds, bits, ram'', kinds'', bits'')
  {
    hide P.Free;
  }

  /** Allocation alone, of a frame that was free or of none, touches nothing that was in use. */
  lemma NothingTouched(ram: Ram, kinds: Forest, bits: seq<byte>, bits': seq<byte>)
    requires |bits| == |bits'| == P.BITMAP_BYTES && |ram| == P.FRAMES
    requires forall g :: 0 <= g < P.FRAMES && !P.Free(bits, g) ==> !P.Free(bits', g)
    ensures Untouched(ram, kinds, bits, ram, kinds, bits')
  {
    hide P.Free;
  }

  /** Frame `t`, which was free, is used now and hangs, empty, in slot `idx` of table `f`. */
  lemma TableCreated(ram: Ram, kinds: Forest, bits: seq<byte>, bits': seq<byte>, f: nat, idx: nat, t: nat, flags: nat)
    requires |bits| == |bits'| == P.BITMAP_BYTES && |ram| == P.FRAMES && IsForest(ram, kinds)
    requires forall g :: g in kinds ==> g < P.FRAMES && !P.Free(bits, g)
    requires f in kinds && !kinds[f].Level1? && idx < 512 && FlagsOk(flags) && !Present(Entry(ram, f, idx))
    requires t < P.FRAMES && P.Free(bits, t)
    requires forall g :: 0 <= g < P.FRAMES ==> (P.Free(bits', g) <==> P.Free(bits, g) && g != t)
    ensures
      var ram', kinds' := AddTable(ram, f, idx, t, flags), kinds[t := ChildKind(f, kinds[f], idx)];
      && IsForest(ram', kinds') && Extends(ram, kinds, ram', kinds') && HasFlags(Entry(ram', f, idx), flags)
      && Target(Entry(ram', f, idx)) == t && EmptyTable(ram', t)
      && Untouched(ram, kinds, bits, ram', kinds', bits')
      && forall g :: g in kinds' ==> g < P.FRAMES && !P.Free(bits', g)
  {
    hide P.Free, AddTable, Entry, Extends, IsForest, ChildKind;
    AddTableExtends(ram, kinds, f, idx, t, flags);
    AddTableForest(ram, kinds, f, idx, t, flags);
    AddTableReads(ram, f, idx, t, flags, f, idx);
    AddTableOthers(ram, f, idx, t, flags);
    FlagsPresent(t, flags);
    forall j | 0 <= j < 512 ensures Entry(AddTable(ram, f, idx, t, flags), t, j) == 0 {
      AddTableReads(ram, f, idx, t, flags, t, j);
    }
  }

  /** All entries of the table are zero. */
  ghost predicate EmptyTable(m: Ram, t: nat) {
    forall j :: 0 <= j < 512 ==> Entry(m, t, j) == 0
  }

  lemma FlagsPresent(t: nat, flags: nat)
    requires FlagsOk(flags)
    ensures HasFlags(4096 * t + flags, flags) && Target(4096 * t + flags) == t
  {
    EvenPlus(2048 * t, flags);
    RemainderOf(t, flags);
  }

  lemma RemainderOf(t: nat, flags: nat)
    requires flags < 4096
    ensures (4096 * t + flags) % 4096 == flags && (4096 * t + flags) / 4096 == t
  {
  }

  /** A present entry with exactly these flags. */
  predicate HasFlags(e: nat, flags: nat) {
    Present(e) && e % 4096 == flags
  }

  lemma LeafUntouched(ram: Ram, kinds: Forest, bits: seq<byte>, t: nat, ram': Ram)
    requires |bits| == P.BITMAP_BYTES && |ram| == |ram'| == P.FRAMES && t in kinds
    requires forall g :: 0 <= g < |ram| && g != t ==> ram'[g] == ram[g]
    ensures Untouched(ram, kinds, bits, ram', kinds, bits)
  {
    hide P.Free;
  }

  lemma FrameOutsideForest(m: Ram, kinds: Forest, t: nat, bytes: Frame)
    requires IsForest(m, kinds) && t < |m| && t !in kinds
    ensures IsForest(m[t := bytes], kinds)
  {
    var m' := m[t := bytes];
    forall f, i | f in kinds && 0 <= i < 512 ensures SlotOk(m', kinds, f, i) {
      assert SlotOk(m, kinds, f, i);
    }
  }

  lemma LastTableInRam(m: Ram, kinds: Forest, t: nat)
    requires IsForest(m, kinds) && t in kinds
    ensures t < |m|
  {
  }

  lemma RemappedForest(m: Ram, kinds: Forest, m': Ram, kinds': Forest, root: nat, p: Page, e: nat)
    requires Remapped(m, kinds, m', kinds', root, p, e)
    ensures IsForest(m', kinds') && |m'| == |m|
  {
  }

  lemma ZeroedFrames(m: Ram, f: nat)
    requires f < |m|
    ensures forall g :: 0 <= g < |m| && g != f ==> Zeroed(m, f)[g] == m[g]
  {
  }

  lemma EmptyRootWalk(m: Ram, root: nat, p: Page)
    requires root < |m|
    ensures Walk(Zeroed(m, root), root, p) == 0
  {
    hide Entry, Zeroed;
    ZeroedReads(m, root, root, p.i4);
  }

  lemma EntryFits(m: Ram, f: nat, i: nat)
    ensures Entry(m, f, i) < 0x1_0000_0000_0000_0000
  {
  }

  lemma CopySlotForest(m: Ram, kinds: Forest, r: nat, n: nat, i: nat)
    requires IsForest(m, kinds) && r in kinds && kinds[r] == Root && n in kinds && kinds[n] == Root && 256 <= i < 512
    requires n < |m| && Entry(m, r, i) < 0x1_0000_0000_0000_0000
    ensures IsForest(SetEntry(m, n, i, Entry(m, r, i)), kinds)
  {
    hide Entry, SetEntry;
    var m' := SetEntry(m, n, i, Entry(m, r, i));
    forall g, j | g in kinds && 0 <= j < 512 ensures SlotOk(m', kinds, g, j) {
      SetEntryReads(m, n, i, Entry(m, r, i), g, j);
      assert SlotOk(m, kinds, g, j) && SlotOk(m, kinds, r, i);
    }
  }

  lemma CopiedWalk(m: Ram, n: nat, r: nat, p: Page)
    requires p.Ok() && Entry(m, n, p.i4) == if p.i4 >= 256 then Entry(m, r, p.i4) else 0
    ensures Walk(m, n, p) == if p.i4 < 256 then 0 else Walk(m, r, p)
  {
    hide Entry;
  }

  lemma LeafFits(phys: nat, flags: nat)
    requires FlagsOk(flags) && phys < 0x1_0000_0000_0000_0000
    ensures Leaf(phys, flags) < 0x1_0000_0000_0000_0000 && Present(Leaf(phys, flags))
  {
    var q := phys / 4096;
    assert q < 0x10_0000_0000_0000;
    assert Leaf(phys, flags) == 2 * (2048 * q) + flags;
    EvenPlus(2048 * q, flags);
  }

  lemma EvenPlus(n: nat, flags: nat)
    ensures (2 * n + flags) % 2 == flags % 2
  {
  }

  lemma AddTableOthers(m: Ram, f: nat, i: nat, t: nat, flags: nat)
    requires f < |m| && t < |m| && i < 512 && flags < 4096 && t < 0x10_0000_0000
    ensures forall g :: 0 <= g < |m| && g != f && g != t ==> AddTable(m, f, i, t, flags)[g] == m[g]
    ensures AddTable(m, f, i, t, flags) ==
      m[t := Zeros(4096)][f := Splice(m[t := Zeros(4096)][f], 8 * i, Put64(4096 * t + flags))]
  {
  }
}
