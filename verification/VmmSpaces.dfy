/** Address spaces over whole runs: what any sequence of mappings and unmappings does to every space. */
module VmmSpaces {
  import opened PageTables
  import opened TableRights
  import opened Vmm

  datatype Op =
    | Map(virt: nat, phys: nat, flags: nat)
    | Unmap(virt: nat)
  {
    predicate Ok() {
      Map? ==> FlagsOk(flags) && phys < 0x1_0000_0000_0000_0000
    }
  }

  /** The flat map that the tables implement: what page `p` walks to after the first `n` operations, if `before` at first. */
  function Flat(ops: seq<Op>, n: nat, p: Page, before: nat): nat
    requires n <= |ops|
  {
    if n == 0 then before
    else if PageOf(ops[n - 1].virt) == p then (if ops[n - 1].Map? then Leaf(ops[n - 1].phys, ops[n - 1].flags) else 0)
    else Flat(ops, n - 1, p, before)
  }

  /** The mappings among the first `n` operations. */
  function Mappings(ops: seq<Op>, n: nat): seq<Mapping>
    requires n <= |ops|
  {
    if n == 0 then []
    else Mappings(ops, n - 1) + if ops[n - 1].Map? then [Mapping(PageOf(ops[n - 1].virt), ops[n - 1].flags)] else []
  }

  /** Every walk of every space, after the first `n` operations on space `root`. */
  ghost predicate Ran(m: Ram, kinds: Forest, m': Ram, kinds': Forest, root: nat, ops: seq<Op>, n: nat)
    requires n <= |ops|
  {
    && IsForest(m, kinds) && IsForest(m', kinds') && |m| == |m'|
    && (forall f :: f in kinds ==> f in kinds' && kinds'[f] == kinds[f])
    && (forall r, p: Page :: r in kinds && kinds[r] == Root && p.Ok() ==>
        Walk(m', r, p) ==
        if r == root || Shares(m, r, root, p.i4) then Flat(ops, n, p, Walk(m, r, p)) else Walk(m, r, p))
    && forall r, s, i :: r in kinds && s in kinds && kinds[r] == Root && kinds[s] == Root && r != s && 0 <= i < 512 ==>
      (Shares(m', r, s, i) <==> Shares(m, r, s, i))
  }

  lemma RanNothing(m: Ram, kinds: Forest, root: nat, ops: seq<Op>)
    requires IsForest(m, kinds)
    ensures Ran(m, kinds, m, kinds, root, ops, 0)
  {
  }

  lemma RanStep(m: Ram, kinds: Forest, m': Ram, kinds': Forest, m'': Ram, kinds'': Forest, root: nat, ops: seq<Op>, n: nat)
    requires n < |ops| && Ran(m, kinds, m', kinds', root, ops, n) && root in kinds && kinds[root] == Root
    requires Remapped(m', kinds', m'', kinds'', root, PageOf(ops[n].virt),
                      if ops[n].Map? then Leaf(ops[n].phys, ops[n].flags) else 0)
    ensures Ran(m, kinds, m'', kinds'', root, ops, n + 1)
  {
    hide Entry, Walk, Shares, IsForest, PageOf, Leaf;
    var p0 := PageOf(ops[n].virt);
    var e := if ops[n].Map? then Leaf(ops[n].phys, ops[n].flags) else 0;
    forall r, p: Page | r in kinds && kinds[r] == Root && p.Ok()
      ensures Walk(m'', r, p) ==
        if r == root || Shares(m, r, root, p.i4) then Flat(ops, n + 1, p, Walk(m, r, p)) else Walk(m, r, p)
    {
      assert Walk(m'', r, p) == if p == p0 && (r == root || Shares(m', r, root, p.i4)) then e else Walk(m', r, p);
    }
  }

  lemma RanThenExtends(m: Ram, kinds: Forest, m': Ram, kinds': Forest, m'': Ram, kinds'': Forest, root: nat, ops: seq<Op>, n: nat)
    requires n <= |ops| && Ran(m, kinds, m', kinds', root, ops, n) && Extends(m', kinds', m'', kinds'')
    ensures Ran(m, kinds, m'', kinds'', root, ops, n)
  {
    hide Entry, Walk, Shares, IsForest, Flat;
  }

  /**
    Any sequence of mappings and unmappings of one space: its tables refine the flat map, and every other space
    sees exactly the changes below the upper-half slots it shares. The tables above the last level have the rights
    of the first mapping that needed them.
   */
  method Run(vmm: Vmm, root: nat, ops: seq<Op>) returns (halted: bool, done: nat)
    requires vmm.Valid() && vmm.IsRoot(root) && forall i :: 0 <= i < |ops| ==> ops[i].Ok()
    modifies vmm, vmm.pmm, vmm.pmm.bitmap
    ensures vmm.Valid() && done <= |ops| && (!halted ==> done == |ops|)
    ensures halted ==> P.Exhausted(vmm.pmm.bitmap[..])
    ensures Ran(old(vmm.ram), old(vmm.kinds), vmm.ram, vmm.kinds, root, ops, done)
    ensures !halted ==> RightsAfter(old(vmm.ram), vmm.ram, root, Mappings(ops, |ops|))
  {
    hide Ran, Remapped, Extends, IsForest, Untouched, PageOf, RightsAfter, AllLevels, SameRights;
    ghost var m, kinds := vmm.ram, vmm.kinds;
    RanNothing(m, kinds, root, ops);
    NoMappings(m, root);
    halted, done := false, 0;
    while done < |ops|
      invariant vmm.Valid() && vmm.IsRoot(root) && done <= |ops| && !halted
      invariant Ran(m, kinds, vmm.ram, vmm.kinds, root, ops, done)
      invariant RightsAfter(m, vmm.ram, root, Mappings(ops, done))
    {
      ghost var m1, kinds1 := vmm.ram, vmm.kinds;
      assert Mappings(ops, done) + [] == Mappings(ops, done);
      match ops[done] {
        case Map(virt, phys, flags) =>
          halted := vmm.Map(root, virt, phys, flags);
          if halted {
            RanThenExtends(m, kinds, m1, kinds1, vmm.ram, vmm.kinds, root, ops, done);
            return;
          }
          OneMapping(m, m1, vmm.ram, root, Mappings(ops, done), PageOf(virt), flags);
        case Unmap(virt) =>
          vmm.Unmap(root, virt);
          SameThenAfter(m, m1, vmm.ram, root, Mappings(ops, done));
      }
      RanStep(m, kinds, m1, kinds1, vmm.ram, vmm.kinds, root, ops, done);
      RemappedRoot(m1, kinds1, vmm.ram, vmm.kinds, root, PageOf(ops[done].virt),
                   if ops[done].Map? then Leaf(ops[done].phys, ops[done].flags) else 0);
      done := done + 1;
    }
  }

  lemma RemappedRoot(m: Ram, kinds: Forest, m': Ram, kinds': Forest, root: nat, p: Page, e: nat)
    requires Remapped(m, kinds, m', kinds', root, p, e) && root in kinds
    ensures root in kinds' && kinds'[root] == kinds[root]
  {
  }

  /**
    What a program may do with a page after the operations, if no table was on the way to it at first: what its last
    mapping says, and the first mapping near it at each of the three levels.
   */
  lemma RightsOverRun(m: Ram, kinds: Forest, m': Ram, kinds': Forest, root: nat, ops: seq<Op>, q: Page, bit: nat)
    requires Ran(m, kinds, m', kinds', root, ops, |ops|) && RightsAfter(m, m', root, Mappings(ops, |ops|))
    requires root in kinds && kinds[root] == Root && q.Ok() && bit > 0
    requires NoTables(m, root, q)
    ensures Allows(m', root, q, bit) <==> FirstAllow(Mappings(ops, |ops|), q, bit) && HasBit(Flat(ops, |ops|, q, 0), bit)
  {
    hide Rights, FirstRights, IsForest, Shares, Walk, HasBit, FirstAllow, Allows, RightsAfter, Mappings;
    NoTableNoWalk(m, root, q);
    AllowedByFirst(m, m', root, Mappings(ops, |ops|), q, bit);
    assert Walk(m', root, q) == Flat(ops, |ops|, q, 0);
  }

  lemma NoTableNoWalk(m: Ram, root: nat, q: Page)
    requires Rights(m, root, q, 4) == 0
    ensures Walk(m, root, q) == 0
  {
    hide Entry;
    UpperZero(m, root, q, 4);
  }

  /** The failing input: behind a read-only page, a page mapped for writing cannot be written. */
  lemma ReadOnlyFirst()
    ensures
      var ops := [Map(0x40_0000, 0x5000, 5), Map(0x60_0000, 0x6000, 7)];
      && HasBit(Flat(ops, 2, PageOf(0x60_0000), 0), 2)
      && !HasBit(FirstRights(Mappings(ops, 2), PageOf(0x60_0000), 4, 0), 2)
  {
    var ops := [Map(0x40_0000, 0x5000, 5), Map(0x60_0000, 0x6000, 7)];
    var a, b := Mapping(PageOf(0x40_0000), 5), Mapping(PageOf(0x60_0000), 7);
    assert Mappings(ops, 1) == [a] && Mappings(ops, 2) == [a, b];
    FirstDecides([a, b], PageOf(0x60_0000), 4, 0);
  }

  /** Two spaces never share a table of the lower half. */
  lemma LowerHalfPrivate(m: Ram, kinds: Forest, r: nat, s: nat, i: nat)
    requires IsForest(m, kinds) && r in kinds && s in kinds && kinds[r] == Root && kinds[s] == Root && r != s
    requires i < 256
    ensures !Shares(m, r, s, i)
  {
    hide Entry;
    assert SlotOk(m, kinds, r, i) && SlotOk(m, kinds, s, i);
  }

  /** Separation: operations on the lower half of one space leave every walk of every other space as it was. */
  lemma Separation(m: Ram, kinds: Forest, m': Ram, kinds': Forest, root: nat, ops: seq<Op>, n: nat, r: nat, p: Page)
    requires n <= |ops| && Ran(m, kinds, m', kinds', root, ops, n)
    requires forall i :: 0 <= i < n ==> PageOf(ops[i].virt).i4 < 256
    requires root in kinds && kinds[root] == Root && r in kinds && kinds[r] == Root && r != root && p.Ok()
    ensures Walk(m', r, p) == Walk(m, r, p)
  {
    hide Entry, Walk, Shares, PageOf;
    if p.i4 < 256 {
      LowerHalfPrivate(m, kinds, r, root, p.i4);
    } else {
      FlatElsewhere(ops, n, p, Walk(m, r, p));
    }
  }

  lemma {:induction false} FlatElsewhere(ops: seq<Op>, n: nat, p: Page, before: nat)
    requires n <= |ops| && forall i :: 0 <= i < n ==> PageOf(ops[i].virt) != p
    ensures Flat(ops, n, p, before) == before
  {
    hide PageOf;
    if n != 0 {
      FlatElsewhere(ops, n - 1, p, before);
    }
  }

  /** Sharing: where two spaces share a slot they still do afterwards, and walk alike through it. */
  lemma SharedStaysShared(m: Ram, kinds: Forest, m': Ram, kinds': Forest, root: nat, ops: seq<Op>, n: nat, r: nat, p: Page)
    requires n <= |ops| && Ran(m, kinds, m', kinds', root, ops, n) && p.Ok()
    requires root in kinds && kinds[root] == Root && r in kinds && kinds[r] == Root && r != root
    requires Shares(m, r, root, p.i4)
    ensures Walk(m', r, p) == Walk(m', root, p) == Flat(ops, n, p, Walk(m, root, p))
  {
    hide Entry, Walk, Shares, PageOf, Flat;
    SharedWalk(m, r, root, p);
  }

  // The kernel's own space.

  const DIRECT_PAGES: nat := 0x10_0000   // 4 GiB
  const KERNEL_PAGES: nat := 0x4000      // 64 MiB

  function WindowPage(base: nat, q: nat): Page {
    PageOf(base + 4096 * q)
  }

  predicate InWindow(base: nat, n: nat, p: Page) {
    exists q :: 0 <= q < n && WindowPage(base, q) == p
  }

  /** Different pages of a window of at most 4 GiB have different indices. */
  lemma WindowInjective(base: nat, q: nat, r: nat)
    requires base % 4096 == 0 && q <= DIRECT_PAGES && r <= DIRECT_PAGES && WindowPage(base, q) == WindowPage(base, r)
    ensures q == r
  {
    hide PageOf;
    SamePage(base + 4096 * q, base + 4096 * r);
    assert (base + 4096 * q) / 4096 == base / 4096 + q;
    assert (base + 4096 * r) / 4096 == base / 4096 + r;
  }

  /** The two windows, as `vmm_init` sets them up, and nothing else. */
  ghost predicate Windows(m: Ram, root: nat, hhdm: nat, n: nat, virt: nat, phys: nat, k: nat) {
    && (forall q :: 0 <= q < n ==> Walk(m, root, WindowPage(hhdm, q)) == 4096 * q + KERNEL_FLAGS)
    && (forall q :: 0 <= q < k ==> Walk(m, root, WindowPage(virt, q)) == phys + 4096 * q + USER_FLAGS)
    && forall p: Page :: p.Ok() && !InWindow(hhdm, n, p) && !InWindow(virt, k, p) ==> Walk(m, root, p) == 0
  }

  ghost predicate Disjoint(hhdm: nat, n: nat, virt: nat, k: nat) {
    forall q, r :: 0 <= q < n && 0 <= r < k ==> WindowPage(hhdm, q) != WindowPage(virt, r)
  }

  lemma WindowStep(m: Ram, kinds: Forest, m': Ram, kinds': Forest, root: nat, hhdm: nat, n: nat, virt: nat, phys: nat, k: nat,
                   p: Page, e: nat)
    requires Windows(m, root, hhdm, n, virt, phys, k) && Remapped(m, kinds, m', kinds', root, p, e)
    requires root in kinds && kinds[root] == Root && p.Ok()
    requires hhdm % 4096 == 0 && virt % 4096 == 0 && Disjoint(hhdm, DIRECT_PAGES, virt, KERNEL_PAGES)
    requires n <= DIRECT_PAGES && k <= KERNEL_PAGES
    ensures n < DIRECT_PAGES && p == WindowPage(hhdm, n) && e == 4096 * n + KERNEL_FLAGS ==>
      Windows(m', root, hhdm, n + 1, virt, phys, k)
    ensures k < KERNEL_PAGES && p == WindowPage(virt, k) && e == phys + 4096 * k + USER_FLAGS ==>
      Windows(m', root, hhdm, n, virt, phys, k + 1)
  {
    hide Entry, Walk, Shares, IsForest, PageOf, WindowPage, InWindow;
    WalksAround(m, kinds, m', kinds', root, p, e);
    if n < DIRECT_PAGES && p == WindowPage(hhdm, n) && e == 4096 * n + KERNEL_FLAGS {
      FirstWindowStep(m, m', root, hhdm, n, virt, phys, k, p, e);
    }
    if k < KERNEL_PAGES && p == WindowPage(virt, k) && e == phys + 4096 * k + USER_FLAGS {
      SecondWindowStep(m, m', root, hhdm, n, virt, phys, k, p, e);
    }
  }

  lemma WalksAround(m: Ram, kinds: Forest, m': Ram, kinds': Forest, root: nat, p: Page, e: nat)
    requires Remapped(m, kinds, m', kinds', root, p, e) && root in kinds && kinds[root] == Root
    ensures forall q: Page :: q.Ok() ==> Walk(m', root, q) == if q == p then e else Walk(m, root, q)
  {
    hide Entry, Walk, Shares, IsForest;
  }

  lemma FirstWindowStep(m: Ram, m': Ram, root: nat, hhdm: nat, n: nat, virt: nat, phys: nat, k: nat, p: Page, e: nat)
    requires Windows(m, root, hhdm, n, virt, phys, k)
    requires forall q: Page :: q.Ok() ==> Walk(m', root, q) == if q == p then e else Walk(m, root, q)
    requires hhdm % 4096 == 0 && Disjoint(hhdm, DIRECT_PAGES, virt, KERNEL_PAGES)
    requires n < DIRECT_PAGES && k <= KERNEL_PAGES && p == WindowPage(hhdm, n) && e == 4096 * n + KERNEL_FLAGS
    ensures Windows(m', root, hhdm, n + 1, virt, phys, k)
  {
    hide Walk, PageOf;
    forall q | 0 <= q < n + 1 ensures Walk(m', root, WindowPage(hhdm, q)) == 4096 * q + KERNEL_FLAGS {
      if WindowPage(hhdm, q) == p {
        WindowInjective(hhdm, q, n);
      }
    }
    forall q: Page | q.Ok() && !InWindow(hhdm, n + 1, q) && !InWindow(virt, k, q) ensures Walk(m', root, q) == 0 {
      assert q != p;
    }
  }

  lemma SecondWindowStep(m: Ram, m': Ram, root: nat, hhdm: nat, n: nat, virt: nat, phys: nat, k: nat, p: Page, e: nat)
    requires Windows(m, root, hhdm, n, virt, phys, k)
    requires forall q: Page :: q.Ok() ==> Walk(m', root, q) == if q == p then e else Walk(m, root, q)
    requires virt % 4096 == 0 && Disjoint(hhdm, DIRECT_PAGES, virt, KERNEL_PAGES)
    requires n <= DIRECT_PAGES && k < KERNEL_PAGES && p == WindowPage(virt, k) && e == phys + 4096 * k + USER_FLAGS
    ensures Windows(m', root, hhdm, n, virt, phys, k + 1)
  {
    hide Walk, PageOf;
    forall q | 0 <= q < k + 1 ensures Walk(m', root, WindowPage(virt, q)) == phys + 4096 * q + USER_FLAGS {
      if WindowPage(virt, q) == p {
        WindowInjective(virt, q, k);
      }
    }
    forall q: Page | q.Ok() && !InWindow(hhdm, n, q) && !InWindow(virt, k + 1, q) ensures Walk(m', root, q) == 0 {
      assert q != p;
    }
  }

  /**
    Behind `hhdm` every address below 4 GiB is itself, for the kernel; behind `virt` every address of the first
    64 MiB of the kernel is at its place behind `phys`, and open to programs.
   */
  lemma WindowsMean(m: Ram, root: nat, hhdm: nat, virt: nat, phys: nat, a: nat)
    requires Windows(m, root, hhdm, DIRECT_PAGES, virt, phys, KERNEL_PAGES)
    requires hhdm % 4096 == 0 && virt % 4096 == 0 && phys % 4096 == 0
    ensures a < 0x1_0000_0000 ==> Walk(m, root, PageOf(hhdm + a)) == a / 4096 * 4096 + 3
    ensures a < 0x400_0000 ==> Walk(m, root, PageOf(virt + a)) == phys + a / 4096 * 4096 + 7
  {
    hide Walk, PageOf, WindowPage;
    SameWindowPage(hhdm, a);
    SameWindowPage(virt, a);
  }

  lemma SameWindowPage(base: nat, a: nat)
    requires base % 4096 == 0
    ensures WindowPage(base, a / 4096) == PageOf(base + a)
  {
    hide PageOf;
    SamePage(base + a, base + 4096 * (a / 4096));
  }

  /** `vmm_init`, after the first table: maps 4 GiB at `hhdm` and 64 MiB of the kernel at `virt`. */
  method Init(vmm: Vmm, hhdm: nat, virt: nat, phys: nat) returns (halted: bool, root: nat)
    requires vmm.Valid() && hhdm % 4096 == 0 && virt % 4096 == 0 && phys % 4096 == 0
    requires hhdm + 4096 * DIRECT_PAGES <= 0x1_0000_0000_0000_0000
    requires virt + 4096 * KERNEL_PAGES <= 0x1_0000_0000_0000_0000
    requires phys + 4096 * KERNEL_PAGES <= 0x1_0000_0000_0000_0000
    requires Disjoint(hhdm, DIRECT_PAGES, virt, KERNEL_PAGES)
    modifies vmm, vmm.pmm, vmm.pmm.bitmap
    ensures vmm.Valid()
    ensures halted ==> P.Exhausted(vmm.pmm.bitmap[..])
    ensures !halted ==> vmm.IsRoot(root) && Windows(vmm.ram, root, hhdm, DIRECT_PAGES, virt, phys, KERNEL_PAGES)
  {
    hide Remapped, Extends, IsForest, Untouched, PageOf, Walk, Windows, Disjoint, P.Exhausted, P.Free;
    halted, root := vmm.EmptySpace();
    if halted {
      return;
    }
    NoWindows(vmm.ram, root, hhdm, virt, phys);
    halted := MapDirect(vmm, root, hhdm, virt, phys);
    if !halted {
      halted := MapKernel(vmm, root, hhdm, virt, phys);
    }
  }

  /** The first loop: 4 GiB at `hhdm`. */
  method MapDirect(vmm: Vmm, root: nat, hhdm: nat, virt: nat, phys: nat) returns (halted: bool)
    requires vmm.Valid() && vmm.IsRoot(root) && hhdm % 4096 == 0 && virt % 4096 == 0
    requires hhdm + 4096 * DIRECT_PAGES <= 0x1_0000_0000_0000_0000
    requires Disjoint(hhdm, DIRECT_PAGES, virt, KERNEL_PAGES) && Windows(vmm.ram, root, hhdm, 0, virt, phys, 0)
    modifies vmm, vmm.pmm, vmm.pmm.bitmap
    ensures vmm.Valid() && (halted ==> P.Exhausted(vmm.pmm.bitmap[..]))
    ensures !halted ==> vmm.IsRoot(root) && Windows(vmm.ram, root, hhdm, DIRECT_PAGES, virt, phys, 0)
  {
    hide Remapped, Extends, IsForest, Untouched, PageOf, Walk, Windows, Disjoint, P.Exhausted, P.Free;
    halted := false;
    for n := 0 to DIRECT_PAGES
      invariant vmm.Valid() && vmm.IsRoot(root) && Windows(vmm.ram, root, hhdm, n, virt, phys, 0)
    {
      ghost var m, kinds := vmm.ram, vmm.kinds;
      halted := vmm.Map(root, hhdm + 4096 * n, 4096 * n, KERNEL_FLAGS);
      if halted {
        return;
      }
      WindowStep(m, kinds, vmm.ram, vmm.kinds, root, hhdm, n, virt, phys, 0, WindowPage(hhdm, n), 4096 * n + KERNEL_FLAGS);
      RemappedRoot(m, kinds, vmm.ram, vmm.kinds, root, WindowPage(hhdm, n), 4096 * n + KERNEL_FLAGS);
    }
    halted := false;
  }

  /** The second: 64 MiB of the kernel at `virt`. */
  method MapKernel(vmm: Vmm, root: nat, hhdm: nat, virt: nat, phys: nat) returns (halted: bool)
    requires vmm.Valid() && vmm.IsRoot(root) && hhdm % 4096 == 0 && virt % 4096 == 0 && phys % 4096 == 0
    requires virt + 4096 * KERNEL_PAGES <= 0x1_0000_0000_0000_0000
    requires phys + 4096 * KERNEL_PAGES <= 0x1_0000_0000_0000_0000
    requires Disjoint(hhdm, DIRECT_PAGES, virt, KERNEL_PAGES)
    requires Windows(vmm.ram, root, hhdm, DIRECT_PAGES, virt, phys, 0)
    modifies vmm, vmm.pmm, vmm.pmm.bitmap
    ensures vmm.Valid() && (halted ==> P.Exhausted(vmm.pmm.bitmap[..]))
    ensures !halted ==> vmm.IsRoot(root) && Windows(vmm.ram, root, hhdm, DIRECT_PAGES, virt, phys, KERNEL_PAGES)
  {
    hide Remapped, Extends, IsForest, Untouched, PageOf, Walk, Windows, Disjoint, P.Exhausted, P.Free;
    halted := false;
    for k := 0 to KERNEL_PAGES
      invariant vmm.Valid() && vmm.IsRoot(root) && Windows(vmm.ram, root, hhdm, DIRECT_PAGES, virt, phys, k)
    {
      ghost var m, kinds := vmm.ram, vmm.kinds;
      halted := vmm.Map(root, virt + 4096 * k, phys + 4096 * k, USER_FLAGS);
      if halted {
        return;
      }
      assert Leaf(phys + 4096 * k, USER_FLAGS) == phys + 4096 * k + USER_FLAGS;
      WindowStep(m, kinds, vmm.ram, vmm.kinds, root, hhdm, DIRECT_PAGES, virt, phys, k,
                 WindowPage(virt, k), phys + 4096 * k + USER_FLAGS);
      RemappedRoot(m, kinds, vmm.ram, vmm.kinds, root, WindowPage(virt, k), phys + 4096 * k + USER_FLAGS);
    }
    halted := false;
  }

  lemma NoWindows(m: Ram, root: nat, hhdm: nat, virt: nat, phys: nat)
    requires forall p: Page :: p.Ok() ==> Walk(m, root, p) == 0
    ensures Windows(m, root, hhdm, 0, virt, phys, 0)
  {
  }
}
