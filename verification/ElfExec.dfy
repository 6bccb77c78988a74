/** Starting a program: a new address space, its stack, the image, and the arguments. */
module ElfExec {
  import opened Arith
  import opened Bytes
  import P = Pmm
  import opened PageTables
  import opened TableRights
  import opened Vmm
  import opened VmmSpaces
  import opened ElfLoader
  import opened ArgvStack

  /** The frames of the stack pages: sixteen different ones, none of them a table. */
  ghost predicate StackFrames(frames: seq<nat>, kinds: Forest) {
    && |frames| == PAGES
    && (forall k :: 0 <= k < PAGES ==> frames[k] < P.FRAMES && frames[k] !in kinds)
    && forall k, l :: 0 <= k < l < PAGES ==> frames[k] != frames[l]
  }

  /** The stack as one run of bytes. */
  ghost function View(m: Ram, frames: seq<nat>): (s: seq<byte>)
    requires |m| == P.FRAMES && |frames| == PAGES && forall k :: 0 <= k < PAGES ==> frames[k] < P.FRAMES
    ensures |s| == STACK_BYTES
    ensures forall o :: 0 <= o < STACK_BYTES ==> s[o] == m[frames[o / 4096]][o % 4096]
  {
    seq<byte>(STACK_BYTES, o requires 0 <= o < STACK_BYTES => m[frames[o / 4096]][o % 4096])
  }

  lemma ViewAfterPoke(m: Ram, kinds: Forest, frames: seq<nat>, off: nat, b: seq<byte>)
    requires |m| == P.FRAMES && StackFrames(frames, kinds)
    requires off + |b| <= STACK_BYTES && off % 4096 + |b| <= 4096 && off < STACK_BYTES
    ensures
      var f := frames[off / 4096];
      View(m[f := Splice(m[f], off % 4096, b)], frames) == Splice(View(m, frames), off, b)
  {
    var f := frames[off / 4096];
    var m' := m[f := Splice(m[f], off % 4096, b)];
    var v, w := View(m', frames), Splice(View(m, frames), off, b);
    forall o | 0 <= o < STACK_BYTES ensures v[o] == w[o] {
      if o / 4096 != off / 4096 {
        assert frames[o / 4096] != f;
      } else {
        assert o - off == o % 4096 - off % 4096;
      }
    }
  }

  /** Copies bytes to a place in one page of the stack, through the direct mapping. */
  method Poke(vmm: Vmm, frames: seq<nat>, off: nat, b: seq<byte>)
    requires vmm.Valid() && StackFrames(frames, vmm.kinds)
    requires off < STACK_BYTES && off + |b| <= STACK_BYTES && off % 4096 + |b| <= 4096
    modifies vmm`ram
    ensures vmm.Valid() && View(vmm.ram, frames) == Splice(View(old(vmm.ram), frames), off, b)
    ensures forall g :: 0 <= g < P.FRAMES && g !in frames ==> vmm.ram[g] == old(vmm.ram)[g]
  {
    hide IsForest, Splice, P.Free;
    ViewAfterPoke(vmm.ram, vmm.kinds, frames, off, b);
    var f := frames[off / 4096];
    vmm.FillFrame(f, Splice(vmm.ram[f], off % 4096, b));
  }

  /** Stores a word at an 8-aligned place below the strings, which stay as they are. */
  method PushWord(vmm: Vmm, frames: seq<nat>, ghost args: seq<Arg>, off: nat, w: nat)
    requires vmm.Valid() && StackFrames(frames, vmm.kinds) && ArgsOk(args) && w < 0x1_0000_0000_0000_0000
    requires off % 8 == 0 && off + 8 <= StringAt(args, 0)
    requires forall i :: 0 <= i < |args| ==> StringHeld(View(vmm.ram, frames), args, i)
    modifies vmm`ram
    ensures vmm.Valid() && off + 8 <= STACK_BYTES
    ensures View(vmm.ram, frames) == Splice(View(old(vmm.ram), frames), off, Put64(w))
    ensures WordHeld(View(vmm.ram, frames), off, w)
    ensures forall i :: 0 <= i < |args| ==> StringHeld(View(vmm.ram, frames), args, i)
    ensures forall g :: 0 <= g < P.FRAMES && g !in frames ==> vmm.ram[g] == old(vmm.ram)[g]
  {
    hide IsForest, Splice, P.Free, View, StringHeld, WordHeld;
    StringInTopPage(args, 0);
    SlotInPage(off);
    PushBelow(View(vmm.ram, frames), args, off, w);
    Poke(vmm, frames, off, Put64(w));
  }

  /** The strings, from the last argument down; then NULL, the pointers from the last down, and argc. */
  method BuildStack(vmm: Vmm, frames: seq<nat>, args: seq<Arg>) returns (sp: nat)
    requires vmm.Valid() && StackFrames(frames, vmm.kinds) && ArgsOk(args)
    modifies vmm`ram
    ensures vmm.Valid() && StackOk(View(vmm.ram, frames), sp, args)
    ensures forall g :: 0 <= g < P.FRAMES && g !in frames ==> vmm.ram[g] == old(vmm.ram)[g]
  {
    hide IsForest, Splice, P.Free, View, StringHeld, WordHeld, StackOk, PointersHeld, Put64;
    var ptrs := PutStrings(vmm, frames, args);
    StringInTopPage(args, 0);
    sp := AlignDown(ptrs[0]);
    sp := sp - 8;
    PushWord(vmm, frames, args, sp, 0);
    sp := PutPointers(vmm, frames, args, ptrs, sp);
    ghost var v := View(vmm.ram, frames);
    sp := sp - 8;
    PushWord(vmm, frames, args, sp, |args|);
    KeepPointers(v, args, sp + 8, sp, |args|, 0);
    StackBuilt(View(vmm.ram, frames), args, sp);
  }

  /** `sp & ~7` */
  function AlignDown(n: nat): (r: nat)
    ensures r % 8 == 0 && r <= n < r + 8
  {
    n / 8 * 8
  }

  lemma StackBuilt(stack: seq<byte>, args: seq<Arg>, sp: nat)
    requires |stack| == STACK_BYTES && ArgsOk(args) && sp % 8 == 0
    requires sp + 16 + 8 * |args| <= StringAt(args, 0) < sp + 24 + 8 * |args|
    requires WordHeld(stack, sp, |args|) && PointersHeld(stack, args, sp + 8, 0)
    requires forall i :: 0 <= i < |args| ==> StringHeld(stack, args, i)
    ensures StackOk(stack, sp, args)
  {
    hide WordHeld, StringHeld;
    forall i | 0 <= i < |args| ensures EndsBelowNext(args, i) {
      StringInTopPage(args, i);
    }
    forall i | 0 <= i < |args| ensures WordHeld(stack, sp + 8 + 8 * i, BOTTOM + StringAt(args, i)) {
      assert WordHeld(stack, sp + 8 + 8 * (i - 0), BOTTOM + StringAt(args, i));
    }
  }

  /** The pointers of arguments `i` on, and NULL, are in place from `sp` on. */
  ghost predicate PointersHeld(stack: seq<byte>, args: seq<Arg>, sp: int, i: nat)
    requires i <= |args|
  {
    && (forall j :: i <= j < |args| ==> WordHeld(stack, sp + 8 * (j - i), BOTTOM + StringAt(args, j)))
    && WordHeld(stack, sp + 8 * (|args| - i), 0)
  }

  method PutStrings(vmm: Vmm, frames: seq<nat>, args: seq<Arg>) returns (ptrs: seq<nat>)
    requires vmm.Valid() && StackFrames(frames, vmm.kinds) && ArgsOk(args)
    modifies vmm`ram
    ensures vmm.Valid() && |ptrs| == |args|
    ensures forall i :: 0 <= i < |args| ==> ptrs[i] == StringAt(args, i) && StringHeld(View(vmm.ram, frames), args, i)
    ensures forall g :: 0 <= g < P.FRAMES && g !in frames ==> vmm.ram[g] == old(vmm.ram)[g]
  {
    hide IsForest, Splice, P.Free, View, StringHeld;
    var sp := STACK_BYTES;
    ptrs := [];
    for i := |args| downto 0
      invariant vmm.Valid() && sp == StringAt(args, i) && |ptrs| == |args| - i
      invariant forall j :: i <= j < |args| ==> ptrs[j - i] == StringAt(args, j)
      invariant forall j :: i <= j < |args| ==> StringHeld(View(vmm.ram, frames), args, j)
      invariant forall g :: 0 <= g < P.FRAMES && g !in frames ==> vmm.ram[g] == old(vmm.ram)[g]
    {
      StringInTopPage(args, i);
      ghost var v := View(vmm.ram, frames);
      sp := sp - (|args[i]| + 1);
      forall j | i + 1 <= j < |args| ensures StringHeld(Splice(v, sp, CString(args[i])), args, j) {
        StringsAscend(args, i + 1, j);
        StringKept(v, sp, CString(args[i]), args, j);
      }
      StringPut(v, args, i);
      Poke(vmm, frames, sp, CString(args[i]));
      ptrs := [sp] + ptrs;
    }
  }

  lemma {:induction false} StringsAscend(args: seq<Arg>, i: nat, j: nat)
    requires i <= j <= |args|
    ensures StringAt(args, i) <= StringAt(args, j)
    decreases j - i
  {
    if i < j {
      StringsAscend(args, i + 1, j);
    }
  }

  /** Pushing a word below the strings keeps them. */
  lemma PushBelow(stack: seq<byte>, args: seq<Arg>, off: int, w: nat)
    requires |stack| == STACK_BYTES && ArgsOk(args) && 0 <= off && off + 8 <= StringAt(args, 0) && w < 0x1_0000_0000_0000_0000
    requires forall i :: 0 <= i < |args| ==> StringHeld(stack, args, i)
    ensures off + 8 <= STACK_BYTES
    ensures forall i :: 0 <= i < |args| ==> StringHeld(Splice(stack, off, Put64(w)), args, i)
    ensures WordHeld(Splice(stack, off, Put64(w)), off, w)
  {
    hide StringHeld, WordHeld, Splice;
    StringInTopPage(args, 0);
    forall i | 0 <= i < |args| ensures StringHeld(Splice(stack, off, Put64(w)), args, i) {
      StringsAscend(args, 0, i);
      StringKept(stack, off, Put64(w), args, i);
    }
    WordPut(stack, off, w);
  }

  /** Pushing a word below the pointers keeps them. */
  lemma KeepPointers(stack: seq<byte>, args: seq<Arg>, sp: int, off: int, w: nat, i: nat)
    requires |stack| == STACK_BYTES && i <= |args| && PointersHeld(stack, args, sp, i)
    requires 0 <= off && off + 8 <= sp && off + 8 <= STACK_BYTES && w < 0x1_0000_0000_0000_0000
    ensures PointersHeld(Splice(stack, off, Put64(w)), args, sp, i)
  {
    hide WordHeld, Splice;
    forall j | i <= j < |args|
      ensures WordHeld(Splice(stack, off, Put64(w)), sp + 8 * (j - i), BOTTOM + StringAt(args, j))
    {
      WordKept(stack, off, Put64(w), sp + 8 * (j - i), BOTTOM + StringAt(args, j));
    }
    WordKept(stack, off, Put64(w), sp + 8 * (|args| - i), 0);
  }

  method PutPointers(vmm: Vmm, frames: seq<nat>, args: seq<Arg>, ptrs: seq<nat>, top: nat) returns (sp: nat)
    requires vmm.Valid() && StackFrames(frames, vmm.kinds) && ArgsOk(args) && |ptrs| == |args|
    requires forall i :: 0 <= i < |args| ==> ptrs[i] == StringAt(args, i) && StringHeld(View(vmm.ram, frames), args, i)
    requires top % 8 == 0 && 8 * |args| <= top && top + 8 <= StringAt(args, 0) && WordHeld(View(vmm.ram, frames), top, 0)
    modifies vmm`ram
    ensures vmm.Valid() && sp == top - 8 * |args|
    ensures forall i :: 0 <= i < |args| ==> StringHeld(View(vmm.ram, frames), args, i)
    ensures PointersHeld(View(vmm.ram, frames), args, sp, 0)
    ensures forall g :: 0 <= g < P.FRAMES && g !in frames ==> vmm.ram[g] == old(vmm.ram)[g]
  {
    hide IsForest, Splice, P.Free, View, StringHeld, WordHeld;
    sp := top;
    for i := |args| downto 0
      invariant vmm.Valid() && sp == top - 8 * (|args| - i)
      invariant forall j :: 0 <= j < |args| ==> StringHeld(View(vmm.ram, frames), args, j)
      invariant PointersHeld(View(vmm.ram, frames), args, sp, i)
      invariant forall g :: 0 <= g < P.FRAMES && g !in frames ==> vmm.ram[g] == old(vmm.ram)[g]
    {
      ghost var v := View(vmm.ram, frames);
      StringInTopPage(args, i);
      sp := sp - 8;
      PushWord(vmm, frames, args, sp, BOTTOM + ptrs[i]);
      KeepPointers(v, args, sp + 8, sp, BOTTOM + ptrs[i], i + 1);
      OnePointerMore(View(vmm.ram, frames), args, sp, i);
    }
  }

  lemma OnePointerMore(stack: seq<byte>, args: seq<Arg>, sp: int, i: nat)
    requires i < |args| && PointersHeld(stack, args, sp + 8, i + 1)
    requires WordHeld(stack, sp, BOTTOM + StringAt(args, i))
    ensures PointersHeld(stack, args, sp, i)
  {
    hide WordHeld;
    forall j | i <= j < |args| ensures WordHeld(stack, sp + 8 * (j - i), BOTTOM + StringAt(args, j)) {
      if j > i {
        assert sp + 8 * (j - i) == sp + 8 + 8 * (j - (i + 1));
      }
    }
    assert sp + 8 * (|args| - i) == sp + 8 + 8 * (|args| - (i + 1));
  }

  // The whole of starting a program.

  const STACK_PAGE: nat := BOTTOM / 4096

  /** The first `n` stack pages are mapped, zeroed, in these frames. */
  ghost predicate StackMapped(m: Ram, kinds: Forest, bits: seq<byte>, root: nat, frames: seq<nat>, n: nat)
    requires |bits| == P.BITMAP_BYTES && n <= |frames|
  {
    && (forall k :: 0 <= k < n ==> HoldsIn(m, kinds, bits, root, STACK_PAGE + k, USER_FLAGS, Zeros(4096), frames[k]))
    && forall k, l :: 0 <= k < l < n ==> frames[k] != frames[l]
  }

  lemma StackMappedStep(m: Ram, kinds: Forest, bits: seq<byte>, m': Ram, kinds': Forest, bits': seq<byte>, root: nat,
                        frames: seq<nat>, n: nat, t: nat)
    requires |bits| == P.BITMAP_BYTES && |frames| == n < PAGES && StackMapped(m, kinds, bits, root, frames, n)
    requires PageStep(m, kinds, bits, m', kinds', bits', root, STACK_PAGE + n) && P.Free(bits, t)
    requires HoldsIn(m', kinds', bits', root, STACK_PAGE + n, USER_FLAGS, Zeros(4096), t)
    ensures StackMapped(m', kinds', bits', root, frames + [t], n + 1)
  {
    hide Walk, P.Free, Zeros;
    forall k | 0 <= k < n
      ensures HoldsIn(m', kinds', bits', root, STACK_PAGE + k, USER_FLAGS, Zeros(4096), frames[k])
    {
      assert HoldsIn(m, kinds, bits, root, STACK_PAGE + k, USER_FLAGS, Zeros(4096), frames[k]);
    }
  }

  /** The first `n` pages of the stack, as they are mapped. */
  function StackLog(n: nat): (log: seq<Mapping>)
    ensures |log| == n && forall k :: 0 <= k < n ==> log[k] == Mapping(UserPage(STACK_PAGE + k), USER_FLAGS)
  {
    seq(n, k requires 0 <= k => Mapping(UserPage(STACK_PAGE + k), USER_FLAGS))
  }

  /** Allocates, maps and clears the sixteen pages of the stack. */
  method MapStack(vmm: Vmm, root: nat) returns (outcome: Outcome, frames: seq<nat>)
    requires vmm.Valid() && vmm.IsRoot(root)
    modifies vmm, vmm.pmm, vmm.pmm.bitmap
    ensures vmm.Valid() && vmm.IsRoot(root)
    ensures !outcome.Success? ==> P.Exhausted(vmm.pmm.bitmap[..])
    ensures outcome.Success? ==>
      |frames| == PAGES && StackMapped(vmm.ram, vmm.kinds, vmm.pmm.bitmap[..], root, frames, PAGES)
    ensures outcome.Success? ==> OthersKept(old(vmm.ram), old(vmm.kinds), vmm.ram, vmm.kinds, root)
    ensures outcome.Success? ==> KeptOffStack(old(vmm.ram), vmm.ram, root, PAGES)
    ensures outcome.Success? ==> RightsAfter(old(vmm.ram), vmm.ram, root, StackLog(PAGES))
  {
    hide Walk, P.Free, IsForest, PageStep, HoldsIn, Untouched, Zeros, FreshlyMapped, OthersKept, KeptOffStack;
    hide RightsAfter, AllLevels, SameRights;
    frames := [];
    NothingElsewhere(vmm.ram, vmm.kinds, root);
    NoMappings(vmm.ram, root);
    assert StackLog(0) == [];
    for pg := 0 to PAGES
      invariant vmm.Valid() && vmm.IsRoot(root) && |frames| == pg
      invariant StackMapped(vmm.ram, vmm.kinds, vmm.pmm.bitmap[..], root, frames, pg)
      invariant OthersKept(old(vmm.ram), old(vmm.kinds), vmm.ram, vmm.kinds, root)
      invariant KeptOffStack(old(vmm.ram), vmm.ram, root, pg)
      invariant RightsAfter(old(vmm.ram), vmm.ram, root, StackLog(pg))
    {
      ghost var m, kinds, bits := vmm.ram, vmm.kinds, vmm.pmm.bitmap[..];
      var t;
      outcome, t := MapFresh(vmm, root, STACK_PAGE + pg, USER_FLAGS);
      if !outcome.Success? {
        return;
      }
      ghost var m1, kinds1, bits1 := vmm.ram, vmm.kinds, vmm.pmm.bitmap[..];
      FreshFrame(m, kinds, bits, m1, kinds1, bits1, root, STACK_PAGE + pg, t, USER_FLAGS);
      vmm.FillFrame(t, Zeros(4096));
      assert vmm.pmm.bitmap[..] == bits1;
      PageFilled(m, kinds, bits, m1, kinds1, bits1, vmm.ram, root, STACK_PAGE + pg, t, USER_FLAGS, Zeros(4096));
      StackMappedStep(m, kinds, bits, vmm.ram, vmm.kinds, vmm.pmm.bitmap[..], root, frames, pg, t);
      StepKeepsOthers(old(vmm.ram), old(vmm.kinds), m, kinds, bits, vmm.ram, vmm.kinds, bits1, root, STACK_PAGE + pg);
      OffStackStep(old(vmm.ram), m, kinds, bits, vmm.ram, vmm.kinds, bits1, root, pg);
      OneMapping(old(vmm.ram), m, m1, root, StackLog(pg), UserPage(STACK_PAGE + pg), USER_FLAGS);
      assert StackLog(pg) + [Mapping(UserPage(STACK_PAGE + pg), USER_FLAGS)] == StackLog(pg + 1);
      FrameRights(m1, kinds1, root, t, Zeros(4096));
      SameThenAfter(old(vmm.ram), m1, vmm.ram, root, StackLog(pg + 1));
      frames := frames + [t];
    }
    outcome := Success(0);
  }

  lemma NothingElsewhere(m: Ram, kinds: Forest, root: nat)
    ensures OthersKept(m, kinds, m, kinds, root) && KeptOffStack(m, m, root, 0)
  {
  }

  lemma FreshFrame(m: Ram, kinds: Forest, bits: seq<byte>, m1: Ram, kinds1: Forest, bits1: seq<byte>,
                   root: nat, n: nat, t: nat, flags: nat)
    requires FreshlyMapped(m, kinds, bits, m1, kinds1, bits1, root, n, t, flags)
    ensures |bits| == P.BITMAP_BYTES && t < P.FRAMES && t !in kinds1 && P.Free(bits, t)
  {
  }

  /** Page `p` is one of the first `n` pages of the stack. */
  ghost predicate StackPage(n: nat, p: Page) {
    exists k: nat :: STACK_PAGE <= k < STACK_PAGE + n && p == UserPage(k)
  }

  /** Every walk of the space, mapped or not, but those of the first `n` stack pages is as before. */
  ghost predicate KeptOffStack(m: Ram, m': Ram, root: nat, n: nat) {
    forall p: Page :: p.Ok() && !StackPage(n, p) ==> Walk(m', root, p) == Walk(m, root, p)
  }

  lemma OffStackStep(m0: Ram, m: Ram, kinds: Forest, bits: seq<byte>, m': Ram, kinds': Forest, bits': seq<byte>, root: nat, n: nat)
    requires KeptOffStack(m0, m, root, n) && PageStep(m, kinds, bits, m', kinds', bits', root, STACK_PAGE + n)
    ensures KeptOffStack(m0, m', root, n + 1)
  {
    hide Walk, P.Free, HoldsIn, Untouched, OthersKept, PageOf;
    assert StackPage(n + 1, UserPage(STACK_PAGE + n));
    forall p: Page | p.Ok() && !StackPage(n + 1, p) ensures Walk(m', root, p) == Walk(m0, root, p) {
    }
  }

  lemma StepKeepsOthers(m0: Ram, kinds0: Forest, m: Ram, kinds: Forest, bits: seq<byte>, m': Ram, kinds': Forest, bits': seq<byte>,
                        root: nat, n: nat)
    requires OthersKept(m0, kinds0, m, kinds, root) && PageStep(m, kinds, bits, m', kinds', bits', root, n)
    ensures OthersKept(m0, kinds0, m', kinds', root)
  {
    hide Walk, P.Free, HoldsIn, Shares, Untouched;
  }

  /** The stack pages are not among those of the image. */
  ghost predicate StackApart(data: seq<byte>) {
    ImageOk(data) && forall k :: STACK_PAGE <= k < STACK_PAGE + PAGES ==> !InImage(data, PhNum(data), k)
  }

  lemma StackSurvivesLoad(m: Ram, kinds: Forest, bits: seq<byte>, m': Ram, kinds': Forest, bits': seq<byte>, root: nat,
                          frames: seq<nat>, data: seq<byte>)
    requires |bits| == P.BITMAP_BYTES && |frames| == PAGES && StackMapped(m, kinds, bits, root, frames, PAGES)
    requires StackApart(data) && Undisturbed(m, kinds, bits, m', kinds', bits', root, data, PhNum(data))
    ensures StackMapped(m', kinds', bits', root, frames, PAGES) && StackFrames(frames, kinds')
    ensures forall k :: 0 <= k < PAGES ==> !P.Free(bits, frames[k])
    ensures OthersKept(m, kinds, m', kinds', root)
  {
    hide Walk, P.Free, Zeros, PhNum, SegmentAt, HeaderOffset, ImageOk;
    forall k | 0 <= k < PAGES
      ensures HoldsIn(m', kinds', bits', root, STACK_PAGE + k, USER_FLAGS, Zeros(4096), frames[k])
    {
      assert HoldsIn(m, kinds, bits, root, STACK_PAGE + k, USER_FLAGS, Zeros(4096), frames[k]);
    }
  }

  /** The pages of the image, whose frames were free when loading began, are not touched through the stack. */
  lemma ImageSurvivesStack(m: Ram, kinds: Forest, bits: seq<byte>, base: seq<byte>, m': Ram, root: nat, frames: seq<nat>, data: seq<byte>)
    requires |bits| == |base| == P.BITMAP_BYTES && |m| == |m'| == P.FRAMES && StackFrames(frames, kinds)
    requires IsForest(m, kinds) && root in kinds && kinds[root] == Root
    requires forall k :: 0 <= k < PAGES ==> !P.Free(base, frames[k])
    requires forall g :: 0 <= g < P.FRAMES && g !in frames ==> m'[g] == m[g]
    requires ImageOk(data) && ImageHeld(m, kinds, bits, base, root, data, PhNum(data))
    ensures ImageHeld(m', kinds, bits, base, root, data, PhNum(data))
  {
    hide Walk, P.Free, PhNum, SegmentAt, HeaderOffset, SlotOk, PageOf, PagesApart;
    forall j | 0 <= j < PhNum(data) && SegmentAt(data, j).Loadable()
      ensures SegmentOk(data, SegmentAt(data, j))
      ensures SegmentHeld(m', kinds, bits, base, root, data, SegmentAt(data, j), SegmentAt(data, j).EndPage())
    {
      var s := SegmentAt(data, j);
      assert SegmentHeld(m, kinds, bits, base, root, data, s, s.EndPage());
      forall n | s.FirstPage() <= n < s.EndPage()
        ensures Holds(m', kinds, bits, base, root, n, s.PageFlags(), s.Contents(data, n))
      {
        assert Holds(m, kinds, bits, base, root, n, s.PageFlags(), s.Contents(data, n));
        var g: nat :| HoldsIn(m, kinds, bits, root, n, s.PageFlags(), s.Contents(data, n), g) && P.Free(base, g);
        ForestWalks(m, m', kinds, root, UserPage(n));
        assert HoldsIn(m', kinds, bits, root, n, s.PageFlags(), s.Contents(data, n), g);
      }
    }
  }

  /** Reading the stack through the page tables, in pages that are present, writable and the user's. */
  ghost predicate StackVisible(m: Ram, root: nat, stack: seq<byte>) {
    |stack| == STACK_BYTES && forall o :: 0 <= o < STACK_BYTES ==> ByteVisible(m, root, o, stack[o])
  }

  ghost predicate ByteVisible(m: Ram, root: nat, o: nat, b: byte) {
    ReadVirt(m, root, BOTTOM + o) == b && Walk(m, root, PageOf(BOTTOM + o)) % 4096 == 7
  }

  lemma StackReadable(m: Ram, kinds: Forest, bits: seq<byte>, m': Ram, root: nat, frames: seq<nat>)
    requires |bits| == P.BITMAP_BYTES && |m| == |m'| == P.FRAMES && StackFrames(frames, kinds)
    requires IsForest(m, kinds) && root in kinds && kinds[root] == Root
    requires StackMapped(m, kinds, bits, root, frames, PAGES)
    requires forall g :: 0 <= g < P.FRAMES && g !in frames ==> m'[g] == m[g]
    ensures StackVisible(m', root, View(m', frames))
  {
    hide Walk, P.Free, SlotOk, PageOf, Zeros, ReadVirt;
    forall o | 0 <= o < STACK_BYTES ensures ByteVisible(m', root, o, View(m', frames)[o]) {
      var k := o / 4096;
      assert (BOTTOM + o) / 4096 == STACK_PAGE + k && (BOTTOM + o) % 4096 == o % 4096;
      assert HoldsIn(m, kinds, bits, root, STACK_PAGE + k, USER_FLAGS, Zeros(4096), frames[k]);
      ForestWalks(m, m', kinds, root, UserPage(STACK_PAGE + k));
      ReadHeldByte(m', kinds, bits, root, BOTTOM + o, USER_FLAGS, m'[frames[k]], frames[k]);
      HeldFlags(BOTTOM + o, Walk(m', root, UserPage(STACK_PAGE + k)), frames[k], USER_FLAGS);
    }
  }

  /** Every present table of the kernel's half of `current` is shared. */
  ghost predicate KernelShared(m0: Ram, current: nat, m: Ram, root: nat) {
    forall i :: 256 <= i < 512 && Present(Entry(m0, current, i)) ==> Shares(m, root, current, i)
  }

  /** Outside image and stack the space walks like `current` in the kernel's half, and nowhere in the lower. */
  ghost predicate RestOfSpace(m0: Ram, current: nat, m: Ram, root: nat, data: seq<byte>)
    requires ImageOk(data)
  {
    forall p: Page :: p.Ok() && !PageInImage(data, PhNum(data), p) && !StackPage(PAGES, p) ==>
      Walk(m, root, p) == if p.i4 < 256 then 0 else Walk(m0, current, p)
  }

  lemma RestKept(m0: Ram, current: nat, m1: Ram, m2: Ram, kinds2: Forest, base: seq<byte>, m3: Ram, kinds3: Forest, bits: seq<byte>,
                 m4: Ram, root: nat, frames: seq<nat>, data: seq<byte>)
    requires forall p: Page :: p.Ok() ==> Walk(m1, root, p) == if p.i4 < 256 then 0 else Walk(m0, current, p)
    requires KeptOffStack(m1, m2, root, PAGES) && ImageOk(data)
    requires Undisturbed(m2, kinds2, base, m3, kinds3, bits, root, data, PhNum(data))
    requires IsForest(m3, kinds3) && root in kinds3 && kinds3[root] == Root && StackFrames(frames, kinds3)
    requires |m3| == |m4| == P.FRAMES && forall g :: 0 <= g < P.FRAMES && g !in frames ==> m4[g] == m3[g]
    ensures RestOfSpace(m0, current, m4, root, data)
  {
    hide Walk, SlotOk, PhNum, SegmentAt, HeaderOffset, Untouched, OthersKept, HoldsIn, PageInImage, StackPage, P.Free;
    forall p: Page | p.Ok() && !PageInImage(data, PhNum(data), p) && !StackPage(PAGES, p)
      ensures Walk(m4, root, p) == if p.i4 < 256 then 0 else Walk(m0, current, p)
    {
      ForestWalks(m3, m4, kinds3, root, p);
    }
  }

  lemma SharingKept(m0: Ram, current: nat, m1: Ram, kinds1: Forest, m4: Ram, kinds4: Forest, root: nat)
    requires KernelShared(m0, current, m1, root) && OthersKept(m1, kinds1, m4, kinds4, root) && root != current
    requires root in kinds1 && kinds1[root] == Root && current in kinds1 && kinds1[current] == Root
    ensures KernelShared(m0, current, m4, root)
  {
    hide Walk, Entry, Shares;
  }

  /**
    `elf_exec_argv`, up to the jump: a new space that shares the kernel's half with `current`, holds the image,
    has on its stack what the program's entry code pops, and nothing else. The spaces that there were are as before.
   */
  method Exec(vmm: Vmm, current: nat, data: seq<byte>, path: Arg, uargv: seq<Arg>)
    returns (outcome: Outcome, root: nat, sp: nat, ghost stack: seq<byte>, ghost base: seq<byte>)
    requires vmm.Valid() && vmm.IsRoot(current)
    requires HeaderOk(data) ==> StackApart(data)
    requires ArgsOk(if uargv == [] then [path] else uargv)
    modifies vmm, vmm.pmm, vmm.pmm.bitmap
    ensures vmm.Valid()
    ensures HeaderOk(data) && !outcome.Success? ==> P.Exhausted(vmm.pmm.bitmap[..])
    ensures outcome.Success? ==>
      && HeaderOk(data) && outcome.entry == EntryPoint(data) && |base| == P.BITMAP_BYTES
      && root !in old(vmm.kinds) && vmm.IsRoot(root)
      && KernelShared(old(vmm.ram), current, vmm.ram, root) && RestOfSpace(old(vmm.ram), current, vmm.ram, root, data)
      && SpacesKept(old(vmm.ram), old(vmm.kinds), vmm.ram, vmm.kinds)
      && ProgramRights(vmm.ram, root, data)
      && ImageHeld(vmm.ram, vmm.kinds, vmm.pmm.bitmap[..], base, root, data, PhNum(data))
      && BOTTOM <= sp && StackVisible(vmm.ram, root, stack)
      && StackOk(stack, sp - BOTTOM, if uargv == [] then [path] else uargv)
  {
    hide Walk, P.Free, IsForest, Untouched, Zeros, StackMapped, ImageHeld, Undisturbed, StackVisible, StackOk, View;
    hide U16, U32, U64, ImageOk, PhNum, StackApart, ArgsOk, Above, OthersKept, KeptOffStack, KernelShared, RestOfSpace;
    hide Entry, Shares, P.Exhausted, RightsAfter, SameRights, NoTables, StackLog, ImageLog, ProgramRights;
    sp, stack, base := 0, [], [];
    var args := if uargv == [] then [path] else uargv;
    ghost var m0, kinds0 := vmm.ram, vmm.kinds;
    var halted;
    halted, root := vmm.NewSpace(current);
    if halted {
      return Halted, root, sp, stack, base;
    }
    ghost var m1, kinds1 := vmm.ram, vmm.kinds;
    SharedAtFirst(m0, kinds0, m1, current, root);
    var frames;
    outcome, frames := MapStack(vmm, root);
    if !outcome.Success? {
      return;
    }
    ghost var m2, kinds2 := vmm.ram, vmm.kinds;
    base := vmm.pmm.bitmap[..];
    HeaderImage(data);
    outcome := Load(vmm, root, data);
    if !outcome.Success? {
      return;
    }
    ghost var m3, bits := vmm.ram, vmm.pmm.bitmap[..];
    StackSurvivesLoad(m2, kinds2, base, m3, vmm.kinds, bits, root, frames, data);
    OthersKeptTwice(m1, kinds1, m2, kinds2, m3, vmm.kinds, root);
    var off := BuildStack(vmm, frames, args);
    assert vmm.pmm.bitmap[..] == bits;
    stack := View(vmm.ram, frames);
    ImageSurvivesStack(m3, vmm.kinds, bits, base, vmm.ram, root, frames, data);
    StackReadable(m3, vmm.kinds, bits, vmm.ram, root, frames);
    StackKeepsOthers(m1, kinds1, m3, vmm.kinds, vmm.ram, root, frames);
    StackKeepsRights(m3, vmm.kinds, vmm.ram, root, frames);
    RightsOfProgram(m1, m2, m3, vmm.ram, root, data);
    SharingKept(m0, current, m1, kinds1, vmm.ram, vmm.kinds, root);
    SpaceAdded(m0, kinds0, m1, kinds1, vmm.ram, vmm.kinds, root);
    RestKept(m0, current, m1, m2, kinds2, base, m3, vmm.kinds, bits, vmm.ram, root, frames, data);
    sp := BOTTOM + off;
  }

  // ---- What the program may do with its pages.

  /** All that is mapped for a program, in this order. */
  function ProgramLog(data: seq<byte>): seq<Mapping>
    requires ImageOk(data)
  {
    StackLog(PAGES) + ImageLog(data, PhNum(data))
  }

  /** Every table of the lower half has the rights of the first page that needed it, the stack coming first. */
  ghost predicate ProgramRights(m: Ram, root: nat, data: seq<byte>)
    requires ImageOk(data)
  {
    forall q: Page, k :: q.Ok() && q.i4 < 256 && 2 <= k <= 4 ==> Rights(m, root, q, k) == FirstRights(ProgramLog(data), q, k, 0)
  }

  lemma StackKeepsRights(m: Ram, kinds: Forest, m': Ram, root: nat, frames: seq<nat>)
    requires IsForest(m, kinds) && root in kinds && kinds[root] == Root && StackFrames(frames, kinds)
    requires |m| == |m'| == P.FRAMES && forall g :: 0 <= g < P.FRAMES && g !in frames ==> m'[g] == m[g]
    ensures SameRights(m, m', root)
  {
    hide SlotOk, SameRights;
    ForestRights(m, m', kinds, root);
  }

  lemma RightsOfProgram(m1: Ram, m2: Ram, m3: Ram, m4: Ram, root: nat, data: seq<byte>)
    requires ImageOk(data) && RightsAfter(m1, m2, root, StackLog(PAGES))
    requires RightsAfter(m2, m3, root, ImageLog(data, PhNum(data))) && SameRights(m3, m4, root)
    requires forall q: Page :: q.Ok() && q.i4 < 256 ==> NoTables(m1, root, q)
    ensures ProgramRights(m4, root, data)
  {
    hide Rights, FirstRights, StackLog, ImageLog, PhNum, SegmentAt, HeaderOffset;
    RightsJoin(m1, m2, m3, root, StackLog(PAGES), ImageLog(data, PhNum(data)));
    SameThenAfter(m1, m3, m4, root, ProgramLog(data));
    forall q: Page, k | q.Ok() && q.i4 < 256 && 2 <= k <= 4
      ensures Rights(m4, root, q, k) == FirstRights(ProgramLog(data), q, k, 0)
    {
      assert NoTables(m1, root, q);
      assert Rights(m1, root, q, k) == 0;
    }
  }

  /**
    A program may write to a page, or use it at all, exactly when the page's own entry allows it and the first page
    mapped near it, at each of the three levels, was mapped with that right.
   */
  lemma ProgramMay(m: Ram, root: nat, data: seq<byte>, q: Page, bit: nat)
    requires ImageOk(data) && ProgramRights(m, root, data) && q.Ok() && q.i4 < 256 && bit > 0
    ensures Allows(m, root, q, bit) <==> FirstAllow(ProgramLog(data), q, bit) && HasBit(Walk(m, root, q), bit)
  {
    hide Rights, FirstRights, HasBit, Walk, ImageOk, ProgramLog;
    assert forall k :: 2 <= k <= 4 ==> Rights(m, root, q, k) == FirstRights(ProgramLog(data), q, k, 0);
  }

  lemma {:induction false} ImageFlags(data: seq<byte>, i: nat)
    requires ImageOk(data) && i <= PhNum(data)
    ensures forall j :: 0 <= j < |ImageLog(data, i)| ==> ImageLog(data, i)[j].flags == 5 || ImageLog(data, i)[j].flags == 7
  {
    hide SegmentAt, HeaderOffset, PhNum;
    if i > 0 {
      ImageFlags(data, i - 1);
    }
  }

  lemma FlagBits()
    ensures HasBit(5, 4) && HasBit(7, 4) && HasBit(7, 2) && !HasBit(5, 2) && !HasBit(0, 2)
  {
  }

  /** Every page of the stack and of the image can be used by the program, and every page of the stack written. */
  lemma UserMay(data: seq<byte>, q: Page, i: nat)
    requires ImageOk(data) && i < |ProgramLog(data)| && ProgramLog(data)[i].page == q
    ensures FirstAllow(ProgramLog(data), q, 4)
    ensures i < PAGES ==> FirstAllow(ProgramLog(data), q, 2)
  {
    hide PhNum, ImageLog, FirstAllow, SegmentAt, HeaderOffset, HasBit;
    ImageFlags(data, PhNum(data));
    FlagBits();
    AllAsk(ProgramLog(data), q, 4, i);
    if i < PAGES {
      AllAsk(StackLog(PAGES), q, 2, i);
      AllowedEarly(StackLog(PAGES), ImageLog(data, PhNum(data)), q, 2);
    }
  }

  /**
    The failing inputs: when the first loadable segment is read-only and starts below 512 GiB, the program can write
    to no page below 512 GiB, whatever its other segments say.
   */
  lemma ReadOnlySegmentFirst(data: seq<byte>, i: nat, q: Page)
    requires ImageOk(data) && i < PhNum(data) && SegmentAt(data, i).Loadable() && SegmentAt(data, i).flags / 2 % 2 == 0
    requires forall j :: 0 <= j < i ==> !SegmentAt(data, j).Loadable()
    requires SegmentAt(data, i).vaddr < 0x80_0000_0000 && q.i4 == 0
    ensures !FirstAllow(ProgramLog(data), q, 2)
  {
    hide SegmentAt, HeaderOffset, PhNum, ImageLog, HasBit, UserPage, SegmentOk;
    FirstOfImage(data, i);
    StackElsewhere();
    LowPage(SegmentAt(data, i).FirstPage());
    FlagBits();
    var log := ProgramLog(data);
    assert log[PAGES] == ImageLog(data, PhNum(data))[0];
    FirstDecides(log, q, 4, PAGES);
  }

  lemma FirstOfImage(data: seq<byte>, i: nat)
    requires ImageOk(data) && i < PhNum(data) && SegmentAt(data, i).Loadable()
    requires forall j :: 0 <= j < i ==> !SegmentAt(data, j).Loadable()
    ensures ImageLog(data, PhNum(data)) != []
    ensures var s := SegmentAt(data, i);
      ImageLog(data, PhNum(data))[0] == Mapping(UserPage(s.FirstPage()), s.PageFlags())
  {
    hide SegmentAt, HeaderOffset, PhNum, UserPage, Segment.PageFlags;
    var s := SegmentAt(data, i);
    SegmentPages(data, s);
    NothingBefore(data, i);
    LogGrows(data, i + 1, PhNum(data));
    assert ImageLog(data, i + 1) == SegmentLog(s, s.EndPage());
    assert ImageLog(data, i + 1)[0] == ImageLog(data, PhNum(data))[0];
  }

  lemma StackElsewhere()
    ensures forall k :: 0 <= k < PAGES ==> StackLog(PAGES)[k].page.i4 == 255
  {
    forall k | 0 <= k < PAGES ensures StackLog(PAGES)[k].page.i4 == 255 {
      HighPage(STACK_PAGE + k);
    }
  }

  lemma HighPage(n: nat)
    requires STACK_PAGE <= n < STACK_PAGE + PAGES
    ensures UserPage(n).i4 == 255
  {
    assert 4096 * n / 0x80_0000_0000 == 255;
  }

  lemma LowPage(n: nat)
    requires 4096 * n < 0x80_0000_0000
    ensures UserPage(n).i4 == 0
  {
  }

  lemma {:induction false} NothingBefore(data: seq<byte>, i: nat)
    requires ImageOk(data) && i <= PhNum(data) && forall j :: 0 <= j < i ==> !SegmentAt(data, j).Loadable()
    ensures ImageLog(data, i) == []
  {
    hide SegmentAt, HeaderOffset, PhNum;
    if i > 0 {
      NothingBefore(data, i - 1);
    }
  }

  lemma {:induction false} LogGrows(data: seq<byte>, i: nat, n: nat)
    requires ImageOk(data) && i <= n <= PhNum(data)
    ensures ImageLog(data, i) <= ImageLog(data, n)
    decreases n - i
  {
    hide SegmentAt, HeaderOffset, PhNum;
    if i < n {
      LogGrows(data, i, n - 1);
    }
  }

  lemma SharedAtFirst(m0: Ram, kinds0: Forest, m1: Ram, current: nat, root: nat)
    requires forall i :: 256 <= i < 512 && Present(Entry(m0, current, i)) ==> Shares(m1, root, current, i)
    ensures KernelShared(m0, current, m1, root)
  {
  }

  lemma HeaderImage(data: seq<byte>)
    requires HeaderOk(data) ==> StackApart(data)
    ensures HeaderOk(data) ==> ImageOk(data)
  {
  }

  lemma OthersKeptTwice(m: Ram, kinds: Forest, m': Ram, kinds': Forest, m'': Ram, kinds'': Forest, root: nat)
    requires OthersKept(m, kinds, m', kinds', root) && OthersKept(m', kinds', m'', kinds'', root)
    ensures OthersKept(m, kinds, m'', kinds'', root)
  {
    hide Walk, Shares;
  }

  /** A new space, and then changes of it alone. */
  lemma SpaceAdded(m0: Ram, kinds0: Forest, m1: Ram, kinds1: Forest, m: Ram, kinds: Forest, root: nat)
    requires kinds1 == kinds0[root := Root] && root !in kinds0 && OthersKept(m1, kinds1, m, kinds, root)
    requires forall r, p: Page :: r in kinds0 && kinds0[r] == Root && p.Ok() ==> Walk(m1, r, p) == Walk(m0, r, p)
    ensures SpacesKept(m0, kinds0, m, kinds)
  {
    hide Walk, Shares;
  }

  /** Every walk of every space that there was is as before. */
  ghost predicate SpacesKept(m: Ram, kinds: Forest, m': Ram, kinds': Forest) {
    && (forall f :: f in kinds ==> f in kinds' && kinds'[f] == kinds[f])
    && forall r, p: Page :: r in kinds && kinds[r] == Root && p.Ok() ==> Walk(m', r, p) == Walk(m, r, p)
  }

  lemma StackKeepsOthers(m0: Ram, kinds0: Forest, m: Ram, kinds: Forest, m': Ram, root: nat, frames: seq<nat>)
    requires OthersKept(m0, kinds0, m, kinds, root) && IsForest(m, kinds) && StackFrames(frames, kinds)
    requires |m| == |m'| == P.FRAMES && forall g :: 0 <= g < P.FRAMES && g !in frames ==> m'[g] == m[g]
    ensures OthersKept(m0, kinds0, m', kinds, root)
  {
    hide Walk, SlotOk, Shares, Entry;
    forall r, p: Page | r in kinds0 && kinds0[r] == Root && r != root && p.Ok() ensures Walk(m', r, p) == Walk(m0, r, p) {
      ForestWalks(m, m', kinds, r, p);
    }
    forall r, s, i | r in kinds0 && s in kinds0 && kinds0[r] == Root && kinds0[s] == Root && r != s && 0 <= i < 512
      ensures Shares(m', r, s, i) <==> Shares(m0, r, s, i)
    {
      SharesSame(m, m', r, s, i);
    }
  }
}
