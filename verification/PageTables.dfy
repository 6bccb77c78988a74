/**
  Four-level page tables in physical memory, and what walking them yields. Entries are 64-bit words; of their
  flags only bit 0, present, matters to the walk. Only flags below bit 12 are modelled.
 */
module PageTables {
  import opened Bytes

  /** A physical frame: 4096 bytes. */
  type Frame = s: seq<byte> | |s| == 4096 witness seq(4096, _ => 0)

  /** Physical memory, by frame number. */
  type Ram = seq<Frame>

  const PRESENT: nat := 1
  const WRITE: nat := 2
  const USER: nat := 4

  /** The four table indices of a virtual address; bits 12..47 of it. */
  datatype Page = Page(i4: nat, i3: nat, i2: nat, i1: nat)
  {
    predicate Ok() {
      i4 < 512 && i3 < 512 && i2 < 512 && i1 < 512
    }
  }

  function PageOf(virt: nat): (p: Page)
    ensures p.Ok()
  {
    Page(virt / 0x80_0000_0000 % 512, virt / 0x4000_0000 % 512, virt / 0x20_0000 % 512, virt / 0x1000 % 512)
  }

  /** Bits 12..47 of an address. */
  function PageNumber(virt: nat): nat {
    virt / 0x1000 % 0x10_0000_0000
  }

  function Number(p: Page): nat {
    ((p.i4 * 512 + p.i3) * 512 + p.i2) * 512 + p.i1
  }

  /** Two addresses have the same four indices exactly when they agree in bits 12..47. */
  lemma PageOfIsNumber(virt: nat)
    ensures Number(PageOf(virt)) == PageNumber(virt)
  {
    var n := virt / 0x1000;
    ShiftedIndices(virt);
    LowDigits(n);
  }

  lemma ShiftedIndices(virt: nat)
    ensures virt / 0x20_0000 == virt / 0x1000 / 512
    ensures virt / 0x4000_0000 == virt / 0x1000 / 512 / 512
    ensures virt / 0x80_0000_0000 == virt / 0x1000 / 512 / 512 / 512
  {
    assert virt / 0x20_0000 == virt / 0x1000 / 512;
    assert virt / 0x4000_0000 == virt / 0x20_0000 / 512;
    assert virt / 0x80_0000_0000 == virt / 0x4000_0000 / 512;
  }

  lemma LowDigits(n: nat)
    ensures ((n / 512 / 512 / 512 % 512 * 512 + n / 512 / 512 % 512) * 512 + n / 512 % 512) * 512 + n % 512
      == n % 0x10_0000_0000
  {
    var a := n / 512;
    var b := a / 512;
    var c := b / 512;
    var d := c / 512;
    assert n == a * 512 + n % 512;
    assert a == b * 512 + a % 512;
    assert b == c * 512 + b % 512;
    assert c == d * 512 + c % 512;
    LowPart(n, d, (((c % 512) * 512 + b % 512) * 512 + a % 512) * 512 + n % 512);
  }

  lemma LowPart(n: nat, high: nat, low: nat)
    requires n == high * 0x10_0000_0000 + low && low < 0x10_0000_0000
    ensures n % 0x10_0000_0000 == low
  {
  }

  lemma DigitsUnique(a: nat, b: nat, c: nat, d: nat)
    requires b < 512 && d < 512 && a * 512 + b == c * 512 + d
    ensures a == c && b == d
  {
  }

  lemma NumberInjective(p: Page, q: Page)
    requires p.Ok() && q.Ok() && Number(p) == Number(q)
    ensures p == q
  {
    DigitsUnique((p.i4 * 512 + p.i3) * 512 + p.i2, p.i1, (q.i4 * 512 + q.i3) * 512 + q.i2, q.i1);
    DigitsUnique(p.i4 * 512 + p.i3, p.i2, q.i4 * 512 + q.i3, q.i2);
    DigitsUnique(p.i4, p.i3, q.i4, q.i3);
  }

  lemma SamePage(v: nat, w: nat)
    ensures PageOf(v) == PageOf(w) <==> PageNumber(v) == PageNumber(w)
  {
    PageOfIsNumber(v);
    PageOfIsNumber(w);
    if PageNumber(v) == PageNumber(w) {
      NumberInjective(PageOf(v), PageOf(w));
    }
  }

  /** Word `i` of the table in frame `f`. */
  function Entry(m: Ram, f: nat, i: nat): (e: nat) {
    if f < |m| && i < 512 then U64(m[f], 8 * i) else 0
  }

  predicate Present(e: nat) {
    e % 2 == 1
  }

  /** The frame that an entry names: `e & ~0xFFF`, as a frame number. */
  function Target(e: nat): nat {
    e / 4096
  }

  /** The leaf entry that the walk from `root` ends in; 0 if some entry on the way, or the leaf, is not present. */
  function Walk(m: Ram, root: nat, p: Page): nat {
    var e4 := Entry(m, root, p.i4);
    if !Present(e4) then 0 else
    var e3 := Entry(m, Target(e4), p.i3);
    if !Present(e3) then 0 else
    var e2 := Entry(m, Target(e3), p.i2);
    if !Present(e2) then 0 else
    var e1 := Entry(m, Target(e2), p.i1);
    if !Present(e1) then 0 else e1
  }

  /** How many bytes an entry of the level stands for. */
  function Span(level: nat): (n: nat)
    ensures n > 0
  {
    if level <= 1 then 4096 else 512 * Span(level - 1)
  }

  /** The nine bits of the address by which the level is looked up. */
  function Digit(virt: nat, level: nat): (i: nat)
    ensures i < 512
  {
    virt / Span(level) % 512
  }

  /** The translation of an address, one level after the other. */
  function Translation(m: Ram, table: nat, virt: nat, level: nat): nat
    decreases level
  {
    var e := Entry(m, table, Digit(virt, level));
    if e % 2 == 0 then 0 else if level <= 1 then e else Translation(m, e / 4096, virt, level - 1)
  }

  /** The walk by four indices is this translation. */
  lemma WalkTranslates(m: Ram, root: nat, virt: nat)
    ensures Walk(m, root, PageOf(virt)) == Translation(m, root, virt, 4)
  {
    hide Entry, Digit;
    Digits(virt);
    var e4 := Entry(m, root, Digit(virt, 4));
    if Present(e4) {
      LastLevels(m, Target(e4), virt);
    }
  }

  lemma Digits(virt: nat)
    ensures PageOf(virt) == Page(Digit(virt, 4), Digit(virt, 3), Digit(virt, 2), Digit(virt, 1))
  {
    assert Span(1) == 0x1000 && Span(2) == 0x20_0000 && Span(3) == 0x4000_0000 && Span(4) == 0x80_0000_0000;
  }

  lemma LastLevels(m: Ram, t: nat, virt: nat)
    ensures
      var e3 := Entry(m, t, Digit(virt, 3));
      var e2 := Entry(m, Target(e3), Digit(virt, 2));
      var e1 := Entry(m, Target(e2), Digit(virt, 1));
      Translation(m, t, virt, 3) == if Present(e3) && Present(e2) && Present(e1) then e1 else 0
  {
    hide Entry, Digit;
    var t2 := Target(Entry(m, t, Digit(virt, 3)));
    assert Translation(m, t2, virt, 2) ==
      var e2 := Entry(m, t2, Digit(virt, 2));
      if Present(e2) then Translation(m, Target(e2), virt, 1) else 0;
  }

  function SetEntry(m: Ram, f: nat, i: nat, e: nat): (m': Ram)
    requires f < |m| && i < 512 && e < 0x1_0000_0000_0000_0000
    ensures |m'| == |m|
  {
    m[f := Splice(m[f], 8 * i, Put64(e))]
  }

  function Zeroed(m: Ram, f: nat): (m': Ram)
    requires f < |m|
    ensures |m'| == |m|
  {
    m[f := Zeros(4096)]
  }

  /** Writing one entry changes that entry only. */
  lemma SetEntryReads(m: Ram, f: nat, i: nat, e: nat, g: nat, j: nat)
    requires f < |m| && i < 512 && e < 0x1_0000_0000_0000_0000
    ensures Entry(SetEntry(m, f, i, e), g, j) == if g == f && j == i then e else Entry(m, g, j)
  {
    var b, m' := Put64(e), SetEntry(m, f, i, e);
    if g == f && j == i {
      assert forall k :: 0 <= k < 8 ==> m'[f][8 * i + k] == b[k];
      assert U32(m'[f], 8 * i) == U32(b, 0) && U32(m'[f], 8 * i + 4) == U32(b, 4);
    }
  }

  lemma ZeroedReads(m: Ram, f: nat, g: nat, j: nat)
    requires f < |m|
    ensures Entry(Zeroed(m, f), g, j) == if g == f then 0 else Entry(m, g, j)
  {
  }

  // The tables form a forest: each knows what it is, and where it hangs.

  datatype Kind =
    | Root
    | Level3(root: nat, i4: nat)   // lower half: of one address space
    | Shared3(i4: nat)             // upper half: may hang from several roots
    | Level2(parent: nat, i3: nat)
    | Level1(parent: nat, i2: nat)

  type Forest = map<nat, Kind>

  /** What the table in slot `i` of a table must be. */
  function ChildKind(f: nat, k: Kind, i: nat): Kind {
    match k
    case Root => if i < 256 then Level3(f, i) else Shared3(i)
    case Level3(_, _) => Level2(f, i)
    case Shared3(_) => Level2(f, i)
    case Level2(_, _) => Level1(f, i)
    case Level1(_, _) => k
  }

  /** A present entry of a table above the last level names a table of the right kind. */
  ghost predicate SlotOk(m: Ram, kinds: Forest, f: nat, i: nat)
    requires f in kinds
  {
    Present(Entry(m, f, i)) && !kinds[f].Level1? ==>
      Target(Entry(m, f, i)) in kinds && kinds[Target(Entry(m, f, i))] == ChildKind(f, kinds[f], i)
  }

  ghost predicate IsForest(m: Ram, kinds: Forest) {
    forall f :: f in kinds ==> f < |m| && forall i :: 0 <= i < 512 ==> SlotOk(m, kinds, f, i)
  }

  /** The last-level table that a walk reaches. */
  ghost predicate Reaches(m: Ram, root: nat, p: Page, t3: nat, t2: nat, t1: nat) {
    && Present(Entry(m, root, p.i4)) && t3 == Target(Entry(m, root, p.i4))
    && Present(Entry(m, t3, p.i3)) && t2 == Target(Entry(m, t3, p.i3))
    && Present(Entry(m, t2, p.i2)) && t1 == Target(Entry(m, t2, p.i2))
  }

  /** Two address spaces hang the same table in slot `i`. */
  ghost predicate Shares(m: Ram, r: nat, s: nat, i: nat) {
    && Present(Entry(m, r, i)) && Present(Entry(m, s, i))
    && Target(Entry(m, r, i)) == Target(Entry(m, s, i))
  }

  /** No two slots name the same table, but the same upper-half slot of two roots. */
  lemma TablesDistinct(m: Ram, kinds: Forest, f: nat, i: nat, g: nat, j: nat)
    requires IsForest(m, kinds) && f in kinds && g in kinds && i < 512 && j < 512
    requires !kinds[f].Level1? && !kinds[g].Level1?
    requires Present(Entry(m, f, i)) && Present(Entry(m, g, j)) && Target(Entry(m, f, i)) == Target(Entry(m, g, j))
    ensures i == j && (f == g || (kinds[f].Root? && kinds[g].Root? && i >= 256))
  {
    hide Entry;
    assert SlotOk(m, kinds, f, i) && SlotOk(m, kinds, g, j);
  }

  lemma PathKinds(m: Ram, kinds: Forest, root: nat, p: Page, t3: nat, t2: nat, t1: nat)
    requires IsForest(m, kinds) && root in kinds && kinds[root] == Root && p.Ok() && Reaches(m, root, p, t3, t2, t1)
    ensures t3 in kinds && kinds[t3] == ChildKind(root, Root, p.i4)
    ensures t2 in kinds && kinds[t2] == Level2(t3, p.i3)
    ensures t1 in kinds && kinds[t1] == Level1(t2, p.i2)
  {
    hide Entry;
    assert SlotOk(m, kinds, root, p.i4);
    assert SlotOk(m, kinds, t3, p.i3);
    assert SlotOk(m, kinds, t2, p.i2);
  }

  /** Two walks that end in the same table are for the same 2 MiB region, of one space or of a shared slot. */
  lemma SameLastTable(m: Ram, kinds: Forest, r: nat, p: Page, s: nat, q: Page, t3: nat, t2: nat, u3: nat, u2: nat, t1: nat)
    requires IsForest(m, kinds) && r in kinds && kinds[r] == Root && s in kinds && kinds[s] == Root && p.Ok() && q.Ok()
    requires Reaches(m, r, p, t3, t2, t1) && Reaches(m, s, q, u3, u2, t1)
    ensures p.i4 == q.i4 && p.i3 == q.i3 && p.i2 == q.i2 && t3 == u3 && t2 == u2
    ensures r == s || (p.i4 >= 256 && Shares(m, r, s, p.i4))
  {
    hide Entry;
    PathKinds(m, kinds, r, p, t3, t2, t1);
    PathKinds(m, kinds, s, q, u3, u2, t1);
  }

  // Steps on the tables.

  /** A fresh, zeroed table hung into an absent slot. */
  function AddTable(m: Ram, f: nat, i: nat, t: nat, flags: nat): (m': Ram)
    requires f < |m| && t < |m| && i < 512 && flags < 4096 && t < 0x10_0000_0000
    ensures |m'| == |m|
  {
    SetEntry(Zeroed(m, t), f, i, 4096 * t + flags)
  }

  lemma AddTableReads(m: Ram, f: nat, i: nat, t: nat, flags: nat, g: nat, j: nat)
    requires f < |m| && t < |m| && i < 512 && flags < 4096 && t < 0x10_0000_0000 && f != t
    ensures Entry(AddTable(m, f, i, t, flags), g, j) ==
      if g == f && j == i then 4096 * t + flags else if g == t then 0 else Entry(m, g, j)
  {
    hide Entry, SetEntry, Zeroed;
    ZeroedReads(m, t, g, j);
    SetEntryReads(Zeroed(m, t), f, i, 4096 * t + flags, g, j);
  }

  lemma AddTableForest(m: Ram, kinds: Forest, f: nat, i: nat, t: nat, flags: nat)
    requires IsForest(m, kinds) && f in kinds && !kinds[f].Level1? && i < 512 && flags < 4096 && flags % 2 == 1
    requires t < |m| && t !in kinds && t < 0x10_0000_0000 && !Present(Entry(m, f, i))
    ensures IsForest(AddTable(m, f, i, t, flags), kinds[t := ChildKind(f, kinds[f], i)])
  {
    hide Entry, AddTable;
    var m', kinds' := AddTable(m, f, i, t, flags), kinds[t := ChildKind(f, kinds[f], i)];
    forall g, j | g in kinds' && 0 <= j < 512 ensures SlotOk(m', kinds', g, j) {
      AddTableReads(m, f, i, t, flags, g, j);
      assert g in kinds ==> SlotOk(m, kinds, g, j);
    }
  }

  /** Hanging a fresh table into an absent slot changes no walk. */
  lemma AddTableWalks(m: Ram, kinds: Forest, f: nat, i: nat, t: nat, flags: nat, r: nat, p: Page)
    requires IsForest(m, kinds) && f in kinds && !kinds[f].Level1? && i < 512 && flags < 4096 && flags % 2 == 1
    requires t < |m| && t !in kinds && t < 0x10_0000_0000 && !Present(Entry(m, f, i))
    requires r in kinds && kinds[r] == Root && p.Ok()
    ensures Walk(AddTable(m, f, i, t, flags), r, p) == Walk(m, r, p)
  {
    hide Entry, AddTable;
    AddTableReads(m, f, i, t, flags, r, p.i4);
    var e4 := Entry(m, r, p.i4);
    AddTableReads(m, f, i, t, flags, t, p.i3);
    AddTableReads(m, f, i, t, flags, t, p.i2);
    AddTableReads(m, f, i, t, flags, t, p.i1);
    if Present(e4) {
      assert SlotOk(m, kinds, r, p.i4);
      var t3 := Target(e4);
      AddTableReads(m, f, i, t, flags, t3, p.i3);
      var e3 := Entry(m, t3, p.i3);
      if Present(e3) {
        assert SlotOk(m, kinds, t3, p.i3);
        var t2 := Target(e3);
        AddTableReads(m, f, i, t, flags, t2, p.i2);
        var e2 := Entry(m, t2, p.i2);
        if Present(e2) {
          assert SlotOk(m, kinds, t2, p.i2);
          AddTableReads(m, f, i, t, flags, Target(e2), p.i1);
        }
      }
    }
  }

  /** Writing a leaf entry keeps the forest. */
  lemma SetLeafForest(m: Ram, kinds: Forest, f: nat, i: nat, e: nat)
    requires IsForest(m, kinds) && f in kinds && kinds[f].Level1? && i < 512 && e < 0x1_0000_0000_0000_0000
    ensures IsForest(SetEntry(m, f, i, e), kinds)
  {
    hide Entry, SetEntry;
    var m' := SetEntry(m, f, i, e);
    forall g, j | g in kinds && 0 <= j < 512 ensures SlotOk(m', kinds, g, j) {
      SetEntryReads(m, f, i, e, g, j);
      assert SlotOk(m, kinds, g, j);
    }
  }

  /** What a walk yields after the leaf entry of page `p` of space `root` has been written. */
  lemma SetLeafWalks(m: Ram, kinds: Forest, root: nat, p: Page, t3: nat, t2: nat, t1: nat, e: nat, r: nat, q: Page)
    requires IsForest(m, kinds) && root in kinds && kinds[root] == Root && r in kinds && kinds[r] == Root
    requires p.Ok() && q.Ok() && Reaches(m, root, p, t3, t2, t1)
    requires t1 < |m| && e < 0x1_0000_0000_0000_0000
    ensures
      Walk(SetEntry(m, t1, p.i1, e), r, q) ==
      if q == p && (r == root || Shares(m, r, root, p.i4)) then (if Present(e) then e else 0) else Walk(m, r, q)
  {
    hide Entry, SetEntry;
    PathKinds(m, kinds, root, p, t3, t2, t1);
    SetEntryReads(m, t1, p.i1, e, r, q.i4);
    var e4 := Entry(m, r, q.i4);
    if Present(e4) {
      assert SlotOk(m, kinds, r, q.i4);
      var u3 := Target(e4);
      SetEntryReads(m, t1, p.i1, e, u3, q.i3);
      var e3 := Entry(m, u3, q.i3);
      if Present(e3) {
        assert SlotOk(m, kinds, u3, q.i3);
        var u2 := Target(e3);
        SetEntryReads(m, t1, p.i1, e, u2, q.i2);
        var e2 := Entry(m, u2, q.i2);
        if Present(e2) {
          assert SlotOk(m, kinds, u2, q.i2);
          SetEntryReads(m, t1, p.i1, e, Target(e2), q.i1);
          assert Reaches(m, r, q, u3, u2, Target(e2));
          if Target(e2) == t1 {
            SameLastTable(m, kinds, root, p, r, q, t3, t2, u3, u2, t1);
          }
        }
      }
    }
  }

  // Growth: tables are added, nothing that was there changes.

  /** `kinds'` and `m'` have more tables; every walk, and every present entry of an old table, is as before. */
  ghost predicate Extends(m: Ram, kinds: Forest, m': Ram, kinds': Forest) {
    && IsForest(m, kinds) && IsForest(m', kinds') && |m| == |m'|
    && (forall f :: f in kinds ==> f in kinds' && kinds'[f] == kinds[f])
    && (forall f, j :: f in kinds && Present(Entry(m, f, j)) ==> Entry(m', f, j) == Entry(m, f, j))
    && (forall r, p: Page :: r in kinds && kinds[r] == Root && p.Ok() ==> Walk(m', r, p) == Walk(m, r, p))
    && forall r, s, i :: r in kinds && s in kinds && kinds[r] == Root && kinds[s] == Root && r != s && 0 <= i < 512 ==>
      (Shares(m', r, s, i) <==> Shares(m, r, s, i))
  }

  lemma ExtendsItself(m: Ram, kinds: Forest)
    requires IsForest(m, kinds)
    ensures Extends(m, kinds, m, kinds)
  {
  }

  lemma ExtendsTwice(m: Ram, kinds: Forest, m': Ram, kinds': Forest, m'': Ram, kinds'': Forest)
    requires Extends(m, kinds, m', kinds') && Extends(m', kinds', m'', kinds'')
    ensures Extends(m, kinds, m'', kinds'')
  {
    hide Entry, Walk, Shares, IsForest;
  }

  lemma AddTableExtends(m: Ram, kinds: Forest, f: nat, i: nat, t: nat, flags: nat)
    requires IsForest(m, kinds) && f in kinds && !kinds[f].Level1? && i < 512 && flags < 4096 && flags % 2 == 1
    requires t < |m| && t !in kinds && t < 0x10_0000_0000 && !Present(Entry(m, f, i))
    ensures Extends(m, kinds, AddTable(m, f, i, t, flags), kinds[t := ChildKind(f, kinds[f], i)])
  {
    hide Entry, Walk, AddTable, SlotOk;
    var m', kinds' := AddTable(m, f, i, t, flags), kinds[t := ChildKind(f, kinds[f], i)];
    AddTableForest(m, kinds, f, i, t, flags);
    forall g, j | g in kinds && Present(Entry(m, g, j)) ensures Entry(m', g, j) == Entry(m, g, j) {
      AddTableReads(m, f, i, t, flags, g, j);
    }
    forall r, p: Page | r in kinds && kinds[r] == Root && p.Ok() ensures Walk(m', r, p) == Walk(m, r, p) {
      AddTableWalks(m, kinds, f, i, t, flags, r, p);
    }
    forall r, s, j | r in kinds && s in kinds && kinds[r] == Root && kinds[s] == Root && r != s && 0 <= j < 512
      ensures Shares(m', r, s, j) <==> Shares(m, r, s, j)
    {
      AddTableReads(m, f, i, t, flags, r, j);
      AddTableReads(m, f, i, t, flags, s, j);
      OldTarget(m, kinds, r, j);
      OldTarget(m, kinds, s, j);
    }
  }

  lemma OldTarget(m: Ram, kinds: Forest, r: nat, j: nat)
    requires IsForest(m, kinds) && r in kinds && kinds[r] == Root && j < 512
    ensures Present(Entry(m, r, j)) ==> Target(Entry(m, r, j)) in kinds
  {
    hide Entry;
    assert SlotOk(m, kinds, r, j);
  }

  // What mapping and unmapping a page do to all walks of all spaces.

  /**
    Page `p` of space `root`, and of the spaces that share the table it hangs in, now walks to `e`; every other
    walk of every space is as before.
   */
  ghost predicate Remapped(m: Ram, kinds: Forest, m': Ram, kinds': Forest, root: nat, p: Page, e: nat) {
    && IsForest(m, kinds) && IsForest(m', kinds') && |m| == |m'|
    && (forall f :: f in kinds ==> f in kinds' && kinds'[f] == kinds[f])
    && (forall r, q: Page :: r in kinds && kinds[r] == Root && q.Ok() ==>
        Walk(m', r, q) == if q == p && (r == root || Shares(m, r, root, p.i4)) then e else Walk(m, r, q))
    && forall r, s, i :: r in kinds && s in kinds && kinds[r] == Root && kinds[s] == Root && r != s && 0 <= i < 512 ==>
      (Shares(m', r, s, i) <==> Shares(m, r, s, i))
  }

  lemma SetLeafRemaps(m: Ram, kinds: Forest, root: nat, p: Page, t3: nat, t2: nat, t1: nat, e: nat)
    requires IsForest(m, kinds) && root in kinds && kinds[root] == Root
    requires p.Ok() && Reaches(m, root, p, t3, t2, t1) && t1 < |m| && e < 0x1_0000_0000_0000_0000
    requires Present(e) || e == 0
    ensures Remapped(m, kinds, SetEntry(m, t1, p.i1, e), kinds, root, p, e)
  {
    hide Entry, Walk, SetEntry, SlotOk;
    var m' := SetEntry(m, t1, p.i1, e);
    PathKinds(m, kinds, root, p, t3, t2, t1);
    SetLeafForest(m, kinds, t1, p.i1, e);
    forall r, q: Page | r in kinds && kinds[r] == Root && q.Ok()
      ensures Walk(m', r, q) == if q == p && (r == root || Shares(m, r, root, p.i4)) then e else Walk(m, r, q)
    {
      SetLeafWalks(m, kinds, root, p, t3, t2, t1, e, r, q);
    }
    forall r, s, j | r in kinds && s in kinds && kinds[r] == Root && kinds[s] == Root && r != s && 0 <= j < 512
      ensures Shares(m', r, s, j) <==> Shares(m, r, s, j)
    {
      SetEntryReads(m, t1, p.i1, e, r, j);
      SetEntryReads(m, t1, p.i1, e, s, j);
    }
  }

  lemma ExtendsThenRemapped(m: Ram, kinds: Forest, m': Ram, kinds': Forest, m'': Ram, root: nat, p: Page, e: nat)
    requires Extends(m, kinds, m', kinds') && Remapped(m', kinds', m'', kinds', root, p, e)
    requires root in kinds && kinds[root] == Root && p.Ok()
    ensures Remapped(m, kinds, m'', kinds', root, p, e)
  {
    hide Entry, Walk, Shares, IsForest;
  }

  /** Spaces that share the table of a slot walk alike through it. */
  lemma SharedWalk(m: Ram, r: nat, s: nat, p: Page)
    requires Shares(m, r, s, p.i4)
    ensures Walk(m, r, p) == Walk(m, s, p)
  {
    hide Entry;
  }

  /** Unmapping a page whose tables are not all there changes nothing, and the page was not mapped. */
  lemma UnreachedPage(m: Ram, kinds: Forest, root: nat, p: Page)
    requires IsForest(m, kinds) && root in kinds && kinds[root] == Root && p.Ok() && Walk(m, root, p) == 0
    ensures Remapped(m, kinds, m, kinds, root, p, 0)
  {
    hide Entry, Walk, IsForest;
    forall r, q: Page | r in kinds && kinds[r] == Root && q.Ok()
      ensures Walk(m, r, q) == if q == p && (r == root || Shares(m, r, root, p.i4)) then 0 else Walk(m, r, q)
    {
      if q == p && Shares(m, r, root, p.i4) {
        SharedWalk(m, r, root, p);
      }
    }
  }

  // A new address space: an empty root into which the upper half of another is copied.

  lemma NewRootForest(m: Ram, kinds: Forest, n: nat)
    requires IsForest(m, kinds) && n < |m| && n !in kinds
    ensures IsForest(Zeroed(m, n), kinds[n := Root])
    ensures forall r, p: Page :: r in kinds && kinds[r] == Root && p.Ok() ==> Walk(Zeroed(m, n), r, p) == Walk(m, r, p)
  {
    hide Entry, Walk;
    var m', kinds' := Zeroed(m, n), kinds[n := Root];
    forall g, j | g in kinds' && 0 <= j < 512 ensures SlotOk(m', kinds', g, j) {
      ZeroedReads(m, n, g, j);
      assert g in kinds ==> SlotOk(m, kinds, g, j);
    }
    forall r, p: Page | r in kinds && kinds[r] == Root && p.Ok() ensures Walk(m', r, p) == Walk(m, r, p) {
      OtherTableWalks(m, m', kinds, n, r, p);
    }
  }

  /** Walks depend on the tables of the forest only. */
  lemma ForestWalks(m: Ram, m': Ram, kinds: Forest, r: nat, p: Page)
    requires IsForest(m, kinds) && r in kinds && kinds[r] == Root && p.Ok()
    requires |m'| == |m| && forall f :: f in kinds ==> f < |m| && m'[f] == m[f]
    ensures Walk(m', r, p) == Walk(m, r, p)
  {
    forall f, j | f in kinds ensures Entry(m', f, j) == Entry(m, f, j) {
    }
    hide Entry;
    var e4 := Entry(m, r, p.i4);
    if Present(e4) {
      assert SlotOk(m, kinds, r, p.i4);
      var e3 := Entry(m, Target(e4), p.i3);
      if Present(e3) {
        assert SlotOk(m, kinds, Target(e4), p.i3);
        var e2 := Entry(m, Target(e3), p.i2);
        if Present(e2) {
          assert SlotOk(m, kinds, Target(e3), p.i2);
        }
      }
    }
  }

  /** A walk does not depend on a frame that is not in the forest. */
  lemma OtherTableWalks(m: Ram, m': Ram, kinds: Forest, n: nat, r: nat, p: Page)
    requires IsForest(m, kinds) && n !in kinds && r in kinds && kinds[r] == Root && p.Ok()
    requires |m'| == |m| && forall f :: 0 <= f < |m| && f != n ==> m'[f] == m[f]
    ensures Walk(m', r, p) == Walk(m, r, p)
  {
    hide Walk, SlotOk;
    ForestWalks(m, m', kinds, r, p);
  }
}
