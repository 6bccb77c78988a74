/**
  The access rights of the tables above the last level, which limit those of every page below: Intel SDM volume 3A,
  section 4.6. An entry gets its rights when its table is made, and keeps them.
 */
module TableRights {
  import opened PageTables

  function IfPresent(e: nat): nat {
    if Present(e) then e else 0
  }

  /** The entry of level 4, 3 or 2 on the way from `root` to a page; 0 if it is absent or not reached. */
  function Upper(m: Ram, root: nat, p: Page, level: nat): nat
    requires 2 <= level <= 4
  {
    var e4 := IfPresent(Entry(m, root, p.i4));
    if level == 4 || e4 == 0 then e4 else
    var e3 := IfPresent(Entry(m, Target(e4), p.i3));
    if level == 3 || e3 == 0 then e3 else
    IfPresent(Entry(m, Target(e3), p.i2))
  }

  /** Its flags: 0 if there is no table. */
  function Rights(m: Ram, root: nat, p: Page, level: nat): nat
    requires 2 <= level <= 4
  {
    Upper(m, root, p, level) % 4096
  }

  /** The pages hang below the same entry of that level. */
  predicate Near(level: nat, p: Page, q: Page) {
    p.i4 == q.i4 && (level <= 3 ==> p.i3 == q.i3) && (level <= 2 ==> p.i2 == q.i2)
  }

  /** Table `f` is the one of that level on the way to page `p`. */
  ghost predicate OnTheWay(m: Ram, root: nat, p: Page, level: nat, f: nat)
    requires 2 <= level <= 4
  {
    if level == 4 then f == root else Upper(m, root, p, level + 1) != 0 && f == Target(Upper(m, root, p, level + 1))
  }

  function Index(p: Page, level: nat): nat
    requires 2 <= level <= 4
  {
    if level == 4 then p.i4 else if level == 3 then p.i3 else p.i2
  }

  /** What is there keeps its rights; the entry of level `l` on the way to `p` gets `flags` if it was absent. */
  ghost predicate OneLevel(m: Ram, m': Ram, root: nat, p: Page, flags: nat, l: nat) {
    forall q: Page, k :: q.Ok() && 2 <= k <= 4 ==>
      Rights(m', root, q, k) == if Rights(m, root, q, k) != 0 then Rights(m, root, q, k)
                                else if k == l && Near(k, p, q) then flags else 0
  }

  /** So do all three. */
  ghost predicate AllLevels(m: Ram, m': Ram, root: nat, p: Page, flags: nat) {
    forall q: Page, k :: q.Ok() && 2 <= k <= 4 ==>
      Rights(m', root, q, k) == if Rights(m, root, q, k) != 0 then Rights(m, root, q, k)
                                else if Near(k, p, q) then flags else 0
  }

  ghost predicate SameRights(m: Ram, m': Ram, root: nat) {
    forall q: Page, k :: q.Ok() && 2 <= k <= 4 ==> Rights(m', root, q, k) == Rights(m, root, q, k)
  }

  lemma UpperZero(m: Ram, root: nat, p: Page, level: nat)
    requires 2 <= level <= 4
    ensures Upper(m, root, p, level) == 0 <==> Rights(m, root, p, level) == 0
    ensures Upper(m, root, p, level) != 0 ==> Present(Upper(m, root, p, level))
  {
    hide Entry;
    OddRemainder(Upper(m, root, p, level));
  }

  lemma OddRemainder(e: nat)
    requires e == 0 || Present(e)
    ensures e == 0 <==> e % 4096 == 0
  {
    assert e % 4096 % 2 == e % 2;
  }

  /** The kinds of the tables on the way. */
  lemma WayKinds(m: Ram, kinds: Forest, root: nat, p: Page)
    requires IsForest(m, kinds) && root in kinds && kinds[root] == Root && p.Ok()
    ensures Upper(m, root, p, 4) != 0 ==>
      && Target(Upper(m, root, p, 4)) in kinds && kinds[Target(Upper(m, root, p, 4))] == ChildKind(root, Root, p.i4)
    ensures Upper(m, root, p, 3) != 0 ==>
      && Upper(m, root, p, 4) != 0 && Target(Upper(m, root, p, 3)) in kinds
      && kinds[Target(Upper(m, root, p, 3))] == Level2(Target(Upper(m, root, p, 4)), p.i3)
  {
    hide Entry;
    assert SlotOk(m, kinds, root, p.i4);
    var e4 := IfPresent(Entry(m, root, p.i4));
    if e4 != 0 {
      assert SlotOk(m, kinds, Target(e4), p.i3);
    }
  }

  /** The table of a level is on the way to a page exactly when the page is near, and it has its kind. */
  lemma WayUnique(m: Ram, kinds: Forest, root: nat, p: Page, q: Page, level: nat, f: nat)
    requires IsForest(m, kinds) && root in kinds && kinds[root] == Root && p.Ok() && q.Ok() && 2 <= level <= 4
    requires OnTheWay(m, root, p, level, f)
    ensures f in kinds && !kinds[f].Level1? && (kinds[f].Root? <==> level == 4) && (kinds[f].Level2? <==> level == 2)
    ensures OnTheWay(m, root, q, level, f) && Index(q, level) == Index(p, level) <==> Near(level, p, q)
  {
    hide Entry;
    WayKinds(m, kinds, root, p);
    WayKinds(m, kinds, root, q);
  }

  /** Hanging a fresh table into an absent slot on the way to `p` gives that slot its rights, and changes no other. */
  lemma AddTableRights(m: Ram, kinds: Forest, root: nat, p: Page, l: nat, f: nat, t: nat, flags: nat)
    requires IsForest(m, kinds) && root in kinds && kinds[root] == Root && p.Ok() && 2 <= l <= 4
    requires OnTheWay(m, root, p, l, f) && f < |m| && t < |m| && t !in kinds && t < 0x10_0000_0000
    requires flags < 4096 && flags % 2 == 1 && !Present(Entry(m, f, Index(p, l)))
    ensures OneLevel(m, AddTable(m, f, Index(p, l), t, flags), root, p, flags, l)
  {
    hide Entry, AddTable, Near;
    var m' := AddTable(m, f, Index(p, l), t, flags);
    WayUnique(m, kinds, root, p, p, l, f);
    forall q: Page, k | q.Ok() && 2 <= k <= 4
      ensures Rights(m', root, q, k) == if Rights(m, root, q, k) != 0 then Rights(m, root, q, k)
                                        else if k == l && Near(k, p, q) then flags else 0
    {
      AddTableUpper(m, kinds, root, p, l, f, t, flags, q, k);
    }
  }

  lemma AddTableUpper(m: Ram, kinds: Forest, root: nat, p: Page, l: nat, f: nat, t: nat, flags: nat, q: Page, k: nat)
    requires IsForest(m, kinds) && root in kinds && kinds[root] == Root && p.Ok() && q.Ok() && 2 <= l <= 4 && 2 <= k <= 4
    requires OnTheWay(m, root, p, l, f) && f in kinds && f < |m| && t < |m| && t !in kinds && t < 0x10_0000_0000
    requires flags < 4096 && flags % 2 == 1 && !Present(Entry(m, f, Index(p, l)))
    ensures Rights(AddTable(m, f, Index(p, l), t, flags), root, q, k)
         == if Rights(m, root, q, k) != 0 then Rights(m, root, q, k) else if k == l && Near(k, p, q) then flags else 0
  {
    hide Entry, AddTable, Near;
    var i := Index(p, l);
    var m' := AddTable(m, f, i, t, flags);
    WayUnique(m, kinds, root, p, q, l, f);
    WayKinds(m, kinds, root, q);
    UpperZero(m, root, q, k);
    NewEntry(t, flags);
    AddTableReads(m, f, i, t, flags, root, q.i4);
    AddTableReads(m, f, i, t, flags, t, q.i3);
    AddTableReads(m, f, i, t, flags, t, q.i2);
    var e4 := IfPresent(Entry(m, root, q.i4));
    if e4 != 0 {
      AddTableReads(m, f, i, t, flags, Target(e4), q.i3);
      var e3 := IfPresent(Entry(m, Target(e4), q.i3));
      if e3 != 0 {
        AddTableReads(m, f, i, t, flags, Target(e3), q.i2);
      }
    }
  }

  lemma NewEntry(t: nat, flags: nat)
    requires flags < 4096 && flags % 2 == 1
    ensures Present(4096 * t + flags) && Target(4096 * t + flags) == t && (4096 * t + flags) % 4096 == flags
  {
    assert 4096 * t + flags == 2 * (2048 * t) + flags;
  }

  /** What is present in the slot stays, or a fresh table hangs there now. */
  ghost predicate Hung(m: Ram, kinds: Forest, m': Ram, f: nat, i: nat, flags: nat) {
    if Present(Entry(m, f, i)) then
      m' == m
    else
      && i < 512 && flags < 4096 && f < |m|
      && exists t: nat :: t < |m| && t !in kinds && t < 0x10_0000_0000 && m' == AddTable(m, f, i, t, flags)
  }

  lemma HungRights(m: Ram, kinds: Forest, m': Ram, root: nat, p: Page, l: nat, f: nat, flags: nat)
    requires IsForest(m, kinds) && root in kinds && kinds[root] == Root && p.Ok() && 2 <= l <= 4 && flags % 2 == 1
    requires OnTheWay(m, root, p, l, f) && Hung(m, kinds, m', f, Index(p, l), flags)
    ensures OneLevel(m, m', root, p, flags, l)
  {
    hide Entry, AddTable, Near;
    if Present(Entry(m, f, Index(p, l))) {
      forall q: Page | q.Ok() && Near(l, p, q) ensures Rights(m, root, q, l) != 0 {
        WayUnique(m, kinds, root, p, q, l, f);
        UpperZero(m, root, q, l);
        PresentUpper(m, root, q, l, f);
      }
    } else {
      var t: nat :| t < |m| && t !in kinds && t < 0x10_0000_0000 && m' == AddTable(m, f, Index(p, l), t, flags);
      AddTableRights(m, kinds, root, p, l, f, t, flags);
    }
  }

  lemma PresentUpper(m: Ram, root: nat, q: Page, l: nat, f: nat)
    requires 2 <= l <= 4 && OnTheWay(m, root, q, l, f) && Present(Entry(m, f, Index(q, l)))
    ensures Upper(m, root, q, l) == Entry(m, f, Index(q, l)) != 0
  {
    hide Entry;
  }

  lemma ThreeLevels(m: Ram, m1: Ram, m2: Ram, m3: Ram, root: nat, p: Page, flags: nat)
    requires OneLevel(m, m1, root, p, flags, 4) && OneLevel(m1, m2, root, p, flags, 3) && OneLevel(m2, m3, root, p, flags, 2)
    ensures AllLevels(m, m3, root, p, flags)
  {
    hide Rights, Near;
    forall q: Page, k | q.Ok() && 2 <= k <= 4
      ensures Rights(m3, root, q, k) == if Rights(m, root, q, k) != 0 then Rights(m, root, q, k)
                                        else if Near(k, p, q) then flags else 0
    {
      assert Rights(m1, root, q, k) == if Rights(m, root, q, k) != 0 then Rights(m, root, q, k)
                                       else if k == 4 && Near(k, p, q) then flags else 0;
      assert Rights(m2, root, q, k) == if Rights(m1, root, q, k) != 0 then Rights(m1, root, q, k)
                                       else if k == 3 && Near(k, p, q) then flags else 0;
    }
  }

  /** The last level has no say in them. */
  lemma SetLeafRights(m: Ram, kinds: Forest, root: nat, t1: nat, i: nat, e: nat)
    requires IsForest(m, kinds) && root in kinds && kinds[root] == Root && t1 in kinds && kinds[t1].Level1?
    requires t1 < |m| && i < 512 && e < 0x1_0000_0000_0000_0000
    ensures SameRights(m, SetEntry(m, t1, i, e), root)
  {
    hide Entry, SetEntry;
    var m' := SetEntry(m, t1, i, e);
    forall q: Page, k | q.Ok() && 2 <= k <= 4 ensures Rights(m', root, q, k) == Rights(m, root, q, k) {
      WayKinds(m, kinds, root, q);
      SetEntryReads(m, t1, i, e, root, q.i4);
      var e4 := IfPresent(Entry(m, root, q.i4));
      if e4 != 0 {
        SetEntryReads(m, t1, i, e, Target(e4), q.i3);
        var e3 := IfPresent(Entry(m, Target(e4), q.i3));
        if e3 != 0 {
          SetEntryReads(m, t1, i, e, Target(e3), q.i2);
        }
      }
    }
  }

  /** They depend on the tables alone. */
  lemma ForestRights(m: Ram, m': Ram, kinds: Forest, root: nat)
    requires IsForest(m, kinds) && root in kinds && kinds[root] == Root
    requires |m'| == |m| && forall f :: f in kinds ==> f < |m| && m'[f] == m[f]
    ensures SameRights(m, m', root)
  {
    forall f, j | f in kinds ensures Entry(m', f, j) == Entry(m, f, j) {
    }
    hide Entry;
    forall q: Page, k | q.Ok() && 2 <= k <= 4 ensures Rights(m', root, q, k) == Rights(m, root, q, k) {
      WayKinds(m, kinds, root, q);
    }
  }

  lemma SameThenAll(m: Ram, m1: Ram, m2: Ram, root: nat, p: Page, flags: nat)
    requires AllLevels(m, m1, root, p, flags) && SameRights(m1, m2, root)
    ensures AllLevels(m, m2, root, p, flags)
  {
    hide Rights, Near;
  }

  // ---- Over many mappings.

  /** A page that was mapped, and the flags asked for. */
  datatype Mapping = Mapping(page: Page, flags: nat)

  /** The rights that the first mapping near the page has left at that level, unless there were some before. */
  function FirstRights(log: seq<Mapping>, q: Page, level: nat, before: nat): nat {
    if log == [] then before
    else
      var r, last := FirstRights(log[..|log| - 1], q, level, before), log[|log| - 1];
      if r != 0 then r else if Near(level, last.page, q) then last.flags else 0
  }

  /** After the mappings, in their order, every table has the rights of the first that needed it. */
  ghost predicate RightsAfter(m: Ram, m': Ram, root: nat, log: seq<Mapping>) {
    forall q: Page, k :: q.Ok() && 2 <= k <= 4 ==> Rights(m', root, q, k) == FirstRights(log, q, k, Rights(m, root, q, k))
  }

  lemma NoMappings(m: Ram, root: nat)
    ensures RightsAfter(m, m, root, [])
  {
  }

  lemma OneMapping(m: Ram, m1: Ram, m2: Ram, root: nat, log: seq<Mapping>, p: Page, flags: nat)
    requires RightsAfter(m, m1, root, log) && AllLevels(m1, m2, root, p, flags)
    ensures RightsAfter(m, m2, root, log + [Mapping(p, flags)])
  {
    hide Rights, Near;
    assert (log + [Mapping(p, flags)])[..|log|] == log;
  }

  lemma {:induction false} FirstRightsJoin(a: seq<Mapping>, b: seq<Mapping>, q: Page, level: nat, before: nat)
    ensures FirstRights(a + b, q, level, before) == FirstRights(b, q, level, FirstRights(a, q, level, before))
    decreases |b|
  {
    hide Near;
    if b == [] {
      assert a + b == a;
    } else {
      assert (a + b)[..|a + b| - 1] == a + b[..|b| - 1];
      FirstRightsJoin(a, b[..|b| - 1], q, level, before);
    }
  }

  lemma RightsJoin(m: Ram, m1: Ram, m2: Ram, root: nat, a: seq<Mapping>, b: seq<Mapping>)
    requires RightsAfter(m, m1, root, a) && RightsAfter(m1, m2, root, b)
    ensures RightsAfter(m, m2, root, a + b)
  {
    hide Rights, Near, FirstRights;
    forall q: Page, k | q.Ok() && 2 <= k <= 4
      ensures Rights(m2, root, q, k) == FirstRights(a + b, q, k, Rights(m, root, q, k))
    {
      FirstRightsJoin(a, b, q, k, Rights(m, root, q, k));
    }
  }

  lemma SameThenAfter(m: Ram, m1: Ram, m2: Ram, root: nat, log: seq<Mapping>)
    requires RightsAfter(m, m1, root, log) && SameRights(m1, m2, root)
    ensures RightsAfter(m, m2, root, log)
  {
    hide Rights, Near, FirstRights;
  }

  /** The first mapping near a page decides; later ones do not, and before it there is no table. */
  lemma {:induction false} FirstDecides(log: seq<Mapping>, q: Page, level: nat, i: nat)
    requires i <= |log| && forall j :: 0 <= j < i ==> !Near(level, log[j].page, q)
    ensures FirstRights(log[..i], q, level, 0) == 0
    ensures i < |log| && Near(level, log[i].page, q) && log[i].flags != 0 ==> FirstRights(log, q, level, 0) == log[i].flags
    decreases |log|
  {
    hide Near;
    NoneNear(log[..i], q, level);
    if i < |log| && Near(level, log[i].page, q) && log[i].flags != 0 {
      assert log == log[..i] + [log[i]] + log[i + 1..];
      assert [log[i]][..0] == [];
      FirstRightsJoin(log[..i], [log[i]], q, level, 0);
      FirstRightsJoin(log[..i] + [log[i]], log[i + 1..], q, level, 0);
      Settled(log[i + 1..], q, level, log[i].flags);
    }
  }

  lemma {:induction false} NoneNear(log: seq<Mapping>, q: Page, level: nat)
    requires forall j :: 0 <= j < |log| ==> !Near(level, log[j].page, q)
    ensures FirstRights(log, q, level, 0) == 0
  {
    if log != [] {
      NoneNear(log[..|log| - 1], q, level);
    }
  }

  lemma {:induction false} Settled(log: seq<Mapping>, q: Page, level: nat, before: nat)
    requires before != 0
    ensures FirstRights(log, q, level, before) == before
  {
    if log != [] {
      Settled(log[..|log| - 1], q, level, before);
    }
  }

  // ---- What a program may do with a page.

  /** The first mappings near the page leave the bit set at all three levels. */
  predicate FirstAllow(log: seq<Mapping>, q: Page, bit: nat)
    requires bit > 0
  {
    HasBit(FirstRights(log, q, 4, 0), bit) && HasBit(FirstRights(log, q, 3, 0), bit) && HasBit(FirstRights(log, q, 2, 0), bit)
  }

  /** No table is on the way to the page. */
  predicate NoTables(m: Ram, root: nat, q: Page) {
    Rights(m, root, q, 4) == 0 && Rights(m, root, q, 3) == 0 && Rights(m, root, q, 2) == 0
  }

  lemma AbsentRights(m: Ram, root: nat, q: Page)
    requires Entry(m, root, q.i4) == 0
    ensures NoTables(m, root, q)
  {
  }

  /** Where every mapping asks for the bit, a mapped page has it at all levels. */
  lemma AllAsk(log: seq<Mapping>, q: Page, bit: nat, i: nat)
    requires bit > 0 && i < |log| && log[i].page == q
    requires forall j :: 0 <= j < |log| ==> log[j].flags != 0 && HasBit(log[j].flags, bit)
    ensures FirstAllow(log, q, bit)
  {
    hide HasBit, Near;
    NearItself(q);
    AskedAt(log, q, 4, bit, i);
    AskedAt(log, q, 3, bit, i);
    AskedAt(log, q, 2, bit, i);
  }

  lemma NearItself(q: Page)
    ensures Near(4, q, q) && Near(3, q, q) && Near(2, q, q)
  {
  }

  lemma {:induction false} AskedAt(log: seq<Mapping>, q: Page, level: nat, bit: nat, i: nat)
    requires bit > 0 && i < |log| && Near(level, log[i].page, q)
    requires forall j :: 0 <= j < |log| ==> log[j].flags != 0 && HasBit(log[j].flags, bit)
    ensures FirstRights(log, q, level, 0) != 0 && HasBit(FirstRights(log, q, level, 0), bit)
  {
    hide HasBit, Near;
    var before := log[..|log| - 1];
    if i < |log| - 1 {
      AskedAt(before, q, level, bit, i);
    } else {
      AskedOrNone(before, q, level, bit);
    }
  }

  lemma {:induction false} AskedOrNone(log: seq<Mapping>, q: Page, level: nat, bit: nat)
    requires bit > 0 && forall j :: 0 <= j < |log| ==> log[j].flags != 0 && HasBit(log[j].flags, bit)
    ensures FirstRights(log, q, level, 0) != 0 ==> HasBit(FirstRights(log, q, level, 0), bit)
  {
    hide HasBit, Near;
    if log != [] {
      AskedOrNone(log[..|log| - 1], q, level, bit);
    }
  }

  /** What the first part of a log has settled, the rest does not change. */
  lemma AllowedEarly(a: seq<Mapping>, b: seq<Mapping>, q: Page, bit: nat)
    requires bit > 0 && FirstAllow(a, q, bit) && !HasBit(0, bit)
    ensures FirstAllow(a + b, q, bit)
  {
    hide HasBit;
    FirstRightsJoin(a, b, q, 4, 0);
    FirstRightsJoin(a, b, q, 3, 0);
    FirstRightsJoin(a, b, q, 2, 0);
    Settled(b, q, 4, FirstRights(a, q, 4, 0));
    Settled(b, q, 3, FirstRights(a, q, 3, 0));
    Settled(b, q, 2, FirstRights(a, q, 2, 0));
  }

  lemma AllowedByFirst(m: Ram, m': Ram, root: nat, log: seq<Mapping>, q: Page, bit: nat)
    requires RightsAfter(m, m', root, log) && q.Ok() && NoTables(m, root, q) && bit > 0
    ensures Allows(m', root, q, bit) <==> FirstAllow(log, q, bit) && HasBit(Walk(m', root, q), bit)
  {
    hide Rights, HasBit, Walk;
    assert forall k :: 2 <= k <= 4 ==> Rights(m', root, q, k) == FirstRights(log, q, k, Rights(m, root, q, k));
  }

  predicate HasBit(e: nat, bit: nat)
    requires bit > 0
  {
    e / bit % 2 == 1
  }

  /** Bit 2 of an entry is for writing, bit 4 for the user; the processor wants it in all four entries. */
  predicate Allows(m: Ram, root: nat, q: Page, bit: nat)
    requires bit > 0
  {
    && HasBit(Rights(m, root, q, 4), bit) && HasBit(Rights(m, root, q, 3), bit) && HasBit(Rights(m, root, q, 2), bit)
    && HasBit(Walk(m, root, q), bit)
  }
}
