/** The tmpfs tree: nodes by address, looked up name by name; what adding and removing a child does to every path. */
module Tree {
  import opened Bytes
  import opened Paths

  /** The address of a node. */
  type Id = nat
  const NULL: Id := 0

  const MAX_CHILDREN: nat := 64

  /** No buffer is that large: an address has 64 bits, and half of the addresses are the kernel's. */
  const MAX_BUFFER: nat := 0x8000_0000_0000_0000

  datatype Node = Node(name: Name, isDir: bool, size: nat, buf: seq<byte>, children: seq<Id>, mount: Id)

  type Nodes = map<Id, Node>

  /** Pointers lead to nodes, only directories have children, and a file's size is the size of its buffer. */
  ghost predicate WellFormed(t: Nodes) {
    && NULL !in t
    && (forall n, i :: n in t && 0 <= i < |t[n].children| ==> t[n].children[i] in t)
    && (forall n :: n in t && t[n].mount != NULL ==> t[n].mount in t)
    && (forall n :: n in t && !t[n].isDir ==> t[n].children == [])
    && (forall n :: n in t ==> t[n].size == |t[n].buf| < MAX_BUFFER)
  }

  /** The first child of that name. */
  function Find(t: Nodes, children: seq<Id>, name: Name): (c: Id)
    ensures c == NULL || (c in children && c in t)
  {
    if children == [] then NULL
    else if children[0] in t && t[children[0]].name == name then children[0]
    else Find(t, children[1..], name)
  }

  /** A mounted file system hides the node on which it is mounted. */
  function Enter(t: Nodes, c: Id): Id {
    if c in t && t[c].mount != NULL then t[c].mount else c
  }

  /** Where a list of names leads from a node. */
  function Walk(t: Nodes, cur: Id, parts: seq<Name>): Id
    decreases |parts|
  {
    if parts == [] then cur
    else if cur !in t || !t[cur].isDir then NULL
    else if Find(t, t[cur].children, parts[0]) == NULL then NULL
    else Walk(t, Enter(t, Find(t, t[cur].children, parts[0])), parts[1..])
  }

  function Resolve(t: Nodes, root: Id, path: string): Id {
    if root == NULL then NULL else Walk(t, root, FirstParts(Components(path), MAX_PARTS))
  }

  lemma WalkStays(t: Nodes, c: Id)
    requires WellFormed(t) && c in t
    ensures Enter(t, c) in t
  {
  }

  lemma {:induction false} WalkInside(t: Nodes, cur: Id, parts: seq<Name>)
    requires WellFormed(t) && cur in t
    ensures Walk(t, cur, parts) == NULL || Walk(t, cur, parts) in t
    decreases |parts|
  {
    hide WellFormed, Enter;
    if parts != [] && t[cur].isDir {
      var c := Find(t, t[cur].children, parts[0]);
      if c != NULL {
        WalkStays(t, c);
        WalkInside(t, Enter(t, c), parts[1..]);
      }
    }
  }

  // ---- Adding a child.

  function Added(t: Nodes, dir: Id, id: Id, name: Name, isDir: bool): (t': Nodes)
    requires dir in t
  {
    t[dir := t[dir].(children := t[dir].children + [id])][id := Node(name, isDir, 0, [], [], NULL)]
  }

  /** The new node is empty, of the kind asked for, and the last child of its directory; nothing else changes. */
  lemma AddedNode(t: Nodes, dir: Id, id: Id, name: Name, isDir: bool)
    requires dir in t && id !in t
    ensures
      var t' := Added(t, dir, id, name, isDir);
      && t'.Keys == t.Keys + {id} && t'[id] == Node(name, isDir, 0, [], [], NULL)
      && t'[dir] == t[dir].(children := t[dir].children + [id])
      && forall n :: n in t && n != dir ==> t'[n] == t[n]
  {
  }

  lemma AddedWellFormed(t: Nodes, dir: Id, id: Id, name: Name, isDir: bool)
    requires WellFormed(t) && dir in t && t[dir].isDir && id != NULL && id !in t
    ensures WellFormed(Added(t, dir, id, name, isDir))
  {
    var t' := Added(t, dir, id, name, isDir);
    forall n, i | n in t' && 0 <= i < |t'[n].children| ensures t'[n].children[i] in t' {
    }
  }

  /** Nodes other than `id` are found by name as before. */
  lemma {:induction false} FindSame(t: Nodes, t': Nodes, children: seq<Id>, name: Name)
    requires forall c :: c in children ==> c in t && c in t' && t'[c].name == t[c].name
    ensures Find(t', children, name) == Find(t, children, name)
  {
    if children != [] {
      FindSame(t, t', children[1..], name);
    }
  }

  lemma {:induction false} FindLast(t: Nodes, children: seq<Id>, id: Id, name: Name)
    requires id in t && id != NULL && NULL !in children
    ensures Find(t, children + [id], name)
         == if Find(t, children, name) != NULL then Find(t, children, name) else if t[id].name == name then id else NULL
  {
    if children == [] {
      assert children + [id] == [id];
    } else {
      assert (children + [id])[1..] == children[1..] + [id];
      FindLast(t, children[1..], id, name);
    }
  }

  lemma AddedFind(t: Nodes, dir: Id, id: Id, name: Name, isDir: bool, cur: Id, part: Name)
    requires WellFormed(t) && dir in t && id != NULL && id !in t && cur in t
    ensures Find(Added(t, dir, id, name, isDir), Added(t, dir, id, name, isDir)[cur].children, part)
         == if Find(t, t[cur].children, part) == NULL && cur == dir && part == name then id else Find(t, t[cur].children, part)
  {
    var t' := Added(t, dir, id, name, isDir);
    assert forall c :: c in t[cur].children ==> c in t;
    FindSame(t, t', t[cur].children, part);
    if cur == dir {
      FindLast(t', t[cur].children, id, part);
    }
  }

  /**
   * Exactly the paths that end at the new name of the directory, and led nowhere before, lead to the new node;
   * every other path leads where it led.
   */
  lemma {:induction false} AddedWalks(t: Nodes, dir: Id, id: Id, name: Name, isDir: bool, cur: Id, parts: seq<Name>)
    requires WellFormed(t) && dir in t && t[dir].isDir && id != NULL && id !in t && cur in t
    ensures Walk(Added(t, dir, id, name, isDir), cur, parts)
         == if Walk(t, cur, parts) == NULL && parts != [] && parts[|parts| - 1] == name
               && Walk(t, cur, parts[..|parts| - 1]) == dir
            then id else Walk(t, cur, parts)
    decreases |parts|
  {
    hide WellFormed, Find;
    assert NULL !in t by { NullIsNoNode(t); }
    var t' := Added(t, dir, id, name, isDir);
    if parts != [] && t[cur].isDir {
      AddedFind(t, dir, id, name, isDir, cur, parts[0]);
      var c, last := Find(t, t[cur].children, parts[0]), |parts| - 1;
      if c == NULL {
        if cur == dir && parts[0] == name && |parts| > 1 {
          assert Find(t', [], parts[1]) == NULL by { FindNone(t', parts[1]); }
          assert Walk(t', id, parts[1..]) == NULL;
        }
      } else {
        WalkStays(t, c);
        AddedWalks(t, dir, id, name, isDir, Enter(t, c), parts[1..]);
        if last > 0 {
          assert parts[1..][..last - 1] == parts[..last][1..];
        }
      }
    }
  }

  lemma NullIsNoNode(t: Nodes)
    requires WellFormed(t)
    ensures NULL !in t
  {
  }

  lemma FindNone(t: Nodes, name: Name)
    ensures Find(t, [], name) == NULL
  {
  }

  /** A path that led somewhere leads there still; one that led nowhere leads nowhere or to the new node. */
  lemma AddedResolves(t: Nodes, root: Id, dir: Id, id: Id, name: Name, isDir: bool, path: string)
    requires WellFormed(t) && dir in t && t[dir].isDir && id != NULL && id !in t && root in t
    ensures Resolve(t, root, path) != NULL ==> Resolve(Added(t, dir, id, name, isDir), root, path) == Resolve(t, root, path)
    ensures Resolve(t, root, path) == NULL ==> Resolve(Added(t, dir, id, name, isDir), root, path) in {NULL, id}
  {
    hide WellFormed, Walk, Added, Components;
    AddedWalks(t, dir, id, name, isDir, root, FirstParts(Components(path), MAX_PARTS));
  }

  lemma {:induction false} WalkJoin(t: Nodes, cur: Id, parts: seq<Name>, more: seq<Name>)
    requires NULL !in t
    ensures Walk(t, cur, parts + more) == Walk(t, Walk(t, cur, parts), more)
    decreases |parts|
  {
    hide Find;
    if parts == [] {
      assert parts + more == more;
    } else {
      assert (parts + more)[1..] == parts[1..] + more;
      if cur in t && t[cur].isDir && Find(t, t[cur].children, parts[0]) != NULL {
        WalkJoin(t, Enter(t, Find(t, t[cur].children, parts[0])), parts[1..], more);
      }
    }
  }

  /** The directory in which a new file or directory of that path is made. */
  function Parent(t: Nodes, root: Id, path: string): Id {
    Resolve(t, root, ParentOf(path))
  }

  /** The last name is short enough, or the rest of a longer one is behind the last component looked at. */
  predicate KeepsName(path: string) {
    |LastName(path)| < MAX_NAME || |Components(ParentOf(path))| == MAX_PARTS - 1
  }

  /**
   * A new node is found under the path for which it was made exactly when that path led nowhere before and its
   * name survives the cutting.
   */
  lemma MadeResolves(t: Nodes, root: Id, path: string, id: Id, isDir: bool)
    requires WellFormed(t) && root in t && id != NULL && id !in t
    requires Parent(t, root, path) in t && t[Parent(t, root, path)].isDir
    ensures Resolve(Added(t, Parent(t, root, path), id, Cut(LastName(path)), isDir), root, path) == id
       <==> Resolve(t, root, path) == NULL && KeepsName(path)
  {
    hide WellFormed, Walk, Added, Components, LastName, ParentOf, Cut;
    NullIsNoNode(t);
    var dir, name := Parent(t, root, path), Cut(LastName(path));
    var p, c := Components(ParentOf(path)), Components(path);
    SplittersAgree(path);
    AddedResolves(t, root, dir, id, name, isDir, path);
    if LastName(path) == "" {
      NoComponents(LastName(path));
      assert c == p;
    } else if |p| >= MAX_PARTS {
      assert c[..MAX_PARTS] == p[..MAX_PARTS];
      assert FirstParts(c, MAX_PARTS) == c[..MAX_PARTS] && FirstParts(p, MAX_PARTS) == p[..MAX_PARTS];
    } else {
      var parts := FirstParts(c, MAX_PARTS);
      AddedWalks(t, dir, id, name, isDir, root, parts);
      WalkInside(t, root, parts);
      if |LastName(path)| < MAX_NAME {
        CutShort(LastName(path));
        assert parts == p + [name] && parts[..|parts| - 1] == p;
      } else {
        LongName(LastName(path));
        if |p| == MAX_PARTS - 1 {
          assert parts == p + [name] && parts[..|parts| - 1] == p;
        } else {
          if Walk(t, root, parts) == NULL && parts[|parts| - 1] == name {
            LongNameLost(t, root, dir, p, name, parts);
          }
        }
      }
    }
  }

  lemma CutShort(name: Name)
    requires |name| < MAX_NAME
    ensures Cut(name) == name
  {
  }

  /** Behind a cut name nothing can be found that was not there before. */
  lemma LongNameLost(t: Nodes, root: Id, dir: Id, p: seq<Name>, name: Name, parts: seq<Name>)
    requires NULL !in t && dir in t && Walk(t, root, p) == dir && |p| + 2 <= |parts| && p + [name] == parts[..|p| + 1]
    requires Walk(t, root, parts) == NULL && parts[|parts| - 1] == name
    ensures Walk(t, root, parts[..|parts| - 1]) != dir
  {
    hide Walk;
    var front := parts[..|parts| - 1];
    var e := Walk(t, dir, [name]);
    WalkJoin(t, root, p, [name]);
    var m := front[|p| + 1..];
    assert front == p + [name] + m;
    WalkJoin(t, root, p + [name], m);
    assert parts == front + [name];
    WalkJoin(t, root, front, [name]);
    if e == NULL {
      NowhereFrom(t, m);
    }
  }

  lemma NowhereFrom(t: Nodes, parts: seq<Name>)
    requires NULL !in t
    ensures Walk(t, NULL, parts) == NULL
  {
  }

  /** A root directory, node 1, that holds an empty file "a", node 2. */
  const SMALL: Nodes := map[1 := Node("/", true, 0, [], [2], NULL), 2 := Node("a", false, 0, [], [], NULL)]

  lemma SlashName(name: Name)
    requires '/' !in name && name != ""
    ensures LastSlash("/" + name) == 0 && ParentOf("/" + name) == "/" && LastName("/" + name) == name
    ensures Components("/" + name) == Components(name) && Components("/") == []
  {
    LastSlashIs("/" + name, 0);
    assert ("/" + name)[1..] == name;
  }

  /** A failing input: a file made under a name that is taken is not found, the older one is. */
  lemma TakenName()
    ensures WellFormed(SMALL) && Parent(SMALL, 1, "/a") == 1
    ensures Resolve(SMALL, 1, "/a") == 2 && Resolve(Added(SMALL, 1, 3, "a", false), 1, "/a") == 2
  {
    hide Components, LastSlash, ParentOf, LastName, Find, Added;
    SlashName("a");
    Single("a");
    assert "/" + "a" == "/a";
    FindsOnly(SMALL, "a");
    assert ["a"][1..] == [];
    assert Walk(SMALL, 1, ["a"]) == 2;
    AddedResolves(SMALL, 1, 1, 3, "a", false, "/a");
  }

  /** Another: a name of 256 characters is cut when the file is made, and looked for in two pieces. */
  lemma CutName(x: Name)
    requires |x| == MAX_NAME && '/' !in x
    ensures WellFormed(SMALL) && Parent(SMALL, 1, "/" + x) == 1
    ensures Resolve(Added(SMALL, 1, 3, Cut(x), false), 1, "/" + x) != 3
  {
    hide Components, LastSlash, ParentOf, LastName, Find, Added, Cut;
    SlashName(x);
    MadeResolves(SMALL, 1, "/" + x, 3, false);
  }

  lemma FindsOnly(t: Nodes, name: Name)
    requires t == SMALL
    ensures Find(t, [2], name) == if name == "a" then 2 else NULL
  {
    assert [2][1..] == [];
  }

  // ---- Removing a child.

  /** The children without the first of that name. */
  function Without(t: Nodes, children: seq<Id>, name: Name): (r: seq<Id>)
    ensures |r| <= |children| && forall i :: 0 <= i < |r| ==> r[i] in children
  {
    if children == [] then []
    else if children[0] in t && t[children[0]].name == name then children[1..]
    else [children[0]] + Without(t, children[1..], name)
  }

  function Removed(t: Nodes, dir: Id, name: Name): (t': Nodes)
    requires dir in t
  {
    t[dir := t[dir].(children := Without(t, t[dir].children, name))]
  }

  /** A name stands for the first child of that name, and for none if there is none. */
  lemma {:induction false} FindMeans(t: Nodes, children: seq<Id>, name: Name, k: nat)
    requires k <= |children| && forall j :: 0 <= j < k && children[j] in t ==> t[children[j]].name != name
    ensures k == |children| ==> Find(t, children, name) == NULL
    ensures k < |children| && children[k] in t && t[children[k]].name == name ==> Find(t, children, name) == children[k]
  {
    if k != 0 {
      assert children[0] in t ==> t[children[0]].name != name;
      FindMeans(t, children[1..], name, k - 1);
    }
  }

  /** Of the directory's children the first of that name is missing; nothing else changes. */
  lemma {:induction false} WithoutFirst(t: Nodes, children: seq<Id>, name: Name, i: nat)
    requires i < |children| && children[i] in t && t[children[i]].name == name
    requires forall j :: 0 <= j < i && children[j] in t ==> t[children[j]].name != name
    ensures Without(t, children, name) == children[..i] + children[i + 1..]
  {
    if i > 0 {
      WithoutFirst(t, children[1..], name, i - 1);
      assert children[..i] == [children[0]] + children[1..][..i - 1] && children[1..][i..] == children[i + 1..];
    }
  }

  lemma RemovedNode(t: Nodes, dir: Id, name: Name, i: nat)
    requires dir in t && i < |t[dir].children| && t[dir].children[i] in t && t[t[dir].children[i]].name == name
    requires forall j :: 0 <= j < i && t[dir].children[j] in t ==> t[t[dir].children[j]].name != name
    ensures
      var t' := Removed(t, dir, name);
      && t'.Keys == t.Keys && (forall n :: n in t && n != dir ==> t'[n] == t[n])
      && t'[dir] == t[dir].(children := t[dir].children[..i] + t[dir].children[i + 1..])
  {
    WithoutFirst(t, t[dir].children, name, i);
  }

  lemma RemovedWellFormed(t: Nodes, dir: Id, name: Name)
    requires WellFormed(t) && dir in t
    ensures WellFormed(Removed(t, dir, name))
  {
    hide Without;
    var t' := Removed(t, dir, name);
    forall n, i | n in t' && 0 <= i < |t'[n].children| ensures t'[n].children[i] in t' {
      assert t'[n].children[i] in t[n].children;
    }
  }

  /** No two children of the list have the same name. */
  ghost predicate DistinctNames(t: Nodes, children: seq<Id>) {
    forall i, j :: 0 <= i < j < |children| && children[i] in t && children[j] in t
      ==> t[children[i]].name != t[children[j]].name
  }

  /** Names stay distinct exactly when the new one was free. */
  lemma AddedDistinct(t: Nodes, dir: Id, id: Id, name: Name, isDir: bool)
    requires WellFormed(t) && dir in t && id != NULL && id !in t && DistinctNames(t, t[dir].children)
    ensures var t' := Added(t, dir, id, name, isDir);
      DistinctNames(t', t'[dir].children) <==> Find(t, t[dir].children, name) == NULL
  {
    var t' := Added(t, dir, id, name, isDir);
    var c, c' := t[dir].children, t'[dir].children;
    assert c' == c + [id] && forall i :: 0 <= i < |c| ==> c[i] in t && c'[i] == c[i] && t'[c[i]].name == t[c[i]].name;
    if Find(t, c, name) == NULL {
      FoundIfPresent(t, c, name);
    } else {
      var i :| 0 <= i < |c| && c[i] == Find(t, c, name);
      FoundHasName(t, c, name);
      assert t'[c'[i]].name == t'[c'[|c|]].name;
    }
  }

  lemma {:induction false} FoundIfPresent(t: Nodes, children: seq<Id>, name: Name)
    requires Find(t, children, name) == NULL && NULL !in children
    ensures forall i :: 0 <= i < |children| && children[i] in t ==> t[children[i]].name != name
  {
    if children != [] {
      FoundIfPresent(t, children[1..], name);
      forall i | 0 <= i < |children| && children[i] in t ensures t[children[i]].name != name {
        if i > 0 {
          assert children[1..][i - 1] == children[i];
        }
      }
    }
  }

  lemma {:induction false} FoundHasName(t: Nodes, children: seq<Id>, name: Name)
    requires Find(t, children, name) != NULL
    ensures t[Find(t, children, name)].name == name
  {
    if children[0] !in t || t[children[0]].name != name {
      FoundHasName(t, children[1..], name);
    }
  }

  /** The second child of that name. */
  function Second(t: Nodes, children: seq<Id>, name: Name): (c: Id)
    ensures c == NULL || (c in children && c in t)
  {
    if children == [] then NULL
    else if children[0] in t && t[children[0]].name == name then Find(t, children[1..], name)
    else Second(t, children[1..], name)
  }

  function Occurrences(t: Nodes, children: seq<Id>, name: Name): nat {
    if children == [] then 0
    else (if children[0] in t && t[children[0]].name == name then 1 else 0) + Occurrences(t, children[1..], name)
  }

  lemma {:induction false} FindCounts(t: Nodes, children: seq<Id>, name: Name)
    requires NULL !in children
    ensures Find(t, children, name) == NULL <==> Occurrences(t, children, name) == 0
    ensures Second(t, children, name) == NULL <==> Occurrences(t, children, name) <= 1
  {
    if children != [] {
      FindCounts(t, children[1..], name);
    }
  }

  /** Without the first child of a name the name leads to the second, and every other name where it led. */
  lemma {:induction false} FindWithout(t: Nodes, children: seq<Id>, name: Name, part: Name)
    requires NULL !in children
    ensures Find(t, Without(t, children, name), part)
         == if part == name then Second(t, children, name) else Find(t, children, part)
  {
    if children != [] {
      FindWithout(t, children[1..], name, part);
    }
  }

  lemma RemovedFind(t: Nodes, dir: Id, name: Name, cur: Id, part: Name)
    requires WellFormed(t) && dir in t && cur in t
    ensures Find(Removed(t, dir, name), Removed(t, dir, name)[cur].children, part)
         == if cur == dir && part == name then Second(t, t[dir].children, name) else Find(t, t[cur].children, part)
  {
    var t' := Removed(t, dir, name);
    var kept := t'[cur].children;
    assert forall c :: c in t[cur].children ==> c in t && c != NULL;
    assert forall c :: c in kept ==> c in t[cur].children;
    FindSame(t, t', kept, part);
    if cur == dir {
      FindWithout(t, t[cur].children, name, part);
    }
  }

  /** The walk goes through the entry `name` of directory `dir`. */
  predicate Passes(t: Nodes, cur: Id, parts: seq<Name>, dir: Id, name: Name)
    decreases |parts|
  {
    && parts != [] && cur in t && t[cur].isDir && Find(t, t[cur].children, parts[0]) != NULL
    && ((cur == dir && parts[0] == name) || Passes(t, Enter(t, Find(t, t[cur].children, parts[0])), parts[1..], dir, name))
  }

  /** How many names the walk takes up to and including the first time through that entry. */
  function StepsThrough(t: Nodes, cur: Id, parts: seq<Name>, dir: Id, name: Name): (k: nat)
    requires Passes(t, cur, parts, dir, name)
    ensures 1 <= k <= |parts|
    decreases |parts|
  {
    if cur == dir && parts[0] == name then 1
    else 1 + StepsThrough(t, Enter(t, Find(t, t[cur].children, parts[0])), parts[1..], dir, name)
  }

  /** Where the rest of a walk leads from a child, if there is one. */
  function WalkOn(t: Nodes, c: Id, parts: seq<Name>): Id {
    if c == NULL then NULL else Walk(t, Enter(t, c), parts)
  }

  /**
    Unlinking an entry leaves the walks that do not go through it; the others go on from the second child of that
    name, or lead nowhere if there is none.
   */
  lemma {:induction false} RemovedWalks(t: Nodes, dir: Id, name: Name, cur: Id, parts: seq<Name>)
    requires WellFormed(t) && dir in t && cur in t
    ensures Walk(Removed(t, dir, name), cur, parts)
         == if Passes(t, cur, parts, dir, name)
            then WalkOn(Removed(t, dir, name), Second(t, t[dir].children, name), parts[StepsThrough(t, cur, parts, dir, name)..])
            else Walk(t, cur, parts)
    decreases |parts|
  {
    hide WellFormed, Find, Without, Second;
    if parts != [] && t[cur].isDir {
      RemovedFind(t, dir, name, cur, parts[0]);
      var c := Find(t, t[cur].children, parts[0]);
      if cur == dir && parts[0] == name {
        if c == NULL {
          NoSecond(t, dir, name);
        }
      } else if c != NULL {
        WalkStays(t, c);
        RemovedWalks(t, dir, name, Enter(t, c), parts[1..]);
        if Passes(t, cur, parts, dir, name) {
          var k := StepsThrough(t, Enter(t, c), parts[1..], dir, name);
          assert parts[1..][k..] == parts[1 + k..];
        }
      }
    }
  }

  lemma NoSecond(t: Nodes, dir: Id, name: Name)
    requires WellFormed(t) && dir in t && Find(t, t[dir].children, name) == NULL
    ensures Second(t, t[dir].children, name) == NULL
  {
    assert NULL !in t[dir].children;
    FindCounts(t, t[dir].children, name);
  }

  /** After its unlinking a path leads nowhere exactly when the name occurred once in its directory. */
  lemma UnlinkedResolves(t: Nodes, root: Id, path: string)
    requires WellFormed(t) && root in t && 0 < |LastName(path)| < MAX_NAME && |Components(ParentOf(path))| < MAX_PARTS
    requires Parent(t, root, path) in t && t[Parent(t, root, path)].isDir
    requires Find(t, t[Parent(t, root, path)].children, LastName(path)) != NULL
    requires !Passes(t, root, Components(ParentOf(path)), Parent(t, root, path), LastName(path))
    ensures
      var dir, name := Parent(t, root, path), LastName(path);
      && Resolve(Removed(t, dir, name), root, path)
         == WalkOn(Removed(t, dir, name), Second(t, t[dir].children, name), [])
      && (Resolve(Removed(t, dir, name), root, path) == NULL <==> Occurrences(t, t[dir].children, name) == 1)
  {
    hide WellFormed, Find, Without, Second, Walk, Removed, Components, LastName, ParentOf, Occurrences;
    var dir, name, p := Parent(t, root, path), LastName(path), Components(ParentOf(path));
    var t' := Removed(t, dir, name);
    NullIsNoNode(t);
    SplittersAgree(path);
    RemovedWalks(t, dir, name, root, p);
    assert Walk(t, root, p) == dir;
    assert Resolve(t', root, path) == Walk(t', root, p + [name]);
    RemovedNull(t, dir, name);
    WalkJoin(t', root, p, [name]);
    RemovedWalks(t, dir, name, dir, [name]);
    OneStep(t, dir, name, t');
    SecondCounts(t, dir, name);
  }

  lemma RemovedNull(t: Nodes, dir: Id, name: Name)
    requires WellFormed(t) && dir in t
    ensures NULL !in Removed(t, dir, name)
  {
  }

  lemma OneStep(t: Nodes, dir: Id, name: Name, t': Nodes)
    requires dir in t && t[dir].isDir && Find(t, t[dir].children, name) != NULL
    ensures Passes(t, dir, [name], dir, name) && [name][StepsThrough(t, dir, [name], dir, name)..] == []
  {
  }

  lemma SecondCounts(t: Nodes, dir: Id, name: Name)
    requires WellFormed(t) && dir in t && Find(t, t[dir].children, name) != NULL
    ensures var second := Second(t, t[dir].children, name);
      WalkOn(Removed(t, dir, name), second, []) == NULL <==> Occurrences(t, t[dir].children, name) == 1
  {
    hide Find, Second, Occurrences, Without;
    assert NULL !in t[dir].children;
    FindCounts(t, t[dir].children, name);
  }

  lemma {:induction false} WithoutLast(t: Nodes, children: seq<Id>, id: Id, name: Name)
    requires Find(t, children, name) == NULL && NULL !in children && id in t && t[id].name == name
    ensures Without(t, children + [id], name) == children
  {
    if children == [] {
      assert children + [id] == [id];
    } else {
      assert (children + [id])[1..] == children[1..] + [id];
      WithoutLast(t, children[1..], id, name);
    }
  }

  /** Making and unlinking an entry whose name was free leaves every node as it was, and one that no path reaches. */
  lemma MakeThenUnlink(t: Nodes, dir: Id, id: Id, name: Name, isDir: bool)
    requires WellFormed(t) && dir in t && t[dir].isDir && id != NULL && id !in t
    requires Find(t, t[dir].children, name) == NULL
    ensures Removed(Added(t, dir, id, name, isDir), dir, name) == t[id := Node(name, isDir, 0, [], [], NULL)]
  {
    hide Find, Without;
    var t' := Added(t, dir, id, name, isDir);
    assert forall c :: c in t[dir].children ==> c in t;
    FindSame(t, t', t[dir].children, name);
    WithoutLast(t', t[dir].children, id, name);
  }

  // ---- Mounting.

  function Mounted(t: Nodes, n: Id, m: Id): (t': Nodes)
    requires n in t
  {
    t[n := t[n].(mount := m)]
  }

  lemma MountedWellFormed(t: Nodes, n: Id, m: Id)
    requires WellFormed(t) && n in t && (m == NULL || m in t)
    ensures WellFormed(Mounted(t, n, m))
  {
    var t' := Mounted(t, n, m);
    forall k, i | k in t' && 0 <= i < |t'[k].children| ensures t'[k].children[i] in t' {
      assert t'[k].children[i] in t;
    }
  }

  /** The walk comes to `n` by its name. */
  predicate ComesTo(t: Nodes, cur: Id, parts: seq<Name>, n: Id)
    decreases |parts|
  {
    && parts != [] && cur in t && t[cur].isDir && Find(t, t[cur].children, parts[0]) != NULL
    && (Find(t, t[cur].children, parts[0]) == n
        || ComesTo(t, Enter(t, Find(t, t[cur].children, parts[0])), parts[1..], n))
  }

  /** How many names the walk takes up to and including the first one that stands for `n`. */
  function StepsTo(t: Nodes, cur: Id, parts: seq<Name>, n: Id): (k: nat)
    requires ComesTo(t, cur, parts, n)
    ensures 1 <= k <= |parts|
    decreases |parts|
  {
    if Find(t, t[cur].children, parts[0]) == n then 1
    else 1 + StepsTo(t, Enter(t, Find(t, t[cur].children, parts[0])), parts[1..], n)
  }

  /** A mount leaves the walks that do not come to the node; the others go on in the mounted file system. */
  lemma {:induction false} MountedWalks(t: Nodes, n: Id, m: Id, cur: Id, parts: seq<Name>)
    requires WellFormed(t) && n in t && m in t && cur in t
    ensures Walk(Mounted(t, n, m), cur, parts)
         == if ComesTo(t, cur, parts, n) then Walk(Mounted(t, n, m), m, parts[StepsTo(t, cur, parts, n)..])
            else Walk(t, cur, parts)
    decreases |parts|
  {
    hide WellFormed, Find;
    NullIsNoNode(t);
    var t' := Mounted(t, n, m);
    if parts != [] && t[cur].isDir {
      MountedFind(t, n, m, cur, parts[0]);
      var c := Find(t, t[cur].children, parts[0]);
      if c != NULL && c != n {
        WalkStays(t, c);
        MountedWalks(t, n, m, Enter(t, c), parts[1..]);
        if ComesTo(t, cur, parts, n) {
          var k := StepsTo(t, Enter(t, c), parts[1..], n);
          assert parts[1..][k..] == parts[1 + k..];
        }
      }
    }
  }

  lemma MountedFind(t: Nodes, n: Id, m: Id, cur: Id, part: Name)
    requires WellFormed(t) && n in t && cur in t
    ensures Find(Mounted(t, n, m), Mounted(t, n, m)[cur].children, part) == Find(t, t[cur].children, part)
  {
    assert forall c :: c in t[cur].children ==> c in t;
    FindSame(t, Mounted(t, n, m), t[cur].children, part);
  }

  /** Unmounting what was mounted on a free node restores the tree. */
  lemma MountThenUnmount(t: Nodes, n: Id, m: Id)
    requires n in t && t[n].mount == NULL
    ensures Mounted(Mounted(t, n, m), n, NULL) == t
  {
    assert t[n].(mount := NULL) == t[n];
  }

  // ---- The contents of a file.

  /** What a read of `size` bytes at `offset` yields. */
  function ReadAt(buf: seq<byte>, offset: nat, size: nat): (r: seq<byte>)
    ensures |r| == if offset >= |buf| then 0 else if size < |buf| - offset then size else |buf| - offset
    ensures forall i :: 0 <= i < |r| ==> r[i] == buf[offset + i]
  {
    if offset >= |buf| then [] else buf[offset..offset + if size < |buf| - offset then size else |buf| - offset]
  }

  /** The contents after a write: extended with zeros as far as needed, then overwritten. */
  function WrittenAt(buf: seq<byte>, offset: nat, data: seq<byte>): (r: seq<byte>)
    ensures |r| == if offset + |data| > |buf| then offset + |data| else |buf|
    ensures r[offset..offset + |data|] == data
    ensures forall i :: 0 <= i < |buf| && !(offset <= i < offset + |data|) ==> r[i] == buf[i]
    ensures forall i :: |buf| <= i < offset ==> offset + |data| > |buf| ==> r[i] == 0
  {
    if offset + |data| > |buf| then
      Splice(buf + Zeros(offset + |data| - |buf|), offset, data)
    else
      Splice(buf, offset, data)
  }

  function WithContents(t: Nodes, n: Id, buf: seq<byte>): Nodes
    requires n in t
  {
    t[n := t[n].(buf := buf, size := |buf|)]
  }

  lemma WithContentsWellFormed(t: Nodes, n: Id, buf: seq<byte>)
    requires WellFormed(t) && n in t && |buf| < MAX_BUFFER
    ensures WellFormed(WithContents(t, n, buf))
  {
    var t' := WithContents(t, n, buf);
    forall m, i | m in t' && 0 <= i < |t'[m].children| ensures t'[m].children[i] in t' {
      assert t'[m].children[i] in t;
    }
  }

  /** Writing to a file moves no node. */
  lemma {:induction false} WrittenWalks(t: Nodes, n: Id, buf: seq<byte>, cur: Id, parts: seq<Name>)
    requires WellFormed(t) && n in t && cur in t
    ensures Walk(WithContents(t, n, buf), cur, parts) == Walk(t, cur, parts)
    decreases |parts|
  {
    hide Find;
    var t' := WithContents(t, n, buf);
    if parts != [] && t[cur].isDir {
      assert forall c :: c in t[cur].children ==> c in t && c in t';
      FindSame(t, t', t[cur].children, parts[0]);
      var c := Find(t, t[cur].children, parts[0]);
      if c != NULL {
        WalkStays(t, c);
        WrittenWalks(t, n, buf, Enter(t, c), parts[1..]);
      }
    }
  }
}
