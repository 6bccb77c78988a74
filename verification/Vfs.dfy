/** The virtual file system over tmpfs: paths resolved, nodes made and unlinked, files read and written. */
module Vfs {
  import opened Bytes
  import opened Paths
  import opened Tree

  const MAX_MOUNTS: nat := 16

  datatype Mount = Mount(path: string, root: Id)

  /** The children of a directory have room in its array. */
  ghost predicate ArraysHold(t: Nodes) {
    forall n :: n in t ==> |t[n].children| <= MAX_CHILDREN
  }

  class Vfs {
    var nodes: Nodes
    var root: Id
    var mounts: seq<Mount>

    ghost predicate Valid()
      reads this
    {
      WellFormed(nodes) && ArraysHold(nodes) && root in nodes && nodes[root].isDir && |mounts| <= MAX_MOUNTS
    }

    /** An empty tmpfs, mounted as the root. */
    constructor (mem: Id)
      requires mem != NULL
      ensures Valid() && root == mem && nodes == map[mem := Node("/", true, 0, [], [], NULL)]
    {
      root := mem;
      nodes := map[mem := Node("/", true, 0, [], [], NULL)];
      mounts := [];
    }

    method FindDir(node: Id, name: Name) returns (c: Id)
      requires Valid() && node in nodes
      ensures c == Find(nodes, nodes[node].children, name)
    {
      var children := nodes[node].children;
      assert children[0..] == children;
      for i := 0 to |children|
        invariant Find(nodes, children, name) == Find(nodes, children[i..], name)
      {
        if nodes[children[i]].name == name {
          return children[i];
        }
        assert children[i..][1..] == children[i + 1..];
      }
      return NULL;
    }

    /**
      The child at an index. The bound is tested on the index as a signed 32-bit integer, so that an index from
      2^31 on passes the test and the child is looked up outside the array, where the model stops.
     */
    method ReadDir(node: Id, index: nat) returns (c: Id, outside: bool)
      requires Valid() && node in nodes && index < 0x1_0000_0000
      ensures outside <==> index >= 0x8000_0000
      ensures c == if index < |nodes[node].children| && !outside then nodes[node].children[index] else NULL
    {
      if Signed32(index) >= |nodes[node].children| {
        return NULL, false;
      }
      if index >= 0x8000_0000 {
        return NULL, true;
      }
      return nodes[node].children[index], false;
    }

    method ResolvePath(path: string) returns (node: Id)
      requires Valid()
      ensures node == Resolve(nodes, root, path)
      ensures node == NULL || node in nodes
    {
      hide WellFormed, Components, Find;
      NullIsNoNode(nodes);
      if path == "/" {
        RootPath();
        return root;
      }
      var parts := SplitPath(path, MAX_PARTS);
      var cur := root;
      assert parts[0..] == parts;
      for i := 0 to |parts|
        invariant cur in nodes && Walk(nodes, root, parts) == Walk(nodes, cur, parts[i..])
      {
        assert parts[i..][0] == parts[i] && parts[i..][1..] == parts[i + 1..];
        if !nodes[cur].isDir {
          return NULL;
        }
        var next := FindDir(cur, parts[i]);
        if next == NULL {
          return NULL;
        }
        WalkStays(nodes, next);
        cur := next;
        if nodes[cur].mount != NULL {
          cur := nodes[cur].mount;
        }
      }
      assert parts[|parts|..] == [];
      return cur;
    }

    lemma RootPath()
      ensures Components("/") == []
    {
    }

    /**
      Mounts a file system on the node of a path. A path that leads nowhere takes up a place in the table all
      the same; places are never given back.
     */
    method MountAt(path: string, fsRoot: Id) returns (status: int)
      requires Valid() && fsRoot in nodes && nodes[fsRoot].isDir
      modifies this
      ensures Valid() && status == if |old(mounts)| < MAX_MOUNTS then 0 else -1
      ensures status == -1 ==> nodes == old(nodes) && root == old(root) && mounts == old(mounts)
      ensures status == 0 ==> |mounts| == |old(mounts)| + 1 && mounts[..|old(mounts)|] == old(mounts)
      ensures status == 0 ==> mounts[|old(mounts)|] == Mount(CutPath(path), fsRoot)
      ensures status == 0 && path == "/" ==> root == fsRoot && nodes == old(nodes)
      ensures status == 0 && path != "/" ==>
        && root == old(root)
        && var n := Resolve(old(nodes), root, path);
           nodes == if n in old(nodes) then Mounted(old(nodes), n, fsRoot) else old(nodes)
    {
      hide WellFormed, Resolve, Mounted;
      NullIsNoNode(nodes);
      if |mounts| >= MAX_MOUNTS {
        return -1;
      }
      if path == "/" {
        root := fsRoot;
      } else {
        var node := ResolvePath(path);
        if node != NULL {
          SetMount(node, fsRoot);
        }
      }
      mounts := mounts + [Mount(CutPath(path), fsRoot)];
      return 0;
    }

    method SetMount(node: Id, m: Id)
      requires Valid() && node in nodes && (m == NULL || m in nodes)
      modifies `nodes
      ensures Valid() && nodes == Mounted(old(nodes), node, m)
    {
      MountedWellFormed(nodes, node, m);
      nodes := nodes[node := nodes[node].(mount := m)];
    }

    method Unmount(node: Id) returns (status: int)
      requires Valid() && (node == NULL || node in nodes)
      modifies `nodes
      ensures Valid()
      ensures status == if node != NULL && old(nodes)[node].mount != NULL then 0 else -1
      ensures nodes == if status == 0 then Mounted(old(nodes), node, NULL) else old(nodes)
    {
      hide WellFormed;
      if node == NULL || nodes[node].mount == NULL {
        return -1;
      }
      SetMount(node, NULL);
      return 0;
    }

    /** Appends a node made at address `mem` (NULL: no memory) to a directory. */
    method AddChild(dir: Id, name: Name, isDir: bool, mem: Id) returns (node: Id)
      requires Valid() && dir in nodes && nodes[dir].isDir && mem !in nodes
      modifies `nodes
      ensures Valid()
      ensures node == if |old(nodes)[dir].children| < MAX_CHILDREN then mem else NULL
      ensures nodes == if node != NULL then Added(old(nodes), dir, node, Cut(name), isDir) else old(nodes)
    {
      if |nodes[dir].children| >= MAX_CHILDREN || mem == NULL {
        return NULL;
      }
      AddedWellFormed(nodes, dir, mem, Cut(name), isDir);
      ghost var t := nodes;
      nodes := nodes[mem := Node(Cut(name), isDir, 0, [], [], NULL)];
      nodes := nodes[dir := nodes[dir].(children := nodes[dir].children + [mem])];
      assert nodes == Added(t, dir, mem, Cut(name), isDir);
      return mem;
    }

    /** A file can be made when its parent is a directory with room, and there is memory. */
    ghost predicate CanMake(path: string, mem: Id)
      reads this
    {
      var dir := Parent(nodes, root, path);
      dir in nodes && nodes[dir].isDir && |nodes[dir].children| < MAX_CHILDREN && mem != NULL
    }

    /** vfs_mkdir and vfs_mkfile: they differ in the kind of node that they make. */
    method Make(path: string, isDir: bool, mem: Id) returns (node: Id)
      requires Valid() && |path| < MAX_PATH && mem !in nodes
      modifies `nodes
      ensures Valid()
      ensures node == if old(CanMake(path, mem)) then mem else NULL
      ensures node == NULL ==> nodes == old(nodes)
      ensures node != NULL ==>
        nodes == Added(old(nodes), Parent(old(nodes), root, path), node, Cut(LastName(path)), isDir)
      ensures node != NULL ==>
        (Resolve(nodes, root, path) == node <==> Resolve(old(nodes), root, path) == NULL && KeepsName(path))
      ensures forall q :: Resolve(old(nodes), root, q) != NULL ==> Resolve(nodes, root, q) == Resolve(old(nodes), root, q)
    {
      hide WellFormed, Resolve, Added, KeepsName, LastName;
      ghost var t := nodes;
      NullIsNoNode(t);
      var parent, name := SplitParent(path);
      var dir := ResolvePath(parent);
      if dir == NULL || !nodes[dir].isDir {
        return NULL;
      }
      node := AddChild(dir, name, isDir, mem);
      if node != NULL {
        MadeResolves(t, root, path, node, isDir);
        forall q ensures Resolve(t, root, q) != NULL ==> Resolve(nodes, root, q) == Resolve(t, root, q) {
          AddedResolves(t, root, dir, node, Cut(LastName(path)), isDir, q);
        }
      }
    }

    /** The position of the first child of that name, or the number of children. */
    method Search(dir: Id, name: Name) returns (i: nat)
      requires Valid() && dir in nodes
      ensures i <= |nodes[dir].children|
      ensures i < |nodes[dir].children| <==> Find(nodes, nodes[dir].children, name) != NULL
      ensures i < |nodes[dir].children| ==>
        Without(nodes, nodes[dir].children, name) == nodes[dir].children[..i] + nodes[dir].children[i + 1..]
    {
      hide WellFormed, Find, Without, Searched;
      var children := nodes[dir].children;
      SearchStart(nodes, children, name);
      i := 0;
      while i < |children|
        invariant i <= |children| && Searched(nodes, children, i, name)
      {
        SearchStep(nodes, dir, i, name);
        if nodes[children[i]].name == name {
          return;
        }
        i := i + 1;
      }
      SearchEnd(nodes, children, name);
    }

    /** Takes the first child of that name out of a directory's list by shifting the later ones down. */
    method RemoveChild(dir: Id, name: Name) returns (found: bool)
      requires Valid() && dir in nodes && nodes[dir].isDir
      modifies `nodes
      ensures Valid() && found == (Find(old(nodes), old(nodes)[dir].children, name) != NULL)
      ensures nodes == if found then Removed(old(nodes), dir, name) else old(nodes)
    {
      hide WellFormed, Find, Without;
      var i := Search(dir, name);
      if i == |nodes[dir].children| {
        return false;
      }
      var shifted := ShiftDown(nodes[dir].children, i);
      RemovedWellFormed(nodes, dir, name);
      nodes := nodes[dir := nodes[dir].(children := shifted)];
      return true;
    }

    method ShiftDown(children: seq<Id>, i: nat) returns (shifted: seq<Id>)
      requires i < |children|
      ensures shifted == children[..i] + children[i + 1..]
    {
      shifted := children;
      for j := i to |children| - 1
        invariant |shifted| == |children|
        invariant forall k :: 0 <= k < i ==> shifted[k] == children[k]
        invariant forall k :: i <= k < j ==> shifted[k] == children[k + 1]
        invariant forall k :: j <= k < |children| ==> shifted[k] == children[k]
      {
        shifted := shifted[j := shifted[j + 1]];
      }
      shifted := shifted[..|children| - 1];
    }

    ghost predicate HasEntry(path: string)
      reads this
    {
      var dir := Parent(nodes, root, path);
      dir in nodes && nodes[dir].isDir && Find(nodes, nodes[dir].children, Cut(LastName(path))) != NULL
    }

    method Unlink(path: string) returns (status: int)
      requires Valid() && |path| < MAX_PATH
      modifies `nodes
      ensures Valid() && status in {0, -1}
      ensures status == 0 <==> old(HasEntry(path))
      ensures status == 0 ==> nodes == Removed(old(nodes), Parent(old(nodes), root, path), Cut(LastName(path)))
      ensures status == -1 ==> nodes == old(nodes)
    {
      hide WellFormed, Resolve, Removed, Cut, LastName, Find;
      NullIsNoNode(nodes);
      var parent, name := SplitParent(path);
      var dir := ResolvePath(parent);
      if dir == NULL || !nodes[dir].isDir {
        return -1;
      }
      var found := RemoveChild(dir, name);
      return if found then 0 else -1;
    }

    /** Reads from a node; a directory cannot be read. */
    method Read(node: Id, offset: nat, size: nat) returns (n: int, data: seq<byte>)
      requires Valid() && node in nodes
      ensures if nodes[node].isDir then n == -1 && data == []
              else n == |data| && data == ReadAt(nodes[node].buf, offset, size)
    {
      if nodes[node].isDir {
        return -1, [];
      }
      var buf := nodes[node].buf;
      if offset >= |buf| {
        return 0, [];
      }
      var avail := |buf| - offset;
      var toRead := if size < avail then size else avail;
      data := buf[offset..offset + toRead];
      return toRead, data;
    }

    /** A larger buffer: zeros, over which the old contents are copied. */
    method Grow(buf: seq<byte>, needed: nat) returns (larger: array<byte>)
      requires |buf| < needed
      ensures fresh(larger) && larger[..] == buf + Zeros(needed - |buf|)
    {
      larger := new byte[needed];
      for i := 0 to needed
        invariant forall k :: 0 <= k < i ==> larger[k] == 0
      {
        larger[i] := 0;
      }
      CopyIn(larger, 0, buf);
    }

    /**
      Writes to a node, growing its buffer when there is memory for the larger one. Near 2^64 the size of that buffer
      wraps around, here or where the allocator rounds it up, so that the copy runs past its end: the model stops
      at such a write, with the nodes as they were before it.
     */
    method Write(node: Id, data: seq<byte>, offset: word, memory: bool) returns (n: int, overrun: bool)
      requires Valid() && node in nodes && |data| < WORD_LIMIT
      modifies `nodes
      ensures Valid()
      ensures overrun <==>
        && !old(nodes)[node].isDir && HasRoom(old(nodes)[node].buf, Sum64(offset, |data|), memory)
        && offset + |data| + 7 >= WORD_LIMIT
      ensures n == -1 <==>
        overrun || old(nodes)[node].isDir || !HasRoom(old(nodes)[node].buf, Sum64(offset, |data|), memory)
      ensures n == -1 ==> nodes == old(nodes)
      ensures n != -1 ==> n == |data| && offset + |data| + 7 < WORD_LIMIT
      ensures n != -1 ==> nodes == WithContents(old(nodes), node, WrittenAt(old(nodes)[node].buf, offset, data))
    {
      hide WellFormed, Splice;
      if nodes[node].isDir {
        return -1, false;
      }
      var d := nodes[node];
      SizeOfFile(nodes, node);
      var needed := Sum64(offset, |data|);
      if !HasRoom(d.buf, needed, memory) {
        return -1, false;
      }
      if offset + |data| + 7 >= WORD_LIMIT {
        return -1, true;
      }
      ghost var contents := WrittenAt(d.buf, offset, data);
      WithContentsWellFormed(nodes, node, contents);
      var buf;
      if needed > |d.buf| {
        buf := Grow(d.buf, needed);
        d := d.(size := needed);
      } else {
        buf := new byte[|d.buf|](i requires 0 <= i < |d.buf| => d.buf[i]);
        assert buf[..] == d.buf;
      }
      CopyIn(buf, offset, data);
      nodes := nodes[node := d.(buf := buf[..])];
      return |data|, false;
    }
  }

  /** A uint32_t as an int. */
  function Signed32(x: nat): (r: int)
    requires x < 0x1_0000_0000
    ensures r < 0 <==> x >= 0x8000_0000
  {
    if x < 0x8000_0000 then x else x - 0x1_0000_0000
  }

  /** The buffer is large enough, or the allocator yields a block, be it one that is too small. */
  predicate HasRoom(buf: seq<byte>, needed: word, memory: bool) {
    needed <= |buf| || (memory && (needed < MAX_BUFFER || needed + 7 >= WORD_LIMIT))
  }

  /** The name is not among the first `i` children. */
  predicate Searched(t: Nodes, children: seq<Id>, i: nat, name: Name) {
    && i <= |children|
    && Find(t, children, name) == Find(t, children[i..], name)
    && Without(t, children, name) == children[..i] + Without(t, children[i..], name)
  }

  lemma SearchStart(t: Nodes, children: seq<Id>, name: Name)
    ensures Searched(t, children, 0, name)
  {
    assert children[0..] == children && children[..0] + Without(t, children, name) == Without(t, children, name);
  }

  lemma SearchEnd(t: Nodes, children: seq<Id>, name: Name)
    requires Searched(t, children, |children|, name)
    ensures Find(t, children, name) == NULL
  {
  }

  lemma SearchStep(t: Nodes, dir: Id, i: nat, name: Name)
    requires WellFormed(t) && dir in t && i < |t[dir].children| && Searched(t, t[dir].children, i, name)
    ensures t[dir].children[i] in t
    ensures t[t[dir].children[i]].name != name ==> Searched(t, t[dir].children, i + 1, name)
    ensures t[t[dir].children[i]].name == name ==>
      && Find(t, t[dir].children, name) != NULL
      && Without(t, t[dir].children, name) == t[dir].children[..i] + t[dir].children[i + 1..]
  {
    hide WellFormed, Find, Without;
    var children := t[dir].children;
    var c, rest := children[i], children[i..];
    ChildIsNode(t, dir, i);
    assert rest[0] == c && rest[1..] == children[i + 1..];
    FirstChild(t, rest, name);
    Regroup(children, i, Without(t, rest[1..], name));
  }

  lemma Regroup(s: seq<Id>, i: nat, w: seq<Id>)
    requires i < |s|
    ensures s[..i] + ([s[i]] + w) == s[..i + 1] + w
  {
    assert s[..i + 1] == s[..i] + [s[i]];
  }

  lemma ChildIsNode(t: Nodes, dir: Id, i: nat)
    requires WellFormed(t) && dir in t && i < |t[dir].children|
    ensures t[dir].children[i] in t && t[dir].children[i] != NULL
  {
  }

  lemma FirstChild(t: Nodes, children: seq<Id>, name: Name)
    requires children != [] && children[0] in t && children[0] != NULL
    ensures t[children[0]].name == name ==>
      Find(t, children, name) == children[0] && Without(t, children, name) == children[1..]
    ensures t[children[0]].name != name ==>
      Find(t, children, name) == Find(t, children[1..], name)
      && Without(t, children, name) == [children[0]] + Without(t, children[1..], name)
  {
  }

  function CutPath(path: string): (r: string)
    ensures r <= path && |r| == if |path| < 1024 then |path| else 1023
  {
    if |path| < MAX_PATH then path else path[..MAX_PATH - 1]
  }

  lemma SizeOfFile(t: Nodes, n: Id)
    requires WellFormed(t) && n in t
    ensures t[n].size == |t[n].buf| < MAX_BUFFER
  {
  }
}
