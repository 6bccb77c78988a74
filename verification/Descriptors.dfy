/** The descriptor table and the four file system calls: every descriptor is a cursor of its own over a file. */
module Descriptors {
  import opened Bytes
  import opened Paths
  import opened Tree
  import V = Vfs

  const FD_MAX: nat := 64

  datatype Entry = Entry(used: bool, node: Id, offset: nat)

  const FREE := Entry(false, NULL, 0)

  type Table = seq<Entry>

  predicate IsOpen(table: Table, fd: int) {
    0 <= fd < |table| && table[fd].used
  }

  /** The lowest free descriptor, or -1. */
  function LowestFree(table: Table): (fd: int)
    ensures -1 <= fd < |table|
    ensures fd >= 0 ==> !table[fd].used && forall i :: 0 <= i < fd ==> table[i].used
    ensures fd == -1 ==> forall i :: 0 <= i < |table| ==> table[i].used
  {
    if table == [] then -1
    else if LowestFree(table[..|table| - 1]) >= 0 then LowestFree(table[..|table| - 1])
    else if !table[|table| - 1].used then |table| - 1
    else -1
  }

  predicate IsFile(t: Nodes, n: Id) {
    n in t && !t[n].isDir
  }

  /** Open descriptors lead to files, and no cursor is behind the end of its file. */
  ghost predicate Tidy(table: Table, t: Nodes) {
    && |table| == FD_MAX
    && (forall fd :: IsOpen(table, fd) ==>
          IsFile(t, table[fd].node) && table[fd].offset <= |t[table[fd].node].buf|)
    && forall fd :: 0 <= fd < FD_MAX && !IsOpen(table, fd) ==> table[fd] == FREE
  }

  class Files {
    const vfs: V.Vfs
    const table: array<Entry>

    ghost predicate Valid()
      reads this, vfs, table
    {
      vfs.Valid() && Tidy(table[..], vfs.nodes)
    }

    constructor (vfs: V.Vfs)
      requires vfs.Valid()
      ensures Valid() && this.vfs == vfs && fresh(table) && forall fd :: !IsOpen(table[..], fd)
    {
      this.vfs := vfs;
      table := new Entry[FD_MAX];
      new;
      for i := 0 to FD_MAX
        invariant forall k :: 0 <= k < i ==> table[k] == FREE
      {
        table[i] := FREE;
      }
    }

    method AllocFd(node: Id) returns (fd: int)
      requires table.Length == FD_MAX
      modifies table
      ensures fd == LowestFree(old(table[..]))
      ensures table[..] == if fd >= 0 then old(table[..])[fd := Entry(true, node, 0)] else old(table[..])
    {
      for i := 0 to FD_MAX
        invariant table[..] == old(table[..]) && forall k :: 0 <= k < i ==> table[k].used
      {
        if !table[i].used {
          table[i] := Entry(true, node, 0);
          return i;
        }
      }
      return -1;
    }

    method FreeFd(fd: int)
      requires table.Length == FD_MAX
      modifies table
      ensures table[..] == if 0 <= fd < FD_MAX then old(table[..])[fd := FREE] else old(table[..])
    {
      if fd < 0 || fd >= FD_MAX {
        return;
      }
      table[fd] := FREE;
    }

    /** get_fd: is there an entry in use behind the number? */
    method GetFd(fd: int) returns (found: bool)
      requires table.Length == FD_MAX
      ensures found == IsOpen(table[..], fd)
    {
      if fd < 0 || fd >= FD_MAX {
        return false;
      }
      return table[fd].used;
    }

    method Open(path: string) returns (fd: int)
      requires Valid()
      modifies table
      ensures Valid()
      ensures
        var n := Resolve(vfs.nodes, vfs.root, path);
        fd == if n in vfs.nodes && !vfs.nodes[n].isDir then LowestFree(old(table[..])) else -1
      ensures table[..] == if fd == -1 then old(table[..])
                           else old(table[..])[fd := Entry(true, Resolve(vfs.nodes, vfs.root, path), 0)]
    {
      hide WellFormed, Resolve;
      NullIsNoNode(vfs.nodes);
      var node := vfs.ResolvePath(path);
      if node == NULL || vfs.nodes[node].isDir {
        return -1;
      }
      fd := AllocFd(node);
    }

    method Close(fd: int) returns (status: int)
      requires Valid()
      modifies table
      ensures Valid()
      ensures status == if IsOpen(old(table[..]), fd) then 0 else -1
      ensures table[..] == if status == 0 then old(table[..])[fd := FREE] else old(table[..])
    {
      hide WellFormed;
      var found := GetFd(fd);
      if !found {
        return -1;
      }
      FreeFd(fd);
      return 0;
    }

    /** A read advances the cursor by what it yields, and no other. */
    method Read(fd: int, size: nat) returns (n: int, data: seq<byte>)
      requires Valid()
      modifies table
      ensures Valid()
      ensures !IsOpen(old(table[..]), fd) ==> n == -1 && data == [] && table[..] == old(table[..])
      ensures IsOpen(old(table[..]), fd) ==>
        var e := old(table[..])[fd];
        && n == |data| && data == ReadAt(vfs.nodes[e.node].buf, e.offset, size)
        && table[..] == old(table[..])[fd := e.(offset := e.offset + n)]
    {
      hide WellFormed;
      var found := GetFd(fd);
      if !found {
        return -1, [];
      }
      var e := table[fd];
      n, data := vfs.Read(e.node, e.offset, size);
      if n > 0 {
        table[fd] := e.(offset := e.offset + n);
      }
    }

    /** A write advances the cursor by what was written; `overrun` as in the write to the node. */
    method Write(fd: int, data: seq<byte>, memory: bool) returns (n: int, overrun: bool)
      requires Valid() && |data| < WORD_LIMIT
      modifies table, vfs`nodes
      ensures Valid()
      ensures overrun <==> old(Reaches(fd, |data|, memory)) && old(table[..])[fd].offset + |data| + 7 >= WORD_LIMIT
      ensures n == -1 <==> overrun || !old(Reaches(fd, |data|, memory))
      ensures n == -1 ==> table[..] == old(table[..]) && vfs.nodes == old(vfs.nodes)
      ensures n != -1 ==> n == |data| && IsOpen(old(table[..]), fd)
      ensures n != -1 ==>
        table[..] == old(table[..])[fd := old(table[..])[fd].(offset := old(table[..])[fd].offset + n)]
      ensures n != -1 ==> vfs.nodes == Rewritten(old(vfs.nodes), old(table[..])[fd], data)
    {
      hide WellFormed, WrittenAt, V.HasRoom;
      var found := GetFd(fd);
      if !found {
        return -1, false;
      }
      var e := table[fd];
      V.SizeOfFile(vfs.nodes, e.node);
      n, overrun := vfs.Write(e.node, data, e.offset, memory);
      if n > 0 {
        table[fd] := e.(offset := e.offset + n);
      }
    }

    /** The descriptor is open, and its file has room for `n` bytes at the cursor or gets it. */
    ghost predicate Reaches(fd: int, n: word, memory: bool)
      reads this, vfs, table
      requires Valid()
    {
      IsOpen(table[..], fd) &&
      var e := table[fd];
      e.offset < WORD_LIMIT && V.HasRoom(vfs.nodes[e.node].buf, Sum64(e.offset, n), memory)
    }
  }

  /** The nodes after a write through a descriptor. */
  function Rewritten(t: Nodes, e: Entry, data: seq<byte>): Nodes
    requires e.node in t
  {
    WithContents(t, e.node, WrittenAt(t[e.node].buf, e.offset, data))
  }
}
