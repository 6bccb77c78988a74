/** Runs of system calls: what has gone through a descriptor is the part of the file before its cursor. */
module DescriptorTrace {
  import opened Bytes
  import opened Paths
  import opened Tree
  import opened Descriptors
  import V = Vfs

  datatype Op =
    | Open(path: string)
    | Close(fd: int)
    | Read(fd: int, size: nat)
    | Write(fd: int, data: seq<byte>, memory: bool)
    | Make(path: string, isDir: bool, mem: Id)
    | Unlink(path: string)

  /** What the calls did: the descriptors opened and closed, and the bytes that went through them. */
  datatype Event =
    | Opened(fd: int, node: Id)
    | Closed(fd: int)
    | GotBytes(fd: int, data: seq<byte>)
    | PutBytes(fd: int, data: seq<byte>)

  /** What a call returns: its result, the bytes of a read, and for an open the file that the kernel notes down. */
  datatype Reply = Reply(code: int, data: seq<byte>, node: Id)

  /** What a call and its reply say to have happened. */
  function Shown(op: Op, r: Reply): seq<Event> {
    if r.code == -1 then [] else
      match op
      case Open(_) => [Opened(r.code, r.node)]
      case Close(fd) => [Closed(fd)]
      case Read(fd, _) => [GotBytes(fd, r.data)]
      case Write(fd, data, _) => [PutBytes(fd, data)]
      case Make(_, _, _) => []
      case Unlink(_) => []
  }

  function LogOf(ops: seq<Op>, replies: seq<Reply>): seq<Event>
    requires |ops| == |replies|
  {
    if ops == [] then []
    else LogOf(ops[..|ops| - 1], replies[..|ops| - 1]) + Shown(ops[|ops| - 1], replies[|ops| - 1])
  }

  lemma LogOfMore(ops: seq<Op>, i: nat, replies: seq<Reply>, r: Reply)
    requires i < |ops| && |replies| == i
    ensures LogOf(ops[..i + 1], replies + [r]) == LogOf(ops[..i], replies) + Shown(ops[i], r)
  {
    assert ops[..i + 1][..i] == ops[..i] && (replies + [r])[..i] == replies;
  }

  /** The file to which a descriptor leads after the events, NULL when it is closed. */
  function Holder(log: seq<Event>, fd: int): Id {
    if log == [] then NULL
    else
      var e, before := log[|log| - 1], log[..|log| - 1];
      if e.fd != fd then Holder(before, fd)
      else match e
        case Opened(_, node) => node
        case Closed(_) => NULL
        case _ => Holder(before, fd)
  }

  /** The bytes read and written through a descriptor since it was opened. */
  function Through(log: seq<Event>, fd: int): seq<byte> {
    if log == [] then []
    else
      var e, before := log[|log| - 1], log[..|log| - 1];
      if e.fd != fd then Through(before, fd)
      else match e
        case Opened(_, _) => []
        case Closed(_) => []
        case GotBytes(_, data) => Through(before, fd) + data
        case PutBytes(_, data) => Through(before, fd) + data
  }

  /** Since the descriptor was opened nobody has written to its file through another one. */
  predicate Alone(log: seq<Event>, fd: int) {
    if log == [] then true
    else
      var e, before := log[|log| - 1], log[..|log| - 1];
      if e.fd == fd then e.Opened? || Alone(before, fd)
      else Alone(before, fd) && !(e.PutBytes? && Holder(before, e.fd) == Holder(before, fd))
  }

  /** The cursor counts the bytes that went through; they are the beginning of the file. */
  ghost predicate Consistent(log: seq<Event>, table: Table, t: Nodes) {
    && Tidy(table, t)
    && (forall fd :: IsOpen(table, fd) ==> Tracks(log, table[fd], t, fd))
    && forall fd :: !IsOpen(table, fd) ==> Holder(log, fd) == NULL
  }

  ghost predicate Tracks(log: seq<Event>, e: Entry, t: Nodes, fd: int) {
    && Holder(log, fd) == e.node && e.node in t && e.offset <= |t[e.node].buf|
    && |Through(log, fd)| == e.offset
    && (Alone(log, fd) ==> Through(log, fd) == t[e.node].buf[..e.offset])
  }

  lemma Append(log: seq<Event>, e: Event)
    ensures (log + [e])[|log + [e]| - 1] == e && (log + [e])[..|log + [e]| - 1] == log
  {
  }

  /** The events mean the same for descriptor `g`. */
  ghost predicate SameView(log: seq<Event>, log': seq<Event>, g: int) {
    Holder(log', g) == Holder(log, g) && Through(log', g) == Through(log, g) && (Alone(log', g) <==> Alone(log, g))
  }

  lemma OtherUntouched(log: seq<Event>, e: Event, g: int)
    requires !e.PutBytes?
    ensures g != e.fd ==> SameView(log, log + [e], g)
  {
    Append(log, e);
  }

  lemma OtherWrote(log: seq<Event>, e: Event, g: int)
    requires e.PutBytes? && g != e.fd
    ensures Holder(log + [e], g) == Holder(log, g) && Through(log + [e], g) == Through(log, g)
    ensures Alone(log + [e], g) <==> Alone(log, g) && Holder(log, e.fd) != Holder(log, g)
  {
    Append(log, e);
  }

  lemma OwnEvent(log: seq<Event>, e: Event)
    ensures Holder(log + [e], e.fd) == match e case Opened(_, n) => n case Closed(_) => NULL case _ => Holder(log, e.fd)
    ensures Through(log + [e], e.fd) == if e.Opened? || e.Closed? then [] else Through(log, e.fd) + e.data
    ensures Alone(log + [e], e.fd) <==> e.Opened? || Alone(log, e.fd)
  {
    Append(log, e);
  }

  /** An event of one descriptor that is no write leaves the others as they are. */
  lemma StepOf(log: seq<Event>, table: Table, t: Nodes, e: Event, entry: Entry)
    requires Consistent(log, table, t) && !e.PutBytes? && 0 <= e.fd < FD_MAX && Tidy(table[e.fd := entry], t)
    requires if entry.used then Tracks(log + [e], entry, t, e.fd) else Holder(log + [e], e.fd) == NULL
    ensures Consistent(log + [e], table[e.fd := entry], t)
  {
    hide Holder, Through, Alone;
    var table', log' := table[e.fd := entry], log + [e];
    forall g | IsOpen(table', g) ensures Tracks(log', table'[g], t, g) {
      OtherUntouched(log, e, g);
    }
    forall g | !IsOpen(table', g) ensures Holder(log', g) == NULL {
      OtherUntouched(log, e, g);
    }
  }

  lemma OpenStep(log: seq<Event>, table: Table, t: Nodes, fd: int, node: Id)
    requires Consistent(log, table, t) && 0 <= fd < FD_MAX && !IsOpen(table, fd) && IsFile(t, node)
    ensures Consistent(log + [Opened(fd, node)], table[fd := Entry(true, node, 0)], t)
  {
    hide Holder, Through, Alone;
    OwnEvent(log, Opened(fd, node));
    StepOf(log, table, t, Opened(fd, node), Entry(true, node, 0));
  }

  lemma CloseStep(log: seq<Event>, table: Table, t: Nodes, fd: int)
    requires Consistent(log, table, t) && IsOpen(table, fd)
    ensures Consistent(log + [Closed(fd)], table[fd := FREE], t)
  {
    hide Holder, Through, Alone;
    OwnEvent(log, Closed(fd));
    StepOf(log, table, t, Closed(fd), FREE);
  }

  lemma ReadStep(log: seq<Event>, table: Table, t: Nodes, fd: int, size: nat)
    requires Consistent(log, table, t) && IsOpen(table, fd)
    ensures var e := table[fd]; var data := ReadAt(t[e.node].buf, e.offset, size);
      Consistent(log + [GotBytes(fd, data)], table[fd := e.(offset := e.offset + |data|)], t)
  {
    hide Holder, Through, Alone;
    var e, data := table[fd], ReadAt(t[table[fd].node].buf, table[fd].offset, size);
    assert Tracks(log, e, t, fd);
    OwnEvent(log, GotBytes(fd, data));
    assert t[e.node].buf[..e.offset] + data == t[e.node].buf[..e.offset + |data|];
    StepOf(log, table, t, GotBytes(fd, data), e.(offset := e.offset + |data|));
  }

  lemma WriteStep(log: seq<Event>, table: Table, t: Nodes, fd: int, data: seq<byte>)
    requires Consistent(log, table, t) && IsOpen(table, fd)
    ensures var e := table[fd];
      Consistent(log + [PutBytes(fd, data)], table[fd := e.(offset := e.offset + |data|)], Rewritten(t, e, data))
  {
    hide Holder, Through, Alone;
    var e, log' := table[fd], log + [PutBytes(fd, data)];
    var table', t' := table[fd := e.(offset := e.offset + |data|)], Rewritten(t, e, data);
    var buf, buf' := t[e.node].buf, t'[e.node].buf;
    OwnEvent(log, PutBytes(fd, data));
    assert buf'[..e.offset + |data|] == buf[..e.offset] + data;
    forall g | IsOpen(table', g) ensures Tracks(log', table'[g], t', g) {
      if g != fd {
        OtherWrote(log, PutBytes(fd, data), g);
      }
    }
    forall g | !IsOpen(table', g) ensures Holder(log', g) == NULL {
      OtherWrote(log, PutBytes(fd, data), g);
    }
  }

  /** Nodes may be added, and directories change, without any descriptor noticing. */
  lemma TreeStep(log: seq<Event>, table: Table, t: Nodes, t': Nodes)
    requires Consistent(log, table, t)
    requires forall n :: n in t ==> n in t' && t'[n].buf == t[n].buf && t'[n].isDir == t[n].isDir
    ensures Consistent(log, table, t')
  {
    hide Holder, Through, Alone;
    forall fd | IsOpen(table, fd) ensures Tracks(log, table[fd], t', fd) {
    }
  }

  /** After a read that yields nothing, what went through the descriptor is the whole file. */
  lemma EndOfFile(log: seq<Event>, table: Table, t: Nodes, fd: int, size: nat)
    requires Consistent(log, table, t) && IsOpen(table, fd) && Alone(log, fd) && size > 0
    ensures table[fd].node in t
    ensures ReadAt(t[table[fd].node].buf, table[fd].offset, size) == [] <==> Through(log, fd) == t[table[fd].node].buf
  {
    hide Holder, Through, Alone;
    var e := table[fd];
    assert Tracks(log, e, t, fd);
    assert e.offset == |t[e.node].buf| ==> t[e.node].buf[..e.offset] == t[e.node].buf;
  }

  /** The number of bytes that the calls try to write. */
  function Volume(ops: seq<Op>): nat {
    if ops == [] then 0
    else Volume(ops[..|ops| - 1]) + if ops[|ops| - 1].Write? then |ops[|ops| - 1].data| else 0
  }

  lemma {:induction false} VolumeGrows(ops: seq<Op>, i: nat)
    requires i < |ops|
    ensures Volume(ops[..i + 1]) == Volume(ops[..i]) + (if ops[i].Write? then |ops[i].data| else 0) <= Volume(ops)
    decreases |ops|
  {
    assert ops[..i + 1][..i] == ops[..i];
    if i + 1 == |ops| {
      assert ops[..i + 1] == ops;
    } else {
      var before := ops[..|ops| - 1];
      VolumeGrows(before, i);
      assert before[..i] == ops[..i] && before[..i + 1] == ops[..i + 1];
    }
  }

  ghost predicate FilesWithin(t: Nodes, bound: nat) {
    forall n :: n in t ==> |t[n].buf| <= bound
  }

  /** The buffers for paths hold them, and a size is one of 64 bits. */
  predicate Sensible(op: Op) {
    && ((op.Make? || op.Unlink?) ==> |op.path| < MAX_PATH)
    && (op.Write? ==> |op.data| < WORD_LIMIT)
  }

  /** Directories change, files do not. */
  ghost predicate OnlyTree(t: Nodes, t': Nodes) {
    && (forall n :: n in t ==> n in t' && t'[n].buf == t[n].buf && t'[n].isDir == t[n].isDir)
    && forall n :: n in t' && n !in t ==> t'[n].buf == []
  }

  lemma FromTree(t: Nodes, t': Nodes, log: seq<Event>, table: Table, bound: nat)
    requires Consistent(log, table, t) && FilesWithin(t, bound) && OnlyTree(t, t')
    ensures Consistent(log, table, t') && FilesWithin(t', bound)
  {
    hide Consistent;
    TreeStep(log, table, t, t');
  }

  lemma AddedOnlyTree(t: Nodes, dir: Id, id: Id, name: Name, isDir: bool)
    requires dir in t && id !in t
    ensures OnlyTree(t, Added(t, dir, id, name, isDir))
  {
  }

  lemma RemovedOnlyTree(t: Nodes, dir: Id, name: Name)
    requires dir in t
    ensures OnlyTree(t, Removed(t, dir, name))
  {
    hide Without;
  }

  lemma WriteFits(log: seq<Event>, table: Table, t: Nodes, fd: int, bound: nat)
    requires Consistent(log, table, t) && FilesWithin(t, bound)
    ensures IsOpen(table, fd) ==> table[fd].node in t && table[fd].offset <= |t[table[fd].node].buf| <= bound
  {
    hide Holder, Through, Alone;
  }

  lemma AfterWrite(t: Nodes, e: Entry, data: seq<byte>, bound: nat)
    requires FilesWithin(t, bound) && e.node in t && e.offset <= |t[e.node].buf|
    ensures FilesWithin(Rewritten(t, e, data), bound + |data|)
  {
    var t' := Rewritten(t, e, data);
    forall n | n in t' ensures |t'[n].buf| <= bound + |data| {
      assert |t[e.node].buf| <= bound;
    }
  }

  /** The tree and the descriptors. */
  datatype State = State(t: Nodes, table: Table)

  /** The descriptor is open, and its file has the bytes at the cursor or there is memory for them. */
  predicate FitsFile(s: State, fd: int, n: nat, memory: bool) {
    IsOpen(s.table, fd) && s.table[fd].node in s.t &&
    var e := s.table[fd];
    e.offset + n <= |s.t[e.node].buf| || (memory && e.offset + n < MAX_BUFFER)
  }

  /** What a call does to them, and what it returns. */
  ghost predicate Does(root: Id, op: Op, s: State, r: Reply, s': State) {
    match op
    case Open(path) =>
      var n := Resolve(s.t, root, path);
      && s'.t == s.t && r.code == (if n in s.t && !s.t[n].isDir then LowestFree(s.table) else -1)
      && if 0 <= r.code < |s.table| then r.node == n && s'.table == s.table[r.code := Entry(true, n, 0)] else s'.table == s.table
    case Close(fd) =>
      && s'.t == s.t && r.code == (if IsOpen(s.table, fd) then 0 else -1)
      && s'.table == if IsOpen(s.table, fd) then s.table[fd := FREE] else s.table
    case Read(fd, size) =>
      s'.t == s.t &&
      if IsOpen(s.table, fd) && s.table[fd].node in s.t then
        var e := s.table[fd];
        && r.data == ReadAt(s.t[e.node].buf, e.offset, size) && r.code == |r.data|
        && s'.table == s.table[fd := e.(offset := e.offset + |r.data|)]
      else
        r.code == -1 && r.data == [] && s'.table == s.table
    case Write(fd, data, memory) =>
      r.code == (if FitsFile(s, fd, |data|, memory) then |data| else -1) &&
      if FitsFile(s, fd, |data|, memory) then
        && s'.t == Rewritten(s.t, s.table[fd], data)
        && s'.table == s.table[fd := s.table[fd].(offset := s.table[fd].offset + |data|)]
      else
        s'.t == s.t && s'.table == s.table
    case Make(path, isDir, mem) =>
      && s'.table == s.table && r.code == (if r.node == NULL then -1 else 0)
      && (r.node != NULL <==> var dir := Parent(s.t, root, path);
            dir in s.t && s.t[dir].isDir && |s.t[dir].children| < MAX_CHILDREN && mem != NULL && mem !in s.t)
      && (r.node != NULL ==>
            && r.node == mem && Parent(s.t, root, path) in s.t
            && s'.t == Added(s.t, Parent(s.t, root, path), mem, Cut(LastName(path)), isDir))
      && (r.node == NULL ==> s'.t == s.t)
    case Unlink(path) =>
      && s'.table == s.table
      && (r.code == 0 <==> var dir := Parent(s.t, root, path);
            dir in s.t && s.t[dir].isDir && Find(s.t, s.t[dir].children, Cut(LastName(path))) != NULL)
      && (r.code == 0 || r.code == -1)
      && if r.code == 0 && Parent(s.t, root, path) in s.t then
           s'.t == Removed(s.t, Parent(s.t, root, path), Cut(LastName(path)))
         else
           s'.t == s.t
  }

  // One method for each call.

  method PerformOpen(files: Files, op: Op, ghost log: seq<Event>) returns (r: Reply)
    requires files.Valid() && Consistent(log, files.table[..], files.vfs.nodes) && op.Open?
    modifies files.table
    ensures files.Valid() && Consistent(log + Shown(op, r), files.table[..], files.vfs.nodes)
    ensures Does(files.vfs.root, op, State(files.vfs.nodes, old(files.table[..])), r, State(files.vfs.nodes, files.table[..]))
  {
    hide Consistent, WellFormed, Resolve, LowestFree;
    assert log + [] == log;
    ghost var t, table := files.vfs.nodes, files.table[..];
    var fd := files.Open(op.path);
    r := Reply(fd, [], NULL);
    if fd != -1 {
      r := Reply(fd, [], files.table[fd].node);
      OpenStep(log, table, t, fd, Resolve(t, files.vfs.root, op.path));
    }
  }

  method PerformClose(files: Files, op: Op, ghost log: seq<Event>) returns (r: Reply)
    requires files.Valid() && Consistent(log, files.table[..], files.vfs.nodes) && op.Close?
    modifies files.table
    ensures files.Valid() && Consistent(log + Shown(op, r), files.table[..], files.vfs.nodes)
    ensures Does(files.vfs.root, op, State(files.vfs.nodes, old(files.table[..])), r, State(files.vfs.nodes, files.table[..]))
  {
    hide Consistent, WellFormed, Resolve, LowestFree;
    assert log + [] == log;
    ghost var t, table := files.vfs.nodes, files.table[..];
    var status := files.Close(op.fd);
    r := Reply(status, [], NULL);
    if status == 0 {
      CloseStep(log, table, t, op.fd);
    }
  }

  method PerformRead(files: Files, op: Op, ghost log: seq<Event>) returns (r: Reply)
    requires files.Valid() && Consistent(log, files.table[..], files.vfs.nodes) && op.Read?
    modifies files.table
    ensures files.Valid() && Consistent(log + Shown(op, r), files.table[..], files.vfs.nodes)
    ensures Does(files.vfs.root, op, State(files.vfs.nodes, old(files.table[..])), r, State(files.vfs.nodes, files.table[..]))
  {
    hide Consistent, WellFormed, Resolve, LowestFree, ReadAt;
    assert log + [] == log;
    ghost var t, table := files.vfs.nodes, files.table[..];
    var n, data := files.Read(op.fd, op.size);
    r := Reply(n, data, NULL);
    if n != -1 {
      ReadStep(log, table, t, op.fd, op.size);
    }
  }

  method PerformWrite(files: Files, op: Op, ghost log: seq<Event>, ghost bound: nat) returns (r: Reply, overrun: bool)
    requires files.Valid() && Consistent(log, files.table[..], files.vfs.nodes) && op.Write?
    requires FilesWithin(files.vfs.nodes, bound) && |op.data| < WORD_LIMIT
    modifies files.table, files.vfs`nodes
    ensures files.Valid() && Consistent(log + (if overrun then [] else Shown(op, r)), files.table[..], files.vfs.nodes)
    ensures overrun ==> bound + |op.data| + 7 >= WORD_LIMIT
    ensures overrun ==> files.vfs.nodes == old(files.vfs.nodes) && files.table[..] == old(files.table[..])
    ensures !overrun ==> Does(files.vfs.root, op, State(old(files.vfs.nodes), old(files.table[..])), r,
                              State(files.vfs.nodes, files.table[..]))
    ensures FilesWithin(files.vfs.nodes, bound + |op.data|)
  {
    hide Consistent, WellFormed, Resolve, FilesWithin, Rewritten, FitsFile, V.HasRoom;
    assert log + [] == log;
    ghost var t, table := files.vfs.nodes, files.table[..];
    WriteFits(log, table, t, op.fd, bound);
    MoreRoom(t, bound, bound + |op.data|);
    Roomy(files, op.fd, |op.data|, op.memory);
    var n;
    n, overrun := files.Write(op.fd, op.data, op.memory);
    r := Reply(n, [], NULL);
    if n != -1 {
      WriteStep(log, table, t, op.fd, op.data);
      AfterWrite(t, table[op.fd], op.data, bound);
    }
  }

  /** Short of the end of the address space, the room that a write finds is that for its last byte. */
  lemma Roomy(files: Files, fd: int, n: word, memory: bool)
    requires files.Valid()
    ensures FitsFile(State(files.vfs.nodes, files.table[..]), fd, n, memory) ==>
      files.Reaches(fd, n, memory) && files.table[fd].offset + n + 7 < WORD_LIMIT
    ensures files.Reaches(fd, n, memory) && files.table[..][fd].offset + n + 7 < WORD_LIMIT ==>
      FitsFile(State(files.vfs.nodes, files.table[..]), fd, n, memory)
  {
    hide WellFormed;
    if IsOpen(files.table[..], fd) {
      V.SizeOfFile(files.vfs.nodes, files.table[fd].node);
    }
  }

  lemma MoreRoom(t: Nodes, bound: nat, bound': nat)
    requires FilesWithin(t, bound) && bound <= bound'
    ensures FilesWithin(t, bound')
  {
  }

  /** Making a node; the allocator hands out no address in use. */
  method PerformMake(files: Files, op: Op, ghost log: seq<Event>, ghost bound: nat) returns (r: Reply)
    requires files.Valid() && Consistent(log, files.table[..], files.vfs.nodes) && Sensible(op)
    requires FilesWithin(files.vfs.nodes, bound) && op.Make?
    modifies files.vfs`nodes
    ensures files.Valid() && Consistent(log + Shown(op, r), files.table[..], files.vfs.nodes)
    ensures Does(files.vfs.root, op, State(old(files.vfs.nodes), files.table[..]), r, State(files.vfs.nodes, files.table[..]))
    ensures FilesWithin(files.vfs.nodes, bound)
  {
    hide Consistent, WellFormed, Resolve, Added, FilesWithin, OnlyTree, KeepsName, Cut, LastName, Tidy;
    ghost var t, table := files.vfs.nodes, files.table[..];
    NullIsNoNode(t);
    assert log + [] == log;
    var node := files.vfs.Make(op.path, op.isDir, if op.mem in files.vfs.nodes then NULL else op.mem);
    r := Reply(if node == NULL then -1 else 0, [], node);
    if node != NULL {
      AddedOnlyTree(t, Parent(t, files.vfs.root, op.path), node, Cut(LastName(op.path)), op.isDir);
      FromTree(t, files.vfs.nodes, log, table, bound);
    }
    IsTidy(log, table, files.vfs.nodes);
  }

  method PerformUnlink(files: Files, op: Op, ghost log: seq<Event>, ghost bound: nat) returns (r: Reply)
    requires files.Valid() && Consistent(log, files.table[..], files.vfs.nodes) && Sensible(op)
    requires FilesWithin(files.vfs.nodes, bound) && op.Unlink?
    modifies files.vfs`nodes
    ensures files.Valid() && Consistent(log + Shown(op, r), files.table[..], files.vfs.nodes)
    ensures Does(files.vfs.root, op, State(old(files.vfs.nodes), files.table[..]), r, State(files.vfs.nodes, files.table[..]))
    ensures FilesWithin(files.vfs.nodes, bound)
  {
    hide Consistent, WellFormed, Resolve, Removed, FilesWithin, OnlyTree, Cut, LastName, Find, Tidy;
    ghost var t, table := files.vfs.nodes, files.table[..];
    assert log + [] == log;
    var status := files.vfs.Unlink(op.path);
    r := Reply(status, [], NULL);
    if status == 0 {
      RemovedOnlyTree(t, Parent(t, files.vfs.root, op.path), Cut(LastName(op.path)));
      FromTree(t, files.vfs.nodes, log, table, bound);
    }
    IsTidy(log, table, files.vfs.nodes);
  }

  lemma IsTidy(log: seq<Event>, table: Table, t: Nodes)
    requires Consistent(log, table, t)
    ensures Tidy(table, t)
  {
  }

  /** The tree and the descriptors before each call of a run, and after the last. */
  ghost predicate IsRunOf(root: Id, ops: seq<Op>, replies: seq<Reply>, states: seq<State>) {
    && |replies| == |ops| && |states| == |ops| + 1
    && forall i :: 0 <= i < |ops| ==> Does(root, ops[i], states[i], replies[i], states[i + 1])
  }

  lemma RunMore(root: Id, ops: seq<Op>, replies: seq<Reply>, states: seq<State>, op: Op, r: Reply, s: State)
    requires IsRunOf(root, ops, replies, states) && Does(root, op, states[|ops|], r, s)
    ensures IsRunOf(root, ops + [op], replies + [r], states + [s])
  {
    hide Does;
    var o, rs, ss := ops + [op], replies + [r], states + [s];
    forall i | 0 <= i < |o| ensures Does(root, o[i], ss[i], rs[i], ss[i + 1]) {
    }
  }

  /**
    Every run of calls keeps the table and the files consistent with what went through the descriptors. It stops
    only at a write that runs past its buffer, for which files and writes must add up to almost 2^64 bytes.
   */
  method Run(files: Files, ops: seq<Op>, ghost bound: nat) returns (replies: seq<Reply>, ghost states: seq<State>)
    requires files.Valid() && (forall fd :: !IsOpen(files.table[..], fd)) && FilesWithin(files.vfs.nodes, bound)
    requires forall i :: 0 <= i < |ops| ==> Sensible(ops[i])
    modifies files.table, files.vfs`nodes
    ensures files.Valid() && |replies| <= |ops|
    ensures |replies| < |ops| ==> ops[|replies|].Write? && bound + Volume(ops) + 7 >= WORD_LIMIT
    ensures IsRunOf(files.vfs.root, ops[..|replies|], replies, states)
    ensures states[0] == State(old(files.vfs.nodes), old(files.table[..]))
    ensures states[|replies|] == State(files.vfs.nodes, files.table[..])
    ensures Consistent(LogOf(ops[..|replies|], replies), files.table[..], files.vfs.nodes)
  {
    hide Consistent, WellFormed, Resolve, Tidy, FilesWithin, Shown, Sensible, Does;
    replies, states := [], [State(files.vfs.nodes, files.table[..])];
    NothingOpen(files.table[..], files.vfs.nodes, ops[..0]);
    for i := 0 to |ops|
      invariant files.Valid() && |replies| == i && Consistent(LogOf(ops[..i], replies), files.table[..], files.vfs.nodes)
      invariant FilesWithin(files.vfs.nodes, bound + Volume(ops[..i]))
      invariant IsRunOf(files.vfs.root, ops[..i], replies, states)
      invariant states[0] == State(old(files.vfs.nodes), old(files.table[..]))
      invariant states[i] == State(files.vfs.nodes, files.table[..])
    {
      VolumeGrows(ops, i);
      var r, overrun := Perform(files, ops[i], LogOf(ops[..i], replies), bound + Volume(ops[..i]));
      if overrun {
        return;
      }
      LogOfMore(ops, i, replies, r);
      RunMore(files.vfs.root, ops[..i], replies, states, ops[i], r, State(files.vfs.nodes, files.table[..]));
      assert ops[..i + 1] == ops[..i] + [ops[i]];
      replies, states := replies + [r], states + [State(files.vfs.nodes, files.table[..])];
    }
  }

  method Perform(files: Files, op: Op, ghost log: seq<Event>, ghost bound: nat) returns (r: Reply, overrun: bool)
    requires files.Valid() && Consistent(log, files.table[..], files.vfs.nodes)
    requires FilesWithin(files.vfs.nodes, bound) && Sensible(op)
    modifies files.table, files.vfs`nodes
    ensures files.Valid()
    ensures overrun ==> op.Write? && bound + |op.data| + 7 >= WORD_LIMIT
    ensures overrun ==>
      && files.vfs.nodes == old(files.vfs.nodes) && files.table[..] == old(files.table[..])
      && Consistent(log, files.table[..], files.vfs.nodes)
    ensures !overrun ==> Consistent(log + Shown(op, r), files.table[..], files.vfs.nodes)
    ensures !overrun ==> Does(files.vfs.root, op, State(old(files.vfs.nodes), old(files.table[..])), r,
                              State(files.vfs.nodes, files.table[..]))
    ensures FilesWithin(files.vfs.nodes, bound + if op.Write? then |op.data| else 0)
  {
    hide Consistent, WellFormed, Resolve, Tidy, FilesWithin, Shown, Does;
    if op.Make? {
      r := PerformMake(files, op, log, bound);
      overrun := false;
    } else if op.Unlink? {
      r := PerformUnlink(files, op, log, bound);
      overrun := false;
    } else if op.Write? {
      r, overrun := PerformWrite(files, op, log, bound);
      assert log + [] == log;
    } else {
      overrun := false;
      match op {
        case Open(_) => r := PerformOpen(files, op, log);
        case Close(_) => r := PerformClose(files, op, log);
        case Read(_, _) => r := PerformRead(files, op, log);
      }
    }
  }

  lemma NothingOpen(table: Table, t: Nodes, none: seq<Op>)
    requires Tidy(table, t) && (forall fd :: !IsOpen(table, fd)) && none == []
    ensures Consistent(LogOf(none, []), table, t)
  {
  }
}
