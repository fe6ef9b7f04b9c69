/** The descriptor table of a process and the handles behind it (libposix/sys/vnode.c,
    libposix/sys/unistd.c, libposix/vfs/vfs_unistd.c, libposix/vfs/vfs_fcntl.c). */
module Descriptors {
  import opened Common

  const EBADF: int := 9
  const EFAULT: int := 14
  const EMFILE: int := 24
  const EFTYPE: int := 79

  /** An OS handle; 0 is none. A closed handle value is never given out again. */
  type Handle = nat

  datatype FsType = Unknown | Disk | Char | Pipe | Mailslot | Pdo | WinSock | OtherFs

  /** WIN_VNODE; a slot is open when it has access rights. */
  datatype Vnode = Vnode(fsType: FsType, fileId: nat, access: nat, handle: Handle, closeExec: bool)
  {
    predicate IsOpen() { access != 0 }
  }

  const ZERO_NODE := Vnode(Unknown, 0, 0, 0, false)

  /** What DuplicateHandle() answers. */
  datatype Dup = DupOk(handle: Handle) | DupFailed(errno: int)

  /** How a device answers when a node is to be closed.  After a failure some devices have
      cleared the node and some have not, and the handle may be gone or not. */
  datatype Shut = Shuts | Fails(errno: int, cleared: bool, gone: bool)
  {
    predicate Valid() { Fails? ==> errno > 0 }
    predicate Clears() { Shuts? || cleared }
    predicate Ends() { Shuts? || gone }
  }

  /** What CreatePipe() answers. */
  datatype Pipe = PipeMade(reader: Vnode, writer: Vnode) | PipeFailed(errno: int)

  /** The table together with the handles of the process: those that exist, those that were
      closed, in order, and those that were ever made. */
  datatype State = State(nodes: seq<Vnode>, live: set<Handle>, closed: seq<Handle>, made: set<Handle>)

  datatype Done = Done(st: State, result: int)

  // ---------- what the calls do ----------

  /** vfs_close() on a node: the device clears it, and the slot keeps its number. */
  function ClosedNode(n: Vnode, c: Shut): Vnode {
    if n.handle == 0 || !c.Clears() then n else ZERO_NODE.(fileId := n.fileId)
  }

  function CloseHandle(st: State, h: Handle): State {
    st.(live := st.live - {h}, closed := st.closed + [h])
  }

  /** What vfs_close() on a node does to the handles, and what it answers. */
  function CloseNode(st: State, n: Vnode, c: Shut): Done {
    if n.handle == 0 then Done(st, 0)
    else Done(if c.Ends() then CloseHandle(st, n.handle) else st, if c.Fails? then -c.errno else 0)
  }

  function MakeHandle(st: State, h: Handle): State {
    st.(live := st.live + {h}, made := st.made + {h})
  }

  /** The file systems that vfs_F_DUPFD() knows. */
  predicate CanDup(n: Vnode) {
    n.fsType != Unknown && n.fsType != OtherFs
  }

  predicate Dups(n: Vnode, o: Dup) {
    CanDup(n) && o.DupOk?
  }

  /** The lowest closed slot from `from` on. */
  function Lowest(nodes: seq<Vnode>, from: nat): (fd: nat)
    requires from <= |nodes|
    ensures from <= fd <= |nodes| && (fd < |nodes| ==> !nodes[fd].IsOpen())
    ensures forall i :: from <= i < fd ==> nodes[i].IsOpen()
    decreases |nodes| - from
  {
    if from == |nodes| || !nodes[from].IsOpen() then from else Lowest(nodes, from + 1)
  }

  /** fd_posix() */
  function Install(st: State, n: Vnode, offset: int): Done
    requires |st.nodes| == OPEN_MAX && offset <= OPEN_MAX
  {
    var fd := Lowest(st.nodes, if offset > 0 then offset else 0);
    if fd < OPEN_MAX then Done(st.(nodes := st.nodes[fd := n.(fileId := fd)]), fd)
    else Done(st, -EMFILE)
  }

  predicate InRange(fd: int) { 0 <= fd < OPEN_MAX }

  /** fcntl_F_DUPFD(); sys_dup() is the case of offset 0 without close-on-exec. */
  function DupFd(st: State, fd: int, offset: int, closeExec: bool, o: Dup): Done
    requires |st.nodes| == OPEN_MAX && (o.DupFailed? ==> o.errno > 0)
  {
    if !InRange(fd) || !InRange(offset) then Done(st, -EBADF)
    else if !CanDup(st.nodes[fd]) then Done(st, -EFTYPE)
    else
      match o
      case DupFailed(errno) => Done(st, -errno)
      case DupOk(h) => Install(MakeHandle(st, h), st.nodes[fd].(handle := h, closeExec := closeExec), offset)
  }

  /** sys_dup2(): the new slot is overwritten before the handle is duplicated. */
  function Dup2(st: State, oldfd: int, newfd: int, o: Dup, c: Shut): Done
    requires |st.nodes| == OPEN_MAX && (o.DupFailed? ==> o.errno > 0) && c.Valid()
  {
    if !InRange(oldfd) || !InRange(newfd) then Done(st, -EBADF)
    else
      var node, current := st.nodes[oldfd], st.nodes[newfd];
      if node.handle == 0 then Done(st, -EBADF)
      else if oldfd == newfd then Done(st, newfd)
      else
        var copy := node.(closeExec := false, fileId := current.fileId);
        if Dups(node, o) then
          var d := CloseNode(MakeHandle(st.(nodes := st.nodes[newfd := copy.(handle := o.handle)]), o.handle), current, c);
          if d.result == 0 then Done(d.st, newfd) else d
        else
          Done(st.(nodes := st.nodes[newfd := copy]), if CanDup(node) then -o.errno else -EFTYPE)
  }

  /** sys_close() */
  function Close(st: State, fd: int, c: Shut): Done
    requires |st.nodes| == OPEN_MAX
  {
    if !InRange(fd) then Done(st, -EBADF)
    else CloseNode(st.(nodes := st.nodes[fd := ClosedNode(st.nodes[fd], c)]), st.nodes[fd], c)
  }

  /** __closefrom(); `c` answers for each slot. */
  function CloseFrom(st: State, fd: nat, c: nat -> Shut): (r: State)
    requires |st.nodes| == OPEN_MAX && fd <= OPEN_MAX
    ensures |r.nodes| == OPEN_MAX
    decreases OPEN_MAX - fd
  {
    if fd == OPEN_MAX then st
    else CloseFrom(if st.nodes[fd].IsOpen() then Close(st, fd, c(fd)).st else st, fd + 1, c)
  }

  /** The outcome of pipe(): the result of the call, and what it stored in the caller's vector. */
  datatype Piped = Piped(st: State, result: int, fds: seq<int>)

  function Open(st: State, n: Vnode): Done
    requires |st.nodes| == OPEN_MAX
  {
    Install(MakeHandle(st, n.handle), n, 0)
  }

  function MakePipe(st: State, given: bool, o: Pipe): Piped
    requires |st.nodes| == OPEN_MAX
  {
    if !given then Piped(st, -EFAULT, [])
    else
      match o
      case PipeFailed(errno) => Piped(st, -errno, [])
      case PipeMade(n0, n1) =>
        var d0 := Open(st, n0);
        var d1 := Open(d0.st, n1);
        Piped(d1.st, 0, [d0.result, d1.result])
  }

  function Empty(): State {
    State(seq(OPEN_MAX, i requires 0 <= i < OPEN_MAX => ZERO_NODE.(fileId := i)), {}, [], {})
  }

  // ---------- the table in memory ----------

  /** The descriptor part of WIN_TASK. */
  class Task {
    const nodes: array<Vnode>
    var live: set<Handle>
    var closed: seq<Handle>
    var made: set<Handle>

    constructor ()
      ensures Valid() && View() == Empty()
    {
      nodes := new Vnode[OPEN_MAX](i => ZERO_NODE.(fileId := i));
      live, closed, made := {}, [], {};
    }

    ghost predicate Valid()
      reads this
    {
      nodes.Length == OPEN_MAX
    }

    ghost function View(): State
      reads this, nodes
    {
      State(nodes[..], live, closed, made)
    }

    /** vfs_close() on a copy of a node. */
    method VfsClose(n: Vnode, c: Shut) returns (r: Vnode, result: int)
      requires Valid()
      modifies this
      ensures r == ClosedNode(n, c) && Done(View(), result) == CloseNode(old(View()), n, c)
    {
      var fileId := n.fileId;
      r, result := n, 0;
      if n.handle != 0 {
        if c.Ends() {
          live := live - {n.handle};
          closed := closed + [n.handle];
        }
        if c.Clears() {
          r := ZERO_NODE;
        }
        if c.Fails? {
          result := -c.errno;
        }
      }
      r := r.(fileId := fileId);
    }

    /** vfs_F_DUPFD() into the node `target`. */
    method VfsDupFd(n: Vnode, closeExec: bool, target: Vnode, o: Dup) returns (ok: bool, r: Vnode)
      requires Valid()
      modifies this
      ensures ok == Dups(n, o)
      ensures r == (if ok then n.(handle := o.handle) else n).(closeExec := closeExec, fileId := target.fileId)
      ensures View() == if ok then MakeHandle(old(View()), o.handle) else old(View())
    {
      r := n.(closeExec := closeExec, fileId := target.fileId);
      ok := false;
      if CanDup(n) && o.DupOk? {
        live, made := live + {o.handle}, made + {o.handle};
        r := r.(handle := o.handle);
        ok := true;
      }
    }

    /** fd_posix() */
    method FdPosix(n: Vnode, offset: int) returns (result: int)
      requires Valid() && offset <= OPEN_MAX
      modifies nodes
      ensures Done(View(), result) == Install(old(View()), n, offset)
    {
      var fd := if offset > 0 then offset else 0;
      ghost var from := fd;
      while fd < OPEN_MAX
        invariant from <= fd <= OPEN_MAX && Lowest(nodes[..], from) == Lowest(nodes[..], fd)
        invariant nodes[..] == old(nodes[..])
      {
        if !nodes[fd].IsOpen() {
          nodes[fd] := n.(fileId := fd);
          return fd;
        }
        fd := fd + 1;
      }
      result := -EMFILE;
    }

    /** sys_dup() is SysDupFd(fd, 0, false); fcntl(F_DUPFD) and F_DUPFD_CLOEXEC are the others. */
    method SysDupFd(fd: int, offset: int, closeExec: bool, o: Dup) returns (result: int)
      requires Valid() && (o.DupFailed? ==> o.errno > 0)
      modifies this, nodes
      ensures Done(View(), result) == DupFd(old(View()), fd, offset, closeExec, o)
    {
      if fd < 0 || fd >= OPEN_MAX || offset < 0 || offset >= OPEN_MAX {
        return -EBADF;
      }
      var ok, r := VfsDupFd(nodes[fd], closeExec, nodes[fd], o);
      if !ok {
        return if CanDup(nodes[fd]) then -o.errno else -EFTYPE;
      }
      result := FdPosix(r, offset);
    }

    method SysDup2(oldfd: int, newfd: int, o: Dup, c: Shut) returns (result: int)
      requires Valid() && (o.DupFailed? ==> o.errno > 0) && c.Valid()
      modifies this, nodes
      ensures Done(View(), result) == Dup2(old(View()), oldfd, newfd, o, c)
    {
      if oldfd < 0 || oldfd >= OPEN_MAX || newfd < 0 || newfd >= OPEN_MAX {
        return -EBADF;
      }
      var current := nodes[newfd];
      if nodes[oldfd].handle == 0 {
        return -EBADF;
      } else if oldfd == newfd {
        return newfd;
      }
      var ok, r := VfsDupFd(nodes[oldfd], false, nodes[newfd], o);
      nodes[newfd] := r;
      if !ok {
        return if CanDup(nodes[oldfd]) then -o.errno else -EFTYPE;
      }
      var _, closed := VfsClose(current, c);
      result := if closed == 0 then newfd else closed;
    }

    method SysClose(fd: int, c: Shut) returns (result: int)
      requires Valid()
      modifies this, nodes
      ensures Done(View(), result) == Close(old(View()), fd, c)
    {
      if fd < 0 || fd >= OPEN_MAX {
        return -EBADF;
      }
      var r, closed := VfsClose(nodes[fd], c);
      nodes[fd] := r;
      result := closed;
    }

    method SysCloseFrom(fd: int, c: nat -> Shut) returns (result: int)
      requires Valid()
      modifies this, nodes
      ensures !InRange(fd) ==> View() == old(View()) && result == -EBADF
      ensures InRange(fd) ==> View() == CloseFrom(old(View()), fd, c) && result == 0
    {
      if fd < 0 || fd >= OPEN_MAX {
        return -EBADF;
      }
      var offset := fd;
      while offset < OPEN_MAX
        invariant fd <= offset <= OPEN_MAX
        invariant CloseFrom(View(), offset, c) == CloseFrom(old(View()), fd, c)
      {
        if nodes[offset].IsOpen() {
          var _ := SysClose(offset, c(offset));
        }
        offset := offset + 1;
      }
      result := 0;
    }

    /** open(), socket(), accept() and the like: a node from a device goes to the lowest slot. */
    method SysOpen(n: Vnode) returns (result: int)
      requires Valid()
      modifies this, nodes
      ensures Done(View(), result) == Open(old(View()), n)
    {
      live, made := live + {n.handle}, made + {n.handle};
      result := FdPosix(n, 0);
    }

    /** sys_pipe(); `given` tells whether there is a place for the descriptors.  Whether the two
        ends got a descriptor is not looked at. */
    method SysPipe(given: bool, o: Pipe) returns (result: int, fds: seq<int>)
      requires Valid()
      modifies this, nodes
      ensures Piped(View(), result, fds) == MakePipe(old(View()), given, o)
    {
      result, fds := 0, [];
      if !given {
        result := -EFAULT;
      } else if o.PipeFailed? {
        result := -o.errno;
      } else {
        var fd0 := SysOpen(o.reader);
        var fd1 := SysOpen(o.writer);
        fds := [fd0, fd1];
      }
    }
  }
}
