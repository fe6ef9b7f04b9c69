/** What every run of descriptor calls keeps: no handle is lost, shared or closed twice. */
module DescriptorRuns {
  import opened Common
  import opened Descriptors

  function SlotHandles(nodes: seq<Vnode>): set<Handle> {
    set i | 0 <= i < |nodes| && nodes[i].handle != 0 :: nodes[i].handle
  }

  function ToSet(s: seq<Handle>): set<Handle> {
    set h | h in s
  }

  ghost predicate Distinct(s: seq<Handle>) {
    forall i, j :: 0 <= i < j < |s| ==> s[i] != s[j]
  }

  /** A slot knows its number, is open exactly when it has a handle, and is otherwise clear. */
  predicate SlotOk(n: Vnode, i: nat) {
    n.fileId == i && (n.IsOpen() <==> n.handle != 0) && (!n.IsOpen() ==> n == ZERO_NODE.(fileId := i))
  }

  ghost predicate NoSharing(nodes: seq<Vnode>) {
    forall i, j :: 0 <= i < j < |nodes| && nodes[i].handle != 0 ==> nodes[i].handle != nodes[j].handle
  }

  /** Every handle ever made was closed once or is live, and every live one belongs to one
      open slot or is pending. */
  ghost predicate Accounted(st: State, pending: set<Handle>) {
    && |st.nodes| == OPEN_MAX
    && (forall i :: 0 <= i < OPEN_MAX ==> SlotOk(st.nodes[i], i))
    && NoSharing(st.nodes)
    && st.live == SlotHandles(st.nodes) + pending && SlotHandles(st.nodes) !! pending
    && Distinct(st.closed) && ToSet(st.closed) !! st.live
    && st.made == st.live + ToSet(st.closed) && 0 !in st.made
  }

  /** The handle of a node, if it has one. */
  function HandleOf(n: Vnode): set<Handle> {
    if n.handle == 0 then {} else {n.handle}
  }

  /** The invariant between calls. */
  ghost predicate Inv(st: State) {
    Accounted(st, {})
  }

  lemma EmptyInv()
    ensures Inv(Empty())
  {
  }

  // ---------- the three things that happen to a handle ----------

  lemma Made(st: State, h: Handle, pending: set<Handle>)
    requires Accounted(st, pending) && h != 0 && h !in st.made
    ensures Accounted(MakeHandle(st, h), pending + {h})
  {
  }

  lemma Closed(st: State, h: Handle, pending: set<Handle>)
    requires Accounted(st, pending) && h in pending
    ensures Accounted(CloseHandle(st, h), pending - {h})
  {
    var r := CloseHandle(st, h);
    assert ToSet(r.closed) == ToSet(st.closed) + {h};
  }

  lemma ReplacedHandles(nodes: seq<Vnode>, i: nat, n: Vnode)
    requires i < |nodes| && NoSharing(nodes)
    ensures SlotHandles(nodes[i := n]) == SlotHandles(nodes) - HandleOf(nodes[i]) + HandleOf(n)
  {
    var after := nodes[i := n];
    forall h
      ensures h in SlotHandles(after) <==> h in SlotHandles(nodes) - HandleOf(nodes[i]) + HandleOf(n)
    {
      if h in SlotHandles(after) {
        var j :| 0 <= j < |after| && after[j].handle == h && h != 0;
        assert j != i ==> nodes[j].handle == h;
      }
      if h in SlotHandles(nodes) && h != nodes[i].handle {
        var j :| 0 <= j < |nodes| && nodes[j].handle == h && h != 0;
        assert after[j].handle == h;
      }
      assert after[i].handle == n.handle;
    }
  }

  /** A node with a pending handle, or a closed one, replaces what was in a slot. */
  lemma Replaced(st: State, i: nat, n: Vnode, pending: set<Handle>)
    requires Accounted(st, pending) && i < OPEN_MAX && SlotOk(n, i)
    requires n.handle != 0 ==> n.handle in pending
    ensures Accounted(st.(nodes := st.nodes[i := n]), pending - {n.handle} + HandleOf(st.nodes[i]))
  {
    ReplacedHandles(st.nodes, i, n);
    assert n.handle != 0 ==> forall j :: 0 <= j < OPEN_MAX ==> st.nodes[j].handle != n.handle by {
      forall j | n.handle != 0 && 0 <= j < OPEN_MAX ensures st.nodes[j].handle != n.handle {
        assert st.nodes[j].handle != 0 ==> st.nodes[j].handle in SlotHandles(st.nodes);
      }
    }
    assert 0 !in pending;
  }

  // ---------- the calls ----------

  /** A node that a device hands out with a new handle. */
  predicate IsNew(st: State, n: Vnode) {
    n.handle != 0 && n.handle !in st.made && n.IsOpen()
  }

  predicate HasRoom(nodes: seq<Vnode>, from: nat)
    requires from <= |nodes|
  {
    Lowest(nodes, from) < |nodes|
  }

  /** Installing a node with a pending handle is accounted for exactly when there is room;
      otherwise the handle stays behind with no owner. */
  lemma Installed(st: State, n: Vnode, offset: nat, pending: set<Handle>)
    requires Accounted(st, pending + {n.handle}) && n.handle !in pending && offset <= OPEN_MAX
    requires n.handle != 0 && n.IsOpen()
    ensures Accounted(Install(st, n, offset).st, if HasRoom(st.nodes, offset) then pending else pending + {n.handle})
  {
    if HasRoom(st.nodes, offset) {
      var fd := Lowest(st.nodes, offset);
      assert SlotOk(st.nodes[fd], fd);
      Replaced(st, fd, n.(fileId := fd), pending + {n.handle});
      assert pending + {n.handle} - {n.handle} + {} == pending;
    }
  }

  lemma OpenKeeps(st: State, n: Vnode, pending: set<Handle>)
    requires Accounted(st, pending) && IsNew(st, n)
    ensures Accounted(Open(st, n).st, if HasRoom(st.nodes, 0) then pending else pending + {n.handle})
  {
    Made(st, n.handle, pending);
    Installed(MakeHandle(st, n.handle), n, 0, pending);
  }

  /** dup() and fcntl(F_DUPFD) of an open descriptor keep the invariant if and only if the
      table has room: otherwise the duplicate is left without an owner. */
  lemma DupKeeps(st: State, fd: int, offset: int, closeExec: bool, o: Dup)
    requires Inv(st) && InRange(fd) && InRange(offset) && Dups(st.nodes[fd], o)
    requires o.handle != 0 && o.handle !in st.made
    ensures Inv(DupFd(st, fd, offset, closeExec, o).st) <==> HasRoom(st.nodes, offset)
  {
    var n := st.nodes[fd].(handle := o.handle, closeExec := closeExec);
    assert SlotOk(st.nodes[fd], fd);
    Made(st, o.handle, {});
    Installed(MakeHandle(st, o.handle), n, offset, {});
    var r := DupFd(st, fd, offset, closeExec, o).st;
    if !HasRoom(st.nodes, offset) {
      assert o.handle in r.live && o.handle !in SlotHandles(r.nodes);
    }
  }

  /** dup2() between two slots, up to the handle that the new slot held: the slot holds a copy
      with the new handle, and the old handle is pending. */
  lemma Dup2Replaces(st: State, oldfd: int, newfd: int, h: Handle)
    requires Inv(st) && InRange(oldfd) && InRange(newfd) && st.nodes[oldfd].IsOpen()
    requires h != 0 && h !in st.made
    ensures var copy := st.nodes[oldfd].(closeExec := false, fileId := st.nodes[newfd].fileId, handle := h);
            Accounted(MakeHandle(st.(nodes := st.nodes[newfd := copy]), h), HandleOf(st.nodes[newfd]))
  {
    assert SlotOk(st.nodes[oldfd], oldfd) && SlotOk(st.nodes[newfd], newfd);
    var copy := st.nodes[oldfd].(closeExec := false, fileId := st.nodes[newfd].fileId, handle := h);
    Made(st, h, {});
    Replaced(MakeHandle(st, h), newfd, copy, {h});
    assert {} + {h} == {h} && {h} - {h} + HandleOf(st.nodes[newfd]) == HandleOf(st.nodes[newfd]);
  }

  /** The handle of a node that left the table is accounted for if and only if it is gone. */
  lemma PendingClosed(st: State, n: Vnode, c: Shut)
    requires Accounted(st, HandleOf(n))
    ensures Inv(CloseNode(st, n, c).st) <==> n.handle == 0 || c.Ends()
  {
    if n.handle != 0 {
      if c.Ends() {
        Closed(st, n.handle, HandleOf(n));
        assert HandleOf(n) - {n.handle} == {};
      } else {
        assert n.handle in st.live && n.handle !in SlotHandles(st.nodes);
      }
    }
  }

  /** dup2() between two slots keeps the invariant if and only if the duplication succeeds and
      the replaced handle is gone: otherwise the new slot is left with the handle of the old
      one, or the replaced handle has no owner. */
  lemma Dup2Keeps(st: State, oldfd: int, newfd: int, o: Dup, c: Shut)
    requires Inv(st) && InRange(oldfd) && InRange(newfd) && oldfd != newfd && st.nodes[oldfd].IsOpen()
    requires o.DupOk? ==> o.handle != 0 && o.handle !in st.made
    requires (o.DupFailed? ==> o.errno > 0) && c.Valid()
    ensures Inv(Dup2(st, oldfd, newfd, o, c).st) <==>
            Dups(st.nodes[oldfd], o) && (st.nodes[newfd].IsOpen() ==> c.Ends())
  {
    var node, current := st.nodes[oldfd], st.nodes[newfd];
    assert SlotOk(node, oldfd) && SlotOk(current, newfd);
    var r := Dup2(st, oldfd, newfd, o, c).st;
    if Dups(node, o) {
      Dup2Replaces(st, oldfd, newfd, o.handle);
      var copy := node.(closeExec := false, fileId := current.fileId, handle := o.handle);
      PendingClosed(MakeHandle(st.(nodes := st.nodes[newfd := copy]), o.handle), current, c);
    } else {
      assert r.nodes[oldfd].handle == r.nodes[newfd].handle == node.handle;
    }
  }

  /** The device cleared the node exactly if the handle is gone. */
  predicate Agrees(c: Shut) {
    c.Clears() == c.Ends()
  }

  /** close() keeps the invariant if and only if the slot was free, or its device cleared it
      exactly if the handle is gone; then one handle is closed, or none. */
  lemma CloseKeeps(st: State, fd: int, c: Shut)
    requires Inv(st)
    ensures Inv(Close(st, fd, c).st) <==> !InRange(fd) || !st.nodes[fd].IsOpen() || Agrees(c)
    ensures InRange(fd) ==>
              var shuts := st.nodes[fd].IsOpen() && c.Ends();
              && Close(st, fd, c).st.closed == st.closed + (if shuts then [st.nodes[fd].handle] else [])
              && Close(st, fd, c).st.nodes ==
                 (if st.nodes[fd].IsOpen() && c.Clears() then st.nodes[fd := ZERO_NODE.(fileId := fd)] else st.nodes)
  {
    if InRange(fd) {
      var n := st.nodes[fd];
      assert SlotOk(n, fd) && st.nodes[fd := n] == st.nodes && st.(nodes := st.nodes) == st;
      if n.handle != 0 && c.Clears() {
        Replaced(st, fd, ClosedNode(n, c), {});
        assert {} - {ClosedNode(n, c).handle} + HandleOf(n) == HandleOf(n);
        PendingClosed(st.(nodes := st.nodes[fd := ClosedNode(n, c)]), n, c);
      } else if n.handle != 0 && c.Ends() {
        assert n.handle in SlotHandles(st.nodes) && n.handle !in Close(st, fd, c).st.live;
      }
    }
  }

  /** What close() answers when the device does its part: 0 for an open descriptor, but also
      for one in range that is not open, where EBADF is due. */
  lemma CloseAnswers(st: State, fd: int)
    requires Inv(st)
    ensures Close(st, fd, Shuts).result == (if InRange(fd) && st.nodes[fd].IsOpen() then 0 else -EBADF) <==>
            !InRange(fd) || st.nodes[fd].IsOpen()
  {
    if InRange(fd) {
      assert SlotOk(st.nodes[fd], fd);
    }
  }

  /** What dup() and F_DUPFD answer for a descriptor that is not open: EFTYPE, where EBADF is
      due, whenever the numbers are in range. */
  lemma DupOfClosedAnswers(st: State, fd: int, offset: int, closeExec: bool, o: Dup)
    requires Inv(st) && (o.DupFailed? ==> o.errno > 0) && !(InRange(fd) && st.nodes[fd].IsOpen())
    ensures DupFd(st, fd, offset, closeExec, o).result == -EBADF <==> !InRange(fd) || !InRange(offset)
    ensures InRange(fd) && InRange(offset) ==> DupFd(st, fd, offset, closeExec, o).result == -EFTYPE
  {
    if InRange(fd) {
      assert SlotOk(st.nodes[fd], fd);
    }
  }

  /** The handles of the open slots from `fd` on, in order. */
  function OpenHandles(nodes: seq<Vnode>, fd: nat): seq<Handle>
    requires fd <= |nodes|
    decreases |nodes| - fd
  {
    if fd == |nodes| then []
    else (if nodes[fd].IsOpen() then [nodes[fd].handle] else []) + OpenHandles(nodes, fd + 1)
  }

  lemma {:induction false} OpenHandlesAgree(a: seq<Vnode>, b: seq<Vnode>, fd: nat)
    requires fd <= |a| == |b| && forall i :: fd <= i < |a| ==> a[i] == b[i]
    ensures OpenHandles(a, fd) == OpenHandles(b, fd)
    decreases |a| - fd
  {
    if fd < |a| {
      OpenHandlesAgree(a, b, fd + 1);
    }
  }

  /** The state after the first slot of closefrom(fd). */
  function CloseFirst(st: State, fd: nat, c: nat -> Shut): (r: State)
    requires |st.nodes| == OPEN_MAX && fd < OPEN_MAX
    ensures |r.nodes| == OPEN_MAX && CloseFrom(st, fd, c) == CloseFrom(r, fd + 1, c)
  {
    if st.nodes[fd].IsOpen() then Close(st, fd, c(fd)).st else st
  }

  /** Every device that closefrom(fd) asks cleared its node exactly if the handle is gone. */
  ghost predicate AllAgree(nodes: seq<Vnode>, fd: nat, c: nat -> Shut) {
    forall i :: fd <= i < |nodes| && nodes[i].IsOpen() ==> Agrees(c(i))
  }

  predicate AllEnd(nodes: seq<Vnode>, fd: nat, c: nat -> Shut) {
    forall i :: fd <= i < |nodes| && nodes[i].IsOpen() ==> c(i).Shuts?
  }

  lemma CloseFirstKeeps(st: State, fd: nat, c: nat -> Shut)
    requires Inv(st) && fd < OPEN_MAX && AllAgree(st.nodes, fd, c)
    ensures var r := CloseFirst(st, fd, c);
            && Inv(r) && (r.nodes[fd].IsOpen() <==> st.nodes[fd].IsOpen() && !c(fd).Clears())
            && (forall i :: 0 <= i < OPEN_MAX && i != fd ==> r.nodes[i] == st.nodes[i])
            && r.closed == st.closed + (if st.nodes[fd].IsOpen() && c(fd).Ends() then [st.nodes[fd].handle] else [])
  {
    CloseKeeps(st, fd, c(fd));
  }

  lemma {:induction false} CloseFromInv(st: State, fd: nat, c: nat -> Shut)
    requires Inv(st) && fd <= OPEN_MAX && AllAgree(st.nodes, fd, c)
    ensures Inv(CloseFrom(st, fd, c))
    decreases OPEN_MAX - fd
  {
    if fd < OPEN_MAX {
      CloseFirstKeeps(st, fd, c);
      CloseFromInv(CloseFirst(st, fd, c), fd + 1, c);
    }
  }

  /** closefrom(fd) leaves a slot open from `fd` on if and only if its device did not clear it,
      and touches none below. */
  lemma {:induction false} CloseFromClears(st: State, fd: nat, c: nat -> Shut, i: nat)
    requires Inv(st) && fd <= OPEN_MAX && i < OPEN_MAX && AllAgree(st.nodes, fd, c)
    ensures i < fd ==> CloseFrom(st, fd, c).nodes[i] == st.nodes[i]
    ensures i >= fd ==> (CloseFrom(st, fd, c).nodes[i].IsOpen() <==> st.nodes[i].IsOpen() && !c(i).Clears())
    decreases OPEN_MAX - fd
  {
    if fd < OPEN_MAX {
      CloseFirstKeeps(st, fd, c);
      CloseFromClears(CloseFirst(st, fd, c), fd + 1, c, i);
    }
  }

  lemma Associates(a: seq<Handle>, b: seq<Handle>, c: seq<Handle>)
    ensures a + b + c == a + (b + c)
  {
  }

  /** closefrom(fd) closes the handles of the open slots, each once and in order. */
  lemma {:induction false} CloseFromCloses(st: State, fd: nat, c: nat -> Shut)
    requires Inv(st) && fd <= OPEN_MAX && AllEnd(st.nodes, fd, c)
    ensures CloseFrom(st, fd, c).closed == st.closed + OpenHandles(st.nodes, fd)
    decreases OPEN_MAX - fd
  {
    if fd < OPEN_MAX {
      var next := CloseFirst(st, fd, c);
      CloseFirstKeeps(st, fd, c);
      CloseFromCloses(next, fd + 1, c);
      OpenHandlesAgree(st.nodes, next.nodes, fd + 1);
      var first := if st.nodes[fd].IsOpen() then [st.nodes[fd].handle] else [];
      Associates(st.closed, first, OpenHandles(st.nodes, fd + 1));
    }
  }

  /** dup2() onto another slot closes what was there, once, and nothing else. */
  lemma Dup2ClosesOnce(st: State, oldfd: int, newfd: int, o: Dup)
    requires Inv(st) && InRange(oldfd) && InRange(newfd) && oldfd != newfd
    requires Dups(st.nodes[oldfd], o) && st.nodes[oldfd].IsOpen()
    ensures var r := Dup2(st, oldfd, newfd, o, Shuts);
            && r.result == newfd
            && r.st.closed == st.closed + (if st.nodes[newfd].IsOpen() then [st.nodes[newfd].handle] else [])
            && r.st.nodes == st.nodes[newfd := st.nodes[oldfd].(handle := o.handle, closeExec := false, fileId := newfd)]
  {
    assert SlotOk(st.nodes[newfd], newfd) && SlotOk(st.nodes[oldfd], oldfd);
  }

  /** A new descriptor is the lowest free one from the offset on, and no other slot changes. */
  lemma LowestIsGiven(st: State, n: Vnode, offset: nat)
    requires |st.nodes| == OPEN_MAX && offset <= OPEN_MAX && HasRoom(st.nodes, offset)
    ensures var d := Install(st, n, offset);
            && offset <= d.result < OPEN_MAX
            && !st.nodes[d.result].IsOpen()
            && (forall i :: offset <= i < d.result ==> st.nodes[i].IsOpen())
            && d.st.nodes == st.nodes[d.result := n.(fileId := d.result)]
  {
  }

  // ---------- runs ----------

  datatype Op =
    | OpOpen(node: Vnode)
    | OpPipe(given: bool, pipe: Pipe)
    | OpDup(fd: int, offset: int, closeExec: bool, o: Dup)
    | OpDup2(oldfd: int, newfd: int, o: Dup, c: Shut)
    | OpClose(fd: int, c: Shut)
    | OpCloseFrom(fd: int, cs: nat -> Shut)

  predicate DupValid(o: Dup) {
    o.DupFailed? ==> o.errno > 0
  }

  function Step(st: State, op: Op): (r: State)
    requires |st.nodes| == OPEN_MAX
    requires op.OpDup? || op.OpDup2? ==> DupValid(op.o)
    requires op.OpDup2? ==> op.c.Valid()
    ensures |r.nodes| == OPEN_MAX
  {
    match op
    case OpOpen(n) => Open(st, n).st
    case OpPipe(given, o) => MakePipe(st, given, o).st
    case OpDup(fd, offset, closeExec, o) => DupFd(st, fd, offset, closeExec, o).st
    case OpDup2(oldfd, newfd, o, c) => Dup2(st, oldfd, newfd, o, c).st
    case OpClose(fd, c) => Close(st, fd, c).st
    case OpCloseFrom(fd, cs) => if InRange(fd) then CloseFrom(st, fd, cs) else st
  }

  predicate IsFresh(st: State, o: Dup) {
    o.DupOk? && o.handle != 0 && o.handle !in st.made
  }

  /** The devices do their part and the table has room. A call with a descriptor that is
      out of range or not open needs nothing. */
  ghost predicate Succeeds(st: State, op: Op)
    requires |st.nodes| == OPEN_MAX
  {
    match op
    case OpOpen(n) => IsNew(st, n) && HasRoom(st.nodes, 0)
    case OpPipe(given, o) =>
      given && o.PipeMade? ==>
        && IsNew(st, o.reader) && IsNew(st, o.writer) && o.reader.handle != o.writer.handle
        && HasRoom(st.nodes, 0) && HasRoom(Open(st, o.reader).st.nodes, 0)
    case OpDup(fd, offset, closeExec, o) =>
      && DupValid(o)
      && (InRange(fd) && InRange(offset) && CanDup(st.nodes[fd]) ==> IsFresh(st, o) && HasRoom(st.nodes, offset))
    case OpDup2(oldfd, newfd, o, c) =>
      && DupValid(o) && c.Valid()
      && (InRange(oldfd) && InRange(newfd) && oldfd != newfd && st.nodes[oldfd].IsOpen() ==>
            CanDup(st.nodes[oldfd]) && IsFresh(st, o) && (st.nodes[newfd].IsOpen() ==> c.Ends()))
    case OpClose(fd, c) => InRange(fd) && st.nodes[fd].IsOpen() ==> Agrees(c)
    case OpCloseFrom(fd, cs) => InRange(fd) ==> AllAgree(st.nodes, fd, cs)
  }

  lemma StepKeeps(st: State, op: Op)
    requires Inv(st) && Succeeds(st, op)
    ensures Inv(Step(st, op))
  {
    match op
    case OpOpen(n) => OpenKeeps(st, n, {});
    case OpPipe(given, o) =>
      if given && o.PipeMade? {
        OpenKeeps(st, o.reader, {});
        OpenKeeps(Open(st, o.reader).st, o.writer, {});
      }
    case OpDup(fd, offset, closeExec, o) =>
      if InRange(fd) && InRange(offset) && CanDup(st.nodes[fd]) {
        DupKeeps(st, fd, offset, closeExec, o);
      }
    case OpDup2(oldfd, newfd, o, c) =>
      if InRange(oldfd) && InRange(newfd) && oldfd != newfd {
        assert SlotOk(st.nodes[oldfd], oldfd);
        if st.nodes[oldfd].IsOpen() {
          Dup2Keeps(st, oldfd, newfd, o, c);
        }
      }
    case OpClose(fd, c) => CloseKeeps(st, fd, c);
    case OpCloseFrom(fd, cs) =>
      if InRange(fd) {
        CloseFromInv(st, fd, cs);
      }
  }

  /** A run in which every call succeeds. */
  ghost predicate AllSucceed(st: State, ops: seq<Op>)
    requires |st.nodes| == OPEN_MAX
    decreases |ops|
  {
    ops == [] || (Succeeds(st, ops[0]) && AllSucceed(Step(st, ops[0]), ops[1..]))
  }

  ghost function Run(st: State, ops: seq<Op>): (r: State)
    requires |st.nodes| == OPEN_MAX && AllSucceed(st, ops)
    ensures |r.nodes| == OPEN_MAX
    decreases |ops|
  {
    if ops == [] then st else Run(Step(st, ops[0]), ops[1..])
  }

  lemma {:induction false} RunKeeps(st: State, ops: seq<Op>)
    requires Inv(st) && AllSucceed(st, ops)
    ensures Inv(Run(st, ops))
    decreases |ops|
  {
    if ops != [] {
      StepKeeps(st, ops[0]);
      RunKeeps(Step(st, ops[0]), ops[1..]);
    }
  }

  lemma AllClosed(st: State, c: nat -> Shut)
    requires Inv(st) && AllEnd(st.nodes, 0, c)
    ensures SlotHandles(CloseFrom(st, 0, c).nodes) == {}
  {
    CloseFromInv(st, 0, c);
    var r := CloseFrom(st, 0, c);
    forall i: nat | i < OPEN_MAX ensures r.nodes[i].handle == 0 {
      CloseFromClears(st, 0, c, i);
      assert SlotOk(r.nodes[i], i);
    }
  }

  /** Closing makes no handle. */
  lemma {:induction false} MadeGrows(st: State, fd: nat, c: nat -> Shut)
    requires |st.nodes| == OPEN_MAX && fd <= OPEN_MAX
    ensures CloseFrom(st, fd, c).made == st.made
    decreases OPEN_MAX - fd
  {
    if fd < OPEN_MAX {
      MadeGrows(if st.nodes[fd].IsOpen() then Close(st, fd, c(fd)).st else st, fd + 1, c);
    }
  }

  /** Over every such run from the empty table: every handle that was ever made is either
      in exactly one open slot or was closed exactly once, and closefrom(0) at the end
      closes all that is left if the devices do. */
  lemma NothingLeaks(ops: seq<Op>, c: nat -> Shut, h: Handle)
    requires AllSucceed(Empty(), ops) && AllEnd(Run(Empty(), ops).nodes, 0, c)
    ensures var st := Run(Empty(), ops);
            && (h in st.made <==> h in SlotHandles(st.nodes) || h in st.closed)
            && !(h in SlotHandles(st.nodes) && h in st.closed)
            && CloseFrom(st, 0, c).live == {}
            && (h in st.made <==> h in CloseFrom(st, 0, c).closed)
            && Distinct(CloseFrom(st, 0, c).closed)
  {
    EmptyInv();
    RunKeeps(Empty(), ops);
    var st := Run(Empty(), ops);
    CloseFromInv(st, 0, c);
    AllClosed(st, c);
    MadeGrows(st, 0, c);
    var r := CloseFrom(st, 0, c);
    assert h in ToSet(st.closed) <==> h in st.closed;
    assert h in ToSet(r.closed) <==> h in r.closed;
  }

  /** Once the lowest slot is taken, the lowest free one is the next. */
  lemma LowestAgain(nodes: seq<Vnode>, n: Vnode)
    requires HasRoom(nodes, 0) && n.IsOpen()
    ensures Lowest(nodes[Lowest(nodes, 0) := n], 0) == Lowest(nodes, Lowest(nodes, 0) + 1)
  {
    var fd := Lowest(nodes, 0);
    var after := nodes[fd := n];
    var x, y := Lowest(after, 0), Lowest(nodes, fd + 1);
    assert x < |nodes| ==> !after[x].IsOpen();
    assert y < |nodes| ==> !nodes[y].IsOpen() && !after[y].IsOpen();
  }

  /** pipe() answers 0 and leaves one of its ends without a descriptor if and only if the pipe
      was made and there was no room for both. */
  lemma PipeAnswers(st: State, given: bool, o: Pipe)
    requires |st.nodes| == OPEN_MAX && (o.PipeFailed? ==> o.errno > 0) && (o.PipeMade? ==> o.reader.IsOpen())
    ensures var d := MakePipe(st, given, o);
            d.result == 0 && (exists i :: 0 <= i < |d.fds| && d.fds[i] < 0) <==>
            given && o.PipeMade? && !(HasRoom(st.nodes, 0) && HasRoom(st.nodes, Lowest(st.nodes, 0) + 1))
  {
    if given && o.PipeMade? {
      var d := MakePipe(st, given, o);
      assert d.fds[0] == Open(st, o.reader).result && d.fds[1] == Open(Open(st, o.reader).st, o.writer).result;
      if HasRoom(st.nodes, 0) {
        LowestAgain(st.nodes, o.reader.(fileId := Lowest(st.nodes, 0)));
      }
    }
  }

  // ---------- what the calls give ----------

  /** pipe() with room for both ends gives the lowest two free descriptors in order: the first
      is the reading end, the second the writing end, and no other slot changes. */
  lemma PipeGives(st: State, n0: Vnode, n1: Vnode)
    requires |st.nodes| == OPEN_MAX && n0.IsOpen()
    requires HasRoom(st.nodes, 0) && HasRoom(st.nodes, Lowest(st.nodes, 0) + 1)
    ensures var d := MakePipe(st, true, PipeMade(n0, n1));
            && d.result == 0 && |d.fds| == 2
            && 0 <= d.fds[0] < d.fds[1] < 64
            && d.st.nodes == st.nodes[d.fds[0] := n0.(fileId := d.fds[0])][d.fds[1] := n1.(fileId := d.fds[1])]
            && !st.nodes[d.fds[0]].IsOpen() && !st.nodes[d.fds[1]].IsOpen()
            && (forall i :: 0 <= i < d.fds[1] && i != d.fds[0] ==> st.nodes[i].IsOpen())
            && d.st.made == st.made + {n0.handle, n1.handle} && d.st.live == st.live + {n0.handle, n1.handle}
  {
    var fd0 := Lowest(st.nodes, 0);
    LowestAgain(st.nodes, n0.(fileId := fd0));
    var s1 := Open(st, n0).st;
    assert Open(st, n0).result == fd0 && s1.nodes == st.nodes[fd0 := n0.(fileId := fd0)];
    assert Open(s1, n1).result == Lowest(st.nodes, fd0 + 1);
  }

  /** What pipe() answers when it fails, and that it then changes nothing. */
  lemma PipeFails(st: State, given: bool, o: Pipe)
    requires |st.nodes| == OPEN_MAX && (o.PipeFailed? ==> o.errno > 0)
    ensures var d := MakePipe(st, given, o);
            d.result != 0 <==> !given || o.PipeFailed?
    ensures var d := MakePipe(st, given, o);
            d.result != 0 ==> d.st == st && d.fds == [] && d.result == if given then -o.errno else -14
  {
  }

  /** dup() and F_DUPFD with room give the lowest free descriptor from the offset on: a copy of
      the node with the duplicated handle and the flag asked for, while the original stays. */
  lemma DupGives(st: State, fd: nat, offset: nat, closeExec: bool, h: Handle)
    requires |st.nodes| == OPEN_MAX && fd < OPEN_MAX && offset < OPEN_MAX && CanDup(st.nodes[fd]) && HasRoom(st.nodes, offset)
    ensures var d := DupFd(st, fd, offset, closeExec, DupOk(h));
            && offset <= d.result < 64 && !st.nodes[d.result].IsOpen()
            && (forall i :: offset <= i < d.result ==> st.nodes[i].IsOpen())
            && d.st.nodes == st.nodes[d.result := st.nodes[fd].(handle := h, closeExec := closeExec, fileId := d.result)]
            && d.st.made == st.made + {h} && d.st.live == st.live + {h} && d.st.closed == st.closed
  {
    LowestIsGiven(MakeHandle(st, h), st.nodes[fd].(handle := h, closeExec := closeExec), offset);
  }

  /** When dup() and F_DUPFD fail, what they answer, and that the table stays. */
  lemma DupFails(st: State, fd: int, offset: int, closeExec: bool, o: Dup)
    requires |st.nodes| == OPEN_MAX && (o.DupFailed? ==> o.errno > 0)
    ensures var d := DupFd(st, fd, offset, closeExec, o);
            && ((fd < 0 || fd >= 64 || offset < 0 || offset >= 64) ==> d == Done(st, -9))
            && (0 <= fd < 64 && 0 <= offset < 64 && CanDup(st.nodes[fd]) && o.DupFailed? ==> d == Done(st, -o.errno))
            && (0 <= fd < 64 && 0 <= offset < 64 && CanDup(st.nodes[fd]) && o.DupOk? && !HasRoom(st.nodes, offset) ==>
                  d.result == -24 && d.st.nodes == st.nodes)
  {
  }

  /** The kinds of node that can be duplicated. */
  lemma DuplicableKinds(n: Vnode)
    ensures CanDup(n) <==> n.fsType in {Disk, Char, Pipe, Mailslot, Pdo, WinSock}
  {
  }

  /** dup2() that goes wrong: EBADF before anything happens; afterwards the slot has been
      overwritten by a copy with the old handle. dup2() of a descriptor onto itself does nothing. */
  lemma Dup2Fails(st: State, oldfd: int, newfd: int, o: Dup, c: Shut)
    requires |st.nodes| == OPEN_MAX && (o.DupFailed? ==> o.errno > 0) && c.Valid()
    ensures var d := Dup2(st, oldfd, newfd, o, c);
            && ((oldfd < 0 || oldfd >= 64 || newfd < 0 || newfd >= 64) ==> d == Done(st, -9))
            && (0 <= oldfd < 64 && 0 <= newfd < 64 && st.nodes[oldfd].handle == 0 ==> d == Done(st, -9))
            && (0 <= oldfd < 64 && oldfd == newfd && st.nodes[oldfd].handle != 0 ==> d == Done(st, newfd))
            && (0 <= oldfd < 64 && 0 <= newfd < 64 && oldfd != newfd && st.nodes[oldfd].handle != 0 && !Dups(st.nodes[oldfd], o) ==>
                  && d.result == (if CanDup(st.nodes[oldfd]) then -o.errno else -79)
                  && d.st == st.(nodes := st.nodes[newfd := st.nodes[oldfd].(closeExec := false, fileId := st.nodes[newfd].fileId)]))
  {
  }

  /** What close() answers for every answer of the device, and what becomes of the handle. */
  lemma CloseGives(st: State, fd: nat, c: Shut)
    requires |st.nodes| == OPEN_MAX && fd < OPEN_MAX && st.nodes[fd].handle != 0
    ensures var d, h := Close(st, fd, c), st.nodes[fd].handle;
            && d.result == (if c.Shuts? then 0 else -c.errno)
            && d.st.closed == (if c.Shuts? || c.gone then st.closed + [h] else st.closed)
            && d.st.live == (if c.Shuts? || c.gone then st.live - {h} else st.live)
            && d.st.nodes[fd].fileId == st.nodes[fd].fileId
            && (d.st.nodes[fd].IsOpen() <==> st.nodes[fd].IsOpen() && c.Fails? && !c.cleared)
            && (forall i :: 0 <= i < OPEN_MAX && i != fd ==> d.st.nodes[i] == st.nodes[i])
  {
  }

  /** The empty table, and what open() finds in it. */
  lemma FirstOpen(n: Vnode)
    ensures |Empty().nodes| == 64 && forall i :: 0 <= i < 64 ==> Empty().nodes[i] == Vnode(Unknown, i, 0, 0, false)
    ensures Open(Empty(), n).result == 0 && Open(Empty(), n).st.nodes[0] == n.(fileId := 0)
    ensures Open(Empty(), n).st.live == {n.handle}
  {
  }

  // ---------- inputs at which the calls fall short ----------

  /** A table without a free slot. */
  function Full(): State {
    var nodes := seq(OPEN_MAX, i requires 0 <= i < OPEN_MAX => Vnode(Disk, i, 1, i + 1, false));
    State(nodes, SlotHandles(nodes), [], SlotHandles(nodes))
  }

  lemma FullInv()
    ensures Inv(Full()) && !HasRoom(Full().nodes, 0)
  {
    var nodes := Full().nodes;
    assert Lowest(nodes, 0) < OPEN_MAX ==> nodes[Lowest(nodes, 0)].IsOpen();
  }

  /** dup(0) with a full table makes a handle that nobody owns. */
  lemma DupLeaks()
    ensures Inv(Full()) && !Inv(DupFd(Full(), 0, 0, false, DupOk(OPEN_MAX + 1)).st)
  {
    FullInv();
    DupKeeps(Full(), 0, 0, false, DupOk(OPEN_MAX + 1));
  }

  /** dup2(0, 1) whose duplication fails leaves two slots with one handle. */
  lemma Dup2Shares()
    ensures Inv(Full()) && !Inv(Dup2(Full(), 0, 1, DupFailed(EMFILE), Shuts).st)
    ensures !NoSharing(Dup2(Full(), 0, 1, DupFailed(EMFILE), Shuts).st.nodes)
  {
    FullInv();
    Dup2Keeps(Full(), 0, 1, DupFailed(EMFILE), Shuts);
    var nodes := Dup2(Full(), 0, 1, DupFailed(EMFILE), Shuts).st.nodes;
    assert nodes[0].handle == nodes[1].handle == 1;
  }

  /** In an empty table, close(0) answers 0 and dup(0) answers EFTYPE. */
  lemma NotOpenAnswers()
    ensures Close(Empty(), 0, Shuts).result == 0
    ensures DupFd(Empty(), 0, 0, false, DupOk(1)).result == -EFTYPE
  {
    EmptyInv();
    DupOfClosedAnswers(Empty(), 0, 0, false, DupOk(1));
  }
}
