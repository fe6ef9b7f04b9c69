/** Signal actions, the signal mask, and suspension (libposix/sys/signal.c, libposix/vfs/vfs_signal.c).

    A run is a tree of calls: while a process is suspended a message may arrive, whose
    handler makes calls of its own, and may suspend the process again.  The functions say
    what a run makes of the state of a process; the methods of Task do it in place. */
module Signals {
  import opened Common

  const NSIG: int := 33
  const EINTR: int := 4
  const EFAULT: int := 14

  const SIGKILL: int := 9
  const SIGURG: int := 16
  const SIGSTOP: int := 17
  const SIGTSTP: int := 18
  const SIGCONT: int := 19
  const SIGCHLD: int := 20
  const SIGTTIN: int := 21
  const SIGTTOU: int := 22
  const SIGIO: int := 23
  const SIGWINCH: int := 28
  const SIGINFO: int := 29

  /** _WSTOPPED */
  const STOPPED: int := 0x7F

  const SIG_BLOCK: int := 1
  const SIG_UNBLOCK: int := 2
  const SIG_SETMASK: int := 3

  type Signal = s: int | 1 <= s < NSIG witness 1

  /** A signal mask, as the set of the signals whose bits are set. */
  type SigSet = set<int>

  const SIGMASK_STOP: SigSet := {SIGSTOP, SIGTSTP, SIGTTIN, SIGTTOU, SIGCONT}
  const SIGMASK_IGNORE: SigSet := {SIGWINCH, SIGCHLD, SIGURG, SIGINFO, SIGIO}
  const UNBLOCKABLE: SigSet := {SIGKILL, SIGSTOP}

  /** sa_handler: the three special values, or a function of the program. */
  datatype Handler = SigDfl | SigErr | SigIgn | Function

  datatype Action = Action(handler: Handler, restart: bool)

  /** The initial action of every signal. */
  const DEFAULT_ACTION := Action(SigDfl, false)

  /** The `act` argument of sigaction: a null pointer, the value 1, or an action. */
  datatype ActArg = Null | One | Given(action: Action)
  {
    function Value(): Action {
      match this
      case Null => DEFAULT_ACTION
      case One => Action(SigIgn, false)
      case Given(a) => a
    }
  }

  /** Task->State, as far as suspension changes it. */
  datatype TaskState = Running | Sleeping

  /** What ends a suspension: WM_QUIT, or a message that raises a signal. */
  datatype Wake = Quit | Message(delivery: Delivery)

  /** A signal that arrives, what its handler does if it is a function of the program, and
      what ends the suspension if its default is to stop. */
  datatype Delivery = Delivery(signum: Signal, body: seq<Op>, resume: Wake)

  /** What a program does, and what happens to it. */
  datatype Op =
    | OpSigaction(signum: int, act: ActArg)
    | OpSigprocmask(how: int, sigs: Option<SigSet>)
    | OpSigsuspend(mask: Option<SigSet>, wake: Wake)
    | OpDeliver(delivery: Delivery)

  /** The signal part of WIN_TASK as a value, with the signals that were delivered so far. */
  datatype Proc = Proc(
    action: seq<Action>, procMask: SigSet, status: int, error: int, state: TaskState,
    /** The process has left through __exit(), which does not return. */
    exited: bool,
    delivered: seq<Signal>)
  {
    /** The actions of the two signals that cannot be caught are the initial ones. */
    predicate Sound() {
      |action| == NSIG && action[SIGKILL] == DEFAULT_ACTION && action[SIGSTOP] == DEFAULT_ACTION
    }

    predicate Runs() {
      Sound() && !exited
    }
  }

  /** A signal whose default action ends the process. */
  predicate Lethal(signum: Signal) {
    signum !in SIGMASK_STOP && signum !in SIGMASK_IGNORE
  }

  /** The mask holds neither of the signals that cannot be blocked. */
  predicate Blockable(mask: SigSet) {
    mask !! UNBLOCKABLE
  }

  /** The mask that sigprocmask(how, set) makes of a mask. */
  function NewMask(how: int, sigs: SigSet, mask: SigSet): SigSet {
    var s := sigs - UNBLOCKABLE;
    if how == SIG_BLOCK then mask + s
    else if how == SIG_UNBLOCK then mask - s
    else if how == SIG_SETMASK then s
    else mask
  }

  predicate Settable(signum: int) {
    0 <= signum < NSIG && signum !in UNBLOCKABLE
  }

  predicate ValidHow(how: int) {
    0 <= how <= SIG_SETMASK
  }

  /** A process as it starts. */
  function Start(): (p: Proc)
    ensures p.Runs() && p.procMask == {} && p.status == p.error == 0 && p.state == Running && p.delivered == []
    ensures forall s :: 0 <= s < 33 ==> p.action[s].handler == SigDfl && !p.action[s].restart
  {
    Proc(seq(NSIG, _ => DEFAULT_ACTION), {}, 0, 0, Running, false, [])
  }

  // ---------- what a run makes of a process ----------

  function Suspend(p: Proc, mask: SigSet, wake: Wake): (r: Proc)
    requires p.Runs()
    ensures r.Sound()
    decreases wake, 3
  {
    var q := p.(procMask := mask, state := Sleeping);
    var w := match wake case Quit => q case Message(d) => Deliver(q, d);
    if w.exited then w else w.(state := Running, procMask := p.procMask)
  }

  function Default(p: Proc, d: Delivery): (r: Proc)
    requires p.Runs()
    ensures r.Sound()
    decreases d, 1
  {
    if d.signum in SIGMASK_STOP then Suspend(p.(status := STOPPED), {}, d.resume)
    else if d.signum !in SIGMASK_IGNORE then p.(status := d.signum, exited := true)
    else p
  }

  function Deliver(p: Proc, d: Delivery): (r: Proc)
    requires p.Runs()
    ensures r.Sound()
    decreases d, 2
  {
    var q := p.(delivered := p.delivered + [d.signum]);
    match p.action[d.signum].handler
    case SigDfl => Default(q, d)
    case SigErr => q.(status := p.error * 0x100 + d.signum)
    case SigIgn => q
    case Function => RunOps(q, d.body)
  }

  function RunOp(p: Proc, op: Op): (r: Proc)
    requires p.Runs()
    ensures r.Sound()
    decreases op, 3
  {
    match op
    case OpSigaction(signum, act) => if Settable(signum) then p.(action := p.action[signum := act.Value()]) else p
    case OpSigprocmask(how, sigs) =>
      if ValidHow(how) && sigs.Some? then p.(procMask := NewMask(how, sigs.value, p.procMask)) else p
    case OpSigsuspend(mask, wake) => if mask.Some? then Suspend(p, mask.value, wake) else p
    case OpDeliver(d) => Deliver(p, d)
  }

  function RunOps(p: Proc, ops: seq<Op>): (r: Proc)
    requires p.Sound()
    ensures r.Sound()
    decreases ops, 0
  {
    if ops == [] || p.exited then p else RunOps(RunOp(p, ops[0]), ops[1..])
  }

  // ---------- the same, in place ----------

  /** The signal part of WIN_TASK. */
  class Task {
    const action: array<Action>
    var procMask: SigSet
    var status: int
    var error: int
    var state: TaskState
    var exited: bool
    ghost var delivered: seq<Signal>

    constructor ()
      ensures fresh(action) && View() == Start()
    {
      action := new Action[NSIG](_ => DEFAULT_ACTION);
      procMask, status, error, state, exited := {}, 0, 0, Running, false;
      delivered := [];
      new;
      assert action[..] == seq(NSIG, _ => DEFAULT_ACTION);
    }

    ghost function View(): Proc
      reads this, action
    {
      Proc(action[..], procMask, status, error, state, exited, delivered)
    }

    /** sys_sigaction(); a null `act` sets the default action, it does not just ask. */
    method SysSigaction(signum: int, act: ActArg) returns (result: int, oldact: Option<Action>)
      requires View().Runs()
      modifies action
      ensures View() == RunOp(old(View()), OpSigaction(signum, act))
      ensures result == if Settable(signum) then 0 else -EINVAL
      ensures oldact == if 0 <= signum < NSIG then Some(old(action[signum])) else None
    {
      result, oldact := 0, None;
      if signum < 0 || signum >= NSIG {
        return -EINVAL, None;
      }
      oldact := Some(action[signum]);
      var tmp := DEFAULT_ACTION;
      match act {
        case Given(a) => tmp := a;
        case Null => tmp := tmp.(handler := SigDfl);
        case One => tmp := tmp.(handler := SigIgn);
      }
      if signum == SIGKILL || signum == SIGSTOP {
        result := -EINVAL;
      } else {
        action[signum] := tmp;
      }
    }

    /** sys_sigprocmask() */
    method SysSigprocmask(how: int, sigs: Option<SigSet>) returns (result: int, oldset: SigSet)
      requires View().Runs()
      modifies this`procMask
      ensures View() == RunOp(old(View()), OpSigprocmask(how, sigs))
      ensures oldset == old(procMask)
      ensures result == if !ValidHow(how) then -EINVAL else if sigs.None? then -EFAULT else 0
    {
      var curset := procMask;
      oldset := curset;
      result := 0;
      if how < 0 || how > SIG_SETMASK {
        result := -EINVAL;
      } else if sigs.None? {
        result := -EFAULT;
      } else {
        var newset := sigs.value - UNBLOCKABLE;
        if how == SIG_BLOCK {
          curset := curset + newset;
        } else if how == SIG_UNBLOCK {
          curset := curset - newset;
        } else if how == SIG_SETMASK {
          curset := newset;
        }
        procMask := curset;
      }
    }

    /** __sigsuspend() and vfs_sigsuspend() */
    method SigSuspend(mask: Option<SigSet>, wake: Wake) returns (result: int)
      requires View().Runs()
      modifies this, action
      ensures View() == RunOp(old(View()), OpSigsuspend(mask, wake))
      ensures !exited ==> result == if mask.None? then -EFAULT else if wake.Quit? then 0 else -EINTR
      decreases wake, 4
    {
      if mask.None? {
        return -EFAULT;
      }
      result := VfsSigsuspend(mask.value, wake);
    }

    /** vfs_sigsuspend(): the mask is replaced while the process sleeps, and restored unless a
        signal ends the process. */
    method VfsSigsuspend(mask: SigSet, wake: Wake) returns (result: int)
      requires View().Runs()
      modifies this, action
      ensures View() == Suspend(old(View()), mask, wake)
      ensures !exited ==> result == if wake.Quit? then 0 else -EINTR
      decreases wake, 3
    {
      var current := procMask;
      procMask := mask;
      state := Sleeping;
      result := 0;
      match wake {
        case Quit =>
        case Message(d) =>
          var _ := SigprocPosix(d);
          if exited {
            return;
          }
          result := -EINTR;
      }
      state := Running;
      procMask := current;
    }

    /** sigproc_default(): stops, ends the process, or does nothing. */
    method SigprocDefault(d: Delivery) returns (result: int)
      requires View().Runs()
      modifies this, action
      ensures View() == Default(old(View()), d)
      ensures !exited ==> result == -1
      decreases d, 1
    {
      if d.signum in SIGMASK_STOP {
        status := STOPPED;
        var _ := VfsSigsuspend({}, d.resume);
      } else if d.signum !in SIGMASK_IGNORE {
        status := d.signum;
        exited := true;
      }
      result := -1;
    }

    /** sigproc_posix(): the mask is not consulted. A handler of the program makes the calls
        in the body of the delivery.  The result -1 says that the system call goes on. */
    method SigprocPosix(d: Delivery) returns (result: int)
      requires View().Runs()
      modifies this, action
      ensures View() == Deliver(old(View()), d)
      ensures !exited ==> var a := old(action[d.signum]);
                result == if a.restart || a.handler.SigDfl? || a.handler.SigIgn? then -1 else 0
      decreases d, 2
    {
      delivered := delivered + [d.signum];
      result := if action[d.signum].restart then -1 else 0;
      match action[d.signum].handler {
        case SigDfl => result := SigprocDefault(d);
        case SigErr => status := error * 0x100 + d.signum;
        case SigIgn => result := -1;
        case Function => RunAll(d.body);
      }
    }

    /** What a program does, step by step, until it is through or the process has ended. */
    method RunAll(ops: seq<Op>)
      requires View().Sound()
      modifies this, action
      ensures View() == RunOps(old(View()), ops)
      decreases ops, 0
    {
      if ops != [] && !exited {
        Run(ops[0]);
        RunAll(ops[1..]);
      }
    }

    method Run(op: Op)
      requires View().Runs()
      modifies this, action
      ensures View() == RunOp(old(View()), op)
      decreases op, 5
    {
      match op
      case OpSigaction(signum, act) =>
        var _, _ := SysSigaction(signum, act);
      case OpSigprocmask(how, sigs) =>
        var _, _ := SysSigprocmask(how, sigs);
      case OpSigsuspend(mask, wake) =>
        var _ := SigSuspend(mask, wake);
      case OpDeliver(d) =>
        var _ := SigprocPosix(d);
    }
  }

  /** sigaction() of any signal but SIGKILL and SIGSTOP installs the action that is given, or for
      the values 0 and 1 the default and to ignore, and leaves all else alone. */
  lemma SigactionInstalls(p: Proc, signum: int, act: ActArg, s: int)
    requires p.Runs() && 0 <= signum < 33 && signum != 9 && signum != 17 && 0 <= s < 33
    ensures var r := RunOp(p, OpSigaction(signum, act));
            && r == p.(action := r.action) && |r.action| == 33
            && (s != signum ==> r.action[s] == p.action[s])
            && (act.Given? ==> r.action[signum] == act.action)
            && (act.Null? ==> r.action[signum] == Action(SigDfl, false))
            && (act.One? ==> r.action[signum] == Action(SigIgn, false))
  {
  }

  /** sigaction() of SIGKILL and SIGSTOP, and of what is no signal, changes nothing. */
  lemma SigactionRefuses(p: Proc, signum: int, act: ActArg)
    requires p.Runs() && (signum < 0 || signum >= 33 || signum == 9 || signum == 17)
    ensures RunOp(p, OpSigaction(signum, act)) == p
  {
  }

  /** A signal with a handler of the program makes the calls of the handler, and nothing else. */
  lemma HandlerIsRun(p: Proc, d: Delivery)
    requires p.Runs() && p.action[d.signum].handler.Function?
    ensures Deliver(p, d) == RunOps(p.(delivered := p.delivered + [d.signum]), d.body)
  {
  }

  /** A handler that was installed runs when its signal arrives. */
  lemma HandlerRuns(p: Proc, q: Proc, restart: bool, d: Delivery)
    requires p.Runs() && d.signum != 9 && d.signum != 17
    requires q == RunOp(p, OpSigaction(d.signum, Given(Action(Function, restart))))
    ensures q.Runs() && Deliver(q, d) == RunOps(q.(delivered := p.delivered + [d.signum]), d.body)
  {
    SigactionInstalls(p, d.signum, Given(Action(Function, restart)), d.signum);
    HandlerIsRun(q, d);
  }

  /** Signals left to their default action: five stop the process, five are
      ignored, and all others end the
      process with the signal as its status. */
  lemma DefaultActions(p: Proc, d: Delivery)
    requires p.Runs() && p.action[d.signum].handler.SigDfl?
    ensures var r := Deliver(p, d);
            var stops := d.signum in {17, 18, 21, 22, 19};
            var ignored := d.signum in {28, 20, 16, 29, 23};
            && (!stops && !ignored ==> r == p.(status := d.signum, exited := true, delivered := p.delivered + [d.signum]))
            && (ignored ==> r == p.(delivered := p.delivered + [d.signum]))
            && (stops && d.resume.Quit? ==>
                  r == p.(status := 0x7F, state := Running, delivered := p.delivered + [d.signum]))
  {
    var q := p.(delivered := p.delivered + [d.signum]);
    assert Deliver(p, d) == Default(q, d);
    if d.signum in SIGMASK_STOP && d.resume.Quit? {
      assert Default(q, d) == Suspend(q.(status := STOPPED), {}, d.resume);
    }
  }

  /** The other two special handlers: one only notes the signal, with the process's error. */
  lemma SpecialHandlers(p: Proc, d: Delivery)
    requires p.Runs()
    ensures p.action[d.signum].handler.SigIgn? ==> Deliver(p, d) == p.(delivered := p.delivered + [d.signum])
    ensures p.action[d.signum].handler.SigErr? ==>
              Deliver(p, d) == p.(status := p.error * 256 + d.signum, delivered := p.delivered + [d.signum])
  {
  }

  /** What each way of sigprocmask() makes of the mask, signal by signal; SIGKILL and SIGSTOP
      never change. */
  lemma MaskBits(p: Proc, how: int, sigs: SigSet, s: int)
    requires p.Runs()
    ensures var m := RunOp(p, OpSigprocmask(how, Some(sigs))).procMask;
            var asked := s in sigs && s != 9 && s != 17;
            && (how == 1 ==> (s in m <==> s in p.procMask || asked))
            && (how == 2 ==> (s in m <==> s in p.procMask && !asked))
            && (how == 3 ==> (s in m <==> asked))
            && (how != 1 && how != 2 && how != 3 ==> m == p.procMask)
  {
  }

  /** A suspension: the calls of the handler see the mask that was given, and the process has
      its own mask back afterwards. */
  lemma SuspensionMask(p: Proc, mask: SigSet, restart: bool, d: Delivery)
    requires p.Runs() && p.action[d.signum] == Action(Function, restart)
    ensures var r := RunOp(p, OpSigsuspend(Some(mask), Message(d)));
            var w := RunOps(p.(procMask := mask, state := Sleeping, delivered := p.delivered + [d.signum]), d.body);
            r == if w.exited then w else w.(procMask := p.procMask, state := Running)
  {
    var q := p.(procMask := mask, state := Sleeping);
    assert Deliver(q, d) == RunOps(q.(delivered := p.delivered + [d.signum]), d.body);
    assert RunOp(p, OpSigsuspend(Some(mask), Message(d))) == Suspend(p, mask, Message(d));
  }

  /** The calls of a run happen one after the other, until the process has ended. */
  lemma {:induction false} RunsInTurn(p: Proc, a: seq<Op>, b: seq<Op>)
    requires p.Sound()
    ensures RunOps(p, a + b) == RunOps(RunOps(p, a), b)
    ensures p.exited ==> RunOps(p, a) == p
    decreases |a|
  {
    if a == [] {
      assert a + b == b;
    } else if !p.exited {
      assert (a + b)[0] == a[0] && (a + b)[1..] == a[1..] + b;
      RunsInTurn(RunOp(p, a[0]), a[1..], b);
    }
  }

  /** sigaction() with a null action just asks, as it should, if and only if the signal cannot
      be set or has the default action already. */
  lemma NullActionAsks(p: Proc, signum: int)
    requires p.Runs()
    ensures RunOp(p, OpSigaction(signum, Null)) == p <==> !Settable(signum) || p.action[signum] == DEFAULT_ACTION
  {
    if Settable(signum) {
      var r := RunOp(p, OpSigaction(signum, Null));
      assert r.action[signum] == DEFAULT_ACTION;
      if p.action[signum] == DEFAULT_ACTION {
        assert r.action == p.action;
      }
    }
  }

  /** A program that ignores SIGINFO and then asks for its action has the default again. */
  lemma NullActionResets()
    ensures var p := RunOp(Start(), OpSigaction(SIGINFO, One));
            p.action[SIGINFO].handler.SigIgn? && RunOp(p, OpSigaction(SIGINFO, Null)).action[SIGINFO].handler.SigDfl?
  {
  }

  // ---------- the mask ----------

  /** A run that starts with a mask without SIGKILL and SIGSTOP ends with one, whatever masks
      it suspends with, as long as the process lives. */
  lemma {:induction false} RunKeepsBlockable(p: Proc, ops: seq<Op>)
    requires p.Sound() && (p.exited || Blockable(p.procMask))
    ensures var r := RunOps(p, ops); r.exited || Blockable(r.procMask)
    decreases ops, 0
  {
    if ops != [] && !p.exited {
      OpKeepsBlockable(p, ops[0]);
      RunKeepsBlockable(RunOp(p, ops[0]), ops[1..]);
    }
  }

  /** A signal left to its default action does not change the mask of a process that goes on. */
  lemma DefaultKeepsMask(p: Proc, d: Delivery)
    requires p.Runs()
    ensures var r := Default(p, d); r.exited || r.procMask == p.procMask
  {
    if d.signum in SIGMASK_STOP {
      var r := Suspend(p.(status := STOPPED), {}, d.resume);
      assert r.exited || r.procMask == p.procMask;
    }
  }

  lemma {:induction false} OpKeepsBlockable(p: Proc, op: Op)
    requires p.Runs() && Blockable(p.procMask)
    ensures var r := RunOp(p, op); r.exited || Blockable(r.procMask)
    decreases op, 1
  {
    match op
    case OpSigaction(_, _) =>
    case OpSigprocmask(_, _) =>
    case OpSigsuspend(_, _) =>
    case OpDeliver(d) =>
      var q := p.(delivered := p.delivered + [d.signum]);
      DefaultKeepsMask(q, d);
      if p.action[d.signum].handler.Function? {
        RunKeepsBlockable(q, d.body);
      }
  }

  /** Two processes that differ at most in their masks. */
  predicate SameButMask(p: Proc, q: Proc) {
    p.(procMask := q.procMask) == q
  }

  /** The mask never decides what happens: runs from two masks deliver the same signals to the
      same handlers, and end alike up to the mask.  Blocking a signal has no effect. */
  lemma {:induction false} MaskIsIgnored(p: Proc, q: Proc, ops: seq<Op>)
    requires p.Sound() && SameButMask(p, q)
    ensures SameButMask(RunOps(p, ops), RunOps(q, ops))
    decreases ops, 0
  {
    if ops != [] && !p.exited {
      MaskIsIgnoredByOp(p, q, ops[0]);
      MaskIsIgnored(RunOp(p, ops[0]), RunOp(q, ops[0]), ops[1..]);
    }
  }

  lemma {:induction false} MaskIsIgnoredByOp(p: Proc, q: Proc, op: Op)
    requires p.Runs() && SameButMask(p, q)
    ensures SameButMask(RunOp(p, op), RunOp(q, op))
    decreases op, 3
  {
    match op
    case OpSigaction(_, _) =>
    case OpSigprocmask(_, _) =>
    case OpSigsuspend(mask, wake) =>
      if mask.Some? {
        SuspendedAlike(p, q, mask.value, wake);
      }
    case OpDeliver(d) => MaskIsIgnoredByDelivery(p, q, d);
  }

  lemma {:induction false} SuspendedAlike(p: Proc, q: Proc, mask: SigSet, wake: Wake)
    requires p.Runs() && SameButMask(p, q)
    ensures SameButMask(Suspend(p, mask, wake), Suspend(q, mask, wake))
    decreases wake, 2
  {
    if wake.Message? {
      MaskIsIgnoredByDelivery(p.(procMask := mask, state := Sleeping), q.(procMask := mask, state := Sleeping), wake.delivery);
    }
  }

  lemma {:induction false} MaskIsIgnoredByDelivery(p: Proc, q: Proc, d: Delivery)
    requires p.Runs() && SameButMask(p, q)
    ensures SameButMask(Deliver(p, d), Deliver(q, d))
    decreases d, 1
  {
    var p2, q2 := p.(delivered := p.delivered + [d.signum]), q.(delivered := q.delivered + [d.signum]);
    match p.action[d.signum].handler
    case SigDfl =>
      if d.signum in SIGMASK_STOP {
        SuspendedAlike(p2.(status := STOPPED), q2.(status := STOPPED), {}, d.resume);
      }
    case SigErr =>
    case SigIgn =>
    case Function => MaskIsIgnored(p2, q2, d.body);
  }

  lemma {:induction false} RunDelivers(p: Proc, ops: seq<Op>)
    requires p.Sound()
    ensures p.delivered <= RunOps(p, ops).delivered
    decreases ops, 0
  {
    if ops != [] && !p.exited {
      OpDelivers(p, ops[0]);
      RunDelivers(RunOp(p, ops[0]), ops[1..]);
    }
  }

  lemma {:induction false} OpDelivers(p: Proc, op: Op)
    requires p.Runs()
    ensures p.delivered <= RunOp(p, op).delivered
    decreases op, 3
  {
    match op
    case OpSigaction(_, _) =>
    case OpSigprocmask(_, _) =>
    case OpSigsuspend(mask, wake) =>
      if mask.Some? {
        SuspensionDelivers(p, mask.value, wake);
      }
    case OpDeliver(d) => IsDelivered(p, d);
  }

  lemma {:induction false} SuspensionDelivers(p: Proc, mask: SigSet, wake: Wake)
    requires p.Runs()
    ensures p.delivered <= Suspend(p, mask, wake).delivered
    decreases wake, 2
  {
    if wake.Message? {
      IsDelivered(p.(procMask := mask, state := Sleeping), wake.delivery);
    }
  }

  /** A signal that arrives is delivered first of all, blocked or not. */
  lemma {:induction false} IsDelivered(p: Proc, d: Delivery)
    requires p.Runs()
    ensures p.delivered + [d.signum] <= Deliver(p, d).delivered
    decreases d, 1
  {
    var q := p.(delivered := p.delivered + [d.signum]);
    match p.action[d.signum].handler
    case SigDfl =>
      if d.signum in SIGMASK_STOP {
        SuspensionDelivers(q.(status := STOPPED), {}, d.resume);
      }
    case SigErr =>
    case SigIgn =>
    case Function => RunDelivers(q, d.body);
  }

  /** A lethal signal with the default action ends the process that blocks it. */
  lemma BlockedIsLethal(p: Proc, d: Delivery)
    requires p.Runs() && d.signum in p.procMask && Lethal(d.signum) && p.action[d.signum].handler.SigDfl?
    ensures Deliver(p, d).exited && Deliver(p, d).status == d.signum
  {
  }

  /** A program that blocks signal 15 and nothing else is ended by it. */
  lemma BlockedEnds()
    ensures var p := RunOp(Start(), OpSigprocmask(SIG_BLOCK, Some({15})));
            p.procMask == {15} && Deliver(p, Delivery(15, [], Quit)).exited
  {
    BlockedIsLethal(RunOp(Start(), OpSigprocmask(SIG_BLOCK, Some({15}))), Delivery(15, [], Quit));
  }

  // ---------- the end of a process ----------

  /** How a process ended: by the signal delivered last, which is lethal, is its status, and
      had the default action.  SIGKILL was delivered only if the process ended by it. */
  predicate EndsRight(p: Proc)
    requires p.Sound()
  {
    && (p.exited ==>
          && p.delivered != []
          && var last := p.delivered[|p.delivered| - 1];
             Lethal(last) && p.status == last && p.action[last].handler.SigDfl?)
    && (SIGKILL in p.delivered <==> p.exited && p.status == SIGKILL)
  }

  /** Over every run: a process ends exactly by a lethal signal left to its default action,
      with nothing delivered afterwards, and every delivery of SIGKILL ends it. */
  lemma {:induction false} RunEndsRight(p: Proc, ops: seq<Op>)
    requires p.Sound() && EndsRight(p)
    ensures EndsRight(RunOps(p, ops))
    decreases ops, 0
  {
    if ops != [] && !p.exited {
      OpEndsRight(p, ops[0]);
      RunEndsRight(RunOp(p, ops[0]), ops[1..]);
    }
  }

  lemma {:induction false} OpEndsRight(p: Proc, op: Op)
    requires p.Runs() && EndsRight(p)
    ensures EndsRight(RunOp(p, op))
    decreases op, 3
  {
    match op
    case OpSigaction(_, _) =>
    case OpSigprocmask(_, _) =>
    case OpSigsuspend(mask, wake) =>
      if mask.Some? {
        SuspensionEndsRight(p, mask.value, wake);
      }
    case OpDeliver(d) => DeliveryEndsRight(p, d);
  }

  lemma {:induction false} SuspensionEndsRight(p: Proc, mask: SigSet, wake: Wake)
    requires p.Runs() && EndsRight(p)
    ensures EndsRight(Suspend(p, mask, wake))
    decreases wake, 2
  {
    if wake.Message? {
      DeliveryEndsRight(p.(procMask := mask, state := Sleeping), wake.delivery);
    }
  }

  lemma {:induction false} DeliveryEndsRight(p: Proc, d: Delivery)
    requires p.Runs() && EndsRight(p)
    ensures EndsRight(Deliver(p, d))
    ensures d.signum == SIGKILL ==> Deliver(p, d).exited && Deliver(p, d).status == SIGKILL
    decreases d, 1
  {
    var q := p.(delivered := p.delivered + [d.signum]);
    match p.action[d.signum].handler
    case SigDfl =>
      if d.signum in SIGMASK_STOP {
        SuspensionEndsRight(q.(status := STOPPED), {}, d.resume);
      }
    case SigErr =>
    case SigIgn =>
    case Function => RunEndsRight(q, d.body);
  }

  lemma SuspensionKilled(p: Proc, mask: SigSet, wake: Wake)
    requires p.Runs() && EndsRight(p) && wake.Message? && wake.delivery.signum == SIGKILL
    ensures Suspend(p, mask, wake).exited
  {
    DeliveryEndsRight(p.(procMask := mask, state := Sleeping), wake.delivery);
  }

  /** A step in which SIGKILL is delivered, directly or to end a suspension. */
  predicate Kills(op: Op) {
    || (op.OpDeliver? && op.delivery.signum == SIGKILL)
    || (op.OpSigsuspend? && op.mask.Some? && op.wake.Message? && op.wake.delivery.signum == SIGKILL)
  }

  /** Every run that contains a step in which SIGKILL arrives ends the process, whatever
      actions, masks and suspensions come before it. */
  lemma {:induction false} KillEnds(p: Proc, ops: seq<Op>, i: nat)
    requires p.Runs() && EndsRight(p) && i < |ops| && Kills(ops[i])
    ensures RunOps(p, ops).exited
    decreases i
  {
    OpEndsRight(p, ops[0]);
    var p1 := RunOp(p, ops[0]);
    if i == 0 {
      if ops[0].OpSigsuspend? {
        SuspensionKilled(p, ops[0].mask.value, ops[0].wake);
      } else {
        DeliveryEndsRight(p, ops[0].delivery);
      }
      assert RunOps(p1, ops[1..]) == p1;
    } else if !p1.exited {
      KillEnds(p1, ops[1..], i - 1);
    }
  }

  /** SIGSTOP always stops the process: it is suspended with an empty mask, and has its own
      mask back if it goes on. */
  lemma StopStops(p: Proc, d: Delivery)
    requires p.Runs() && d.signum == SIGSTOP
    ensures var r := Deliver(p, d);
            && (!r.exited ==> r.procMask == p.procMask && r.state == Running)
            && (d.resume.Quit? ==> r == p.(status := STOPPED, state := Running, delivered := p.delivered + [SIGSTOP]))
  {
    var q := p.(delivered := p.delivered + [SIGSTOP]);
    var r := Suspend(q.(status := STOPPED), {}, d.resume);
    assert Deliver(p, d) == Default(q, d) == r;
  }
}
