/** select() on top of poll() (libposix/sys/select.c, libposix/sys/poll.c). */
module Select {
  import opened Common

  /** WSA_MAXIMUM_WAIT_EVENTS: the descriptors that are scanned. */
  const WINDOW: nat := 64

  /** An event mask, as the set of its flags. */
  datatype Event = PollIn | PollPri | PollOut | PollErr | PollHup | PollNval | PollRdNorm | PollRdBand | PollWrBand
  type Events = set<Event>

  const READ_EVENTS: Events := {PollIn, PollHup, PollRdBand}
  const WRITE_EVENTS: Events := {PollOut, PollWrBand}
  const ERROR_EVENTS: Events := {PollErr, PollNval}

  datatype PollFd = PollFd(fd: int, events: Events, revents: Events)

  /** An fd_set has room for at least the scanned descriptors. */
  predicate IsFdSet(fds: array<bool>) {
    fds.Length >= WINDOW
  }

  /** fdset_poll(): asks for `flags` on every member of the set. */
  method FdsetPoll(pollfds: array<PollFd>, fds: array<bool>, flags: Events)
    requires pollfds.Length == WINDOW && IsFdSet(fds)
    modifies pollfds
    ensures forall i :: 0 <= i < WINDOW ==>
              pollfds[i] == if fds[i] then PollFd(i, old(pollfds[i]).events + flags, old(pollfds[i]).revents)
                            else old(pollfds[i])
  {
    var fd := 0;
    while fd < WINDOW
      invariant 0 <= fd <= WINDOW
      invariant forall i :: 0 <= i < fd ==>
                  pollfds[i] == if fds[i] then PollFd(i, old(pollfds[i]).events + flags, old(pollfds[i]).revents)
                                else old(pollfds[i])
      invariant forall i {:trigger pollfds[i]} :: fd <= i < WINDOW ==> pollfds[i] == old(pollfds[i])
    {
      if fds[fd] {
        pollfds[fd] := pollfds[fd].(fd := fd, events := pollfds[fd].events + flags);
      }
      fd := fd + 1;
    }
  }

  /** How many of the first `n` entries report one of the flags. */
  ghost function Reported(p: seq<PollFd>, flags: Events, n: nat): nat
    requires n <= |p|
  {
    if n == 0 then 0 else Reported(p, flags, n - 1) + if p[n - 1].revents !! flags then 0 else 1
  }

  /** How many of the first `n` bits are set. */
  ghost function Members(fds: seq<bool>, n: nat): nat
    requires n <= |fds|
  {
    if n == 0 then 0 else Members(fds, n - 1) + if fds[n - 1] then 1 else 0
  }

  /** fdset_select(): keeps the members whose entry reports one of the flags. */
  method FdsetSelect(fds: array<bool>, pollfds: array<PollFd>, flags: Events) returns (count: nat)
    requires pollfds.Length == WINDOW && IsFdSet(fds)
    modifies fds
    ensures count == Reported(pollfds[..], flags, WINDOW)
    ensures forall i :: 0 <= i < WINDOW ==> fds[i] == (old(fds[i]) && !(pollfds[i].revents !! flags))
    ensures forall i {:trigger fds[i]} :: WINDOW <= i < fds.Length ==> fds[i] == old(fds[i])
  {
    var fd := 0;
    count := 0;
    while fd < WINDOW
      invariant 0 <= fd <= WINDOW && count == Reported(pollfds[..], flags, fd)
      invariant forall i :: 0 <= i < fd ==> fds[i] == (old(fds[i]) && !(pollfds[i].revents !! flags))
      invariant forall i {:trigger fds[i]} :: fd <= i < fds.Length ==> fds[i] == old(fds[i])
    {
      if !(pollfds[fd].revents !! flags) {
        count := count + 1;
      } else {
        fds[fd] := false;
      }
      fd := fd + 1;
    }
  }

  /** The entries that are handed to the drivers: open range and something to wait for. */
  predicate Polled(p: PollFd) {
    0 <= p.fd < OPEN_MAX && p.events != {}
  }

  /** The indices among the first `n` of the polled entries, in order. */
  ghost function PolledIndices(p: seq<PollFd>, n: nat): (r: seq<nat>)
    requires n <= |p|
    ensures forall k :: 0 <= k < |r| ==> r[k] < n && Polled(p[r[k]])
  {
    if n == 0 then [] else PolledIndices(p, n - 1) + if Polled(p[n - 1]) then [n - 1] else []
  }

  /** pollfd_win(): collects the entries to wait for in `info` and their descriptors in `nodes`. */
  method PollfdWin(fds: array<PollFd>, nfds: int) returns (ok: bool, nodes: seq<int>, info: seq<nat>)
    requires fds.Length == WINDOW
    modifies fds
    ensures ok <==> 0 <= nfds <= WINDOW
    ensures forall i {:trigger fds[i]} :: 0 <= i < WINDOW ==>
              fds[i] == if ok && i < nfds && old(fds[i]).fd < 0 then old(fds[i]).(revents := {})
                        else if ok && i < nfds && old(fds[i]).fd >= OPEN_MAX then old(fds[i]).(revents := {PollNval})
                        else old(fds[i])
    ensures ok ==> info == PolledIndices(old(fds[..]), nfds)
    ensures |nodes| == |info| && forall k :: 0 <= k < |info| ==> info[k] < WINDOW && nodes[k] == fds[info[k]].fd
  {
    nodes, info := [], [];
    if nfds < 0 || nfds > WINDOW {
      return false, [], [];
    }
    var i := 0;
    while i < nfds
      invariant 0 <= i <= nfds
      invariant forall j {:trigger fds[j]} :: 0 <= j < WINDOW ==>
                  fds[j] == if j < i && old(fds[j]).fd < 0 then old(fds[j]).(revents := {})
                            else if j < i && old(fds[j]).fd >= OPEN_MAX then old(fds[j]).(revents := {PollNval})
                            else old(fds[j])
      invariant info == PolledIndices(old(fds[..]), i)
      invariant |nodes| == |info| && forall k :: 0 <= k < |info| ==> info[k] < i && nodes[k] == fds[info[k]].fd
    {
      var fd := fds[i].fd;
      if fd < 0 {
        fds[i] := fds[i].(revents := {});
      } else if fd >= OPEN_MAX {
        fds[i] := fds[i].(revents := {PollNval});
      } else if fds[i].events != {} {
        nodes := nodes + [fd];
        info := info + [i];
      }
      i := i + 1;
    }
    ok := true;
  }

  lemma {:induction false} PolledIndicesAre(p: seq<PollFd>, n: nat, i: nat)
    requires n <= |p|
    ensures i in PolledIndices(p, n) <==> i < n && 0 <= p[i].fd < 64 && p[i].events != {}
  {
    if n > 0 {
      PolledIndicesAre(p, n - 1, i);
    }
  }

  /** The drivers behind vfs_poll() store what they report in each polled entry. */
  method VfsPoll(fds: array<PollFd>, info: seq<nat>, reports: seq<Events>)
    requires fds.Length == |reports| == WINDOW && forall k :: 0 <= k < |info| ==> info[k] < WINDOW
    modifies fds
    ensures forall i {:trigger fds[i]} :: 0 <= i < WINDOW ==>
              fds[i] == if i in info then old(fds[i]).(revents := reports[i]) else old(fds[i])
  {
    var k := 0;
    while k < |info|
      invariant 0 <= k <= |info|
      invariant forall i {:trigger fds[i]} :: 0 <= i < WINDOW ==>
                  fds[i] == if i in info[..k] then old(fds[i]).(revents := reports[i]) else old(fds[i])
    {
      fds[info[k]] := fds[info[k]].(revents := reports[info[k]]);
      assert info[..k + 1] == info[..k] + [info[k]];
      k := k + 1;
    }
    assert info[..|info|] == info;
  }

  // ---------- select ----------

  /** The bits of a set in the scanned window; none for an absent set. */
  function Bits(fds: array?<bool>): (b: seq<bool>)
    requires fds != null ==> fds.Length >= WINDOW
    reads fds
    ensures |b| == WINDOW && (fds == null ==> forall i :: 0 <= i < WINDOW ==> !b[i])
  {
    if fds == null then seq(WINDOW, _ => false) else fds[..WINDOW]
  }

  /** The events that select asks for on a descriptor. */
  function Asked(r: bool, w: bool, e: bool): Events {
    (if r then READ_EVENTS else {}) + (if w then WRITE_EVENTS else {}) + (if e then ERROR_EVENTS else {})
  }

  /** The poll entries that select builds from the bits of its sets. */
  function Entries(r: seq<bool>, w: seq<bool>, e: seq<bool>): (p: seq<PollFd>)
    requires |r| == |w| == |e| == WINDOW
    ensures |p| == WINDOW
  {
    seq(WINDOW, i requires 0 <= i < WINDOW =>
      if r[i] || w[i] || e[i] then PollFd(i, Asked(r[i], w[i], e[i]), {}) else PollFd(0, {}, {}))
  }

  /** The entries after polling the first `n` with the given reports. */
  function Answered(p: seq<PollFd>, n: nat, reports: seq<Events>): (q: seq<PollFd>)
    requires |p| == |reports| == WINDOW
    ensures |q| == WINDOW
  {
    seq(WINDOW, i requires 0 <= i < WINDOW =>
      if i < n && Polled(p[i]) then p[i].(revents := reports[i]) else p[i])
  }

  /** A member stays in its set if it was scanned and one of the set's flags was reported. */
  predicate Kept(bits: seq<bool>, n: nat, reports: seq<Events>, flags: Events, i: nat)
    requires |bits| == |reports| == WINDOW && i < WINDOW
  {
    bits[i] && i < n && !(reports[i] !! flags)
  }

  /** The window of a set as select leaves it: the kept members. */
  ghost predicate Selected(before: seq<bool>, after: seq<bool>, n: nat, reports: seq<Events>, flags: Events)
    requires |before| == |after| == |reports| == WINDOW
  {
    forall i :: 0 <= i < WINDOW ==> after[i] == Kept(before, n, reports, flags, i)
  }

  /** What a set adds to the return value of select: the entries with one of its flags. */
  ghost function Counted(present: bool, q: seq<PollFd>, flags: Events): nat
    requires |q| == WINDOW
  {
    if present then Reported(q, flags, WINDOW) else 0
  }

  /** What select returns for the sets that are present. */
  ghost function SelectResult(pr: bool, pw: bool, pe: bool, q: seq<PollFd>): nat
    requires |q| == WINDOW
  {
    Counted(pr, q, READ_EVENTS) + Counted(pw, q, WRITE_EVENTS) + Counted(pe, q, ERROR_EVENTS)
  }

  /** fdset_poll() on a set that may be absent. */
  method AskFor(pollfds: array<PollFd>, fds: array?<bool>, flags: Events)
    requires pollfds.Length == WINDOW && (fds != null ==> IsFdSet(fds))
    modifies pollfds
    ensures forall i :: 0 <= i < WINDOW ==>
              pollfds[i] == if Bits(fds)[i] then PollFd(i, old(pollfds[i]).events + flags, old(pollfds[i]).revents)
                            else old(pollfds[i])
  {
    if fds != null {
      FdsetPoll(pollfds, fds, flags);
    }
  }

  lemma AskedBySteps(r: bool, w: bool, e: bool)
    ensures var none: Events := {};
            var a := if r then none + READ_EVENTS else none;
            var b := if w then a + WRITE_EVENTS else a;
            Asked(r, w, e) == if e then b + ERROR_EVENTS else b
  {
  }

  method BuildEntries(readfds: array?<bool>, writefds: array?<bool>, errorfds: array?<bool>)
    returns (fds: array<PollFd>)
    requires readfds != null ==> IsFdSet(readfds)
    requires writefds != null ==> IsFdSet(writefds)
    requires errorfds != null ==> IsFdSet(errorfds)
    ensures fresh(fds) && fds[..] == Entries(Bits(readfds), Bits(writefds), Bits(errorfds))
  {
    fds := new PollFd[WINDOW](_ => PollFd(0, {}, {}));
    AskFor(fds, readfds, READ_EVENTS);
    AskFor(fds, writefds, WRITE_EVENTS);
    AskFor(fds, errorfds, ERROR_EVENTS);
    ghost var r, w, e := Bits(readfds), Bits(writefds), Bits(errorfds);
    forall i | 0 <= i < WINDOW ensures fds[i] == Entries(r, w, e)[i] {
      AskedBySteps(r[i], w[i], e[i]);
    }
  }

  /** pollfd_win() followed by vfs_poll() on entries that select built. */
  method PollEntries(fds: array<PollFd>, n: int, polls: bool, reports: seq<Events>) returns (ok: bool)
    requires fds.Length == |reports| == WINDOW
    requires forall i :: 0 <= i < WINDOW ==> 0 <= fds[i].fd < OPEN_MAX
    modifies fds
    ensures ok <==> 0 <= n <= WINDOW
    ensures fds[..] == if ok && polls then Answered(old(fds[..]), n, reports) else old(fds[..])
  {
    ghost var p := fds[..];
    var nodes, info;
    ok, nodes, info := PollfdWin(fds, n);
    if ok && polls {
      VfsPoll(fds, info, reports);
      forall i: nat | i < WINDOW ensures fds[i] == Answered(p, n, reports)[i] {
        PolledIndicesAre(p, n, i);
      }
    }
  }

  /** fdset_select() on a set that may be absent. */
  method SelectSet(fds: array?<bool>, pollfds: array<PollFd>, flags: Events) returns (count: nat)
    requires pollfds.Length == WINDOW && (fds != null ==> IsFdSet(fds))
    modifies if fds == null then {} else {fds}
    ensures count == Counted(fds != null, pollfds[..], flags)
    ensures forall i :: 0 <= i < WINDOW ==> Bits(fds)[i] == (old(Bits(fds))[i] && !(pollfds[i].revents !! flags))
    ensures fds != null ==> fds[WINDOW..] == old(fds[WINDOW..])
  {
    count := 0;
    if fds != null {
      count := FdsetSelect(fds, pollfds, flags);
    }
  }

  predicate IsSet(fds: array?<bool>) {
    fds != null ==> IsFdSet(fds)
  }

  /** The part of a set above the window. */
  function Above(fds: array?<bool>): seq<bool>
    requires IsSet(fds)
    reads fds
  {
    if fds == null then [] else fds[WINDOW..]
  }

  /** The end of __select(): what is left of the sets, and the result. */
  method SelectSets(readfds: array?<bool>, writefds: array?<bool>, errorfds: array?<bool>, fds: array<PollFd>)
    returns (result: int)
    requires IsSet(readfds) && IsSet(writefds) && IsSet(errorfds)
    requires readfds != null ==> readfds != writefds && readfds != errorfds
    requires writefds != null ==> writefds != errorfds
    requires fds.Length == WINDOW
    modifies if readfds == null then {} else {readfds}
    modifies if writefds == null then {} else {writefds}
    modifies if errorfds == null then {} else {errorfds}
    ensures forall i :: 0 <= i < WINDOW ==>
              && Bits(readfds)[i] == (old(Bits(readfds))[i] && !(fds[i].revents !! READ_EVENTS))
              && Bits(writefds)[i] == (old(Bits(writefds))[i] && !(fds[i].revents !! WRITE_EVENTS))
              && Bits(errorfds)[i] == (old(Bits(errorfds))[i] && !(fds[i].revents !! ERROR_EVENTS))
    ensures Above(readfds) == old(Above(readfds)) && Above(writefds) == old(Above(writefds))
    ensures Above(errorfds) == old(Above(errorfds))
    ensures result == SelectResult(readfds != null, writefds != null, errorfds != null, fds[..])
  {
    ghost var q := fds[..];
    var ce := SelectSet(errorfds, fds, ERROR_EVENTS);
    assert fds[..] == q;
    var cw := SelectSet(writefds, fds, WRITE_EVENTS);
    assert fds[..] == q;
    var cr := SelectSet(readfds, fds, READ_EVENTS);
    assert fds[..] == q;
    result := ce + cw + cr;
  }

  /** What the entries report for a set's member after polling is what decides on it. */
  lemma KeptIsReported(r: seq<bool>, w: seq<bool>, e: seq<bool>, n: nat, reports: seq<Events>, flags: Events, i: nat)
    requires |r| == |w| == |e| == |reports| == WINDOW && i < WINDOW
    ensures var q := Answered(Entries(r, w, e), n, reports);
            && (r[i] ==> (Kept(r, n, reports, flags, i) <==> !(q[i].revents !! flags)))
            && (w[i] ==> (Kept(w, n, reports, flags, i) <==> !(q[i].revents !! flags)))
            && (e[i] ==> (Kept(e, n, reports, flags, i) <==> !(q[i].revents !! flags)))
  {
  }

  /** The sets that fdset_select() leaves, in terms of what was asked and reported. */
  lemma SelectedAre(r: seq<bool>, w: seq<bool>, e: seq<bool>, r2: seq<bool>, w2: seq<bool>, e2: seq<bool>,
                    n: nat, reports: seq<Events>)
    requires |r| == |w| == |e| == |r2| == |w2| == |e2| == |reports| == WINDOW
    requires var q := Answered(Entries(r, w, e), n, reports);
             forall i :: 0 <= i < WINDOW ==>
               && r2[i] == (r[i] && !(q[i].revents !! READ_EVENTS))
               && w2[i] == (w[i] && !(q[i].revents !! WRITE_EVENTS))
               && e2[i] == (e[i] && !(q[i].revents !! ERROR_EVENTS))
    ensures Selected(r, r2, n, reports, READ_EVENTS)
    ensures Selected(w, w2, n, reports, WRITE_EVENTS)
    ensures Selected(e, e2, n, reports, ERROR_EVENTS)
  {
    forall i | 0 <= i < WINDOW
      ensures r2[i] == Kept(r, n, reports, READ_EVENTS, i)
      ensures w2[i] == Kept(w, n, reports, WRITE_EVENTS, i)
      ensures e2[i] == Kept(e, n, reports, ERROR_EVENTS, i)
    {
      KeptIsReported(r, w, e, n, reports, READ_EVENTS, i);
      KeptIsReported(r, w, e, n, reports, WRITE_EVENTS, i);
      KeptIsReported(r, w, e, n, reports, ERROR_EVENTS, i);
    }
  }

  /** __select(); the three sets are distinct, as `restrict` demands.  `polls` and `errno`
      are the outcome of vfs_poll, and `reports` what the drivers report. */
  method SelectFds(nfds: int, readfds: array?<bool>, writefds: array?<bool>, errorfds: array?<bool>,
                   polls: bool, errno: int, reports: seq<Events>)
    returns (result: int)
    requires IsSet(readfds) && IsSet(writefds) && IsSet(errorfds)
    requires readfds != null ==> readfds != writefds && readfds != errorfds
    requires writefds != null ==> writefds != errorfds
    requires |reports| == WINDOW
    modifies if readfds == null then {} else {readfds}
    modifies if writefds == null then {} else {writefds}
    modifies if errorfds == null then {} else {errorfds}
    ensures nfds < 0 || !polls ==>
              && result == (if nfds < 0 then -EINVAL else -errno)
              && Bits(readfds) == old(Bits(readfds)) && Bits(writefds) == old(Bits(writefds))
              && Bits(errorfds) == old(Bits(errorfds))
    ensures 0 <= nfds && polls ==>
              var n := if nfds > WINDOW then WINDOW else nfds;
              var q := Answered(old(Entries(Bits(readfds), Bits(writefds), Bits(errorfds))), n, reports);
              && Selected(old(Bits(readfds)), Bits(readfds), n, reports, READ_EVENTS)
              && Selected(old(Bits(writefds)), Bits(writefds), n, reports, WRITE_EVENTS)
              && Selected(old(Bits(errorfds)), Bits(errorfds), n, reports, ERROR_EVENTS)
              && result == SelectResult(readfds != null, writefds != null, errorfds != null, q)
    ensures Above(readfds) == old(Above(readfds)) && Above(writefds) == old(Above(writefds))
    ensures Above(errorfds) == old(Above(errorfds))
  {
    ghost var r, w, e := Bits(readfds), Bits(writefds), Bits(errorfds);
    var fds := BuildEntries(readfds, writefds, errorfds);
    var n := nfds;
    if n > WINDOW {
      n := WINDOW;
    }
    var ok := PollEntries(fds, n, polls, reports);
    if !ok {
      return -EINVAL;
    } else if !polls {
      return -errno;
    }
    result := SelectSets(readfds, writefds, errorfds, fds);
    SelectedAre(r, w, e, Bits(readfds), Bits(writefds), Bits(errorfds), n, reports);
  }

  /** What select asks the drivers: for a member of the read set in, hang-up and read-band, of the
      write set out and write-band, of the error set error and invalid; nothing otherwise. */
  lemma EntriesAre(r: seq<bool>, w: seq<bool>, e: seq<bool>, i: nat, ev: Event)
    requires |r| == |w| == |e| == 64 && i < 64
    ensures var p := Entries(r, w, e)[i];
            && (ev in p.events <==>
                  || (r[i] && ev in {PollIn, PollHup, PollRdBand}) || (w[i] && ev in {PollOut, PollWrBand})
                  || (e[i] && ev in {PollErr, PollNval}))
            && p.fd == (if r[i] || w[i] || e[i] then i else 0) && p.revents == {}
  {
  }

  /** A descriptor below `n` that some set asked about gets what the drivers report, and no other
      entry reports anything. */
  lemma AnsweredAre(r: seq<bool>, w: seq<bool>, e: seq<bool>, n: nat, reports: seq<Events>, i: nat)
    requires |r| == |w| == |e| == |reports| == 64 && i < 64
    ensures Answered(Entries(r, w, e), n, reports)[i].revents ==
            if i < n && (r[i] || w[i] || e[i]) then reports[i] else {}
  {
    if r[i] {
      assert PollIn in Asked(r[i], w[i], e[i]);
    } else if w[i] {
      assert PollOut in Asked(r[i], w[i], e[i]);
    } else if e[i] {
      assert PollErr in Asked(r[i], w[i], e[i]);
    }
  }

  /** Which members select leaves in each set. */
  lemma SelectedMembers(r: seq<bool>, r2: seq<bool>, w: seq<bool>, w2: seq<bool>, e: seq<bool>, e2: seq<bool>,
                        n: nat, reports: seq<Events>, i: nat)
    requires |r| == |r2| == |w| == |w2| == |e| == |e2| == |reports| == 64 && i < 64
    requires Selected(r, r2, n, reports, READ_EVENTS)
    requires Selected(w, w2, n, reports, WRITE_EVENTS)
    requires Selected(e, e2, n, reports, ERROR_EVENTS)
    ensures r2[i] <==> r[i] && i < n && (PollIn in reports[i] || PollHup in reports[i] || PollRdBand in reports[i])
    ensures w2[i] <==> w[i] && i < n && (PollOut in reports[i] || PollWrBand in reports[i])
    ensures e2[i] <==> e[i] && i < n && (PollErr in reports[i] || PollNval in reports[i])
  {
  }

  /** How many of the bits in a window are counted: as many as there are, in any order. */
  lemma {:induction false} MembersAre(fds: seq<bool>, n: nat)
    requires n <= |fds|
    ensures Members(fds, n) == |set i: nat | i < n && fds[i]|
  {
    if n > 0 {
      MembersAre(fds, n - 1);
      var before, after := set i: nat | i < n - 1 && fds[i], set i: nat | i < n && fds[i];
      assert after == if fds[n - 1] then before + {n - 1} else before;
    }
  }

  // ---------- the return value ----------

  /** An entry reports a flag of the set for a descriptor that is not its member. */
  ghost predicate Spurious(bits: seq<bool>, q: seq<PollFd>, flags: Events, i: nat)
    requires i < |bits| && i < |q|
  {
    !bits[i] && !(q[i].revents !! flags)
  }

  lemma {:induction false} CountIsMembers(bits: seq<bool>, after: seq<bool>, q: seq<PollFd>, flags: Events, n: nat)
    requires n <= |bits| == |after| == |q|
    requires forall i :: 0 <= i < n ==> after[i] == (bits[i] && !(q[i].revents !! flags))
    ensures Members(after, n) <= Reported(q, flags, n)
    ensures Members(after, n) == Reported(q, flags, n) <==> forall i :: 0 <= i < n ==> !Spurious(bits, q, flags, i)
  {
    if n > 0 {
      CountIsMembers(bits, after, q, flags, n - 1);
      assert (forall i :: 0 <= i < n ==> !Spurious(bits, q, flags, i)) <==>
             (forall i :: 0 <= i < n - 1 ==> !Spurious(bits, q, flags, i)) && !Spurious(bits, q, flags, n - 1);
    }
  }

  /** The drivers report requested events only. */
  ghost predicate OnlyRequested(r: seq<bool>, w: seq<bool>, e: seq<bool>, reports: seq<Events>)
    requires |r| == |w| == |e| == |reports| == WINDOW
  {
    forall i :: 0 <= i < WINDOW ==> reports[i] <= Asked(r[i], w[i], e[i])
  }

  lemma NothingSpurious(r: seq<bool>, w: seq<bool>, e: seq<bool>, n: nat, reports: seq<Events>, i: nat)
    requires |r| == |w| == |e| == |reports| == WINDOW && i < WINDOW && OnlyRequested(r, w, e, reports)
    ensures var q := Answered(Entries(r, w, e), n, reports);
            !Spurious(r, q, READ_EVENTS, i) && !Spurious(w, q, WRITE_EVENTS, i) && !Spurious(e, q, ERROR_EVENTS, i)
  {
    assert reports[i] <= Asked(r[i], w[i], e[i]);
  }

  /** For one set that is present: what select counts for it is at least the number of bits
      it leaves set, and exactly that if and only if no entry reports one of its flags for
      a descriptor outside the set. */
  lemma CountedExactly(bits: seq<bool>, after: seq<bool>, r: seq<bool>, w: seq<bool>, e: seq<bool>, n: nat,
                       reports: seq<Events>, flags: Events)
    requires |bits| == |after| == |r| == |w| == |e| == |reports| == WINDOW
    requires bits == r || bits == w || bits == e
    requires Selected(bits, after, n, reports, flags)
    ensures var q := Answered(Entries(r, w, e), n, reports);
            && Members(after, WINDOW) <= Counted(true, q, flags)
            && (Members(after, WINDOW) == Counted(true, q, flags) <==>
                forall i :: 0 <= i < WINDOW ==> !Spurious(bits, q, flags, i))
  {
    var q := Answered(Entries(r, w, e), n, reports);
    forall i | 0 <= i < WINDOW ensures after[i] == (bits[i] && !(q[i].revents !! flags)) {
      KeptIsReported(r, w, e, n, reports, flags, i);
    }
    CountIsMembers(bits, after, q, flags, WINDOW);
  }

  /** What is left of a set that is present. */
  ghost function Left(present: bool, after: seq<bool>): nat
    requires |after| == WINDOW
  {
    if present then Members(after, WINDOW) else 0
  }

  /** No entry reports a flag of a present set for a descriptor outside that set. */
  ghost predicate NoneSpurious(pr: bool, pw: bool, pe: bool, r: seq<bool>, w: seq<bool>, e: seq<bool>, q: seq<PollFd>)
    requires |r| == |w| == |e| == |q| == WINDOW
  {
    && (pr ==> forall i :: 0 <= i < WINDOW ==> !Spurious(r, q, READ_EVENTS, i))
    && (pw ==> forall i :: 0 <= i < WINDOW ==> !Spurious(w, q, WRITE_EVENTS, i))
    && (pe ==> forall i :: 0 <= i < WINDOW ==> !Spurious(e, q, ERROR_EVENTS, i))
  }

  /** What select returns is the total number of bits left in the present sets, if and only if
      no entry is spurious for one of them; otherwise it is larger. */
  lemma SelectTotal(pr: bool, pw: bool, pe: bool, r: seq<bool>, w: seq<bool>, e: seq<bool>,
                    r2: seq<bool>, w2: seq<bool>, e2: seq<bool>, n: nat, reports: seq<Events>)
    requires |r| == |w| == |e| == |r2| == |w2| == |e2| == |reports| == WINDOW
    requires Selected(r, r2, n, reports, READ_EVENTS)
    requires Selected(w, w2, n, reports, WRITE_EVENTS)
    requires Selected(e, e2, n, reports, ERROR_EVENTS)
    ensures var q := Answered(Entries(r, w, e), n, reports);
            var total := Left(pr, r2) + Left(pw, w2) + Left(pe, e2);
            && total <= SelectResult(pr, pw, pe, q)
            && (total == SelectResult(pr, pw, pe, q) <==> NoneSpurious(pr, pw, pe, r, w, e, q))
  {
    CountedExactly(r, r2, r, w, e, n, reports, READ_EVENTS);
    CountedExactly(w, w2, r, w, e, n, reports, WRITE_EVENTS);
    CountedExactly(e, e2, r, w, e, n, reports, ERROR_EVENTS);
  }

  /** If drivers report requested events only, the return value of select is the number of
      bits left set. */
  lemma RequestedIsExact(pr: bool, pw: bool, pe: bool, r: seq<bool>, w: seq<bool>, e: seq<bool>,
                         r2: seq<bool>, w2: seq<bool>, e2: seq<bool>, n: nat, reports: seq<Events>)
    requires |r| == |w| == |e| == |r2| == |w2| == |e2| == |reports| == WINDOW
    requires OnlyRequested(r, w, e, reports)
    requires Selected(r, r2, n, reports, READ_EVENTS)
    requires Selected(w, w2, n, reports, WRITE_EVENTS)
    requires Selected(e, e2, n, reports, ERROR_EVENTS)
    ensures SelectResult(pr, pw, pe, Answered(Entries(r, w, e), n, reports)) ==
            Left(pr, r2) + Left(pw, w2) + Left(pe, e2)
  {
    SelectTotal(pr, pw, pe, r, w, e, r2, w2, e2, n, reports);
    forall i | 0 <= i < WINDOW
      ensures var q := Answered(Entries(r, w, e), n, reports);
              !Spurious(r, q, READ_EVENTS, i) && !Spurious(w, q, WRITE_EVENTS, i) && !Spurious(e, q, ERROR_EVENTS, i)
    {
      NothingSpurious(r, w, e, n, reports, i);
    }
  }

  /** With descriptor 0 in the read set, an empty error set, and an error reported for it, select
      returns more than the number of bits that it leaves set. */
  lemma CountsTooMany(r2: seq<bool>, w2: seq<bool>, e2: seq<bool>)
    requires |r2| == |w2| == |e2| == WINDOW
    requires var none, reports := seq(WINDOW, _ => false), seq(WINDOW, _ => {PollErr});
             && Selected(none[0 := true], r2, 1, reports, READ_EVENTS)
             && Selected(none, w2, 1, reports, WRITE_EVENTS)
             && Selected(none, e2, 1, reports, ERROR_EVENTS)
    ensures var none, reports := seq(WINDOW, _ => false), seq(WINDOW, _ => {PollErr});
            SelectResult(true, false, true, Answered(Entries(none[0 := true], none, none), 1, reports)) >
            Left(true, r2) + Left(true, e2)
  {
    var none, reports := seq(WINDOW, _ => false), seq(WINDOW, _ => {PollErr});
    var r := none[0 := true];
    SelectTotal(true, false, true, r, none, none, r2, w2, e2, 1, reports);
    assert Spurious(none, Answered(Entries(r, none, none), 1, reports), ERROR_EVENTS, 0);
  }
}
