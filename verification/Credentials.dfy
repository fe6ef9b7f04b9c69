/** User ids of a process and the calls that change them (libposix/sys/syscall.c, libposix/vfs/vfs_syscall.c).
    A uid is an unsigned 32-bit number. */
module Credentials {
  import opened Sids

  const EPERM := 1

  predicate IsUid(uid: int) { 0 <= uid < TWO32 }

  /** What the operating system answers when asked for a token of another user: it may
      refuse, or switch the thread to the token and then succeed or fail in closing it. */
  datatype Outcome =
    | Refused(errno: int)
    | Switched
    | SwitchedNotClosed(errno: int)
  {
    predicate Valid() { Switched? || errno > 0 }
  }

  datatype Cred = Cred(realUid: int, savedUid: int, userSid: Sid)

  /** The result of a call: the new credentials and the returned error number or 0. */
  datatype Done = Done(cred: Cred, result: int)

  /** `rid_posix` read as a uid_t. */
  function UidOf(machine: Sid, sid: Sid): (uid: int)
    ensures IsUid(uid)
  {
    Unsigned(RidPosix(machine, sid))
  }

  function SidOf(machine: Sid, uid: int): Sid
    requires IsMachine(machine) && IsUid(uid)
  {
    RidWin(machine, Signed(uid))
  }

  lemma SignReadings(rid: int, uid: int)
    requires IsInt32(rid) && IsUid(uid)
    ensures Unsigned(rid) == uid <==> rid == Signed(uid)
  {
  }

  lemma UidRoundTrip(machine: Sid, uid: int)
    requires IsMachine(machine) && IsUid(uid)
    ensures UidOf(machine, SidOf(machine, uid)) == uid <==> Representable(Signed(uid))
  {
    RidRoundTrip(machine, Signed(uid));
    SignReadings(RidPosix(machine, SidOf(machine, uid)), uid);
  }

  function RootAsZero(uid: int): int {
    if uid == ROOT_UID then 0 else uid
  }

  function ZeroAsRoot(uid: int): int {
    if uid == 0 then ROOT_UID else uid
  }

  function GetEuid(machine: Sid, c: Cred): int {
    RootAsZero(UidOf(machine, c.userSid))
  }

  function GetUid(machine: Sid, c: Cred): int {
    RootAsZero(if c.realUid == 0 then UidOf(machine, c.userSid) else c.realUid)
  }

  function SetEuid(machine: Sid, c: Cred, uid: int, o: Outcome): Done
    requires IsMachine(machine) && IsUid(uid)
  {
    var wanted := ZeroAsRoot(uid);
    if wanted == UidOf(machine, c.userSid) then Done(c, 0)
    else if GetEuid(machine, c) != 0 then Done(c, -EPERM)
    else if SidOf(machine, wanted) == c.userSid then Done(c, 0)
    else
      match o
      case Refused(errno) => Done(c, -errno)
      case Switched => Done(c.(userSid := SidOf(machine, wanted)), 0)
      case SwitchedNotClosed(errno) => Done(c.(userSid := SidOf(machine, wanted)), -errno)
  }

  function SetUid(machine: Sid, c: Cred, uid: int, o: Outcome): Done
    requires IsMachine(machine) && IsUid(uid)
  {
    var d := SetEuid(machine, c, uid, o);
    if d.result == 0 then Done(d.cred.(realUid := UidOf(machine, d.cred.userSid)), 0)
    else Done(d.cred, -EPERM)
  }

  function SetReUid(machine: Sid, c: Cred, ruid: int, euid: int, o: Outcome): Done
    requires IsMachine(machine) && IsUid(ruid) && IsUid(euid)
  {
    if ZeroAsRoot(ruid) == GetUid(machine, c) then SetEuid(machine, c, euid, o)
    else SetUid(machine, c, ZeroAsRoot(ruid), o)
  }

  function SetResUid(machine: Sid, c: Cred, ruid: int, euid: int, suid: int, o: Outcome): Done
    requires IsMachine(machine) && IsUid(ruid) && IsUid(euid)
  {
    var d := SetReUid(machine, c, ruid, euid, o);
    if d.result == 0 then Done(d.cred.(savedUid := ZeroAsRoot(suid)), 0)
    else Done(d.cred, -EPERM)
  }

  /** The credentials part of WIN_TASK. */
  class Task {
    const machine: Sid
    var realUid: int
    var savedUid: int
    var userSid: Sid

    constructor (machine: Sid, cred: Cred)
      ensures this.machine == machine && View() == cred
    {
      this.machine := machine;
      realUid, savedUid, userSid := cred.realUid, cred.savedUid, cred.userSid;
    }

    function View(): Cred
      reads this
    {
      Cred(realUid, savedUid, userSid)
    }

    method VfsSetEuid(sid: Sid, o: Outcome) returns (ok: bool, errno: int)
      modifies this`userSid
      ensures ok == (sid == old(userSid) || o.Switched?)
      ensures userSid == if o.Refused? then old(userSid) else sid
      ensures !ok ==> errno == o.errno
    {
      ok, errno := false, 0;
      if sid == userSid {
        return true, 0;
      }
      match o
      case Refused(e) => errno := e;
      case Switched => userSid := sid; ok := true;
      case SwitchedNotClosed(e) => userSid := sid; errno := e;
    }

    method SysSetEuid(uid: int, o: Outcome) returns (result: int)
      requires IsMachine(machine) && IsUid(uid)
      modifies this`userSid
      ensures Done(View(), result) == SetEuid(machine, old(View()), uid, o)
    {
      result := 0;
      var wanted := uid;
      if wanted == 0 {
        wanted := ROOT_UID;
      }
      if wanted == UidOf(machine, userSid) {
        return 0;
      } else if GetEuid(machine, View()) != 0 {
        return -EPERM;
      } else {
        var ok, errno := VfsSetEuid(SidOf(machine, wanted), o);
        if !ok {
          result := -errno;
        }
      }
    }

    method SysSetUid(uid: int, o: Outcome) returns (result: int)
      requires IsMachine(machine) && IsUid(uid)
      modifies this
      ensures Done(View(), result) == SetUid(machine, old(View()), uid, o)
    {
      result := SysSetEuid(uid, o);
      if result == 0 {
        realUid := UidOf(machine, userSid);
      } else {
        result := -EPERM;
      }
    }

    method SysSetReUid(ruid: int, euid: int, o: Outcome) returns (result: int)
      requires IsMachine(machine) && IsUid(ruid) && IsUid(euid)
      modifies this
      ensures Done(View(), result) == SetReUid(machine, old(View()), ruid, euid, o)
    {
      var wanted := ruid;
      if wanted == 0 {
        wanted := ROOT_UID;
      }
      if wanted == GetUid(machine, View()) {
        result := SysSetEuid(euid, o);
      } else {
        result := SysSetUid(wanted, o);
      }
    }

    method SysSetResUid(ruid: int, euid: int, suid: int, o: Outcome) returns (result: int)
      requires IsMachine(machine) && IsUid(ruid) && IsUid(euid)
      modifies this
      ensures Done(View(), result) == SetResUid(machine, old(View()), ruid, euid, suid, o)
    {
      result := SysSetReUid(ruid, euid, o);
      if result == 0 {
        savedUid := if suid == 0 then ROOT_UID else suid;
      } else {
        result := -EPERM;
      }
    }
  }

  // ---------- runs ----------

  datatype Call =
    | CallSetUid(uid: int, o: Outcome)
    | CallSetEuid(uid: int, o: Outcome)
    | CallSetReUid(ruid: int, euid: int, o: Outcome)
    | CallSetResUid(ruid: int, euid: int, suid: int, o: Outcome)
  {
    predicate Valid() {
      && o.Valid()
      && (CallSetUid? || CallSetEuid? ==> IsUid(uid))
      && (CallSetReUid? || CallSetResUid? ==> IsUid(ruid) && IsUid(euid))
    }
  }

  function Step(machine: Sid, c: Cred, call: Call): Done
    requires IsMachine(machine) && call.Valid()
  {
    match call
    case CallSetUid(uid, o) => SetUid(machine, c, uid, o)
    case CallSetEuid(uid, o) => SetEuid(machine, c, uid, o)
    case CallSetReUid(ruid, euid, o) => SetReUid(machine, c, ruid, euid, o)
    case CallSetResUid(ruid, euid, suid, o) => SetResUid(machine, c, ruid, euid, suid, o)
  }

  /** The credentials after a sequence of calls. */
  function Run(machine: Sid, c: Cred, calls: seq<Call>): Cred
    requires IsMachine(machine) && forall call :: call in calls ==> call.Valid()
    decreases |calls|
  {
    if calls == [] then c
    else Run(machine, Step(machine, c, calls[0]).cred, calls[1..])
  }

  /** Once the effective user is not root, no sequence of calls changes it, and the real
      user can only become the effective one. */
  lemma {:induction false} UnprivilegedStays(machine: Sid, c: Cred, calls: seq<Call>)
    requires IsMachine(machine) && forall call :: call in calls ==> call.Valid()
    requires GetEuid(machine, c) != 0
    ensures var d := Run(machine, c, calls);
            && d.userSid == c.userSid
            && (d.realUid == c.realUid || d.realUid == UidOf(machine, c.userSid))
    decreases |calls|
  {
    if calls != [] {
      var d := Step(machine, c, calls[0]).cred;
      assert d.userSid == c.userSid;
      UnprivilegedStays(machine, d, calls[1..]);
    }
  }

  /** After a successful setuid(u) the effective user is u exactly when u was it already
      or u is an id that a SID can carry. */
  lemma SetUidTakes(machine: Sid, c: Cred, uid: int, o: Outcome)
    requires IsMachine(machine) && IsUid(uid) && uid != 0 && o.Valid()
    requires SetUid(machine, c, uid, o).result == 0
    ensures var d := SetUid(machine, c, uid, o).cred;
            && d.realUid == UidOf(machine, d.userSid)
            && (d.realUid == uid <==> UidOf(machine, c.userSid) == uid || Representable(Signed(uid)))
  {
    UidRoundTrip(machine, uid);
  }

  /** Root dropping to `uid` is permanent: whatever is called afterwards, both user ids
      read back as `uid`. */
  lemma SetUidPermanent(machine: Sid, c: Cred, uid: int, o: Outcome, calls: seq<Call>)
    requires IsMachine(machine) && IsUid(uid) && o.Valid()
    requires forall call :: call in calls ==> call.Valid()
    requires uid != 0 && uid != ROOT_UID && Representable(Signed(uid))
    requires GetEuid(machine, c) == 0 && SetUid(machine, c, uid, o).result == 0
    ensures var d := Run(machine, SetUid(machine, c, uid, o).cred, calls);
            GetUid(machine, d) == uid && GetEuid(machine, d) == uid
  {
    SetUidTakes(machine, c, uid, o);
    UnprivilegedStays(machine, SetUid(machine, c, uid, o).cred, calls);
  }

  /** A failed seteuid leaves the credentials alone, unless the thread was already switched
      and only closing the token failed. */
  lemma FailedSetEuid(machine: Sid, c: Cred, uid: int, o: Outcome)
    requires IsMachine(machine) && IsUid(uid) && o.Valid()
    requires SetEuid(machine, c, uid, o).result != 0
    ensures SetEuid(machine, c, uid, o).cred == c <==> GetEuid(machine, c) != 0 || o.Refused?
  {
  }

  /** setreuid(ruid, ...) does the same whatever its second argument. */
  ghost predicate IgnoresEuid(machine: Sid, c: Cred, ruid: int)
    requires IsMachine(machine) && IsUid(ruid)
  {
    forall e1, e2, o: Outcome :: IsUid(e1) && IsUid(e2) && o.Valid() ==>
      SetReUid(machine, c, ruid, e1, o) == SetReUid(machine, c, ruid, e2, o)
  }

  /** For a caller who is root, a seteuid that goes through gives the representable id asked for. */
  lemma RootSwitches(machine: Sid, c: Cred, uid: int)
    requires IsMachine(machine) && IsUid(uid) && uid != 0 && Representable(Signed(uid)) && GetEuid(machine, c) == 0
    ensures UidOf(machine, SetEuid(machine, c, uid, Switched).cred.userSid) == uid
  {
    UidRoundTrip(machine, uid);
  }

  /** Two effective ids that seteuid tells apart, whoever calls. */
  lemma TwoUids(machine: Sid, c: Cred) returns (e1: int, e2: int)
    requires IsMachine(machine)
    ensures IsUid(e1) && IsUid(e2) && SetEuid(machine, c, e1, Switched) != SetEuid(machine, c, e2, Switched)
  {
    if GetEuid(machine, c) == 0 {
      e1, e2 := 521000500, 521000501;
      RootSwitches(machine, c, e1);
      RootSwitches(machine, c, e2);
    } else {
      e1 := UidOf(machine, c.userSid);
      e2 := if e1 == 521000500 then 521000501 else 521000500;
    }
  }

  /** The effective id given to setreuid is ignored unless the caller names the real id it
      already has; and a caller whose real user is root cannot, because root reads as 0 there. */
  lemma SetReUidIgnoresEuid(machine: Sid, c: Cred, ruid: int)
    requires IsMachine(machine) && IsUid(ruid)
    ensures IgnoresEuid(machine, c, ruid) <==> ruid == 0 || GetUid(machine, c) == 0 || ruid != GetUid(machine, c)
  {
    assert GetUid(machine, c) != ROOT_UID;
    if ruid != 0 && ruid == GetUid(machine, c) {
      var e1, e2 := TwoUids(machine, c);
      assert SetReUid(machine, c, ruid, e1, Switched) != SetReUid(machine, c, ruid, e2, Switched);
    }
  }

  /** Root asks setreuid(0, 521000500) for another effective user, is answered 0, and stays root. */
  lemma EuidIgnored(machine: Sid)
    requires IsMachine(machine)
    ensures var root := Cred(ROOT_UID, ROOT_UID, SID_SYSTEM);
            GetEuid(machine, root) == 0 && SetReUid(machine, root, 0, 521000500, Switched) == Done(root, 0)
  {
  }

  /** Root's seteuid(521000500) whose token cannot be closed fails, and has switched the user. */
  lemma FailedButSwitched(machine: Sid, errno: int)
    requires IsMachine(machine) && errno > 0
    ensures var root := Cred(ROOT_UID, ROOT_UID, SID_SYSTEM);
            var d := SetEuid(machine, root, 521000500, SwitchedNotClosed(errno));
            d.result == -errno && GetEuid(machine, d.cred) == 521000500
  {
    UidRoundTrip(machine, 521000500);
    assert UidOf(machine, SID_SYSTEM) == ROOT_UID;
  }

  // ---------- what the calls are for ----------

  /** The user ids read as 0 for SYSTEM, and as themselves otherwise; a real user that was
      never set is the effective one. */
  lemma RootReadsAsZero(machine: Sid, c: Cred)
    requires IsMachine(machine)
    ensures GetEuid(machine, c) == 0 <==> UidOf(machine, c.userSid) == 0 || UidOf(machine, c.userSid) == ROOT_UID
    ensures GetEuid(machine, c) != 0 ==> GetEuid(machine, c) == UidOf(machine, c.userSid)
    ensures c.realUid == 0 ==> GetUid(machine, c) == GetEuid(machine, c)
    ensures c.realUid == ROOT_UID ==> GetUid(machine, c) == 0
    ensures c.realUid != 0 && c.realUid != ROOT_UID ==> GetUid(machine, c) == c.realUid
  {
  }

  /** Whoever is not root may ask seteuid and setuid for nobody but the effective user. */
  lemma UnprivilegedAnswers(machine: Sid, c: Cred, uid: int, o: Outcome)
    requires IsMachine(machine) && IsUid(uid) && GetEuid(machine, c) != 0
    ensures SetEuid(machine, c, uid, o) == Done(c, if uid == GetEuid(machine, c) then 0 else -1)
    ensures SetUid(machine, c, uid, o) ==
            if uid == GetEuid(machine, c) then Done(c.(realUid := uid), 0) else Done(c, -1)
  {
  }

  /** For root, seteuid and setuid of a representable user answer 0 and take effect; only
      setuid changes the real user. */
  lemma RootTakes(machine: Sid, c: Cred, uid: int)
    requires IsMachine(machine) && IsUid(uid) && Representable(Signed(uid)) && GetEuid(machine, c) == 0
    requires uid != 0 && uid != ROOT_UID
    ensures var d := SetEuid(machine, c, uid, Switched);
            d.result == 0 && GetEuid(machine, d.cred) == uid && d.cred.realUid == c.realUid && d.cred.savedUid == c.savedUid
    ensures var d := SetUid(machine, c, uid, Switched);
            d.result == 0 && GetEuid(machine, d.cred) == uid && GetUid(machine, d.cred) == uid && d.cred.savedUid == c.savedUid
  {
    UidRoundTrip(machine, uid);
    RootSwitches(machine, c, uid);
  }

  /** For root, setreuid and setresuid of a representable real user that is not the present one
      set both users, whatever effective user is named; setresuid saves its third argument. */
  lemma RootSetsBoth(machine: Sid, c: Cred, ruid: int, euid: int, suid: int)
    requires IsMachine(machine) && IsUid(ruid) && IsUid(euid) && Representable(Signed(ruid)) && GetEuid(machine, c) == 0
    requires ruid != 0 && ruid != ROOT_UID && ruid != GetUid(machine, c)
    ensures var d := SetReUid(machine, c, ruid, euid, Switched);
            d.result == 0 && GetUid(machine, d.cred) == ruid && GetEuid(machine, d.cred) == ruid && d.cred.savedUid == c.savedUid
    ensures var d := SetResUid(machine, c, ruid, euid, suid, Switched);
            && d.result == 0 && GetUid(machine, d.cred) == ruid && GetEuid(machine, d.cred) == ruid
            && d.cred.savedUid == if suid == 0 then ROOT_UID else suid
  {
    RootTakes(machine, c, ruid);
  }

  /** When the first argument of setreuid is the real user, the second becomes the effective
      user for root, and nothing else changes. */
  lemma RootSetsEffective(machine: Sid, c: Cred, euid: int)
    requires IsMachine(machine) && IsUid(euid) && Representable(Signed(euid)) && GetEuid(machine, c) == 0
    requires euid != 0 && euid != ROOT_UID && GetUid(machine, c) != 0 && IsUid(GetUid(machine, c))
    ensures var d := SetReUid(machine, c, GetUid(machine, c), euid, Switched);
            d.result == 0 && GetEuid(machine, d.cred) == euid && d.cred.realUid == c.realUid
  {
    RootTakes(machine, c, euid);
  }

  /** A setresuid that fails answers EPERM, whatever the reason, and saves nothing. */
  lemma FailedSetResUid(machine: Sid, c: Cred, ruid: int, euid: int, suid: int, o: Outcome)
    requires IsMachine(machine) && IsUid(ruid) && IsUid(euid) && o.Valid()
    requires SetResUid(machine, c, ruid, euid, suid, o).result != 0
    ensures SetResUid(machine, c, ruid, euid, suid, o).result == -1
    ensures SetResUid(machine, c, ruid, euid, suid, o).cred.savedUid == c.savedUid
    ensures SetReUid(machine, c, ruid, euid, o).result != 0
  {
  }
}
