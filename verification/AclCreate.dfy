/** The access list of a new file, made from that of its directory (vfs_acl_create in
    libposix/vfs/vfs_acl.c). */
module AclCreate {
  import opened Common
  import opened Sids
  import opened Modes
  import opened Acl

  /** What a creation is given: the owner of the new file, its mode, and the inheritance
      flags for its entries (none for a file, both for a directory). */
  datatype Request = Request(machine: Sid, owner: Sid, mode: WinMode, flags: Bits)
  {
    predicate Valid() {
      IsMode(mode) && flags <= ALL_INHERIT_ACE
    }
  }

  predicate Keeps(kind: Kind) {
    IsClass(kind) || kind.Access?
  }

  predicate Replaces(e: Ace, kind: Kind, q: Request) {
    kind.User? && EqualPrefix(e.sid, q.machine)
  }

  /** The entry of the new list for an entry of the directory. */
  function NewEntry(e: Ace, kind: Kind, q: Request): Ace
    requires q.Valid()
  {
    Ace(e.aceType, Plus(e.flags - ALL_INHERIT_ACE, q.flags), ModeMask(e.mask, kind, q.mode),
        if Replaces(e, kind, q) then q.owner else e.sid)
  }

  /** The entries taken over from the directory, in their order. */
  function Inherited(acl: seq<Ace>, q: Request): seq<Ace>
    requires q.Valid()
  {
    if acl == [] then []
    else (if Keeps(HeadKind(acl)) then [NewEntry(acl[0], HeadKind(acl), q)] else []) + Inherited(acl[1..], q)
  }

  /** The entry that stands for "other" when the directory had none. */
  function AuthenticatedEntry(q: Request): Ace {
    Ace(ACCESS_ALLOWED_ACE_TYPE, INHERITED_ACE + q.flags,
        READ_CONTROL + SYNCHRONIZE + (FILE_READ_ATTRIBUTES + FILE_READ_EA + q.mode.other), SID_AUTHENTICATED)
  }

  function Extra(acl: seq<Ace>, q: Request): seq<Ace> {
    if ScanMask(acl).other then [] else [AuthenticatedEntry(q)]
  }

  function Create(acl: seq<Ace>, q: Request): seq<Ace>
    requires q.Valid()
  {
    Inherited(acl, q) + Extra(acl, q)
  }

  /** What is set for a new file: nothing if the directory has no list. */
  function CreateDacl(d: Dacl, q: Request): Dacl
    requires q.Valid()
  {
    d.Set(Create(d.Entries(), q))
  }

  /** The directory's own list in memory afterwards: kept entries were edited there too,
      unless a copy with another SID was made. */
  function Edited(acl: seq<Ace>, q: Request): (r: seq<Ace>)
    requires q.Valid()
    ensures |r| == |acl|
  {
    if acl == [] then []
    else
      var kind := HeadKind(acl);
      [if Keeps(kind) && !Replaces(acl[0], kind, q) then NewEntry(acl[0], kind, q) else acl[0]] + Edited(acl[1..], q)
  }

  /** One entry more, at the head of the directory's list. */
  lemma EntryAdded(e: Ace, tail: seq<Ace>, q: Request)
    requires q.Valid()
    ensures var kind := OwnerType(e, ScanMask(tail)).kind;
            && ScanMask([e] + tail) == OwnerType(e, ScanMask(tail)).mask
            && Inherited([e] + tail, q) == (if Keeps(kind) then [NewEntry(e, kind, q)] else []) + Inherited(tail, q)
            && Edited([e] + tail, q) ==
               [if Keeps(kind) && !Replaces(e, kind, q) then NewEntry(e, kind, q) else e] + Edited(tail, q)
  {
    var acl := [e] + tail;
    assert acl[0] == e && acl[1..] == tail;
  }

  /** The edit of one entry that is kept: in place, unless its SID is replaced. */
  method EditEntry(source: array<Ace>, i: nat, kind: Kind, q: Request) returns (entry: Ace)
    requires q.Valid() && i < source.Length
    modifies source
    ensures entry == NewEntry(old(source[i]), kind, q)
    ensures source[..] == old(source[..])[i := if Replaces(old(source[i]), kind, q) then old(source[i]) else entry]
  {
    entry := source[i];
    var maskNew := ModeMask(entry.mask, kind, q.mode);
    var flagsNew := Plus(entry.flags - ALL_INHERIT_ACE, q.flags);
    if kind.User? && EqualPrefix(entry.sid, q.machine) {
      entry := Ace(entry.aceType, flagsNew, maskNew, q.owner);
    } else {
      entry := Ace(entry.aceType, flagsNew, maskNew, entry.sid);
      source[i] := entry;
    }
  }

  /** The loop's state once the entries of `acl` from `i` on are through. */
  ghost predicate Through(now: seq<Ace>, acl: seq<Ace>, i: nat, q: Request, aclNew: seq<Ace>, typeMask: Classes)
    requires q.Valid()
  {
    && i <= |acl| == |now|
    && now[..i] == acl[..i] && now[i..] == Edited(acl[i..], q)
    && aclNew == Inherited(acl[i..], q)
    && typeMask == ScanMask(acl[i..])
  }

  lemma SplitAt(was: seq<Ace>, now: seq<Ace>, i: nat)
    requires i < |was| == |now| && now == was[i := now[i]]
    ensures now[..i] == was[..i] == was[..i + 1][..i]
    ensures now[i..] == [now[i]] + was[i + 1..]
  {
  }

  /** One turn of the loop: the entry at `i`, after those behind it. */
  method InheritEntry(source: array<Ace>, i: nat, q: Request, done: seq<Ace>, before: Classes, ghost acl: seq<Ace>)
    returns (aclNew: seq<Ace>, typeMask: Classes)
    requires q.Valid() && i < |acl| && Through(source[..], acl, i + 1, q, done, before)
    modifies source
    ensures Through(source[..], acl, i, q, aclNew, typeMask)
  {
    assert source[i] == source[..][..i + 1][i] == acl[..i + 1][i];
    assert acl[i..] == [acl[i]] + acl[i + 1..];
    EntryAdded(acl[i], acl[i + 1..], q);
    var owner := OwnerType(source[i], before);
    aclNew, typeMask := done, owner.mask;
    if Keeps(owner.kind) {
      var entry := EditEntry(source, i, owner.kind, q);
      aclNew := [entry] + aclNew;
    }
    SplitAt(old(source[..]), source[..], i);
  }

  /** The reverse loop over the directory's list. */
  method InheritEntries(source: array<Ace>, q: Request) returns (aclNew: seq<Ace>, typeMask: Classes)
    requires q.Valid()
    modifies source
    ensures aclNew == Inherited(old(source[..]), q)
    ensures source[..] == Edited(old(source[..]), q)
    ensures typeMask == ScanMask(old(source[..]))
  {
    aclNew, typeMask := [], NO_CLASS;
    var i := source.Length;
    ghost var acl := source[..];
    while i > 0
      invariant 0 <= i <= |acl| && Through(source[..], acl, i, q, aclNew, typeMask)
    {
      i := i - 1;
      aclNew, typeMask := InheritEntry(source, i, q, aclNew, typeMask, acl);
    }
    assert acl[0..] == acl && source[..][0..] == source[..];
  }

  /** vfs_acl_create(): `aclNew` is the list that is built, and `result` what is set. */
  method VfsAclCreate(present: bool, source: array?<Ace>, q: Request) returns (aclNew: seq<Ace>, result: Dacl)
    requires q.Valid()
    modifies if present && source != null then {source} else {}
    ensures aclNew == Create(old(DaclOf(present, source)).Entries(), q)
    ensures result == CreateDacl(old(DaclOf(present, source)), q)
    ensures present && source != null ==> source[..] == Edited(old(source[..]), q)
  {
    aclNew := [];
    var typeMask := NO_CLASS;
    if present && source != null {
      aclNew, typeMask := InheritEntries(source, q);
    }
    if !typeMask.other {
      var maskNew := READ_CONTROL + SYNCHRONIZE;
      maskNew := maskNew + (FILE_READ_ATTRIBUTES + FILE_READ_EA + q.mode.other);
      aclNew := aclNew + [Ace(ACCESS_ALLOWED_ACE_TYPE, INHERITED_ACE + q.flags, maskNew, SID_AUTHENTICATED)];
    }
    result := if present then List(aclNew) else NotPresent;
  }

  // ---------- the new list read back ----------

  lemma NewEntryAlike(e: Ace, kind: Kind, q: Request)
    requires q.Valid()
    ensures Alike(NewEntry(e, kind, q), e)
  {
    var flags := NewEntry(e, kind, q).flags;
    assert 3 in flags <==> 3 in e.flags;
  }

  /** The classes after a scan that met the extra entry first. */
  function Marked(m: Classes, extra: bool): Classes {
    m.(other := m.other || extra)
  }

  /** An entry that leaves "other" free is classified the same when "other" is already taken. */
  lemma OtherTakenFirst(e: Ace, m: Classes)
    requires !OwnerType(e, m).mask.other
    ensures OwnerType(e, Marked(m, true)) == Owner(OwnerType(e, m).kind, Marked(OwnerType(e, m).mask, true))
  {
  }

  /** A kept entry, put before a list that is scanned like the rest of the directory's. */
  lemma KeptHead(e: Ace, m: Classes, q: Request, rest: seq<Ace>, extra: bool)
    requires q.Valid() && ScanMask(rest) == Marked(m, extra)
    requires extra ==> !OwnerType(e, m).mask.other
    ensures var list := [NewEntry(e, OwnerType(e, m).kind, q)] + rest;
            HeadKind(list) == OwnerType(e, m).kind && ScanMask(list) == Marked(OwnerType(e, m).mask, extra)
  {
    var e2 := NewEntry(e, OwnerType(e, m).kind, q);
    if extra {
      OtherTakenFirst(e, m);
    }
    NewEntryAlike(e, OwnerType(e, m).kind, q);
    OwnerTypeAlike(e2, e, Marked(m, extra));
    assert ([e2] + rest)[0] == e2 && ([e2] + rest)[1..] == rest;
  }

  /** An entry that is dropped leaves the classes as they are. */
  lemma DroppedHead(e: Ace, m: Classes)
    requires !Keeps(OwnerType(e, m).kind)
    ensures OwnerType(e, m).mask == m
  {
  }

  /** One entry more, at the head of the directory's list. */
  lemma InheritedHead(acl: seq<Ace>, q: Request, tail: seq<Ace>, extra: bool)
    requires q.Valid() && acl != [] && (extra ==> !ScanMask(acl).other)
    requires ScanMask(Inherited(acl[1..], q) + tail) == Marked(ScanMask(acl[1..]), extra)
    ensures ScanMask(Inherited(acl, q) + tail) == Marked(ScanMask(acl), extra)
    ensures Keeps(HeadKind(acl)) ==> HeadKind(Inherited(acl, q) + tail) == HeadKind(acl)
    ensures Inherited(acl, q) + tail ==
            (if Keeps(HeadKind(acl)) then [NewEntry(acl[0], HeadKind(acl), q)] else []) + (Inherited(acl[1..], q) + tail)
  {
    var rest := Inherited(acl[1..], q) + tail;
    if Keeps(HeadKind(acl)) {
      KeptHead(acl[0], ScanMask(acl[1..]), q, rest, extra);
      assert Inherited(acl, q) + tail == [NewEntry(acl[0], HeadKind(acl), q)] + rest;
    } else {
      DroppedHead(acl[0], ScanMask(acl[1..]));
      assert Inherited(acl, q) + tail == rest;
    }
  }

  /** Dropped entries do not count, kept ones are classified as before, and the extra
      entry does not disturb them. */
  lemma {:induction false} InheritedScan(acl: seq<Ace>, q: Request, tail: seq<Ace>, extra: bool)
    requires q.Valid() && ScanMask(tail) == Marked(NO_CLASS, extra)
    requires extra ==> !ScanMask(acl).other
    ensures ScanMask(Inherited(acl, q) + tail) == Marked(ScanMask(acl), extra)
  {
    if acl == [] {
      assert Inherited(acl, q) + tail == tail;
    } else {
      InheritedScan(acl[1..], q, tail, extra);
      InheritedHead(acl, q, tail, extra);
    }
  }

  /** What was found for a class in the directory is found, edited, in the new list. */
  lemma {:induction false} InheritedFound(acl: seq<Ace>, q: Request, tail: seq<Ace>, extra: bool, k: Kind)
    requires q.Valid() && IsClass(k) && ScanMask(tail) == Marked(NO_CLASS, extra)
    requires extra ==> !ScanMask(acl).other
    ensures Found(Inherited(acl, q) + tail, k) ==
            match Found(acl, k)
            case None => Found(tail, k)
            case Some(e) => Some(NewEntry(e, k, q))
  {
    if acl == [] {
      assert Inherited(acl, q) + tail == tail;
    } else {
      InheritedScan(acl[1..], q, tail, extra);
      InheritedHead(acl, q, tail, extra);
      InheritedFound(acl[1..], q, tail, extra, k);
      var rest := Inherited(acl[1..], q) + tail;
      var kind := HeadKind(acl);
      var list := Inherited(acl, q) + tail;
      if Keeps(kind) {
        assert list[1..] == rest && list[0] == NewEntry(acl[0], kind, q);
      } else {
        assert list == rest;
      }
    }
  }

  lemma ExtraScan(acl: seq<Ace>, q: Request)
    requires q.Valid()
    ensures var extra := !ScanMask(acl).other; var tail := Extra(acl, q);
            && ScanMask(tail) == Marked(NO_CLASS, extra)
            && Found(tail, User) == None && Found(tail, Group) == None
            && Found(tail, Other) == if extra then Some(AuthenticatedEntry(q)) else None
  {
    var e := AuthenticatedEntry(q);
    assert 3 !in e.flags && 16 !in e.mask && 18 !in e.mask && 17 in e.mask;
    assert Extra(acl, q) != [] ==> Extra(acl, q)[1..] == [];
    assert OwnerType(e, NO_CLASS) == Owner(Other, NO_CLASS.With(Other));
  }

  function NewFound(acl: seq<Ace>, q: Request, k: Kind): Option<Ace>
    requires q.Valid()
  {
    match Found(acl, k)
    case None => None
    case Some(e) => Some(NewEntry(e, k, q))
  }

  /** The entries that stand for the three classes in a new list. */
  lemma CreateFound(acl: seq<Ace>, q: Request)
    requires q.Valid()
    ensures var r := Create(acl, q);
            && Found(r, User) == NewFound(acl, q, User)
            && Found(r, Group) == NewFound(acl, q, Group)
            && Found(r, Other) == (if Found(acl, Other).Some? then NewFound(acl, q, Other) else Some(AuthenticatedEntry(q)))
  {
    var extra := !ScanMask(acl).other;
    ExtraScan(acl, q);
    MaskIsAssigned(acl, Other);
    InheritedFound(acl, q, Extra(acl, q), extra, User);
    InheritedFound(acl, q, Extra(acl, q), extra, Group);
    InheritedFound(acl, q, Extra(acl, q), extra, Other);
  }

  lemma AuthenticatedShows(q: Request)
    requires q.Valid()
    ensures AuthenticatedEntry(q).mask * WIN_S_IRWX == q.mode.other
  {
  }

  lemma CreateStat(owner: Sid, group: Sid, acl: seq<Ace>, q: Request, start: Attr)
    requires q.Valid()
    ensures var a := Stat(Security(owner, group, List(Create(acl, q))), start);
            && a.mode.user == MaskOr(NewFound(acl, q, User), start.mode.user)
            && a.mode.group == MaskOr(NewFound(acl, q, Group), start.mode.group)
            && a.mode.other == MaskOr(NewFound(acl, q, Other), AuthenticatedEntry(q).mask)
            && a.userSid == SidOr(NewFound(acl, q, User), owner)
            && a.groupSid == SidOr(NewFound(acl, q, Group), group)
  {
    CreateFound(acl, q);
  }

  lemma CreateShowsOther(m: WinMode, acl: seq<Ace>, q: Request, mode: Bits)
    requires q.Valid() && q.mode == ModeWin(mode)
    requires m.other == MaskOr(NewFound(acl, q, Other), AuthenticatedEntry(q).mask)
    ensures ModePosix(m) * S_IRWXO == mode * S_IRWXO
  {
    AuthenticatedShows(q);
    OtherShows(m, mode);
  }

  lemma CreateShowsUser(m: WinMode, acl: seq<Ace>, q: Request, mode: Bits, start: Bits)
    requires q.Valid() && q.mode == ModeWin(mode) && Found(acl, User).Some?
    requires m.user == MaskOr(NewFound(acl, q, User), start)
    ensures ModePosix(m) * S_IRWXU == mode * S_IRWXU
  {
    UserShows(m, mode);
  }

  lemma CreateShowsGroup(m: WinMode, acl: seq<Ace>, q: Request, mode: Bits, start: Bits)
    requires q.Valid() && q.mode == ModeWin(mode) && Found(acl, Group).Some?
    requires m.group == MaskOr(NewFound(acl, q, Group), start)
    ensures ModePosix(m) * S_IRWXG == mode * S_IRWXG
  {
    GroupShows(m, mode);
  }

  /** stat on a new file with a list shows the requested rwx bits for "other" always, and for user
      and group where the directory's list had them; the owner replaces an account of the machine. */
  lemma CreateThenStat(owner: Sid, group: Sid, acl: seq<Ace>, q: Request, mode: Bits, start: Attr)
    requires q.Valid() && q.mode == ModeWin(mode)
    ensures var a := Stat(Security(owner, group, List(Create(acl, q))), start);
            && ModePosix(a.mode) * S_IRWXO == mode * S_IRWXO
            && (Found(acl, User).Some? ==>
                  && ModePosix(a.mode) * S_IRWXU == mode * S_IRWXU
                  && a.userSid == (if EqualPrefix(Found(acl, User).value.sid, q.machine) then q.owner else Found(acl, User).value.sid))
            && (Found(acl, Group).Some? ==>
                  && ModePosix(a.mode) * S_IRWXG == mode * S_IRWXG
                  && a.groupSid == Found(acl, Group).value.sid)
  {
    CreateStat(owner, group, acl, q, start);
    var a := Stat(Security(owner, group, List(Create(acl, q))), start);
    CreateShowsOther(a.mode, acl, q, mode);
    if Found(acl, User).Some? {
      CreateShowsUser(a.mode, acl, q, mode, start.mode.user);
    }
    if Found(acl, Group).Some? {
      CreateShowsGroup(a.mode, acl, q, mode, start.mode.group);
    }
  }

  /** stat on a new file shows the requested rwx bits for "other" if and only if the directory
      has a list, if only a null one, or all three bits are requested: without a list the new
      file has none, and shows all nine bits. */
  lemma CreateShows(owner: Sid, group: Sid, d: Dacl, q: Request, mode: Bits, start: Attr)
    requires q.Valid() && q.mode == ModeWin(mode)
    ensures var m := ModePosix(Stat(Security(owner, group, CreateDacl(d, q)), start).mode);
            && (m * S_IRWXO == mode * S_IRWXO <==> !d.NotPresent? || mode * S_IRWXO == S_IRWXO)
            && (d.NotPresent? ==> m * S_IRWXU == S_IRWXU && m * S_IRWXG == S_IRWXG && m * S_IRWXO == S_IRWXO)
  {
    if d.NotPresent? {
      NoListShows(owner, group, d, q.mode, start);
    } else {
      CreateThenStat(owner, group, d.Entries(), q, mode, start);
    }
  }

  /** A second creation inside a new directory finds the classes of the first. */
  lemma CreateKeepsClasses(acl: seq<Ace>, q: Request)
    requires q.Valid()
    ensures ScanMask(Create(acl, q)) == Marked(ScanMask(acl), true)
  {
    ExtraScan(acl, q);
    InheritedScan(acl, q, Extra(acl, q), !ScanMask(acl).other);
  }

  // ---------- the new list, entry by entry ----------

  /** The indices of the entries that are kept, in order: those found for a class, and those
      whose class was taken. */
  function KeptAt(acl: seq<Ace>, from: nat): (r: seq<nat>)
    requires from <= |acl|
    ensures forall k :: 0 <= k < |r| ==> from <= r[k] < |acl|
    ensures forall j, k :: 0 <= j < k < |r| ==> r[j] < r[k]
    ensures forall i :: from <= i < |acl| ==> (i in r <==> KindAt(acl, i) != Nothing && KindAt(acl, i) != Default)
    decreases |acl| - from
  {
    if from == |acl| then []
    else (if KindAt(acl, from) != Nothing && KindAt(acl, from) != Default then [from] else []) + KeptAt(acl, from + 1)
  }

  lemma InheritedStep(acl: seq<Ace>, q: Request, from: nat)
    requires q.Valid() && from < |acl|
    ensures var kind := KindAt(acl, from);
            Inherited(acl[from..], q) ==
            (if kind != Nothing && kind != Default then [NewEntry(acl[from], kind, q)] else []) + Inherited(acl[from + 1..], q)
  {
    assert acl[from..][1..] == acl[from + 1..] && acl[from..][0] == acl[from];
  }

  /** The entries `r` are the new ones for the indices `kept`, in order. */
  ghost predicate AreNew(acl: seq<Ace>, q: Request, kept: seq<nat>, r: seq<Ace>)
    requires q.Valid() && forall k :: 0 <= k < |kept| ==> kept[k] < |acl|
  {
    |r| == |kept| && forall k :: 0 <= k < |kept| ==> r[k] == NewEntry(acl[kept[k]], KindAt(acl, kept[k]), q)
  }

  lemma AreNewStep(acl: seq<Ace>, q: Request, i: nat, kept: seq<nat>, r: seq<Ace>)
    requires q.Valid() && i < |acl| && (forall k :: 0 <= k < |kept| ==> kept[k] < |acl|) && AreNew(acl, q, kept, r)
    ensures AreNew(acl, q, [i] + kept, [NewEntry(acl[i], KindAt(acl, i), q)] + r)
  {
  }

  /** The inherited entries are the kept ones, in their order. */
  lemma {:induction false} InheritedAre(acl: seq<Ace>, q: Request, from: nat)
    requires q.Valid() && from <= |acl|
    ensures AreNew(acl, q, KeptAt(acl, from), Inherited(acl[from..], q))
    decreases |acl| - from
  {
    if from < |acl| {
      InheritedAre(acl, q, from + 1);
      InheritedStep(acl, q, from);
      AreNewStep(acl, q, from, KeptAt(acl, from + 1), Inherited(acl[from + 1..], q));
    }
  }

  /** An entry of a new list has the type of the directory's entry, its access bits outside rwx,
      and its flags but for the two inheritance flags, which are those asked for. */
  lemma NewEntryIs(e: Ace, kind: Kind, q: Request, b: nat)
    requires q.Valid()
    ensures var n := NewEntry(e, kind, q);
            && n.aceType == e.aceType
            && (b in n.flags <==> if b == 0 || b == 1 then b in q.flags else b in e.flags)
            && (b !in {0, 1, 2, 4, 5} ==> (b in n.mask <==> b in e.mask))
            && n.sid == if kind == User && EqualPrefix(e.sid, q.machine) then q.owner else e.sid
  {
    var n := NewEntry(e, kind, q);
    assert n.mask - WIN_S_IRWX == e.mask - WIN_S_IRWX;
    assert b in n.mask - WIN_S_IRWX <==> b in e.mask - WIN_S_IRWX;
  }

  /** The whole new list: the kept entries in order, and, exactly if no entry of the directory
      stands for other, one that lets Authenticated Users read attributes besides. */
  lemma CreateIs(acl: seq<Ace>, q: Request)
    requires q.Valid()
    ensures var kept, r := KeptAt(acl, 0), Create(acl, q);
            && |r| == |kept| + (if SomeFor(acl, Other) then 0 else 1)
            && (forall k :: 0 <= k < |kept| ==> r[k] == NewEntry(acl[kept[k]], KindAt(acl, kept[k]), q))
            && (!SomeFor(acl, Other) ==>
                  r[|kept|] == Ace(0, {4} + q.flags, {3, 7, 17, 20} + q.mode.other, Sid([0, 0, 0, 0, 0], 5, [11])))
  {
    InheritedAre(acl, q, 0);
    assert acl[0..] == acl;
    ClassesAre(acl, Other);
    assert {17} + {20} + ({7} + {3} + q.mode.other) == {3, 7, 17, 20} + q.mode.other;
  }

  /** The directory's own list: kept entries are edited, but for one whose SID was replaced. */
  lemma {:induction false} EditedAre(acl: seq<Ace>, q: Request, i: nat)
    requires q.Valid() && i < |acl|
    ensures var kind := KindAt(acl, i);
            var copied := kind == User && EqualPrefix(acl[i].sid, q.machine);
            Edited(acl, q)[i] ==
            if kind == Nothing || kind == Default || copied then acl[i] else NewEntry(acl[i], kind, q)
  {
    if i == 0 {
      assert acl[0..] == acl;
    } else {
      assert acl[1..][i - 1..] == acl[i..];
      EditedAre(acl[1..], q, i - 1);
    }
  }
}
