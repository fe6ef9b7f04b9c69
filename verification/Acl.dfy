/** Unix modes and owners on Windows access control lists (libposix/vfs/vfs_acl.c).

    An access list is scanned from its last entry to its first, so what the scan does at
    an entry depends on the entries after it: the scan of a list is defined by the scan
    of its tail.
 */
module Acl {
  import opened Common
  import opened Sids
  import opened Modes

  const ACCESS_ALLOWED_ACE_TYPE: nat := 0
  const OBJECT_INHERIT_ACE: Bits := {0}
  const CONTAINER_INHERIT_ACE: Bits := {1}
  const INHERIT_ONLY_ACE: Bits := {3}
  const INHERITED_ACE: Bits := {4}
  const ALL_INHERIT_ACE: Bits := OBJECT_INHERIT_ACE + CONTAINER_INHERIT_ACE

  const DELETE: Bits := {16}
  const READ_CONTROL: Bits := {17}
  const WRITE_DAC: Bits := {18}
  const SYNCHRONIZE: Bits := {20}

  /** What the scan makes of an entry: nothing, one of the three classes, a default entry
      for children, or an entry whose class was already taken. */
  datatype Kind = Nothing | User | Group | Other | Default | Access

  /** The bits of dwTypeMask: the classes assigned so far. */
  datatype Classes = Classes(user: bool, group: bool, other: bool)
  {
    predicate Has(k: Kind) {
      (k.User? && user) || (k.Group? && group) || (k.Other? && other)
    }

    function With(k: Kind): Classes {
      Classes(user || k.User?, group || k.Group?, other || k.Other?)
    }
  }

  const NO_CLASS := Classes(false, false, false)

  datatype Ace = Ace(aceType: nat, flags: Bits, mask: Bits, sid: Sid)

  /** The access list of a security descriptor: none, or a null list, or a list. */
  datatype Dacl = NotPresent | NullList | List(acl: seq<Ace>)
  {
    /** The entries that a scan meets. */
    function Entries(): seq<Ace> {
      if List? then acl else []
    }

    /** What setting a list makes of a descriptor: nothing if it had none. */
    function Set(entries: seq<Ace>): Dacl {
      if NotPresent? then NotPresent else List(entries)
    }
  }

  /** What GetSecurityDescriptorDacl() found. */
  ghost function DaclOf(present: bool, dacl: array?<Ace>): Dacl
    reads if dacl == null then {} else {dacl}
  {
    if !present then NotPresent else if dacl == null then NullList else List(dacl[..])
  }

  /** What AclOwnerType() returns and what it leaves in the type mask. */
  datatype Owner = Owner(kind: Kind, mask: Classes)

  /** AclOwnerType() */
  function OwnerType(e: Ace, typeMask: Classes): Owner {
    if e.aceType != ACCESS_ALLOWED_ACE_TYPE then Owner(Nothing, typeMask)
    else if Has(e.flags, INHERIT_ONLY_ACE) then Owner(Default, typeMask)
    else
      var kind :=
        if Has(e.mask, WRITE_DAC) then if typeMask.user then Group else User
        else if Has(e.mask, DELETE) then if typeMask.group then Other else Group
        else if Has(e.mask, READ_CONTROL) then if typeMask.other then Group else Other
        else Nothing;
      if typeMask.Has(kind) then Owner(Access, typeMask) else Owner(kind, typeMask.With(kind))
  }

  predicate IsClass(k: Kind) {
    k.User? || k.Group? || k.Other?
  }

  /** One step of the scan: a class is assigned only if it was free, and then it is taken. */
  lemma OwnerTypeStep(e: Ace, typeMask: Classes, k: Kind)
    requires IsClass(k)
    ensures var o := OwnerType(e, typeMask);
            && (o.kind == k ==> !typeMask.Has(k))
            && (o.mask.Has(k) <==> typeMask.Has(k) || o.kind == k)
  {
  }

  /** Entries that the scan cannot tell apart: same type, same inherit-only flag and same
      access bits outside rwx.  Their SIDs and other flags are free. */
  predicate Alike(a: Ace, b: Ace) {
    && a.aceType == b.aceType
    && Has(a.flags, INHERIT_ONLY_ACE) == Has(b.flags, INHERIT_ONLY_ACE)
    && a.mask - WIN_S_IRWX == b.mask - WIN_S_IRWX
  }

  lemma ControlBits(a: Bits, b: Bits, c: Bits)
    requires a - WIN_S_IRWX == b - WIN_S_IRWX && c !! WIN_S_IRWX
    ensures Has(a, c) == Has(b, c)
  {
    forall i | i in c ensures i in a <==> i in b {
      assert i in a - WIN_S_IRWX <==> i in b - WIN_S_IRWX;
    }
  }

  lemma OwnerTypeAlike(a: Ace, b: Ace, typeMask: Classes)
    requires Alike(a, b)
    ensures OwnerType(a, typeMask) == OwnerType(b, typeMask)
  {
    ControlBits(a.mask, b.mask, WRITE_DAC);
    ControlBits(a.mask, b.mask, DELETE);
    ControlBits(a.mask, b.mask, READ_CONTROL);
  }

  // ---------- the scan ----------

  /** The type mask after the scan of a whole list. */
  function ScanMask(acl: seq<Ace>): Classes {
    if acl == [] then NO_CLASS else OwnerType(acl[0], ScanMask(acl[1..])).mask
  }

  /** The kind that the scan gives to the first entry of a list. */
  function HeadKind(acl: seq<Ace>): Kind
    requires acl != []
  {
    OwnerType(acl[0], ScanMask(acl[1..])).kind
  }

  function KindAt(acl: seq<Ace>, i: nat): Kind
    requires i < |acl|
  {
    HeadKind(acl[i..])
  }

  /** The entry that the scan assigns to a class. */
  function Found(acl: seq<Ace>, k: Kind): Option<Ace> {
    if acl == [] then None
    else if HeadKind(acl) == k then Some(acl[0])
    else Found(acl[1..], k)
  }

  /** The running type mask holds exactly the classes assigned so far. */
  lemma {:induction false} MaskIsAssigned(acl: seq<Ace>, k: Kind)
    requires IsClass(k)
    ensures ScanMask(acl).Has(k) <==> Found(acl, k).Some?
  {
    if acl != [] {
      MaskIsAssigned(acl[1..], k);
      OwnerTypeStep(acl[0], ScanMask(acl[1..]), k);
    }
  }

  lemma {:induction false} KindIsFound(acl: seq<Ace>, k: Kind, i: nat)
    requires IsClass(k) && i < |acl| && KindAt(acl, i) == k
    ensures Found(acl, k).Some?
  {
    if i == 0 {
      assert acl[0..] == acl;
    } else {
      assert acl[1..][i - 1..] == acl[i..];
      KindIsFound(acl[1..], k, i - 1);
    }
  }

  /** Each class is assigned to at most one entry. */
  lemma AssignedOnce(acl: seq<Ace>, i: nat, j: nat)
    requires i < j < |acl| && IsClass(KindAt(acl, i))
    ensures KindAt(acl, i) != KindAt(acl, j)
  {
    var k := KindAt(acl, i);
    assert acl[i..][1..] == acl[i + 1..] && acl[i + 1..][j - i - 1..] == acl[j..];
    if KindAt(acl, j) == k {
      KindIsFound(acl[i + 1..], k, j - i - 1);
    }
    MaskIsAssigned(acl[i + 1..], k);
    OwnerTypeStep(acl[i], ScanMask(acl[i + 1..]), k);
  }

  /** The scan gives the same kinds to lists whose entries are pairwise alike. */
  lemma {:induction false} ScanAlike(a: seq<Ace>, b: seq<Ace>)
    requires |a| == |b| && forall i :: 0 <= i < |a| ==> Alike(a[i], b[i])
    ensures ScanMask(a) == ScanMask(b)
    ensures forall i :: 0 <= i < |a| ==> KindAt(a, i) == KindAt(b, i)
  {
    if a != [] {
      ScanAlike(a[1..], b[1..]);
      OwnerTypeAlike(a[0], b[0], ScanMask(a[1..]));
      forall i | 0 <= i < |a| ensures KindAt(a, i) == KindAt(b, i) {
        if i == 0 {
          assert a[0..] == a && b[0..] == b;
        } else {
          assert a[i..] == a[1..][i - 1..] && b[i..] == b[1..][i - 1..];
          assert KindAt(a[1..], i - 1) == KindAt(b[1..], i - 1);
        }
      }
    }
  }

  // ---------- which entry stands for which class ----------

  /** An entry that takes part in the scan: allowed, and not for children only. */
  predicate Scanned(e: Ace) {
    e.aceType == 0 && 3 !in e.flags
  }

  /** Entries that may change the list, those that may delete, and those that may read it. */
  predicate MayChange(e: Ace) {
    Scanned(e) && 18 in e.mask
  }

  predicate MayDelete(e: Ace) {
    Scanned(e) && 18 !in e.mask && 16 in e.mask
  }

  predicate MayRead(e: Ace) {
    Scanned(e) && 18 !in e.mask && 16 !in e.mask && 17 in e.mask
  }

  /** The entry at `i` stands for the group if it may delete, and also if a later entry of its
      own sort came first: of those that may change the list the second, and of those that
      may just read it the second. */
  ghost predicate ForGroup(acl: seq<Ace>, i: nat)
    requires i < |acl|
  {
    || MayDelete(acl[i])
    || (MayChange(acl[i]) && exists j :: i < j < |acl| && MayChange(acl[j]))
    || (MayRead(acl[i]) && exists j :: i < j < |acl| && MayRead(acl[j]))
  }

  /** The entry at `i` is one for class `k`; of these the last in the list is found. */
  ghost predicate ForClass(acl: seq<Ace>, i: nat, k: Kind)
    requires i < |acl|
  {
    match k
    case User => MayChange(acl[i])
    case Group => ForGroup(acl, i)
    case Other => MayRead(acl[i]) || (MayDelete(acl[i]) && exists j :: i < j < |acl| && ForGroup(acl, j))
    case _ => false
  }

  /** `e` is the last entry for class `k`, or there is none. */
  ghost predicate IsLastFor(acl: seq<Ace>, k: Kind, e: Option<Ace>) {
    match e
    case None => forall i :: 0 <= i < |acl| ==> !ForClass(acl, i, k)
    case Some(ace) =>
      exists i :: 0 <= i < |acl| && ForClass(acl, i, k) && acl[i] == ace
                  && forall j :: i < j < |acl| ==> !ForClass(acl, j, k)
  }

  ghost predicate SomeFor(acl: seq<Ace>, k: Kind) {
    exists i :: 0 <= i < |acl| && ForClass(acl, i, k)
  }

  lemma ForGroupTail(acl: seq<Ace>, i: nat)
    requires i + 1 < |acl|
    ensures ForGroup(acl, i + 1) <==> ForGroup(acl[1..], i)
  {
    var t := acl[1..];
    if ForGroup(t, i) && !MayDelete(t[i]) {
      if MayChange(t[i]) {
        var j :| i < j < |t| && MayChange(t[j]);
        assert acl[j + 1] == t[j];
      } else {
        var j :| i < j < |t| && MayRead(t[j]);
        assert acl[j + 1] == t[j];
      }
    }
    if ForGroup(acl, i + 1) && !MayDelete(t[i]) {
      if MayChange(t[i]) {
        var j :| i + 1 < j < |acl| && MayChange(acl[j]);
        assert t[j - 1] == acl[j];
      } else {
        var j :| i + 1 < j < |acl| && MayRead(acl[j]);
        assert t[j - 1] == acl[j];
      }
    }
  }

  lemma ForClassTail(acl: seq<Ace>, i: nat, k: Kind)
    requires i + 1 < |acl|
    ensures ForClass(acl, i + 1, k) <==> ForClass(acl[1..], i, k)
  {
    var t := acl[1..];
    ForGroupTail(acl, i);
    if k.Other? {
      forall j | i < j < |t| ensures ForGroup(acl, j + 1) <==> ForGroup(t, j) {
        ForGroupTail(acl, j);
      }
      if ForClass(acl, i + 1, k) && !MayRead(t[i]) {
        var j :| i + 1 < j < |acl| && ForGroup(acl, j);
        assert ForGroup(t, j - 1);
      }
      if ForClass(t, i, k) && !MayRead(t[i]) {
        var j :| i < j < |t| && ForGroup(t, j);
        assert ForGroup(acl, j + 1);
      }
    }
  }

  lemma SomeForTail(acl: seq<Ace>, k: Kind)
    requires acl != []
    ensures SomeFor(acl, k) <==> ForClass(acl, 0, k) || SomeFor(acl[1..], k)
  {
    var t := acl[1..];
    if SomeFor(t, k) {
      var i :| 0 <= i < |t| && ForClass(t, i, k);
      ForClassTail(acl, i, k);
      assert ForClass(acl, i + 1, k);
    }
    if SomeFor(acl, k) && !ForClass(acl, 0, k) {
      var i :| 0 <= i < |acl| && ForClass(acl, i, k);
      ForClassTail(acl, i - 1, k);
      assert ForClass(t, i - 1, k);
    }
  }

  /** The first entry of a list is for the group, or for other, depending on the tail. */
  lemma HeadFor(acl: seq<Ace>)
    requires acl != []
    ensures ForClass(acl, 0, Group) <==>
            || MayDelete(acl[0])
            || (MayChange(acl[0]) && exists j :: 0 <= j < |acl[1..]| && MayChange(acl[1..][j]))
            || (MayRead(acl[0]) && exists j :: 0 <= j < |acl[1..]| && MayRead(acl[1..][j]))
    ensures ForClass(acl, 0, Other) <==> MayRead(acl[0]) || (MayDelete(acl[0]) && SomeFor(acl[1..], Group))
  {
    var t := acl[1..];
    forall j | 0 <= j < |t| ensures t[j] == acl[j + 1] && (ForGroup(t, j) <==> ForGroup(acl, j + 1)) {
      ForGroupTail(acl, j);
    }
    forall j | 0 < j < |acl| ensures acl[j] == t[j - 1] && (ForGroup(acl, j) <==> ForGroup(t, j - 1)) {
      ForGroupTail(acl, j - 1);
    }
    if SomeFor(t, Group) {
      var j :| 0 <= j < |t| && ForClass(t, j, Group);
      assert ForGroup(acl, j + 1);
    }
    if exists j :: 0 < j < |acl| && ForGroup(acl, j) {
      var j :| 0 < j < |acl| && ForGroup(acl, j);
      assert ForClass(t, j - 1, Group);
    }
  }

  /** While no entry is for the group, "other" is taken exactly if some entry may read. */
  lemma OtherBeforeGroup(acl: seq<Ace>)
    requires !SomeFor(acl, Group)
    ensures SomeFor(acl, Other) <==> exists j :: 0 <= j < |acl| && MayRead(acl[j])
  {
    if SomeFor(acl, Other) {
      var i :| 0 <= i < |acl| && ForClass(acl, i, Other);
      if !MayRead(acl[i]) {
        assert ForClass(acl, i, Group);
      }
    }
    if exists j :: 0 <= j < |acl| && MayRead(acl[j]) {
      var j :| 0 <= j < |acl| && MayRead(acl[j]);
      assert ForClass(acl, j, Other);
    }
  }

  /** The kind of the first entry, when the classes of the tail are known. */
  lemma HeadIs(acl: seq<Ace>, k: Kind)
    requires acl != [] && IsClass(k)
    requires forall c :: IsClass(c) ==> (ScanMask(acl[1..]).Has(c) <==> SomeFor(acl[1..], c))
    ensures HeadKind(acl) == k <==> ForClass(acl, 0, k) && !SomeFor(acl[1..], k)
  {
    var t := acl[1..];
    var m := ScanMask(t);
    HeadFor(acl);
    assert (m.user <==> SomeFor(t, User)) && (m.group <==> SomeFor(t, Group)) && (m.other <==> SomeFor(t, Other)) by {
      assert (m.Has(User) <==> SomeFor(t, User)) && (m.Has(Group) <==> SomeFor(t, Group)) && (m.Has(Other) <==> SomeFor(t, Other));
    }
    assert SomeFor(t, User) <==> exists j :: 0 <= j < |t| && MayChange(t[j]) by {
      if SomeFor(t, User) {
        var j :| 0 <= j < |t| && ForClass(t, j, User);
        assert MayChange(t[j]);
      }
      if exists j :: 0 <= j < |t| && MayChange(t[j]) {
        var j :| 0 <= j < |t| && MayChange(t[j]);
        assert ForClass(t, j, User);
      }
    }
    if !SomeFor(t, Group) {
      OtherBeforeGroup(t);
    }
  }

  /** The running type mask, in terms of the list alone. */
  lemma {:induction false} ClassesAre(acl: seq<Ace>, k: Kind)
    requires IsClass(k)
    ensures ScanMask(acl).Has(k) <==> SomeFor(acl, k)
  {
    if acl != [] {
      ClassesAre(acl[1..], User);
      ClassesAre(acl[1..], Group);
      ClassesAre(acl[1..], Other);
      HeadIs(acl, k);
      SomeForTail(acl, k);
      OwnerTypeStep(acl[0], ScanMask(acl[1..]), k);
    }
  }

  lemma FoundInTail(acl: seq<Ace>, k: Kind)
    requires acl != [] && IsClass(k) && IsLastFor(acl[1..], k, Found(acl[1..], k))
    requires forall i :: 0 < i < |acl| ==> (ForClass(acl, i, k) <==> ForClass(acl[1..], i - 1, k))
    requires ForClass(acl, 0, k) ==> SomeFor(acl[1..], k)
    ensures IsLastFor(acl, k, Found(acl[1..], k))
  {
    var t := acl[1..];
    match Found(t, k)
    case None =>
      assert !SomeFor(t, k);
    case Some(e) =>
      var i :| 0 <= i < |t| && ForClass(t, i, k) && t[i] == e && forall j :: i < j < |t| ==> !ForClass(t, j, k);
      assert ForClass(acl, i + 1, k) && acl[i + 1] == e;
      assert forall j :: i + 1 < j < |acl| ==> !ForClass(acl, j, k);
  }

  /** In every list the scan finds, for each class, the last entry that is one for it. */
  lemma {:induction false} FoundIsLast(acl: seq<Ace>, k: Kind)
    requires IsClass(k)
    ensures IsLastFor(acl, k, Found(acl, k))
  {
    if acl != [] {
      var t := acl[1..];
      forall c | IsClass(c) ensures ScanMask(t).Has(c) <==> SomeFor(t, c) {
        ClassesAre(t, c);
      }
      HeadIs(acl, k);
      forall i | 0 < i < |acl| ensures ForClass(acl, i, k) <==> ForClass(t, i - 1, k) {
        ForClassTail(acl, i - 1, k);
      }
      if HeadKind(acl) != k {
        FoundIsLast(t, k);
        MaskIsAssigned(t, k);
        FoundInTail(acl, k);
      } else {
        assert forall j :: 0 < j < |acl| ==> !ForClass(acl, j, k);
      }
    }
  }

  // ---------- chmod ----------

  /** What `mode_win` produces: each class has rwx bits only. */
  predicate IsMode(mode: WinMode) {
    mode.user <= WIN_S_IRWX && mode.group <= WIN_S_IRWX && mode.other <= WIN_S_IRWX
  }

  /** The access mask that a kind of entry gets from a mode. */
  function ModeMask(mask: Bits, kind: Kind, mode: WinMode): (r: Bits)
    requires IsMode(mode)
    ensures r - WIN_S_IRWX == mask - WIN_S_IRWX
  {
    match kind
    case User => SetRwx(mask, mode.user)
    case Group => SetRwx(mask, mode.group)
    case Other => SetRwx(mask, mode.other)
    case _ => mask
  }

  function Chmod(acl: seq<Ace>, mode: WinMode): (r: seq<Ace>)
    requires IsMode(mode)
    ensures |r| == |acl|
  {
    if acl == [] then []
    else [acl[0].(mask := ModeMask(acl[0].mask, HeadKind(acl), mode))] + Chmod(acl[1..], mode)
  }

  function ChmodDacl(d: Dacl, mode: WinMode): Dacl
    requires IsMode(mode)
  {
    if d.List? then List(Chmod(d.acl, mode)) else d
  }

  /** The loop of vfs_acl_chmod(): the masks are edited in place. */
  method ChmodEntries(dacl: array<Ace>, mode: WinMode)
    requires IsMode(mode)
    modifies dacl
    ensures dacl[..] == Chmod(old(dacl[..]), mode)
  {
    var i := dacl.Length;
    var typeMask := NO_CLASS;
    ghost var acl := dacl[..];
    while i > 0
      invariant 0 <= i <= |acl| && dacl[..i] == acl[..i]
      invariant dacl[i..] == Chmod(acl[i..], mode)
      invariant typeMask == ScanMask(acl[i..])
    {
      i := i - 1;
      var info := dacl[i];
      var owner := OwnerType(info, typeMask);
      typeMask := owner.mask;
      assert acl[i..][0] == info && acl[i..][1..] == acl[i + 1..];
      var amNew := info.mask - WIN_S_IRWX;
      ghost var tail := dacl[i + 1..];
      if owner.kind.User? {
        dacl[i] := info.(mask := Plus(amNew, mode.user));
      } else if owner.kind.Group? {
        dacl[i] := info.(mask := Plus(amNew, mode.group));
      } else if owner.kind.Other? {
        dacl[i] := info.(mask := Plus(amNew, mode.other));
      }
      assert dacl[i + 1..] == tail && dacl[i..] == [dacl[i]] + tail;
    }
    assert acl[0..] == acl && dacl[0..] == dacl[..];
  }

  /** vfs_acl_chmod(): the list of the source, edited, becomes that of the result. */
  method VfsAclChmod(present: bool, dacl: array?<Ace>, mode: WinMode) returns (newPresent: bool, newDacl: array?<Ace>)
    requires IsMode(mode)
    modifies if present && dacl != null then {dacl} else {}
    ensures newPresent == present && newDacl == dacl
    ensures DaclOf(newPresent, newDacl) == ChmodDacl(old(DaclOf(present, dacl)), mode)
  {
    if present && dacl != null {
      ChmodEntries(dacl, mode);
    }
    newPresent, newDacl := present, dacl;
  }

  /** chmod changes nothing that the scan looks at, and edits each entry by its own kind. */
  lemma {:induction false} ChmodScan(acl: seq<Ace>, mode: WinMode)
    requires IsMode(mode)
    ensures ScanMask(Chmod(acl, mode)) == ScanMask(acl)
    ensures acl != [] ==> HeadKind(Chmod(acl, mode)) == HeadKind(acl)
  {
    if acl != [] {
      ChmodScan(acl[1..], mode);
      var r := Chmod(acl, mode);
      assert r[1..] == Chmod(acl[1..], mode);
      OwnerTypeAlike(r[0], acl[0], ScanMask(acl[1..]));
    }
  }

  lemma {:induction false} ChmodFound(acl: seq<Ace>, mode: WinMode, k: Kind)
    requires IsMode(mode)
    ensures Found(Chmod(acl, mode), k) ==
            match Found(acl, k)
            case None => None
            case Some(e) => Some(e.(mask := ModeMask(e.mask, k, mode)))
  {
    if acl != [] {
      ChmodScan(acl, mode);
      assert Chmod(acl, mode)[1..] == Chmod(acl[1..], mode);
      ChmodFound(acl[1..], mode, k);
    }
  }

  /** Everything but the rwx bits of the three assigned entries survives a chmod. */
  lemma {:induction false} ChmodKeeps(acl: seq<Ace>, mode: WinMode, i: nat)
    requires IsMode(mode) && i < |acl|
    ensures var before, after := acl[i], Chmod(acl, mode)[i];
            && after == before.(mask := after.mask)
            && after.mask - WIN_S_IRWX == before.mask - WIN_S_IRWX
            && (!IsClass(KindAt(acl, i)) ==> after == before)
  {
    if i == 0 {
      assert acl[0..] == acl;
    } else {
      assert acl[i..] == acl[1..][i - 1..];
      ChmodKeeps(acl[1..], mode, i - 1);
    }
  }

  lemma ModeMaskTwice(mask: Bits, kind: Kind, m1: WinMode, m2: WinMode)
    requires IsMode(m1) && IsMode(m2)
    ensures ModeMask(ModeMask(mask, kind, m1), kind, m2) == ModeMask(mask, kind, m2)
  {
  }

  /** Of two chmods in a row only the second counts. */
  lemma {:induction false} ChmodTwice(acl: seq<Ace>, m1: WinMode, m2: WinMode)
    requires IsMode(m1) && IsMode(m2)
    ensures Chmod(Chmod(acl, m1), m2) == Chmod(acl, m2)
  {
    if acl != [] {
      ChmodScan(acl, m1);
      assert Chmod(acl, m1)[1..] == Chmod(acl[1..], m1);
      ChmodTwice(acl[1..], m1, m2);
      ModeMaskTwice(acl[0].mask, HeadKind(acl), m1, m2);
    }
  }

  // ---------- stat ----------

  datatype Attr = Attr(mode: WinMode, userSid: Sid, groupSid: Sid)

  datatype Security = Security(owner: Sid, group: Sid, dacl: Dacl)

  /** An attribute of the entry found for a class, or else the given value. */
  function MaskOr(e: Option<Ace>, otherwise: Bits): Bits {
    if e.Some? then e.value.mask else otherwise
  }

  function SidOr(e: Option<Ace>, otherwise: Sid): Sid {
    if e.Some? then e.value.sid else otherwise
  }

  function StatSpecial(sec: Security, special: Bits): Bits {
    var s := if sec.owner == SID_ADMINS then special + WIN_S_ISUID else special;
    if sec.group == SID_SYSTEM then s + WIN_S_ISGID else s
  }

  function Stat(sec: Security, start: Attr): Attr {
    var special := StatSpecial(sec, start.mode.special);
    match sec.dacl
    case NotPresent =>
      Attr(WinMode(start.mode.fileType, WIN_S_IRWX, WIN_S_IRWX, WIN_S_IRWX, special), sec.owner, sec.group)
    case NullList =>
      Attr(WinMode(start.mode.fileType, WIN_S_IRWX, WIN_S_IRWX, WIN_S_IRWX, special), sec.owner, sec.group)
    case List(acl) =>
      var u, g, o := Found(acl, User), Found(acl, Group), Found(acl, Other);
      Attr(WinMode(start.mode.fileType, MaskOr(u, start.mode.user), MaskOr(g, start.mode.group),
                   MaskOr(o, start.mode.other), special),
           SidOr(u, sec.owner), SidOr(g, sec.group))
  }

  /** vfs_acl_stat() */
  method VfsAclStat(sec: Security, start: Attr) returns (r: Attr)
    ensures r == Stat(sec, start)
  {
    r := start.(userSid := sec.owner, groupSid := sec.group);
    var acl, i := [], 0;
    match sec.dacl {
      case List(entries) => acl := entries; i := |entries|;
      case _ =>
        r := r.(mode := r.mode.(user := WIN_S_IRWX, group := WIN_S_IRWX, other := WIN_S_IRWX));
    }
    var typeMask := NO_CLASS;
    ghost var first := r;
    while i > 0
      invariant 0 <= i <= |acl| && typeMask == ScanMask(acl[i..])
      invariant r.userSid == SidOr(Found(acl[i..], User), first.userSid)
      invariant r.groupSid == SidOr(Found(acl[i..], Group), first.groupSid)
      invariant r.mode == WinMode(first.mode.fileType, MaskOr(Found(acl[i..], User), first.mode.user),
                                  MaskOr(Found(acl[i..], Group), first.mode.group),
                                  MaskOr(Found(acl[i..], Other), first.mode.other), first.mode.special)
    {
      i := i - 1;
      var info := acl[i];
      assert acl[i..][0] == info && acl[i..][1..] == acl[i + 1..];
      var owner := OwnerType(info, typeMask);
      typeMask := owner.mask;
      if owner.kind.User? {
        r := r.(userSid := info.sid, mode := r.mode.(user := info.mask));
      } else if owner.kind.Group? {
        r := r.(groupSid := info.sid, mode := r.mode.(group := info.mask));
      } else if owner.kind.Other? {
        r := r.(mode := r.mode.(other := info.mask));
      }
    }
    assert acl[0..] == acl;
    if sec.owner == SID_ADMINS {
      r := r.(mode := r.mode.(special := r.mode.special + WIN_S_ISUID));
    }
    if sec.group == SID_SYSTEM {
      r := r.(mode := r.mode.(special := r.mode.special + WIN_S_ISGID));
    }
  }

  /** Masks that were set from `mode` show its bits. */
  lemma ShowsMode(m: WinMode, mode: Bits, u: Option<Ace>, g: Option<Ace>, o: Option<Ace>)
    requires u.Some? ==> m.user == SetRwx(u.value.mask, ModeWin(mode).user)
    requires g.Some? ==> m.group == SetRwx(g.value.mask, ModeWin(mode).group)
    requires o.Some? ==> m.other == SetRwx(o.value.mask, ModeWin(mode).other)
    ensures u.Some? ==> ModePosix(m) * S_IRWXU == mode * S_IRWXU
    ensures g.Some? ==> ModePosix(m) * S_IRWXG == mode * S_IRWXG
    ensures o.Some? ==> ModePosix(m) * S_IRWXO == mode * S_IRWXO
  {
    if u.Some? {
      UserShows(m, mode);
    }
    if g.Some? {
      GroupShows(m, mode);
    }
    if o.Some? {
      OtherShows(m, mode);
    }
  }

  /** stat shows set-user-id for what Administrators own and set-group-id for the group SYSTEM,
      whatever the list, besides what the attributes had. */
  lemma SpecialShown(sec: Security, start: Attr)
    ensures var m := ModePosix(Stat(sec, start).mode);
            && (11 in m <==> 2 in start.mode.special || sec.owner == Sid([0, 0, 0, 0, 0], 5, [32, 544]))
            && (10 in m <==> 1 in start.mode.special || sec.group == Sid([0, 0, 0, 0, 0], 5, [18]))
            && (9 in m <==> 0 in start.mode.special)
  {
    var m := Stat(sec, start).mode;
    ModePosixBits(m, 11);
    ModePosixBits(m, 10);
    ModePosixBits(m, 9);
  }

  /** stat takes each class from the last entry for it, and keeps what it started from if there
      is none; the owners of the descriptor stand in for the missing ones. */
  lemma StatShows(owner: Sid, group: Sid, acl: seq<Ace>, start: Attr, i: nat)
    requires i < |acl|
    ensures var a := Stat(Security(owner, group, List(acl)), start);
            && (ForClass(acl, i, User) && (forall j :: i < j < |acl| ==> !ForClass(acl, j, User)) ==>
                  a.userSid == acl[i].sid && a.mode.user == acl[i].mask)
            && (ForClass(acl, i, Group) && (forall j :: i < j < |acl| ==> !ForClass(acl, j, Group)) ==>
                  a.groupSid == acl[i].sid && a.mode.group == acl[i].mask)
            && (ForClass(acl, i, Other) && (forall j :: i < j < |acl| ==> !ForClass(acl, j, Other)) ==>
                  a.mode.other == acl[i].mask)
  {
    FoundIsLast(acl, User);
    FoundIsLast(acl, Group);
    FoundIsLast(acl, Other);
  }

  /** The classes for which the list has no entry. */
  lemma StatKeeps(owner: Sid, group: Sid, acl: seq<Ace>, start: Attr)
    ensures var a := Stat(Security(owner, group, List(acl)), start);
            && (!SomeFor(acl, User) ==> a.userSid == owner && a.mode.user == start.mode.user)
            && (!SomeFor(acl, Group) ==> a.groupSid == group && a.mode.group == start.mode.group)
            && (!SomeFor(acl, Other) ==> a.mode.other == start.mode.other)
            && a.mode.fileType == start.mode.fileType
  {
    FoundIsLast(acl, User);
    FoundIsLast(acl, Group);
    FoundIsLast(acl, Other);
  }

  /** chmod(mode) followed by stat reports the nine mode bits of every class that the list has. */
  lemma ChmodThenStat(owner: Sid, group: Sid, acl: seq<Ace>, mode: Bits, start: Attr)
    ensures var m := ModePosix(Stat(Security(owner, group, List(Chmod(acl, ModeWin(mode)))), start).mode);
            && (Found(acl, User).Some? ==> m * S_IRWXU == mode * S_IRWXU)
            && (Found(acl, Group).Some? ==> m * S_IRWXG == mode * S_IRWXG)
            && (Found(acl, Other).Some? ==> m * S_IRWXO == mode * S_IRWXO)
  {
    var w := ModeWin(mode);
    ChmodFound(acl, w, User);
    ChmodFound(acl, w, Group);
    ChmodFound(acl, w, Other);
    ShowsMode(Stat(Security(owner, group, List(Chmod(acl, w))), start).mode, mode,
              Found(acl, User), Found(acl, Group), Found(acl, Other));
  }

  /** A mode that has all bits in its three classes. */
  predicate AllRwx(m: WinMode) {
    m.user == m.group == m.other == WIN_S_IRWX
  }

  lemma AllRwxShows(m: WinMode)
    requires AllRwx(m)
    ensures ModePosix(m) * S_IRWXU == S_IRWXU && ModePosix(m) * S_IRWXG == S_IRWXG && ModePosix(m) * S_IRWXO == S_IRWXO
  {
    ModeParts(m);
  }

  /** Without a list, chmod changes nothing, and stat shows all nine bits and the owners of the
      descriptor. */
  lemma NoListShows(owner: Sid, group: Sid, d: Dacl, mode: WinMode, start: Attr)
    requires !d.List? && IsMode(mode)
    ensures ChmodDacl(d, mode) == d
    ensures var m := ModePosix(Stat(Security(owner, group, d), start).mode);
            m * S_IRWXU == S_IRWXU && m * S_IRWXG == S_IRWXG && m * S_IRWXO == S_IRWXO
    ensures var a := Stat(Security(owner, group, d), start);
            a.userSid == owner && a.groupSid == group && a.mode.fileType == start.mode.fileType
  {
    AllRwxShows(Stat(Security(owner, group, d), start).mode);
  }

  // ---------- chown ----------

  function ChownEntry(e: Ace, kind: Kind, machine: Sid, newUser: Sid, newGroup: Sid): Ace
    requires IsMachine(machine)
  {
    if kind.User? && newUser != SidNone(machine) then e.(sid := newUser)
    else if kind.Group? && newGroup != SidNone(machine) then e.(sid := newGroup)
    else e
  }

  function Chown(acl: seq<Ace>, machine: Sid, newUser: Sid, newGroup: Sid): (r: seq<Ace>)
    requires IsMachine(machine)
    ensures |r| == |acl|
  {
    if acl == [] then []
    else [ChownEntry(acl[0], HeadKind(acl), machine, newUser, newGroup)] + Chown(acl[1..], machine, newUser, newGroup)
  }

  function ChownDacl(d: Dacl, machine: Sid, newUser: Sid, newGroup: Sid): Dacl
    requires IsMachine(machine)
  {
    d.Set(Chown(d.Entries(), machine, newUser, newGroup))
  }

  /** The loop of vfs_acl_chown(): a new list is built, each entry inserted at its front. */
  method ChownEntries(dacl: array<Ace>, machine: Sid, newUser: Sid, newGroup: Sid) returns (aclNew: seq<Ace>)
    requires IsMachine(machine)
    ensures aclNew == Chown(dacl[..], machine, newUser, newGroup)
  {
    var i := dacl.Length;
    aclNew := [];
    var typeMask := NO_CLASS;
    ghost var acl := dacl[..];
    while i > 0
      invariant 0 <= i <= |acl|
      invariant aclNew == Chown(acl[i..], machine, newUser, newGroup)
      invariant typeMask == ScanMask(acl[i..])
    {
      i := i - 1;
      var entry := dacl[i];
      assert acl[i..][0] == entry && acl[i..][1..] == acl[i + 1..];
      var owner := OwnerType(entry, typeMask);
      typeMask := owner.mask;
      if owner.kind.User? {
        if newUser != SidNone(machine) {
          entry := entry.(sid := newUser);
        }
      } else if owner.kind.Group? {
        if newGroup != SidNone(machine) {
          entry := entry.(sid := newGroup);
        }
      }
      aclNew := [entry] + aclNew;
    }
    assert acl[0..] == acl;
  }

  /** vfs_acl_chown(): `aclNew` is the list that is built, and `result` what is set. */
  method VfsAclChown(present: bool, dacl: array?<Ace>, machine: Sid, newUser: Sid, newGroup: Sid)
    returns (aclNew: seq<Ace>, result: Dacl)
    requires IsMachine(machine)
    ensures aclNew == Chown(DaclOf(present, dacl).Entries(), machine, newUser, newGroup)
    ensures result == ChownDacl(DaclOf(present, dacl), machine, newUser, newGroup)
  {
    aclNew := [];
    if present && dacl != null {
      aclNew := ChownEntries(dacl, machine, newUser, newGroup);
    }
    result := if present then List(aclNew) else NotPresent;
  }

  lemma {:induction false} ChownScan(acl: seq<Ace>, machine: Sid, u: Sid, g: Sid)
    requires IsMachine(machine)
    ensures ScanMask(Chown(acl, machine, u, g)) == ScanMask(acl)
    ensures acl != [] ==> HeadKind(Chown(acl, machine, u, g)) == HeadKind(acl)
  {
    if acl != [] {
      ChownScan(acl[1..], machine, u, g);
      var r := Chown(acl, machine, u, g);
      assert r[1..] == Chown(acl[1..], machine, u, g);
      OwnerTypeAlike(r[0], acl[0], ScanMask(acl[1..]));
    }
  }

  lemma {:induction false} ChownFound(acl: seq<Ace>, machine: Sid, u: Sid, g: Sid, k: Kind)
    requires IsMachine(machine)
    ensures Found(Chown(acl, machine, u, g), k) ==
            match Found(acl, k)
            case None => None
            case Some(e) => Some(ChownEntry(e, k, machine, u, g))
  {
    if acl != [] {
      ChownScan(acl, machine, u, g);
      assert Chown(acl, machine, u, g)[1..] == Chown(acl[1..], machine, u, g);
      ChownFound(acl[1..], machine, u, g, k);
    }
  }

  /** chown keeps the number and order of the entries and all of each but its SID. */
  lemma {:induction false} ChownKeeps(acl: seq<Ace>, machine: Sid, u: Sid, g: Sid, i: nat)
    requires IsMachine(machine) && i < |acl|
    ensures var before, after := acl[i], Chown(acl, machine, u, g)[i];
            && after == before.(sid := after.sid)
            && (KindAt(acl, i) != User && KindAt(acl, i) != Group ==> after == before)
  {
    if i == 0 {
      assert acl[0..] == acl;
    } else {
      assert acl[i..] == acl[1..][i - 1..];
      ChownKeeps(acl[1..], machine, u, g, i - 1);
    }
  }

  /** stat after chown: the new identities where the list has the class, and the modes untouched. */
  lemma ChownThenStat(owner: Sid, group: Sid, acl: seq<Ace>, machine: Sid, u: Sid, g: Sid, start: Attr)
    requires IsMachine(machine)
    ensures var before := Stat(Security(owner, group, List(acl)), start);
            var after := Stat(Security(owner, group, List(Chown(acl, machine, u, g))), start);
            && after.mode == before.mode
            && after.userSid == (if Found(acl, User).Some? && u != SidNone(machine) then u else before.userSid)
            && after.groupSid == (if Found(acl, Group).Some? && g != SidNone(machine) then g else before.groupSid)
  {
    ChownFound(acl, machine, u, g, User);
    ChownFound(acl, machine, u, g, Group);
    ChownFound(acl, machine, u, g, Other);
  }

  /** chown leaves the modes that stat shows alone, if and only if there was no null list, or the
      mode that stat starts from has all bits: a null list is replaced by an empty one. */
  lemma ChownKeepsMode(owner: Sid, group: Sid, d: Dacl, machine: Sid, u: Sid, g: Sid, start: Attr)
    requires IsMachine(machine)
    ensures var before := Stat(Security(owner, group, d), start);
            var after := Stat(Security(owner, group, ChownDacl(d, machine, u, g)), start);
            after.mode == before.mode <==> !d.NullList? || AllRwx(start.mode)
  {
    if d.List? {
      ChownThenStat(owner, group, d.acl, machine, u, g, start);
    }
  }

  /** chown(-1, -1) is the identity. */
  lemma {:induction false} ChownMinusOne(acl: seq<Ace>, machine: Sid)
    requires IsMachine(machine)
    ensures Chown(acl, machine, RidWin(machine, -1), RidWin(machine, -1)) == acl
  {
    MinusOneIsNone(machine);
    if acl != [] {
      ChownMinusOne(acl[1..], machine);
    }
  }

  /** chown and chmod commute. */
  lemma {:induction false} ChownChmod(acl: seq<Ace>, machine: Sid, u: Sid, g: Sid, mode: WinMode)
    requires IsMachine(machine) && IsMode(mode)
    ensures Chown(Chmod(acl, mode), machine, u, g) == Chmod(Chown(acl, machine, u, g), mode)
  {
    if acl != [] {
      ChmodScan(acl, mode);
      ChownScan(acl, machine, u, g);
      assert Chmod(acl, mode)[1..] == Chmod(acl[1..], mode);
      assert Chown(acl, machine, u, g)[1..] == Chown(acl[1..], machine, u, g);
      ChownChmod(acl[1..], machine, u, g, mode);
    }
  }
}
