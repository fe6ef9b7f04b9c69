/** Windows security identifiers and their Unix numbers (libposix/sys/stat.c, libposix/win/win.c).

    A Unix id is a 32-bit word.  `rid_posix` and `rid_win` work on the signed reading of
    it, the credential calls on the unsigned one; here it is signed, and `Unsigned` gives
    the other reading.
 */
module Sids {
  const TWO32: int := 0x1_0000_0000

  predicate IsInt32(i: int) { -0x8000_0000 <= i < 0x8000_0000 }

  /** C's conversion of any integer to a 32-bit signed one. */
  function Signed(i: int): (r: int)
    ensures IsInt32(r)
  {
    var u := i % TWO32;
    if u < 0x8000_0000 then u else u - TWO32
  }

  function Unsigned(i: int): (r: int)
    ensures 0 <= r < TWO32
  {
    i % TWO32
  }

  /** C's truncating division and remainder. */
  function Div(a: int, b: int): int
    requires b > 0
  {
    if a >= 0 then a / b else -((-a) / b)
  }

  function Rem(a: int, b: int): int
    requires b > 0
  {
    a - Div(a, b) * b
  }

  /** The identifier authority is six bytes; `authority` is the last of them, the only
      one the code looks at, and `prefix` the first five. */
  datatype Sid = Sid(prefix: seq<int>, authority: int, sub: seq<int>)

  const ZERO_PREFIX: seq<int> := [0, 0, 0, 0, 0]

  const SECURITY_NT_AUTHORITY_RID := 5
  const SECURITY_OTHER_AUTHORITY_RID := 6
  const SECURITY_MACHINE_DOMAIN_RID := 21
  const SECURITY_BUILTIN_DOMAIN := 32
  const SECURITY_NT_SERVICE_RID := 80
  const DOMAIN_GROUP_RID_USERS := 513
  const DOMAIN_NT_SERVICE_RID_INSTALLER := 0x876402C0
  const ROOT_UID := 500000018

  const SID_SYSTEM := Sid(ZERO_PREFIX, 5, [18])
  const SID_ADMINS := Sid(ZERO_PREFIX, 5, [32, 544])
  const SID_AUTHENTICATED := Sid(ZERO_PREFIX, 5, [11])
  const SID_TRUSTED_INSTALLER :=
    Sid(ZERO_PREFIX, 5, [80, 0x38FB89B5, 0xCBC28419, 0x6D236C5C, 0x6E770057, 0x876402C0])

  /** The machine SID that AclInit builds: S-1-5-21-x-y-z plus one slot for an account. */
  predicate IsMachine(sid: Sid) {
    sid.authority == 5 && 2 <= |sid.sub| <= 8 && sid.sub[0] == 21
  }

  /** EqualPrefixSid(): equal but for the last subauthority. */
  predicate EqualPrefix(a: Sid, b: Sid) {
    && a.prefix == b.prefix && a.authority == b.authority
    && |a.sub| == |b.sub|
    && (|a.sub| > 0 ==> a.sub[..|a.sub| - 1] == b.sub[..|b.sub| - 1])
  }

  function WithRid(sid: Sid, rid: int): Sid
    requires sid.sub != []
  {
    sid.(sub := sid.sub[|sid.sub| - 1 := rid])
  }

  /** `__SidNone`: the domain users of the machine. */
  function SidNone(machine: Sid): Sid
    requires IsMachine(machine)
  {
    WithRid(machine, DOMAIN_GROUP_RID_USERS)
  }

  function RidPosix(machine: Sid, sid: Sid): (rid: int)
    ensures IsInt32(rid)
  {
    var (auth, sub, rid) :=
      if sid.sub == [] then (5, 21, DOMAIN_GROUP_RID_USERS)
      else
        var first, last := sid.sub[0], sid.sub[|sid.sub| - 1];
        if first == SECURITY_MACHINE_DOMAIN_RID then
          (if EqualPrefix(sid, machine) then sid.authority else SECURITY_OTHER_AUTHORITY_RID, first, last)
        else if |sid.sub| == 1 then (sid.authority, 0, last)
        else if first == SECURITY_NT_SERVICE_RID then (0, 0, last)
        else (sid.authority, first, last);
    Signed(auth * 100000000 + sub * 1000000 + rid)
  }

  function RidWin(machine: Sid, rid: int): (sid: Sid)
    requires IsMachine(machine) && IsInt32(rid)
  {
    var auth := Div(rid, 100000000) % 256;
    var sub := Rem(Div(rid, 1000000), 100);
    var low := Unsigned(Rem(rid, 1000000));
    if Unsigned(rid) == DOMAIN_NT_SERVICE_RID_INSTALLER then SID_TRUSTED_INSTALLER
    else if rid < 0 || auth == 0 then SidNone(machine)
    else if sub == 0 then Sid(ZERO_PREFIX, auth, [Rem(rid, 100000000)])
    else if sub == SECURITY_MACHINE_DOMAIN_RID then WithRid(machine, low)
    else if sub == SECURITY_BUILTIN_DOMAIN then Sid(ZERO_PREFIX, 5, [32, low])
    else Sid(ZERO_PREFIX, auth, [sub, low])
  }

  /** The digits that a SID can carry: `a` for the authority, `s` for the first
      subauthority and `q` for the relative id. */
  predicate RepresentableDigits(a: int, s: int, q: int) {
    && a >= 1
    && (|| (s == 0 && q != 21)
        || ((s == 21 || s == 32) && a == 5)
        || (s != 0 && s != 21 && s != 32 && s != 80))
  }

  predicate Representable(rid: int) {
    || Unsigned(rid) == DOMAIN_NT_SERVICE_RID_INSTALLER
    || (rid > 0 && RepresentableDigits(rid / 100000000, rid / 1000000 % 100, rid % 1000000))
  }

  /** The digits put the number back together. */
  lemma Digits(rid: int)
    requires 0 <= rid && IsInt32(rid)
    ensures var a, s, q := rid / 100000000, rid / 1000000 % 100, rid % 1000000;
            && rid == a * 100000000 + s * 1000000 + q && rid % 100000000 == s * 1000000 + q
            && 0 <= a <= 21 && 0 <= s < 100 && 0 <= q < 1000000
            && Div(rid, 100000000) % 256 == a && Rem(Div(rid, 1000000), 100) == s
            && Unsigned(Rem(rid, 1000000)) == q
            && Rem(rid, 100000000) == s * 1000000 + q
  {
    var b := rid / 1000000;
    assert b / 100 == rid / 100000000;
  }

  /** The SID given to the digits a, s and q of an id. */
  function SidOfDigits(machine: Sid, a: int, s: int, q: int): Sid
    requires IsMachine(machine)
  {
    if a == 0 then SidNone(machine)
    else if s == 0 then Sid(ZERO_PREFIX, a, [q])
    else if s == 21 then WithRid(machine, q)
    else if s == 32 then Sid(ZERO_PREFIX, 5, [32, q])
    else Sid(ZERO_PREFIX, a, [s, q])
  }

  lemma RidWinDigits(machine: Sid, rid: int)
    requires IsMachine(machine) && 0 <= rid && IsInt32(rid)
    ensures RidWin(machine, rid) == SidOfDigits(machine, rid / 100000000, rid / 1000000 % 100, rid % 1000000)
  {
    Digits(rid);
    assert Unsigned(rid) == rid;
  }

  /** What is read back from the SID of the digits a, s and q. */
  function DigitsBack(a: int, s: int, q: int): int {
    if a == 0 then 521000513
    else if s == 0 then (if q == 21 then 621000021 else a * 100000000 + q)
    else if s == 80 then q
    else (if s == 21 || s == 32 then 5 else a) * 100000000 + s * 1000000 + q
  }

  lemma RidPosixOfDigits(machine: Sid, a: int, s: int, q: int)
    requires IsMachine(machine) && 0 <= a <= 21 && 0 <= s < 100 && 0 <= q < 1000000
    ensures RidPosix(machine, SidOfDigits(machine, a, s, q)) == Signed(DigitsBack(a, s, q))
  {
    if a == 0 {
      assert EqualPrefix(SidNone(machine), machine);
    } else if s == 21 {
      assert EqualPrefix(WithRid(machine, q), machine);
    }
  }

  lemma DigitsBackExact(a: int, s: int, q: int)
    requires 0 <= a <= 21 && 0 <= s < 100 && 0 <= q < 1000000
    requires a * 100000000 + s * 1000000 + q < 0x8000_0000
    ensures 0 <= DigitsBack(a, s, q) < 0x8000_0000
    ensures DigitsBack(a, s, q) == a * 100000000 + s * 1000000 + q <==> RepresentableDigits(a, s, q)
  {
  }

  lemma DigitsRoundTrip(machine: Sid, sid: Sid, a: int, s: int, q: int)
    requires IsMachine(machine) && 0 <= a <= 21 && 0 <= s < 100 && 0 <= q < 1000000
    requires a * 100000000 + s * 1000000 + q < 0x8000_0000
    requires sid == SidOfDigits(machine, a, s, q)
    ensures RidPosix(machine, sid) == a * 100000000 + s * 1000000 + q <==> RepresentableDigits(a, s, q)
  {
    RidPosixOfDigits(machine, a, s, q);
    DigitsBackExact(a, s, q);
  }

  lemma RidRoundTripPositive(machine: Sid, rid: int)
    requires IsMachine(machine) && IsInt32(rid) && 0 <= rid
    ensures RidPosix(machine, RidWin(machine, rid)) == rid <==>
            RepresentableDigits(rid / 100000000, rid / 1000000 % 100, rid % 1000000)
  {
    Digits(rid);
    RidWinDigits(machine, rid);
    DigitsRoundTrip(machine, RidWin(machine, rid), rid / 100000000, rid / 1000000 % 100, rid % 1000000);
  }

  lemma NoneReadsBack(machine: Sid)
    requires IsMachine(machine)
    ensures RidPosix(machine, SidNone(machine)) == 521000513
  {
    assert EqualPrefix(SidNone(machine), machine);
  }

  /** Every id below 10^8, and every negative one but TrustedInstaller's, is read back as
      the domain users of the machine. */
  lemma SmallIdsAreNone(machine: Sid, rid: int)
    requires IsMachine(machine) && IsInt32(rid) && rid < 100000000
    requires Unsigned(rid) != DOMAIN_NT_SERVICE_RID_INSTALLER
    ensures RidWin(machine, rid) == SidNone(machine) && RidPosix(machine, RidWin(machine, rid)) == 521000513
  {
    if rid >= 0 {
      RidWinDigits(machine, rid);
    }
    NoneReadsBack(machine);
  }

  /** `rid_posix` undoes `rid_win` for exactly the representable ids, among all 32-bit words. */
  lemma RidRoundTrip(machine: Sid, rid: int)
    requires IsMachine(machine) && IsInt32(rid)
    ensures RidPosix(machine, RidWin(machine, rid)) == rid <==> Representable(rid)
  {
    if rid >= 0 {
      RidRoundTripPositive(machine, rid);
    } else if Unsigned(rid) != DOMAIN_NT_SERVICE_RID_INSTALLER {
      SmallIdsAreNone(machine, rid);
    }
  }

  /** Distinct representable ids are given distinct SIDs. */
  lemma RidWinInjective(machine: Sid, r1: int, r2: int)
    requires IsMachine(machine) && IsInt32(r1) && IsInt32(r2)
    requires Representable(r1) && Representable(r2) && RidWin(machine, r1) == RidWin(machine, r2)
    ensures r1 == r2
  {
    RidRoundTrip(machine, r1);
    RidRoundTrip(machine, r2);
  }

  /** The id -1, "leave unchanged" for chown, is the SID that chown ignores. */
  lemma MinusOneIsNone(machine: Sid)
    requires IsMachine(machine)
    ensures RidWin(machine, -1) == SidNone(machine)
  {
  }

  // ---------- the SIDs that everyone knows ----------

  /** How the well-known accounts of Windows read: SYSTEM, Administrators, Everyone,
      Authenticated Users, TrustedInstaller, and a SID without sub-authorities. */
  lemma WellKnownIds(machine: Sid)
    requires IsMachine(machine)
    ensures RidPosix(machine, SID_SYSTEM) == 500000018
    ensures RidPosix(machine, SID_ADMINS) == 532000544
    ensures RidPosix(machine, Sid(ZERO_PREFIX, 1, [0])) == 100000000
    ensures RidPosix(machine, SID_AUTHENTICATED) == 500000011
    ensures RidPosix(machine, SID_TRUSTED_INSTALLER) == 0x876402C0 - 0x1_0000_0000
    ensures RidPosix(machine, Sid(ZERO_PREFIX, 0, [])) == 521000513
  {
  }

  /** And back: SYSTEM, Administrators, Everyone and TrustedInstaller. */
  lemma WellKnownSids(machine: Sid)
    requires IsMachine(machine)
    ensures RidWin(machine, 500000018) == SID_SYSTEM && RidWin(machine, 532000544) == SID_ADMINS
    ensures RidWin(machine, 100000000) == Sid(ZERO_PREFIX, 1, [0])
    ensures RidWin(machine, 0x876402C0 - 0x1_0000_0000) == SID_TRUSTED_INSTALLER
  {
    RidWinDigits(machine, 500000018);
    RidWinDigits(machine, 532000544);
    RidWinDigits(machine, 100000000);
  }

  /** An account of the machine reads as 521000000 and its relative id, and one of any other
      domain as 621000000 and its relative id. */
  lemma DomainAccounts(machine: Sid, sid: Sid)
    requires IsMachine(machine) && sid.sub != [] && sid.sub[0] == 21 && 0 <= sid.sub[|sid.sub| - 1] < 1000000
    ensures var own := |sid.sub| == |machine.sub| && sid.prefix == machine.prefix && sid.authority == machine.authority
                       && forall i :: 0 <= i < |sid.sub| - 1 ==> sid.sub[i] == machine.sub[i];
            RidPosix(machine, sid) == (if own then 521000000 else 621000000) + sid.sub[|sid.sub| - 1]
  {
    if EqualPrefix(sid, machine) {
      forall i | 0 <= i < |sid.sub| - 1 ensures sid.sub[i] == machine.sub[i] {
        assert sid.sub[..|sid.sub| - 1][i] == machine.sub[..|machine.sub| - 1][i];
      }
    }
  }
}
