/** Unix modes and the Windows access bits that stand for them (libposix/sys/stat.c, include/win_types.h).

    A mask word is the set of the numbers of its bits, bit 0 being the lowest: `|`, `&` and
    `& ~` are union, intersection and difference.  An addition of masks is their union only
    when no bit is common, which `Plus` requires.
 */
module Modes {
  type Bits = set<nat>

  const FILE_READ_DATA: Bits := {0}
  const FILE_WRITE_DATA: Bits := {1}
  const FILE_APPEND_DATA: Bits := {2}
  const FILE_READ_EA: Bits := {3}
  const FILE_WRITE_EA: Bits := {4}
  const FILE_EXECUTE: Bits := {5}
  const FILE_READ_ATTRIBUTES: Bits := {7}

  const WIN_S_IREAD: Bits := FILE_READ_DATA
  const WIN_S_IWRITE: Bits := FILE_WRITE_DATA + FILE_WRITE_EA + FILE_APPEND_DATA
  const WIN_S_IEXEC: Bits := FILE_EXECUTE
  const WIN_S_IRWX: Bits := WIN_S_IREAD + WIN_S_IWRITE + WIN_S_IEXEC

  const WIN_S_ISTXT: Bits := FILE_READ_DATA
  const WIN_S_ISGID: Bits := FILE_WRITE_DATA
  const WIN_S_ISUID: Bits := FILE_APPEND_DATA

  const S_IXOTH: nat := 0
  const S_IWOTH: nat := 1
  const S_IROTH: nat := 2
  const S_IXGRP: nat := 3
  const S_IWGRP: nat := 4
  const S_IRGRP: nat := 5
  const S_IXUSR: nat := 6
  const S_IWUSR: nat := 7
  const S_IRUSR: nat := 8
  const S_ISTXT: nat := 9
  const S_ISGID: nat := 10
  const S_ISUID: nat := 11
  const S_IRWXO: Bits := {S_IROTH, S_IWOTH, S_IXOTH}
  const S_IRWXG: Bits := {S_IRGRP, S_IWGRP, S_IXGRP}
  const S_IRWXU: Bits := {S_IRUSR, S_IWUSR, S_IXUSR}
  const S_ISALL: Bits := {S_ISUID, S_ISGID, S_ISTXT}
  const S_IFMT: Bits := {12, 13, 14, 15}
  const S_IFIFO: Bits := {12}
  const S_IFCHR: Bits := {13}
  const S_IFDIR: Bits := {14}
  const S_IFBLK: Bits := {13, 14}
  const S_IFREG: Bits := {15}
  const S_IFLNK: Bits := {13, 15}
  const S_IFSOCK: Bits := {14, 15}

  /** WIN_VTYPE; VMax stands for every number outside the table. */
  datatype VType = VNon | VReg | VDir | VBlk | VChr | VLnk | VSock | VFifo | VBad | VMax

  datatype WinMode = WinMode(fileType: VType, user: Bits, group: Bits, other: Bits, special: Bits)

  function FTypePosix(t: VType): (r: Bits)
    ensures r <= S_IFMT
  {
    match t
    case VReg => S_IFREG
    case VDir => S_IFDIR
    case VBlk => S_IFBLK
    case VChr => S_IFCHR
    case VLnk => S_IFLNK
    case VSock => S_IFSOCK
    case VFifo => S_IFIFO
    case _ => {}
  }

  function FTypeWin(mode: Bits): VType {
    var t := mode * S_IFMT;
    if t == S_IFREG then VReg
    else if t == S_IFDIR then VDir
    else if t == S_IFBLK then VBlk
    else if t == S_IFCHR then VChr
    else if t == S_IFLNK then VLnk
    else if t == S_IFSOCK then VSock
    else if t == S_IFIFO then VFifo
    else VNon
  }

  /** The sum of two masks without a common bit. */
  function Plus(a: Bits, b: Bits): Bits
    requires a !! b
  {
    a + b
  }

  predicate Has(mask: Bits, bits: Bits) {
    !(mask !! bits)
  }

  /** One line of the translations: a value is added if a bit is set. */
  function If(mask: Bits, bits: Bits, value: Bits): (r: Bits)
    ensures r <= value
  {
    if Has(mask, bits) then value else {}
  }

  /** Three mode bits from an access mask, and back. */
  function ToMode(mask: Bits, r: nat, w: nat, x: nat): (m: Bits)
    requires x < w < r
    ensures m <= {r, w, x}
  {
    Plus(Plus(If(mask, WIN_S_IREAD, {r}), If(mask, WIN_S_IWRITE, {w})), If(mask, WIN_S_IEXEC, {x}))
  }

  function ToMask(mode: Bits, r: nat, w: nat, x: nat): (m: Bits)
    ensures m <= WIN_S_IRWX
  {
    Plus(Plus(If(mode, {r}, WIN_S_IREAD), If(mode, {w}, WIN_S_IWRITE)), If(mode, {x}, WIN_S_IEXEC))
  }

  function UserMode(mask: Bits): (m: Bits)
    ensures m <= S_IRWXU
  {
    ToMode(mask, S_IRUSR, S_IWUSR, S_IXUSR)
  }

  function GroupMode(mask: Bits): (m: Bits)
    ensures m <= S_IRWXG
  {
    ToMode(mask, S_IRGRP, S_IWGRP, S_IXGRP)
  }

  function OtherMode(mask: Bits): (m: Bits)
    ensures m <= S_IRWXO
  {
    ToMode(mask, S_IROTH, S_IWOTH, S_IXOTH)
  }

  function SpecialMode(mask: Bits): (m: Bits)
    ensures m <= S_ISALL
  {
    Plus(Plus(If(mask, WIN_S_ISUID, {S_ISUID}), If(mask, WIN_S_ISGID, {S_ISGID})), If(mask, WIN_S_ISTXT, {S_ISTXT}))
  }

  /** The parts of a mode summed up, each in its own range of bits. */
  function Sum(t: Bits, u: Bits, g: Bits, o: Bits, s: Bits): (m: Bits)
    requires t <= S_IFMT && u <= S_IRWXU && g <= S_IRWXG && o <= S_IRWXO && s <= S_ISALL
  {
    Plus(Plus(Plus(Plus(t, u), g), o), s)
  }

  /** mode_posix() */
  function ModePosix(m: WinMode): Bits {
    Sum(FTypePosix(m.fileType), UserMode(m.user), GroupMode(m.group), OtherMode(m.other), SpecialMode(m.special))
  }

  /** mode_win() */
  function ModeWin(mode: Bits): WinMode {
    WinMode(FTypeWin(mode),
            ToMask(mode, S_IRUSR, S_IWUSR, S_IXUSR),
            ToMask(mode, S_IRGRP, S_IWGRP, S_IXGRP),
            ToMask(mode, S_IROTH, S_IWOTH, S_IXOTH),
            Plus(Plus(If(mode, {S_ISUID}, WIN_S_ISUID), If(mode, {S_ISGID}, WIN_S_ISGID)), If(mode, {S_ISTXT}, WIN_S_ISTXT)))
  }

  lemma SumParts(t: Bits, u: Bits, g: Bits, o: Bits, s: Bits)
    requires t <= S_IFMT && u <= S_IRWXU && g <= S_IRWXG && o <= S_IRWXO && s <= S_ISALL
    ensures var m := Sum(t, u, g, o, s);
            m * S_IFMT == t && m * S_IRWXU == u && m * S_IRWXG == g && m * S_IRWXO == o && m * S_ISALL == s
  {
  }

  /** Each part can be read off the whole mode. */
  lemma ModeParts(m: WinMode)
    ensures ModePosix(m) * S_IRWXU == UserMode(m.user)
    ensures ModePosix(m) * S_IRWXG == GroupMode(m.group)
    ensures ModePosix(m) * S_IRWXO == OtherMode(m.other)
    ensures ModePosix(m) * S_ISALL == SpecialMode(m.special)
    ensures ModePosix(m) * S_IFMT == FTypePosix(m.fileType)
  {
    SumParts(FTypePosix(m.fileType), UserMode(m.user), GroupMode(m.group), OtherMode(m.other), SpecialMode(m.special));
  }

  /** Three bits survive the way to an access mask and back, whatever else is in the mask. */
  lemma Round(mask: Bits, mode: Bits, r: nat, w: nat, x: nat)
    requires x < w < r && mask * WIN_S_IRWX == ToMask(mode, r, w, x)
    ensures ToMode(mask, r, w, x) == mode * {r, w, x}
  {
    var m := ToMask(mode, r, w, x);
    assert Has(mask, WIN_S_IREAD) <==> 0 in m;
    assert Has(mask, WIN_S_IWRITE) <==> 1 in m || 2 in m || 4 in m;
    assert Has(mask, WIN_S_IEXEC) <==> 5 in m;
    assert (0 in m <==> r in mode) && (1 in m <==> w in mode) && (5 in m <==> x in mode);
  }

  lemma SpecialRound(mode: Bits)
    ensures SpecialMode(ModeWin(mode).special) == mode * S_ISALL
  {
    var m := ModeWin(mode).special;
    assert (2 in m <==> 11 in mode) && (1 in m <==> 10 in mode) && (0 in m <==> 9 in mode);
  }

  /** The mode bits that have a Windows counterpart: the twelve permission bits, and a
      file type that is one of the seven. */
  function Known(mode: Bits): Bits {
    Sum(FTypePosix(FTypeWin(mode)), mode * S_IRWXU, mode * S_IRWXG, mode * S_IRWXO, mode * S_ISALL)
  }

  lemma UserRound(mask: Bits, mode: Bits)
    requires mask * WIN_S_IRWX == ModeWin(mode).user
    ensures UserMode(mask) == mode * S_IRWXU
  {
    Round(mask, mode, S_IRUSR, S_IWUSR, S_IXUSR);
  }

  lemma GroupRound(mask: Bits, mode: Bits)
    requires mask * WIN_S_IRWX == ModeWin(mode).group
    ensures GroupMode(mask) == mode * S_IRWXG
  {
    Round(mask, mode, S_IRGRP, S_IWGRP, S_IXGRP);
  }

  lemma OtherRound(mask: Bits, mode: Bits)
    requires mask * WIN_S_IRWX == ModeWin(mode).other
    ensures OtherMode(mask) == mode * S_IRWXO
  {
    Round(mask, mode, S_IROTH, S_IWOTH, S_IXOTH);
  }

  /** Translating a mode there and back keeps every bit that has a counterpart, and adds none. */
  lemma ModeRoundTrip(mode: Bits)
    ensures ModePosix(ModeWin(mode)) == Known(mode)
  {
    var w := ModeWin(mode);
    UserRound(w.user, mode);
    GroupRound(w.group, mode);
    OtherRound(w.other, mode);
    SpecialRound(mode);
  }

  /** The access mask with its rwx bits replaced, as chmod and create compute it. */
  function SetRwx(mask: Bits, rwx: Bits): Bits
    requires rwx <= WIN_S_IRWX
  {
    Plus(mask - WIN_S_IRWX, rwx)
  }

  /** The rwx bits of `mode` show through any masks that agree with its translation on rwx. */
  lemma UserShows(m: WinMode, mode: Bits)
    requires m.user * WIN_S_IRWX == ModeWin(mode).user
    ensures ModePosix(m) * S_IRWXU == mode * S_IRWXU
  {
    ModeParts(m);
    UserRound(m.user, mode);
  }

  lemma GroupShows(m: WinMode, mode: Bits)
    requires m.group * WIN_S_IRWX == ModeWin(mode).group
    ensures ModePosix(m) * S_IRWXG == mode * S_IRWXG
  {
    ModeParts(m);
    GroupRound(m.group, mode);
  }

  lemma OtherShows(m: WinMode, mode: Bits)
    requires m.other * WIN_S_IRWX == ModeWin(mode).other
    ensures ModePosix(m) * S_IRWXO == mode * S_IRWXO
  {
    ModeParts(m);
    OtherRound(m.other, mode);
  }

  // ---------- bit by bit ----------

  lemma MaskBits(mode: Bits, r: nat, w: nat, x: nat, i: nat)
    ensures i in ToMask(mode, r, w, x) <==> (i == 0 && r in mode) || (i in {1, 2, 4} && w in mode) || (i == 5 && x in mode)
  {
  }

  /** Which access bits each mode bit becomes: read is bit 0, write are 1, 2 and 4, and execute
      is 5, in the mask of the class. */
  lemma ModeWinBits(mode: Bits, i: nat)
    ensures var m := ModeWin(mode);
            && (i in m.user <==> (i == 0 && 8 in mode) || (i in {1, 2, 4} && 7 in mode) || (i == 5 && 6 in mode))
            && (i in m.group <==> (i == 0 && 5 in mode) || (i in {1, 2, 4} && 4 in mode) || (i == 5 && 3 in mode))
            && (i in m.other <==> (i == 0 && 2 in mode) || (i in {1, 2, 4} && 1 in mode) || (i == 5 && 0 in mode))
            && (i in m.special <==> (i == 2 && 11 in mode) || (i == 1 && 10 in mode) || (i == 0 && 9 in mode))
  {
    MaskBits(mode, 8, 7, 6, i);
    MaskBits(mode, 5, 4, 3, i);
    MaskBits(mode, 2, 1, 0, i);
  }

  /** Which mode bits an access mask shows: any of the three write bits shows as write. */
  lemma ModeBits(mask: Bits, r: nat, w: nat, x: nat, i: nat)
    requires x < w < r
    ensures i in ToMode(mask, r, w, x) <==>
            (i == r && 0 in mask) || (i == w && (1 in mask || 2 in mask || 4 in mask)) || (i == x && 5 in mask)
  {
  }

  lemma SpecialBits(mask: Bits, i: nat)
    ensures i in SpecialMode(mask) <==> (i == 11 && 2 in mask) || (i == 10 && 1 in mask) || (i == 9 && 0 in mask)
  {
  }

  lemma InSum(t: Bits, u: Bits, g: Bits, o: Bits, s: Bits, i: nat)
    requires t <= S_IFMT && u <= S_IRWXU && g <= S_IRWXG && o <= S_IRWXO && s <= S_ISALL
    ensures i in Sum(t, u, g, o, s) <==> i in t || i in u || i in g || i in o || i in s
  {
  }

  lemma InModePosix(m: WinMode, i: nat)
    requires i < 12
    ensures i in ModePosix(m) <==>
            i in UserMode(m.user) || i in GroupMode(m.group) || i in OtherMode(m.other) || i in SpecialMode(m.special)
  {
    assert i !in S_IFMT;
    InSum(FTypePosix(m.fileType), UserMode(m.user), GroupMode(m.group), OtherMode(m.other), SpecialMode(m.special), i);
  }

  /** Each of the twelve permission bits of a mode, from the access bits of its class. */
  lemma ModePosixBits(m: WinMode, i: nat)
    requires i < 12
    ensures i in ModePosix(m) <==>
            || (i == 8 && 0 in m.user) || (i == 7 && (1 in m.user || 2 in m.user || 4 in m.user)) || (i == 6 && 5 in m.user)
            || (i == 5 && 0 in m.group) || (i == 4 && (1 in m.group || 2 in m.group || 4 in m.group)) || (i == 3 && 5 in m.group)
            || (i == 2 && 0 in m.other) || (i == 1 && (1 in m.other || 2 in m.other || 4 in m.other)) || (i == 0 && 5 in m.other)
            || (i == 11 && 2 in m.special) || (i == 10 && 1 in m.special) || (i == 9 && 0 in m.special)
  {
    InModePosix(m, i);
    ModeBits(m.user, 8, 7, 6, i);
    ModeBits(m.group, 5, 4, 3, i);
    ModeBits(m.other, 2, 1, 0, i);
    SpecialBits(m.special, i);
  }

  /** The names of the file types. */
  lemma FileTypeNames(mode: Bits)
    ensures var t := mode * S_IFMT;
            FTypeWin(mode) == if t == {12} then VFifo else if t == {13} then VChr else if t == {14} then VDir
                              else if t == {13, 14} then VBlk else if t == {15} then VReg
                              else if t == {13, 15} then VLnk else if t == {14, 15} then VSock else VNon
  {
    assert 12 in {12} && 12 !in {13} && 12 !in {14} && 12 !in {13, 14} && 12 !in {15} && 12 !in {13, 15} && 12 !in {14, 15};
    assert 13 in {13} && 13 !in {14} && 14 in {13, 14} && 14 !in {13} && 15 in {13, 15} && 15 !in {13, 14} && 13 !in {14, 15};
    assert 14 !in {15} && 14 in {14, 15} && 13 !in {15} && 14 !in {13, 15};
  }

  lemma FileTypeBack(mode: Bits, t: Bits)
    requires t == mode * S_IFMT
    ensures FTypePosix(FTypeWin(mode)) == if FTypeWin(mode) == VNon then {} else t
  {
    if t == S_IFREG {
    } else if t == S_IFDIR {
    } else if t == S_IFBLK {
    } else if t == S_IFCHR {
    } else if t == S_IFLNK {
    } else if t == S_IFSOCK {
    } else if t == S_IFIFO {
    }
  }

  /** The type bits survive the way to a Windows mode and back if they name a type, and are
      lost otherwise. */
  lemma FileTypeRound(mode: Bits)
    ensures ModePosix(ModeWin(mode)) * S_IFMT == if FTypeWin(mode) == VNon then {} else mode * S_IFMT
  {
    ModeParts(ModeWin(mode));
    FileTypeBack(mode, mode * S_IFMT);
  }

  /** Twelve permission bits survive, whatever the type. */
  lemma PermissionsRound(mode: Bits, i: nat)
    requires i < 12
    ensures i in ModePosix(ModeWin(mode)) <==> i in mode
  {
    ModePosixBits(ModeWin(mode), i);
    ModeWinBits(mode, 0);
    ModeWinBits(mode, 1);
    ModeWinBits(mode, 2);
    ModeWinBits(mode, 4);
    ModeWinBits(mode, 5);
  }
}
